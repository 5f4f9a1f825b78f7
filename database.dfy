/** The database handle and its cursors. A database holds the ordered content and knows
    the cursors opened on it; every change to the content also moves those cursors, so
    that each of them is nil or stands on an existing record. */
module Database {
  import opened Codes
  import opened KeyCompare
  import opened Entries
  import opened Positions
  import opened Find
  import opened Flags
  import opened Store

  class Db {
    /** HAM_ENABLE_DUPLICATES was given when the database was created. */
    const dupsEnabled: bool
    /** The database lives in an HAM_IN_MEMORY environment. */
    const inMemory: bool
    var entries: seq<Entry>
    var cursors: set<Cursor>

    ghost predicate Valid()
      reads this, cursors
    {
      WellFormed(entries) &&
      (!dupsEnabled ==> NoDuplicates(entries)) &&
      forall c :: c in cursors ==> c.db == this && PosOk(entries, c.pos)
    }

    /** ham_env_create_db: an empty database with no cursors. */
    constructor (dupsEnabled: bool, inMemory: bool)
      ensures Valid()
      ensures this.dupsEnabled == dupsEnabled && this.inMemory == inMemory
      ensures entries == [] && cursors == {}
    {
      this.dupsEnabled := dupsEnabled;
      this.inMemory := inMemory;
      entries := [];
      cursors := {};
    }

    /** ham_db_find: a find that passes the access checks is FindIn on the content. */
    method Find(q: Key, f: FindFlags, hint: bool, directAccess: bool) returns (r: FindReply)
      requires Valid()
      ensures CheckAccess(hint, directAccess, inMemory) != Ok ==> r == FindReply(InvParameter, q, None, 0)
      ensures CheckAccess(hint, directAccess, inMemory) == Ok ==> r == FindIn(entries, q, f)
    {
      var st := CheckAccess(hint, directAccess, inMemory);
      if st != Ok {
        return FindReply(st, q, None, 0);
      }
      r := FindIn(entries, q, f);
    }

    /** ham_db_insert: checked with CheckInsert (no hints, no positions), then InsertInto.
        No cursor moves. */
    method Insert(k: Key, rec: Record, f: InsertFlags, keyFlagsKnown: bool, recordFlagsKnown: bool)
      returns (st: Status)
      requires Valid()
      modifies this
      ensures Valid() && cursors == old(cursors)
      ensures CheckInsert(f, dupsEnabled, false, keyFlagsKnown, recordFlagsKnown) != Ok ==>
        st == InvParameter && entries == old(entries)
      ensures CheckInsert(f, dupsEnabled, false, keyFlagsKnown, recordFlagsKnown) == Ok ==>
        st == InsertInto(old(entries), k, rec, f, None).status &&
        entries == InsertInto(old(entries), k, rec, f, None).entries
    {
      st := CheckInsert(f, dupsEnabled, false, keyFlagsKnown, recordFlagsKnown);
      if st != Ok {
        return;
      }
      var out := InsertInto(entries, k, rec, f, None);
      forall c | c in cursors ensures PosOk(out.entries, c.pos) {
        InsertKeepsCursors(entries, k, rec, f, None, c.pos);
        AppendKeepsCursors(entries, k, rec, f, c.pos);
      }
      if !dupsEnabled {
        InsertKeepsNoDuplicates(entries, k, rec, f, None);
      }
      entries := out.entries;
      st := out.status;
    }

    /** ham_db_erase: the key and all its duplicates go, and every cursor on them
        becomes nil; an absent key is KEY_NOT_FOUND. */
    method Erase(k: Key, hint: bool) returns (st: Status)
      requires Valid()
      modifies this, cursors
      ensures Valid() && cursors == old(cursors)
      ensures hint || !Present(old(entries), k) ==>
        st == (if hint then InvParameter else KeyNotFound) &&
        entries == old(entries) && forall c :: c in cursors ==> c.pos == old(c.pos)
      ensures !hint && Present(old(entries), k) ==>
        st == Ok && entries == EraseKey(old(entries), k) &&
        forall c :: c in cursors ==> c.pos == AfterKeyErase(old(c.pos), k)
    {
      if hint {
        return InvParameter;
      }
      if !Present(entries, k) {
        return KeyNotFound;
      }
      var es := entries;
      forall c | c in cursors ensures PosOk(EraseKey(es, k), AfterKeyErase(c.pos, k)) {
        EraseKeyKeepsCursors(es, k, c.pos);
      }
      forall c | c in cursors {
        c.pos := AfterKeyErase(c.pos, k);
      }
      if !dupsEnabled {
        EraseKeepsNoDuplicates(es, k);
      }
      entries := EraseKey(es, k);
      st := Ok;
    }

    /** ham_db_get_key_count. */
    method GetKeyCount(mode: CountMode) returns (n: nat)
      requires Valid()
      ensures n == KeyCount(entries, mode)
      ensures !dupsEnabled ==> n == |entries|
    {
      n := KeyCount(entries, mode);
      if !dupsEnabled {
        CountModesAgree(entries, mode, SkipDuplicates);
      }
    }
  }

  class Cursor {
    const db: Db
    /** nil, or the record the cursor stands on. */
    var pos: Option<Pos>

    /** ham_cursor_create: a nil cursor, registered with its database. */
    constructor (db: Db)
      requires db.Valid()
      modifies db
      ensures this.db == db && pos.None?
      ensures db.Valid() && db.cursors == old(db.cursors) + {this} && db.entries == old(db.entries)
    {
      this.db := db;
      pos := None;
      new;
      db.cursors := db.cursors + {this};
    }

    /** ham_cursor_clone: a new cursor on the same record. */
    method Clone() returns (c: Cursor)
      requires db.Valid() && this in db.cursors
      modifies db
      ensures fresh(c) && c.db == db && c.pos == pos
      ensures db.Valid() && db.cursors == old(db.cursors) + {c} && db.entries == old(db.entries)
    {
      c := new Cursor(db);
      c.pos := pos;
    }

    /** ham_cursor_close: the cursor is no longer known to its database. */
    method Close()
      requires db.Valid() && this in db.cursors
      modifies db
      ensures db.Valid() && db.cursors == old(db.cursors) - {this} && db.entries == old(db.entries)
    {
      db.cursors := db.cursors - {this};
    }

    /** ham_cursor_move: MoveFrom from where the cursor stands; the key and record read
        are those of the record it reaches. */
    method Move(dir: Direction, hint: bool, directAccess: bool)
      returns (st: Status, key: Option<Key>, record: Option<Record>)
      requires db.Valid() && this in db.cursors
      modifies this
      ensures db.Valid()
      ensures CheckAccess(hint, directAccess, db.inMemory) != Ok ==>
        st == InvParameter && pos == old(pos) && key.None? && record.None?
      ensures CheckAccess(hint, directAccess, db.inMemory) == Ok ==>
        st == MoveFrom(db.entries, old(pos), dir).status && pos == MoveFrom(db.entries, old(pos), dir).pos
      ensures CheckAccess(hint, directAccess, db.inMemory) == Ok ==>
        if pos.Some? then key == Some(pos.value.key) && record == Some(RecordAt(db.entries, pos.value))
        else key.None? && record.None?
    {
      st := CheckAccess(hint, directAccess, db.inMemory);
      if st != Ok {
        return st, None, None;
      }
      var m := MoveFrom(db.entries, pos, dir);
      st := m.status;
      pos := m.pos;
      if pos.Some? {
        key := Some(pos.value.key);
        record := Some(RecordAt(db.entries, pos.value));
      } else {
        key := None;
        record := None;
      }
    }

    /** ham_cursor_find: FindIn on the content; on success the cursor stands on the first
        record of the key found, on failure it is nil. */
    method Find(q: Key, f: FindFlags, hint: bool, directAccess: bool) returns (r: FindReply)
      requires db.Valid() && this in db.cursors
      modifies this
      ensures db.Valid()
      ensures CheckAccess(hint, directAccess, db.inMemory) != Ok ==>
        r == FindReply(InvParameter, q, None, 0) && pos == old(pos)
      ensures CheckAccess(hint, directAccess, db.inMemory) == Ok ==>
        r == FindIn(db.entries, q, f) && pos == (if r.status == Ok then Some(Pos(r.key, 0)) else None)
    {
      var st := CheckAccess(hint, directAccess, db.inMemory);
      if st != Ok {
        return FindReply(st, q, None, 0);
      }
      r := FindIn(db.entries, q, f);
      pos := if r.status == Ok then Some(Pos(r.key, 0)) else None;
    }

    /** ham_cursor_insert: checked with CheckInsert (hints and positions allowed), then
        InsertInto relative to this cursor, which is left on the new record; the other
        cursors are repositioned. */
    method Insert(k: Key, rec: Record, f: InsertFlags, keyFlagsKnown: bool, recordFlagsKnown: bool)
      returns (st: Status)
      requires db.Valid() && this in db.cursors
      modifies db, db.cursors
      ensures db.Valid() && db.cursors == old(db.cursors)
      ensures CheckInsert(f, db.dupsEnabled, true, keyFlagsKnown, recordFlagsKnown) != Ok ||
              InsertInto(old(db.entries), k, rec, f, old(pos)).status != Ok ==>
        st != Ok && db.entries == old(db.entries) && forall c :: c in db.cursors ==> c.pos == old(c.pos)
      ensures CheckInsert(f, db.dupsEnabled, true, keyFlagsKnown, recordFlagsKnown) != Ok ==> st == InvParameter
      ensures CheckInsert(f, db.dupsEnabled, true, keyFlagsKnown, recordFlagsKnown) == Ok ==>
        var r := InsertInto(old(db.entries), k, rec, f, old(pos));
        st == r.status &&
        (r.status == Ok ==> (db.entries == r.entries && pos == r.at &&
          forall c :: c in db.cursors && c != this ==> c.pos == Reposition(old(c.pos), k, r.slot)))
    {
      st := CheckInsert(f, db.dupsEnabled, true, keyFlagsKnown, recordFlagsKnown);
      if st != Ok {
        return;
      }
      var es := db.entries;
      var r := InsertInto(es, k, rec, f, pos);
      if r.status != Ok {
        return r.status;
      }
      forall c | c in db.cursors ensures PosOk(r.entries, Reposition(c.pos, k, r.slot)) {
        InsertKeepsCursors(es, k, rec, f, pos, c.pos);
      }
      forall c | c in db.cursors {
        c.pos := if c == this then r.at else Reposition(c.pos, k, r.slot);
      }
      if !db.dupsEnabled {
        InsertKeepsNoDuplicates(es, k, rec, f, old(pos));
      }
      db.entries := r.entries;
    }

    /** ham_cursor_overwrite: the record under the cursor is replaced. */
    method Overwrite(rec: Record) returns (st: Status)
      requires db.Valid() && this in db.cursors
      modifies db
      ensures db.Valid() && db.cursors == old(db.cursors)
      ensures old(pos).None? ==> st == CursorIsNil && db.entries == old(db.entries)
      ensures old(pos).Some? ==> st == Ok && db.entries == OverwriteAt(old(db.entries), old(pos).value, rec)
    {
      if pos.None? {
        return CursorIsNil;
      }
      var es := db.entries;
      var p := pos.value;
      forall c | c in db.cursors ensures PosOk(OverwriteAt(es, p, rec), c.pos) {
        OverwriteKeepsCursors(es, p, rec, c.pos);
      }
      if !db.dupsEnabled {
        OverwriteKeepsNoDuplicates(es, p, rec);
      }
      db.entries := OverwriteAt(es, p, rec);
      st := Ok;
    }

    /** ham_cursor_erase: the record under the cursor goes; this cursor and any other on
        that record become nil, cursors on later duplicates of the key shift back. */
    method Erase(hint: bool) returns (st: Status)
      requires db.Valid() && this in db.cursors
      modifies db, db.cursors
      ensures db.Valid() && db.cursors == old(db.cursors)
      ensures hint || old(pos).None? ==>
        st == (if hint then InvParameter else CursorIsNil) &&
        db.entries == old(db.entries) && forall c :: c in db.cursors ==> c.pos == old(c.pos)
      ensures !hint && old(pos).Some? ==>
        st == Ok && db.entries == EraseAt(old(db.entries), old(pos).value) && pos.None? &&
        forall c :: c in db.cursors ==> c.pos == AfterDupErase(old(c.pos), old(pos).value.key, old(pos).value.dup)
    {
      if hint {
        return InvParameter;
      }
      if pos.None? {
        return CursorIsNil;
      }
      var es := db.entries;
      var p := pos.value;
      forall c | c in db.cursors ensures PosOk(EraseAt(es, p), AfterDupErase(c.pos, p.key, p.dup)) {
        EraseKeepsCursors(es, p, c.pos);
      }
      forall c | c in db.cursors {
        c.pos := AfterDupErase(c.pos, p.key, p.dup);
      }
      if !db.dupsEnabled {
        EraseAtKeepsNoDuplicates(es, p);
      }
      db.entries := EraseAt(es, p);
      st := Ok;
    }
  }
}
