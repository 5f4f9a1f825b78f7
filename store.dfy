/** The state changes of the store as functions of the content: inserting (a new key, an
    overwrite, or a duplicate at a chosen place), overwriting and erasing the record under
    a cursor, moving a cursor, and where the other cursors end up after each change. The
    database and cursor objects apply these. */
module Store {
  import opened Codes
  import opened KeyCompare
  import opened Entries
  import opened Positions
  import opened Find
  import opened Flags

  // ---------------------------------------------------------------------------------
  // Insert.

  /** The slot a new duplicate of `k` takes in its list `recs`. FIRST puts it in front,
      LAST (and no position) behind the last one; BEFORE and AFTER are relative to the
      duplicate the inserting cursor stands on, and act as FIRST and LAST when that cursor
      is not on `k`. */
  function DupSlot(recs: seq<Record>, k: Key, position: DupPosition, cursor: Option<Pos>): (at: nat)
    ensures at <= |recs|
    ensures position == First ==> at == 0
    ensures position == Last || position == NoPosition ==> at == |recs|
    ensures var on := cursor.Some? && cursor.value.key == k && cursor.value.dup < |recs|;
      (position == Before ==> at == if on then cursor.value.dup else 0) &&
      (position == After ==> at == if on then cursor.value.dup + 1 else |recs|)
  {
    var on := cursor.Some? && cursor.value.key == k && cursor.value.dup < |recs|;
    match position
    case First => 0
    case Before => if on then cursor.value.dup else 0
    case After => if on then cursor.value.dup + 1 else |recs|
    case _ => |recs|
  }

  /** The result of an insert: its status, the new content, the record the inserting
      cursor is left on, and the duplicate slot that was opened (when one was). */
  datatype Inserted = Inserted(status: Status, entries: seq<Entry>, at: Option<Pos>, slot: Option<nat>)

  /** Insert `rec` under `k` with flags that passed CheckInsert. An absent key is added
      with `rec` as its only record; OVERWRITE replaces the first record of a present key;
      a duplicate request adds `rec` at DupSlot; a present key without either is refused
      with DuplicateKey and nothing changes. */
  function InsertInto(es: seq<Entry>, k: Key, rec: Record, f: InsertFlags, cursor: Option<Pos>): (r: Inserted)
    requires WellFormed(es) && !(f.overwrite && WantsDuplicate(f))
    ensures r.status == Ok || r.status == DuplicateKey
    ensures r.status == DuplicateKey <==> Present(es, k) && !f.overwrite && !WantsDuplicate(f)
    ensures r.status == DuplicateKey ==> r.entries == es && r.at.None? && r.slot.None?
    ensures WellFormed(r.entries)
    ensures r.status == Ok ==> (r.at.Some? && r.at.value.key == k &&
      ValidPos(r.entries, r.at.value) && RecordAt(r.entries, r.at.value) == rec)
    ensures forall k' :: k' != k ==> Lookup(r.entries, k') == Lookup(es, k')
    ensures !Present(es, k) ==> Lookup(r.entries, k) == Some([rec]) && r.slot.None?
    ensures Present(es, k) && f.overwrite ==>
      Lookup(r.entries, k) == Some(Lookup(es, k).value[0 := rec]) && r.slot.None?
    ensures Present(es, k) && WantsDuplicate(f) ==> (r.slot.Some? &&
      r.slot.value <= |Lookup(es, k).value| &&
      Lookup(r.entries, k) == Some(InsertAt(Lookup(es, k).value, r.slot.value, rec)))
    ensures Present(es, k) && WantsDuplicate(f) ==>
      r.slot == Some(DupSlot(Lookup(es, k).value, k, f.position, cursor))
    ensures |r.entries| == if Present(es, k) then |es| else |es| + 1
    ensures RecordCount(r.entries) ==
      if r.status == DuplicateKey || (Present(es, k) && f.overwrite) then RecordCount(es)
      else RecordCount(es) + 1
  {
    if !Present(es, k) then
      RecordCountInsertNew(es, k, rec);
      Inserted(Ok, InsertNew(es, k, rec), Some(Pos(k, 0)), None)
    else
      var recs := Lookup(es, k).value;
      if f.overwrite then
        var r := SetRecords(es, k, recs[0 := rec]);
        RecordCountSetRecords(es, k, recs[0 := rec]);
        Inserted(Ok, r, Some(Pos(k, 0)), None)
      else if WantsDuplicate(f) then
        var at := DupSlot(recs, k, f.position, cursor);
        var r := SetRecords(es, k, InsertAt(recs, at, rec));
        RecordCountSetRecords(es, k, InsertAt(recs, at, rec));
        Inserted(Ok, r, Some(Pos(k, at)), Some(at))
      else
        Inserted(DuplicateKey, es, None, None)
  }

  /** Where a cursor that did not make the insert ends up. */
  function Reposition(c: Option<Pos>, k: Key, slot: Option<nat>): Option<Pos>
  {
    if slot.Some? then AfterDupInsert(c, k, slot.value) else c
  }

  /** After an insert every other cursor still stands on a record, and on the record it
      stood on before, except that a cursor on the overwritten record reads the new one. */
  lemma InsertKeepsCursors(es: seq<Entry>, k: Key, rec: Record, f: InsertFlags, cursor: Option<Pos>,
                           c: Option<Pos>)
    requires WellFormed(es) && !(f.overwrite && WantsDuplicate(f)) && PosOk(es, c)
    ensures PosOk(InsertInto(es, k, rec, f, cursor).entries,
                  Reposition(c, k, InsertInto(es, k, rec, f, cursor).slot))
    ensures c.Some? ==> Reposition(c, k, InsertInto(es, k, rec, f, cursor).slot).Some?
    ensures c.Some? ==>
      var r := InsertInto(es, k, rec, f, cursor);
      RecordAt(r.entries, Reposition(c, k, r.slot).value) ==
        if r.status == Ok && f.overwrite && c.value == Pos(k, 0) then rec else RecordAt(es, c.value)
  {
    var r := InsertInto(es, k, rec, f, cursor);
    if !Present(es, k) {
      CursorAfterInsertNew(es, k, rec, c);
    } else {
      var recs := Lookup(es, k).value;
      if f.overwrite {
        CursorAfterSetRecords(es, k, recs[0 := rec], c);
      } else if WantsDuplicate(f) {
        CursorAfterDupInsert(es, k, DupSlot(recs, k, f.position, cursor), rec, c);
      }
    }
  }

  /** A database insert takes no position, so no other cursor moves. */
  lemma AppendKeepsCursors(es: seq<Entry>, k: Key, rec: Record, f: InsertFlags, c: Option<Pos>)
    requires WellFormed(es) && !(f.overwrite && WantsDuplicate(f)) && PosOk(es, c)
    requires f.position == NoPosition
    ensures Reposition(c, k, InsertInto(es, k, rec, f, None).slot) == c
  {
    var r := InsertInto(es, k, rec, f, None);
    if r.slot.Some? && c.Some? && c.value.key == k {
      assert r.slot.value == |Lookup(es, k).value|;
    }
  }

  /** An exact find right after a successful insert of a new key, or an overwrite, returns
      the inserted record; after a duplicate insert it returns the first duplicate, which
      is the inserted record only when it went in front. */
  lemma InsertThenFind(es: seq<Entry>, k: Key, rec: Record, f: InsertFlags, cursor: Option<Pos>)
    requires WellFormed(es) && !(f.overwrite && WantsDuplicate(f))
    ensures var r := InsertInto(es, k, rec, f, cursor);
      r.status == Ok ==> (FindIn(r.entries, k, FindExact) ==
        FindReply(Ok, k, Some(if r.slot.Some? && r.slot.value > 0 then Lookup(es, k).value[0] else rec), 0))
  {
    var r := InsertInto(es, k, rec, f, cursor);
    if r.status == Ok {
      ExactFindsStored(r.entries, k);
    }
  }

  /** An exact find of a stored key returns its first record with sign 0; of an absent
      key, KEY_NOT_FOUND. */
  lemma ExactFindsStored(es: seq<Entry>, k: Key)
    requires WellFormed(es)
    ensures Present(es, k) ==> FindIn(es, k, FindExact) == FindReply(Ok, k, Some(Lookup(es, k).value[0]), 0)
    ensures !Present(es, k) ==> FindIn(es, k, FindExact) == FindReply(KeyNotFound, k, None, 0)
  {
    ExactMatchMeaning(es, k, FindExact);
  }

  // ---------------------------------------------------------------------------------
  // Overwrite and erase through a cursor.

  /** ham_cursor_overwrite: the record under the cursor is replaced; nothing else changes. */
  function OverwriteAt(es: seq<Entry>, p: Pos, rec: Record): (r: seq<Entry>)
    requires WellFormed(es) && ValidPos(es, p)
    ensures WellFormed(r) && |r| == |es| && RecordCount(r) == RecordCount(es)
    ensures Lookup(r, p.key) == Some(Lookup(es, p.key).value[p.dup := rec])
    ensures forall k' :: k' != p.key ==> Lookup(r, k') == Lookup(es, k')
    ensures ValidPos(r, p) && RecordAt(r, p) == rec
  {
    var recs := Lookup(es, p.key).value;
    RecordCountSetRecords(es, p.key, recs[p.dup := rec]);
    SetRecords(es, p.key, recs[p.dup := rec])
  }

  /** After an overwrite every cursor stays where it was and reads what it read, except
      one on the overwritten record, which reads the new one. */
  lemma OverwriteKeepsCursors(es: seq<Entry>, p: Pos, rec: Record, c: Option<Pos>)
    requires WellFormed(es) && ValidPos(es, p) && PosOk(es, c)
    ensures PosOk(OverwriteAt(es, p, rec), c)
    ensures c.Some? ==> (RecordAt(OverwriteAt(es, p, rec), c.value) ==
      if c.value == p then rec else RecordAt(es, c.value))
  {
    CursorAfterSetRecords(es, p.key, Lookup(es, p.key).value[p.dup := rec], c);
  }

  /** ham_cursor_erase: the record under the cursor is removed, and with it the key when
      that was its only record. */
  function EraseAt(es: seq<Entry>, p: Pos): (r: seq<Entry>)
    requires WellFormed(es) && ValidPos(es, p)
    ensures WellFormed(r) && RecordCount(r) == RecordCount(es) - 1
    ensures |Lookup(es, p.key).value| == 1 ==> Lookup(r, p.key) == None && |r| == |es| - 1
    ensures |Lookup(es, p.key).value| > 1 ==>
      Lookup(r, p.key) == Some(RemoveAt(Lookup(es, p.key).value, p.dup)) && |r| == |es|
    ensures forall k' :: k' != p.key ==> Lookup(r, k') == Lookup(es, k')
  {
    var recs := Lookup(es, p.key).value;
    if |recs| == 1 then
      RecordCountEraseKey(es, p.key);
      EraseKey(es, p.key)
    else
      RecordCountSetRecords(es, p.key, RemoveAt(recs, p.dup));
      SetRecords(es, p.key, RemoveAt(recs, p.dup))
  }

  /** After a cursor erase the cursors on the erased record are nil, and every other
      cursor reads the record it read before. */
  lemma EraseKeepsCursors(es: seq<Entry>, p: Pos, c: Option<Pos>)
    requires WellFormed(es) && ValidPos(es, p) && PosOk(es, c)
    ensures PosOk(EraseAt(es, p), AfterDupErase(c, p.key, p.dup))
    ensures AfterDupErase(c, p.key, p.dup).None? <==> c.None? || c.value == p
    ensures AfterDupErase(c, p.key, p.dup).Some? ==>
      RecordAt(EraseAt(es, p), AfterDupErase(c, p.key, p.dup).value) == RecordAt(es, c.value)
  {
    if |Lookup(es, p.key).value| == 1 {
      CursorAfterKeyErase(es, p.key, c);
      assert AfterDupErase(c, p.key, p.dup) == AfterKeyErase(c, p.key);
    } else {
      CursorAfterDupErase(es, p.key, p.dup, c);
    }
  }

  /** ham_db_erase: the key and all its duplicates go; cursors on them become nil. */
  lemma EraseKeyKeepsCursors(es: seq<Entry>, k: Key, c: Option<Pos>)
    requires WellFormed(es) && Present(es, k) && PosOk(es, c)
    ensures PosOk(EraseKey(es, k), AfterKeyErase(c, k))
    ensures RecordCount(EraseKey(es, k)) == RecordCount(es) - |Lookup(es, k).value|
    ensures AfterKeyErase(c, k).None? <==> c.None? || c.value.key == k
    ensures AfterKeyErase(c, k).Some? ==>
      RecordAt(EraseKey(es, k), AfterKeyErase(c, k).value) == RecordAt(es, c.value)
  {
    CursorAfterKeyErase(es, k, c);
    RecordCountEraseKey(es, k);
  }

  // ---------------------------------------------------------------------------------
  // A database without HAM_ENABLE_DUPLICATES holds exactly one record per key.

  ghost predicate NoDuplicates(es: seq<Entry>)
  {
    forall i :: 0 <= i < |es| ==> |es[i].records| == 1
  }

  /** NoDuplicates, stated through lookups. */
  lemma NoDuplicatesByLookup(es: seq<Entry>)
    requires WellFormed(es)
    ensures NoDuplicates(es) <==> forall k :: Present(es, k) ==> |Lookup(es, k).value| == 1
  {
    if forall k :: Present(es, k) ==> |Lookup(es, k).value| == 1 {
      forall i | 0 <= i < |es| ensures |es[i].records| == 1 {
        IndexOfEntry(es, i);
        assert Present(es, es[i].key);
      }
    }
  }

  /** Changes that keep the single record of every present key single keep NoDuplicates. */
  lemma NoDuplicatesKept(es: seq<Entry>, r: seq<Entry>, k: Key)
    requires WellFormed(es) && WellFormed(r) && NoDuplicates(es)
    requires forall k' :: k' != k ==> Lookup(r, k') == Lookup(es, k')
    requires Lookup(r, k).Some? ==> |Lookup(r, k).value| == 1
    ensures NoDuplicates(r)
  {
    NoDuplicatesByLookup(es);
    forall k' | Present(r, k') ensures |Lookup(r, k').value| == 1 {
      if k' != k {
        assert Lookup(es, k') == Lookup(r, k');
      }
    }
    NoDuplicatesByLookup(r);
  }

  /** An insert that asks for no duplicate keeps NoDuplicates. */
  lemma InsertKeepsNoDuplicates(es: seq<Entry>, k: Key, rec: Record, f: InsertFlags, cursor: Option<Pos>)
    requires WellFormed(es) && NoDuplicates(es) && !WantsDuplicate(f)
    ensures NoDuplicates(InsertInto(es, k, rec, f, cursor).entries)
  {
    NoDuplicatesByLookup(es);
    NoDuplicatesKept(es, InsertInto(es, k, rec, f, cursor).entries, k);
  }

  /** Erasing a key keeps NoDuplicates. */
  lemma EraseKeepsNoDuplicates(es: seq<Entry>, k: Key)
    requires WellFormed(es) && NoDuplicates(es) && Present(es, k)
    ensures NoDuplicates(EraseKey(es, k))
  {
    NoDuplicatesKept(es, EraseKey(es, k), k);
  }

  /** Overwriting a record keeps NoDuplicates. */
  lemma OverwriteKeepsNoDuplicates(es: seq<Entry>, p: Pos, rec: Record)
    requires WellFormed(es) && NoDuplicates(es) && ValidPos(es, p)
    ensures NoDuplicates(OverwriteAt(es, p, rec))
  {
    NoDuplicatesByLookup(es);
    NoDuplicatesKept(es, OverwriteAt(es, p, rec), p.key);
  }

  /** Erasing the record under a cursor keeps NoDuplicates. */
  lemma EraseAtKeepsNoDuplicates(es: seq<Entry>, p: Pos)
    requires WellFormed(es) && NoDuplicates(es) && ValidPos(es, p)
    ensures NoDuplicates(EraseAt(es, p))
  {
    NoDuplicatesByLookup(es);
    NoDuplicatesKept(es, EraseAt(es, p), p.key);
  }

  // ---------------------------------------------------------------------------------
  // Moves.

  /** The direction argument of ham_cursor_move; NoMove is a call without one, which reads
      the current record. */
  datatype Direction = NoMove | MoveFirst | MoveLast | MoveNext | MovePrevious

  datatype Moved = Moved(status: Status, pos: Option<Pos>)

  /** The last record in traversal order, if any. */
  function LastInTraversal(es: seq<Entry>): Option<Pos>
  {
    if RecordCount(es) == 0 then None else PosAt(es, RecordCount(es) - 1)
  }

  /** A move. Moving a nil cursor without a direction is CURSOR_IS_NIL; NEXT from nil is
      FIRST and PREVIOUS from nil is LAST; a move with nothing to land on is KEY_NOT_FOUND
      and leaves the cursor nil. The position reached is stated by the cursor's rank in
      traversal order (PosAt). */
  function MoveFrom(es: seq<Entry>, c: Option<Pos>, dir: Direction): (r: Moved)
    requires WellFormed(es) && PosOk(es, c)
    ensures PosOk(es, r.pos)
    ensures r.status == Ok <==> r.pos.Some?
    ensures r.status != Ok ==> r.status == (if dir == NoMove then CursorIsNil else KeyNotFound)
    ensures dir == NoMove ==> r.pos == c
    ensures dir == MoveFirst ==> r.pos == PosAt(es, 0)
    ensures dir == MoveLast ==> r.pos == LastInTraversal(es)
    ensures dir == MoveNext ==> (r.pos ==
      if c.None? then PosAt(es, 0) else PosAt(es, Rank(es, c.value) + 1))
    ensures dir == MovePrevious ==> (r.pos ==
      if c.None? then LastInTraversal(es)
      else if Rank(es, c.value) == 0 then None else PosAt(es, Rank(es, c.value) - 1))
  {
    FirstInOrder(es);
    LastInOrder(es);
    var p := match dir
      case NoMove => c
      case MoveFirst => FirstPos(es)
      case MoveLast => LastPos(es)
      case MoveNext => if c.None? then FirstPos(es) else NextPos(es, c.value)
      case MovePrevious => if c.None? then LastPos(es) else PrevPos(es, c.value);
    NeighboursInOrder(es, c);
    if p.Some? then Moved(Ok, p)
    else if dir == NoMove then Moved(CursorIsNil, None)
    else Moved(KeyNotFound, None)
  }

  /** NextPos and PrevPos of a cursor that is on a record, in traversal order. */
  lemma NeighboursInOrder(es: seq<Entry>, c: Option<Pos>)
    requires WellFormed(es) && PosOk(es, c)
    ensures c.Some? ==> NextPos(es, c.value) == PosAt(es, Rank(es, c.value) + 1)
    ensures c.Some? ==> (PrevPos(es, c.value) ==
      if Rank(es, c.value) == 0 then None else PosAt(es, Rank(es, c.value) - 1))
  {
    if c.Some? {
      NextInOrder(es, c.value);
      PrevInOrder(es, c.value);
    }
  }

  /** In an empty store every move fails with KEY_NOT_FOUND. */
  lemma MoveInEmpty(dir: Direction)
    requires dir != NoMove
    ensures MoveFrom([], None, dir) == Moved(KeyNotFound, None)
  {
    var r := MoveFrom([], None, dir);
    PosAtDefined([], 0);
  }

  /** NEXT and PREVIOUS undo each other: from any record that has a successor, moving
      NEXT then PREVIOUS comes back to it. */
  lemma NextThenPrevious(es: seq<Entry>, p: Pos)
    requires WellFormed(es) && ValidPos(es, p)
    ensures var n := MoveFrom(es, Some(p), MoveNext);
      n.pos.Some? ==> MoveFrom(es, n.pos, MovePrevious).pos == Some(p)
  {
    var k := Rank(es, p);
    PosAtRank(es, p);
    var n := MoveFrom(es, Some(p), MoveNext);
    assert n.pos == PosAt(es, k + 1);
    if n.pos.Some? {
      PosAtDefined(es, k + 1);
      PosAtValid(es, k + 1);
      var q := n.pos.value;
      assert Rank(es, q) == k + 1;
      var m := MoveFrom(es, n.pos, MovePrevious);
      assert m.pos == PosAt(es, k);
    }
  }

  /** ... and from any record that has a predecessor, PREVIOUS then NEXT comes back. */
  lemma PreviousThenNext(es: seq<Entry>, p: Pos)
    requires WellFormed(es) && ValidPos(es, p)
    ensures var b := MoveFrom(es, Some(p), MovePrevious);
      b.pos.Some? ==> MoveFrom(es, b.pos, MoveNext).pos == Some(p)
  {
    var k := Rank(es, p);
    PosAtRank(es, p);
    var b := MoveFrom(es, Some(p), MovePrevious);
    if k > 0 {
      assert b.pos == PosAt(es, k - 1);
      PosAtValid(es, k - 1);
      var q := b.pos.value;
      assert Rank(es, q) == k - 1;
      var m := MoveFrom(es, b.pos, MoveNext);
      assert m.pos == PosAt(es, k);
    }
  }

  /** Counting (ham_db_get_key_count): HAM_FAST_ESTIMATE and HAM_SKIP_DUPLICATES count
      keys, the default counts records; they agree when no key has duplicates. */
  datatype CountMode = CountAll | SkipDuplicates | FastEstimate

  /** The default count numbers the records a cursor walk can reach; the other two modes
      count the distinct keys. */
  function KeyCount(es: seq<Entry>, mode: CountMode): (n: nat)
    ensures mode == CountAll ==> forall m: nat :: PosAt(es, m).Some? <==> m < n
    ensures mode != CountAll && Sorted(es) ==> n == |Keys(es)|
  {
    if mode == CountAll then
      RecordsNumbered(es);
      RecordCount(es)
    else
      KeysCounted(es);
      |es|
  }

  lemma KeysCounted(es: seq<Entry>)
    ensures Sorted(es) ==> |Keys(es)| == |es|
  {
    if Sorted(es) {
      KeysCardinality(es);
    }
  }

  /** The record numbers PosAt defines are exactly those below RecordCount. */
  lemma RecordsNumbered(es: seq<Entry>)
    ensures forall m: nat :: PosAt(es, m).Some? <==> m < RecordCount(es)
  {
    forall m: nat ensures PosAt(es, m).Some? <==> m < RecordCount(es) {
      PosAtDefined(es, m);
    }
  }

  lemma CountModesAgree(es: seq<Entry>, m1: CountMode, m2: CountMode)
    requires forall i :: 0 <= i < |es| ==> |es[i].records| == 1
    ensures KeyCount(es, m1) == KeyCount(es, m2)
  {
    RecordCountWithoutDuplicates(es);
  }
}
