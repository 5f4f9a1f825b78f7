/** The store-level scenarios of the API tests, run against the database and cursor
    objects: moving a cursor in an empty database, reading through a cursor whose key was
    erased, replacing a record with records of other sizes, inserting keys in ascending
    and in descending order, and counting keys and records with duplicates. Each scenario
    is a method that builds its own database and returns what the test checks. */
module ApiScenarios {
  import opened Codes
  import opened KeyCompare
  import opened Entries
  import opened Positions
  import opened Find
  import opened Flags
  import opened Store
  import opened Database

  /** A key holding one 32-bit value, which the comparator reads as one signed word. */
  function IntKey(v: int32): Key
  {
    RawKey(4, [v])
  }

  lemma CompareIntKey(a: int32, b: int32)
    ensures Compare(IntKey(a), IntKey(b)) == if a < b then -1 else if a > b then 1 else 0
    ensures IntKey(a) == IntKey(b) <==> a == b
  {
    CompareByFirstWord(IntKey(a), IntKey(b));
  }

  /** The values these tests use as keys fit a signed 32-bit word. */
  predicate SmallValue(v: int)
  {
    0 <= v < 0x8000_0000
  }

  /** Key `v` with the four bytes of `v` as its one record. */
  function CountedEntry(v: int): Entry
    requires SmallValue(v)
  {
    Entry(IntKey(v as int32), [U32Bytes(v)])
  }

  /** The content after the keys lo, lo+1, ..., hi-1 have been inserted, in any order. */
  function Run(lo: int, hi: int): (r: seq<Entry>)
    requires 0 <= lo <= hi && SmallValue(hi)
    ensures |r| == hi - lo && forall t :: 0 <= t < hi - lo ==> r[t] == CountedEntry(lo + t)
    ensures WellFormed(r)
  {
    var r := seq(hi - lo, t requires 0 <= t < hi - lo => CountedEntry(lo + t));
    RunSorted(lo, r);
    r
  }

  lemma RunSorted(lo: int, r: seq<Entry>)
    requires 0 <= lo && SmallValue(lo + |r|)
    requires forall t :: 0 <= t < |r| ==> r[t] == CountedEntry(lo + t)
    ensures WellFormed(r)
  {
    forall i, j | 0 <= i < j < |r| ensures Less(r[i].key, r[j].key) {
      CompareIntKey((lo + i) as int32, (lo + j) as int32);
    }
  }

  /** Inserting the next key above the run appends it. */
  lemma RunAppend(lo: int, hi: int, c: Option<Pos>)
    requires 0 <= lo <= hi && SmallValue(hi + 1)
    ensures InsertInto(Run(lo, hi), IntKey(hi as int32), U32Bytes(hi), PlainInsert, c) ==
      Inserted(Ok, Run(lo, hi + 1), Some(Pos(IntKey(hi as int32), 0)), None)
  {
    var es := Run(lo, hi);
    var k := IntKey(hi as int32);
    forall i | 0 <= i < |es| ensures Less(es[i].key, k) && es[i].key != k {
      CompareIntKey((lo + i) as int32, hi as int32);
    }
    CountBelowIs(es, k, |es|);
    assert es[..|es|] + [CountedEntry(hi)] + es[|es|..] == Run(lo, hi + 1);
  }

  /** Inserting the next key below the run puts it in front. */
  lemma RunPrepend(lo: int, hi: int, c: Option<Pos>)
    requires 0 < lo <= hi && SmallValue(hi)
    ensures InsertInto(Run(lo, hi), IntKey((lo - 1) as int32), U32Bytes(lo - 1), PlainInsert, c) ==
      Inserted(Ok, Run(lo - 1, hi), Some(Pos(IntKey((lo - 1) as int32), 0)), None)
  {
    var es := Run(lo, hi);
    var k := IntKey((lo - 1) as int32);
    forall i | 0 <= i < |es| ensures Less(k, es[i].key) && es[i].key != k {
      CompareIntKey((lo - 1) as int32, (lo + i) as int32);
      CompareAntisymmetric(k, es[i].key);
    }
    CountBelowIs(es, k, 0);
    assert es[..0] + [CountedEntry(lo - 1)] + es[0..] == Run(lo - 1, hi);
  }

  /** Every key of the run is found with its own bytes as the record. */
  lemma RunFinds(lo: int, hi: int, v: int)
    requires 0 <= lo <= v < hi && SmallValue(hi)
    ensures FindIn(Run(lo, hi), IntKey(v as int32), FindDefault) ==
      FindReply(Ok, IntKey(v as int32), Some(U32Bytes(v)), 0)
  {
    var es := Run(lo, hi);
    IndexOfEntry(es, v - lo);
    ExactMatchMeaning(es, IntKey(v as int32), FindDefault);
  }

  // ---------------------------------------------------------------------------------
  // The scenarios.

  /** Moving a fresh cursor on an empty database: without a direction the cursor is nil;
      FIRST, LAST, NEXT and PREVIOUS find no key. */
  method CursorMoveOnEmpty() returns (noMove: Status, first: Status, last: Status, next: Status, previous: Status)
    ensures noMove == CursorIsNil
    ensures first == KeyNotFound && last == KeyNotFound && next == KeyNotFound && previous == KeyNotFound
  {
    var db := new Db(false, true);
    var c := new Cursor(db);
    MoveInEmpty(MoveFirst);
    MoveInEmpty(MoveLast);
    MoveInEmpty(MoveNext);
    MoveInEmpty(MovePrevious);
    var key: Option<Key>, record: Option<Record>;
    noMove, key, record := c.Move(NoMove, false, false);
    first, key, record := c.Move(MoveFirst, false, false);
    last, key, record := c.Move(MoveLast, false, false);
    next, key, record := c.Move(MoveNext, false, false);
    previous, key, record := c.Move(MovePrevious, false, false);
    c.Close();
  }

  /** Keys 1 and 2 inserted, a cursor put on key 1 by a find, key 1 erased through the
      database: the inserts, the find and the erase succeed, and reading through the cursor
      afterwards reports a nil cursor. */
  method CursorOnErasedKey() returns (insert1: Status, insert2: Status, found: Status, erased: Status, read: Status)
    ensures insert1 == Ok && insert2 == Ok && found == Ok && erased == Ok
    ensures read == CursorIsNil
  {
    var db := new Db(false, true);
    var k1, k2 := IntKey(1), IntKey(2);
    CompareIntKey(1, 2);
    insert1 := db.Insert(k1, [], PlainInsert, true, true);
    insert2 := db.Insert(k2, [], PlainInsert, true, true);
    var c := new Cursor(db);
    ExactMatchMeaning(db.entries, k1, FindDefault);
    var r := c.Find(k1, FindDefault, false, false);
    found := r.status;
    erased := db.Erase(k1, false);
    var key: Option<Key>, record: Option<Record>;
    read, key, record := c.Move(NoMove, false, false);
    c.Close();
  }

  /** On an empty database a find and an erase of the empty key (a zeroed ham_key_t, of
      size 0) both report that the key is not there. */
  method EmptyLookups() returns (found: Status, erased: Status)
    ensures found == KeyNotFound && erased == KeyNotFound
  {
    var db := new Db(false, true);
    var k := RawKey(0, []);
    EmptyStoreMisses(k, FindDefault);
    var r := db.Find(k, FindDefault, false, false);
    found := r.status;
    erased := db.Erase(k, false);
  }

  /** HAM_OVERWRITE on an existing key. */
  const Overwrite := InsertFlags(true, false, NoPosition, false, false)

  function ZeroBytes(n: nat): (b: seq<byte>)
    ensures |b| == n
  {
    seq(n, i => 0 as byte)
  }

  /** Overwriting the one record of a one-key store, then finding the key, returns the
      new record. */
  lemma OverwriteSingle(k: Key, prior: Record, rec: Record)
    ensures InsertInto([Entry(k, [prior])], k, rec, Overwrite, None).status == Ok
    ensures InsertInto([Entry(k, [prior])], k, rec, Overwrite, None).entries == [Entry(k, [rec])]
    ensures FindIn([Entry(k, [rec])], k, FindDefault) == FindReply(Ok, k, Some(rec), 0)
  {
    var es := [Entry(k, [prior])];
    IndexOfEntry(es, 0);
    var r := InsertInto(es, k, rec, Overwrite, None).entries;
    assert Lookup(es, k) == Some([prior]);
    assert [prior][0 := rec] == [rec];
    assert |r| == 1 && Lookup(r, k) == Some([rec]);
    assert r == [Entry(k, [rec])];
    IndexOfEntry([Entry(k, [rec])], 0);
    ExactMatchMeaning([Entry(k, [rec])], k, FindDefault);
  }

  /** The first insert into the empty store, then the find. */
  lemma InsertSingle(k: Key, rec: Record, f: InsertFlags, cursor: Option<Pos>)
    requires !(f.overwrite && WantsDuplicate(f))
    ensures InsertInto([], k, rec, f, cursor).status == Ok
    ensures InsertInto([], k, rec, f, cursor).entries == [Entry(k, [rec])]
  {
    assert InsertNew([], k, rec) == [Entry(k, [rec])];
  }

  /** The empty key, a 32-byte record, then that record replaced by a 7-byte one, the
      32-byte one, an empty one, the 7-byte one and an empty one again: every insert
      succeeds and each find right after it returns the record just written, whatever its
      size. The test's NULL data pointer for a size-0 record is the empty record here. */
  method ReplaceRecord() returns (statuses: seq<Status>, found: seq<Option<Record>>)
    ensures statuses == [Ok, Ok, Ok, Ok, Ok, Ok, Ok, Ok, Ok, Ok, Ok, Ok]
    ensures found == [Some(ZeroBytes(32)), Some(ZeroBytes(7)), Some(ZeroBytes(32)),
                      Some([]), Some(ZeroBytes(7)), Some([])]
  {
    var db := new Db(false, true);
    var k := RawKey(0, []);
    var big, tiny := ZeroBytes(32), ZeroBytes(7);
    InsertSingle(k, big, PlainInsert, None);
    OverwriteSingle(k, big, big);
    var s1 := db.Insert(k, big, PlainInsert, true, true);
    var r1 := db.Find(k, FindDefault, false, false);
    OverwriteSingle(k, big, tiny);
    var s2 := db.Insert(k, tiny, Overwrite, true, true);
    var r2 := db.Find(k, FindDefault, false, false);
    OverwriteSingle(k, tiny, big);
    var s3 := db.Insert(k, big, Overwrite, true, true);
    var r3 := db.Find(k, FindDefault, false, false);
    OverwriteSingle(k, big, []);
    var s4 := db.Insert(k, [], Overwrite, true, true);
    var r4 := db.Find(k, FindDefault, false, false);
    OverwriteSingle(k, [], tiny);
    var s5 := db.Insert(k, tiny, Overwrite, true, true);
    var r5 := db.Find(k, FindDefault, false, false);
    OverwriteSingle(k, tiny, []);
    var s6 := db.Insert(k, [], Overwrite, true, true);
    var r6 := db.Find(k, FindDefault, false, false);
    statuses := [s1, r1.status, s2, r2.status, s3, r3.status, s4, r4.status, s5, r5.status, s6, r6.status];
    found := [r1.record, r2.record, r3.record, r4.record, r5.record, r6.record];
  }

  /** The find loop of the append and prepend tests, in ascending order: every key of
      the run is found, with its own four bytes as the record. */
  method ReadAscending(db: Db, lo: int, hi: int) returns (allOk: bool, found: seq<Option<Record>>)
    requires 0 <= lo <= hi && SmallValue(hi)
    requires db.Valid() && db.entries == Run(lo, hi) && db.inMemory
    ensures allOk && |found| == hi - lo
    ensures forall t :: 0 <= t < hi - lo ==> found[t] == Some(U32Bytes(lo + t))
  {
    allOk := true;
    found := [];
    var i := lo;
    while i < hi
      invariant lo <= i <= hi
      invariant allOk && |found| == i - lo && forall t :: 0 <= t < i - lo ==> found[t] == Some(U32Bytes(lo + t))
    {
      RunFinds(lo, hi, i);
      var r := db.Find(IntKey(i as int32), FindDefault, false, false);
      allOk := allOk && r.status == Ok;
      found := found + [r.record];
      i := i + 1;
    }
  }

  /** The same in descending order, as insertPrependTest reads them back. */
  method ReadDescending(db: Db, lo: int, hi: int) returns (allOk: bool, found: seq<Option<Record>>)
    requires 0 <= lo <= hi && SmallValue(hi)
    requires db.Valid() && db.entries == Run(lo, hi) && db.inMemory
    ensures allOk && |found| == hi - lo
    ensures forall t :: 0 <= t < hi - lo ==> found[t] == Some(U32Bytes(lo + t))
  {
    allOk := true;
    found := seq(hi - lo, t => None);
    var i := hi;
    while i > lo
      invariant lo <= i <= hi
      invariant allOk && |found| == hi - lo
      invariant forall t :: i - lo <= t < hi - lo ==> found[t] == Some(U32Bytes(lo + t))
    {
      RunFinds(lo, hi, i - 1);
      var r := db.Find(IntKey((i - 1) as int32), FindDefault, false, false);
      allOk := allOk && r.status == Ok;
      found := found[i - 1 - lo := r.record];
      i := i - 1;
    }
  }

  /** The keys 0, 1, ..., n-1 inserted in ascending order through the database, each with
      its own four bytes as the record (insertAppendTest, n = 100): every insert succeeds,
      and each key is then found with that record. */
  method InsertAscending(n: nat) returns (allOk: bool, found: seq<Option<Record>>)
    requires SmallValue(n)
    ensures allOk && |found| == n
    ensures forall v :: 0 <= v < n ==> found[v] == Some(U32Bytes(v))
  {
    var db := new Db(false, true);
    allOk := true;
    var i := 0;
    while i < n
      invariant 0 <= i <= n
      invariant db.Valid() && db.inMemory && !db.dupsEnabled && db.cursors == {}
      invariant allOk && db.entries == Run(0, i)
    {
      RunAppend(0, i, None);
      assert CheckInsert(PlainInsert, db.dupsEnabled, false, true, true) == Ok;
      var st := db.Insert(IntKey(i as int32), U32Bytes(i), PlainInsert, true, true);
      assert st == Ok && db.entries == Run(0, i + 1);
      allOk := allOk && st == Ok;
      i := i + 1;
    }
    var readOk;
    readOk, found := ReadAscending(db, 0, n);
    allOk := allOk && readOk;
  }

  /** The keys n, n-1, ..., 0 inserted in descending order through the database
      (insertPrependTest, n = 100): every insert succeeds, and each key is then found, in
      descending order, with its own four bytes as the record. */
  method InsertDescending(n: nat) returns (allOk: bool, found: seq<Option<Record>>)
    requires SmallValue(n + 1)
    ensures allOk && |found| == n + 1
    ensures forall v :: 0 <= v <= n ==> found[v] == Some(U32Bytes(v))
  {
    var db := new Db(false, true);
    allOk := true;
    var lo := n + 1;
    while lo > 0
      invariant 0 <= lo <= n + 1
      invariant db.Valid() && db.inMemory && !db.dupsEnabled && db.cursors == {}
      invariant allOk && db.entries == Run(lo, n + 1)
    {
      RunPrepend(lo, n + 1, None);
      assert CheckInsert(PlainInsert, db.dupsEnabled, false, true, true) == Ok;
      var st := db.Insert(IntKey((lo - 1) as int32), U32Bytes(lo - 1), PlainInsert, true, true);
      assert st == Ok && db.entries == Run(lo - 1, n + 1);
      allOk := allOk && st == Ok;
      lo := lo - 1;
    }
    var readOk;
    readOk, found := ReadDescending(db, 0, n + 1);
    allOk := allOk && readOk;
  }

  /** HAM_DUPLICATE. */
  const AddDuplicate := InsertFlags(false, true, NoPosition, false, false)

  /** A database with duplicates enabled, filled through a cursor with the keys 4000 down
      to 1, then ten duplicates added under key 5 through the database: HAM_FAST_ESTIMATE
      and HAM_SKIP_DUPLICATES count 4000 keys, the default count is 4010 records. */
  method CountWithDuplicates() returns (allOk: bool, estimate: nat, keys: nat, records: nat)
    ensures allOk && estimate == 4000 && keys == 4000 && records == 4010
  {
    var db := new Db(true, false);
    var c := new Cursor(db);
    allOk := true;
    var lo := 4001;
    while lo > 1
      invariant 1 <= lo <= 4001
      invariant db.Valid() && db.dupsEnabled && c in db.cursors && c.db == db
      invariant allOk && db.entries == Run(lo, 4001)
    {
      RunPrepend(lo, 4001, c.pos);
      var st := c.Insert(IntKey((lo - 1) as int32), U32Bytes(lo - 1), PlainInsert, true, true);
      allOk := allOk && st == Ok;
      lo := lo - 1;
    }
    c.Close();
    var k := IntKey(5);
    RecordCountWithoutDuplicates(db.entries);
    IndexOfEntry(db.entries, 4);
    var i := 1;
    while i <= 10
      invariant 1 <= i <= 11
      invariant db.Valid() && db.dupsEnabled
      invariant allOk && Present(db.entries, k) && |db.entries| == 4000 && RecordCount(db.entries) == 3999 + i
    {
      var st := db.Insert(k, U32Bytes(i), AddDuplicate, true, true);
      allOk := allOk && st == Ok;
      i := i + 1;
    }
    estimate := db.GetKeyCount(FastEstimate);
    keys := db.GetKeyCount(SkipDuplicates);
    records := db.GetKeyCount(CountAll);
  }

  // ---------------------------------------------------------------------------------
  // Argument checks seen through the objects.

  /** The record "hello" with its terminating zero byte. */
  function Hello(): (r: Record)
    ensures |r| == 6
  {
    [104, 101, 108, 108, 111, 0]
  }

  /** The insert flag checks on the default database (no duplicates): key or record flag
      bits other than USER_ALLOC are refused, OVERWRITE on an absent key inserts it,
      OVERWRITE with DUPLICATE, DUPLICATE alone and each duplicate position are refused.
      Calls with a null database, key or record are not modelled. */
  method InsertArguments() returns (statuses: seq<Status>)
    ensures statuses == [InvParameter, InvParameter, Ok, Ok, InvParameter, InvParameter,
                         InvParameter, InvParameter, InvParameter, InvParameter, Ok]
  {
    var db := new Db(false, true);
    var k := RawKey(0, []);
    var s1 := db.Insert(k, [], PlainInsert, false, true);
    var s2 := db.Insert(k, [], PlainInsert, true, false);
    assert s1 == s2 == InvParameter && db.entries == [];
    InsertSingle(k, [], Overwrite, None);
    var s3 := db.Insert(k, [], Overwrite, true, true);
    assert s3 == Ok && db.entries == [Entry(k, [[]])];
    OverwriteSingle(k, [], []);
    var s4 := db.Insert(k, [], Overwrite, true, true);
    assert s4 == Ok && db.entries == [Entry(k, [[]])];
    var s5 := db.Insert(k, [], InsertFlags(true, true, NoPosition, false, false), true, true);
    var s6 := db.Insert(k, [], AddDuplicate, true, true);
    assert s5 == s6 == InvParameter && db.entries == [Entry(k, [[]])];
    var s7 := db.Insert(k, [], InsertFlags(false, false, Before, false, false), true, true);
    var s8 := db.Insert(k, [], InsertFlags(false, false, After, false, false), true, true);
    assert s7 == s8 == InvParameter && db.entries == [Entry(k, [[]])];
    var s9 := db.Insert(k, [], InsertFlags(false, false, First, false, false), true, true);
    var s10 := db.Insert(k, [], InsertFlags(false, false, Last, false, false), true, true);
    assert s9 == s10 == InvParameter && db.entries == [Entry(k, [[]])];
    var s11 := db.Insert(k, [], Overwrite, true, true);
    assert s11 == Ok;
    statuses := [s1, s2, s3, s4, s5, s6, s7, s8, s9, s10, s11];
  }

  /** DUPLICATE with OVERWRITE is refused on any database and DUPLICATE alone on one
      without duplicates; on a database with duplicates enabled DUPLICATE is accepted. */
  method DuplicateArguments() returns (statuses: seq<Status>)
    ensures statuses == [InvParameter, InvParameter, InvParameter, Ok]
  {
    var plain := new Db(false, true);
    var k := RawKey(0, []);
    var s1 := plain.Insert(k, [], InsertFlags(true, true, NoPosition, false, false), true, true);
    var s2 := plain.Insert(k, [], AddDuplicate, true, true);
    var dups := new Db(true, true);
    var s3 := dups.Insert(k, [], InsertFlags(true, true, NoPosition, false, false), true, true);
    InsertSingle(k, [], AddDuplicate, None);
    var s4 := dups.Insert(k, [], AddDuplicate, true, true);
    statuses := [s1, s2, s3, s4];
  }

  /** HAM_HINT_APPEND and HAM_HINT_PREPEND: refused by the database insert, accepted by the
      cursor insert unless both are given, and refused by both erase calls and all find
      calls, each tried once with either hint. The erase and find calls carry one hint
      flag, so each of the two calls passes `true` for it. */
  method HintArguments() returns (statuses: seq<Status>)
    ensures statuses == [InvParameter, InvParameter, Ok, InvParameter, InvParameter, InvParameter,
                         InvParameter, InvParameter, InvParameter, InvParameter, InvParameter,
                         InvParameter, InvParameter, InvParameter]
  {
    var db := new Db(false, true);
    var c := new Cursor(db);
    var k := RawKey(0, []);
    var append := InsertFlags(false, false, NoPosition, true, false);
    var s1 := db.Insert(k, [], append, true, true);
    var s2 := db.Insert(k, [], InsertFlags(false, false, NoPosition, false, true), true, true);
    assert s1 == s2 == InvParameter && db.entries == [];
    InsertSingle(k, [], append, None);
    var s3 := c.Insert(k, [], append, true, true);
    var s4 := c.Insert(k, [], InsertFlags(false, false, NoPosition, true, true), true, true);
    assert s3 == Ok && s4 == InvParameter;
    var s5 := db.Erase(k, true);
    var s6 := db.Erase(k, true);
    var s7 := c.Erase(true);
    var s8 := c.Erase(true);
    assert s5 == s6 == s7 == s8 == InvParameter;
    var r9 := c.Find(k, FindDefault, true, false);
    var r10 := c.Find(k, FindDefault, true, false);
    var r11 := c.Find(k, FindDefault, true, false);
    var r12 := c.Find(k, FindDefault, true, false);
    var r13 := db.Find(k, FindDefault, true, false);
    var r14 := db.Find(k, FindDefault, true, false);
    c.Close();
    statuses := [s1, s2, s3, s4, s5, s6, s7, s8, r9.status, r10.status, r11.status, r12.status,
                 r13.status, r14.status];
  }

  /** HAM_DIRECT_ACCESS in an in-memory environment: the database find, the cursor find
      and the cursor move that follows all return the stored record. */
  method DirectAccess() returns (statuses: seq<Status>, records: seq<Option<Record>>)
    ensures statuses == [Ok, Ok, Ok, Ok]
    ensures records == [Some(Hello()), Some(Hello()), Some(Hello())]
  {
    var db := new Db(false, true);
    var c := new Cursor(db);
    var k := RawKey(0, []);
    InsertSingle(k, Hello(), PlainInsert, None);
    OverwriteSingle(k, Hello(), Hello());
    var s1 := db.Insert(k, Hello(), PlainInsert, true, true);
    var r2 := db.Find(k, FindDefault, false, true);
    var r3 := c.Find(k, FindDefault, false, true);
    IndexOfEntry(db.entries, 0);
    var s4, key4, rec4 := c.Move(NoMove, false, true);
    c.Close();
    statuses := [s1, r2.status, r3.status, s4];
    records := [r2.record, r3.record, rec4];
  }

  /** HAM_DIRECT_ACCESS on a database in a file, first without and then with transactions:
      the database find, the cursor find and the cursor move are refused each time. */
  method DirectAccessRefused() returns (statuses: seq<Status>)
    ensures statuses == [Ok, InvParameter, InvParameter, InvParameter, InvParameter, InvParameter, InvParameter]
  {
    var db := new Db(false, false);
    var c := new Cursor(db);
    var k := RawKey(0, []);
    InsertSingle(k, Hello(), PlainInsert, None);
    var s1 := db.Insert(k, Hello(), PlainInsert, true, true);
    var r2 := db.Find(k, FindDefault, false, true);
    var r3 := c.Find(k, FindDefault, false, true);
    var s4, key4, rec4 := c.Move(NoMove, false, true);
    c.Close();
    var txn := new Db(false, false);
    var t := new Cursor(txn);
    var r5 := txn.Find(k, FindDefault, false, true);
    var r6 := t.Find(k, FindDefault, false, true);
    var s7, key7, rec7 := t.Move(NoMove, false, true);
    t.Close();
    statuses := [s1, r2.status, r3.status, s4, r5.status, r6.status, s7];
  }
}
