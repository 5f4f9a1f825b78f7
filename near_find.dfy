/** What the approximate-match test expects of a database whose keys are compared by
    `my_compare_func_u32`: the empty database, a single key, and the three keys 1, 3 and 7
    queried with every match mode for the values 0 to 8. */
module NearFindTest {
  import opened Codes
  import opened KeyCompare
  import opened Entries
  import opened Positions
  import opened Find
  import opened Flags
  import opened Store

  /** The key_surplus words the comparator reads after the first word, all zero. */
  function Surplus(): (z: seq<int32>)
    ensures |z| == 1637
  {
    seq(1637, i => 0 as int32)
  }

  /** The test's key (my_key_t, 6554 bytes): the value in the first word, zeros after it. */
  function TK(v: int32): Key
  {
    RawKey(6554, [v] + Surplus())
  }

  /** These keys are ordered by their values. */
  lemma CompareTK(a: int32, b: int32)
    ensures Compare(TK(a), TK(b)) == if a < b then -1 else if a > b then 1 else 0
    ensures TK(a) == TK(b) <==> a == b
  {
    assert TK(a).words[1..] == Surplus() == TK(b).words[1..];
    CompareByFirstWord(TK(a), TK(b));
  }

  /** rec_val2: "hello world!" and the zero bytes that fill its 512 characters. */
  function Greeting(): (g: seq<byte>)
    ensures |g| == 512
  {
    [104, 101, 108, 108, 111, 32, 119, 111, 114, 108, 100, 33] + seq(500, i => 0 as byte)
  }

  /** The test's record (my_rec_t): the value rec_val1, then "hello world!" padded to
      512 bytes. */
  function TestRecord(val: nat): Record
    requires val < 0x1_0000_0000
  {
    U32Bytes(val) + Greeting()
  }

  /** rec_val1 reads back from the first four bytes. */
  lemma TestRecordValue(val: nat)
    requires val < 0x1_0000_0000
    ensures |TestRecord(val)| == 516 && U32Value(TestRecord(val)[..4]) == val
  {
    assert TestRecord(val)[..4] == U32Bytes(val);
    U32RoundTrip(val);
  }

  /** The plain ham_db_insert the test makes. */
  function Put(es: seq<Entry>, v: int32, val: nat): Inserted
    requires WellFormed(es) && val < 0x1_0000_0000
  {
    InsertInto(es, TK(v), TestRecord(val), PlainInsert, None)
  }

  /** The content after the inserts, in key order: 1 with 1000, 3 with 2001, 7 with 2000. */
  function Layout(): (r: seq<Entry>)
    ensures WellFormed(r)
  {
    CompareTK(1, 3);
    CompareTK(1, 7);
    CompareTK(3, 7);
    [Entry(TK(1), [TestRecord(1000)]), Entry(TK(3), [TestRecord(2001)]), Entry(TK(7), [TestRecord(2000)])]
  }

  /** A Put of an absent key that sorts after the first `b` entries puts it at index `b`. */
  lemma PutAt(es: seq<Entry>, v: int32, val: nat, b: nat)
    requires WellFormed(es) && val < 0x1_0000_0000 && !Present(es, TK(v))
    requires CountBelow(es, TK(v)) == b
    ensures Put(es, v, val).status == Ok
    ensures Put(es, v, val).entries == es[..b] + [Entry(TK(v), [TestRecord(val)])] + es[b..]
  {
  }

  /** The entries after each insert. */
  const E1 := Entry(TK(1), [TestRecord(1000)])
  const E3 := Entry(TK(3), [TestRecord(2001)])
  const E7 := Entry(TK(7), [TestRecord(2000)])

  /** The first ham_db_insert (line 828): key 1 with rec_val1 1000 into the empty database. */
  lemma FirstPut()
    ensures Put([], 1, 1000).status == Ok && Put([], 1, 1000).entries == [E1]
  {
    PutAt([], 1, 1000, 0);
  }

  /** Round 0 of the loop at lines 884-896: key 7 with rec_val1 2000 goes behind 1. */
  lemma SecondPut()
    ensures Put(Put([], 1, 1000).entries, 7, 2000).status == Ok
    ensures Put(Put([], 1, 1000).entries, 7, 2000).entries == [E1, E7]
  {
    FirstPut();
    CompareTK(1, 7);
    assert CountBelow([E1], TK(7)) == 1;
    PutAt([E1], 7, 2000, 1);
  }

  /** Round 1 of that loop: key 3 with rec_val1 2001 goes between 1 and 7. */
  lemma ThirdPut()
    ensures Put([E1, E7], 3, 2001).status == Ok && Put([E1, E7], 3, 2001).entries == [E1, E3, E7]
  {
    CompareTK(1, 3);
    CompareTK(3, 7);
    var es := [E1, E7];
    assert CountBelow(es, TK(3)) == 1 by {
      assert Less(es[0].key, TK(3)) && !Less(es[1].key, TK(3));
    }
    PutAt(es, 3, 2001, 1);
    assert es[..1] + [E3] + es[1..] == [E1, E3, E7];
  }

  /** The three inserts succeed and leave exactly Layout(). */
  lemma InsertsGiveLayout()
    ensures Put([], 1, 1000).status == Ok
    ensures Put(Put([], 1, 1000).entries, 7, 2000).status == Ok
    ensures Put(Put(Put([], 1, 1000).entries, 7, 2000).entries, 3, 2001).status == Ok
    ensures Put(Put(Put([], 1, 1000).entries, 7, 2000).entries, 3, 2001).entries == Layout()
  {
    SecondPut();
    ThirdPut();
    assert Layout() == [E1, E3, E7];
  }

  /** With the one key 1 stored: an exact and a NEAR find of 1 return it with sign 0; a
      NEAR find of 0 returns it as the key above (sign +1) and of 3 as the key below
      (sign -1). */
  lemma OneKeyFinds()
    ensures Agrees(FindIn([E1], TK(1), FindExact), Row(Ok, 1, 0, 1000))
    ensures Agrees(FindIn([E1], TK(1), FindNear), Row(Ok, 1, 0, 1000))
    ensures Agrees(FindIn([E1], TK(0), FindNear), Row(Ok, 1, 1, 1000))
    ensures Agrees(FindIn([E1], TK(3), FindNear), Row(Ok, 1, -1, 1000))
  {
    TestRecordValue(1000);
    CompareTK(0, 1);
    CompareTK(1, 1);
    CompareTK(1, 3);
    assert CountBelow([E1], TK(0)) == 0;
    assert CountBelow([E1], TK(1)) == 0;
    assert CountBelow([E1], TK(3)) == 1;
  }

  /** A cursor moved NEXT from nil visits 1, 3 and 7, each with its one record, and the
      fourth move finds nothing. */
  lemma LayoutWalk()
    ensures WalkNext(Layout(), None, 1) == Some(Pos(TK(1), 0))
    ensures WalkNext(Layout(), None, 2) == Some(Pos(TK(3), 0))
    ensures WalkNext(Layout(), None, 3) == Some(Pos(TK(7), 0))
    ensures WalkNext(Layout(), None, 4) == None
  {
    var l := Layout();
    WalkSingles(l, 0);
    WalkSingles(l, 1);
    WalkSingles(l, 2);
    WalkSingles(l, 3);
  }

  /** Where a query value lands among 1, 3 and 7. */
  lemma Probe(v: int32)
    ensures CountBelow(Layout(), TK(v)) ==
      if v <= 1 then 0 else if v <= 3 then 1 else if v <= 7 then 2 else 3
    ensures Present(Layout(), TK(v)) <==> v == 1 || v == 3 || v == 7
  {
    CompareTK(1, v);
    CompareTK(3, v);
    CompareTK(7, v);
    var l := Layout();
    assert l[0].key == TK(1) && l[1].key == TK(3) && l[2].key == TK(7);
  }

  // ---------------------------------------------------------------------------------
  // The expectation tables, one row per query value 0 .. 8.

  /** A row: the status, the key value the caller's key then holds, the match sign, and
      rec_val1 of the record returned (666 when none is). */
  datatype Row = Row(rv: Status, keyval: int, sign: int, recval: nat)

  /** What the test reads back: the status, key_val1 of the key, rec_val1 of the record
      (666 standing for "no record") and the match sign. */
  predicate Agrees(r: FindReply, row: Row)
  {
    r.status == row.rv && r.sign == row.sign &&
    |r.key.words| > 0 && r.key.words[0] as int == row.keyval &&
    if row.recval == 666 then r.record.None?
    else r.record.Some? && |r.record.value| >= 4 && U32Value(r.record.value[..4]) == row.recval
  }

  const LeqRows := [Row(KeyNotFound, 0, 0, 666), Row(Ok, 1, 0, 1000), Row(Ok, 1, -1, 1000),
    Row(Ok, 3, 0, 2001), Row(Ok, 3, -1, 2001), Row(Ok, 3, -1, 2001), Row(Ok, 3, -1, 2001),
    Row(Ok, 7, 0, 2000), Row(Ok, 7, -1, 2000)]

  const LtRows := [Row(KeyNotFound, 0, 0, 666), Row(KeyNotFound, 1, 0, 666), Row(Ok, 1, -1, 1000),
    Row(Ok, 1, -1, 1000), Row(Ok, 3, -1, 2001), Row(Ok, 3, -1, 2001), Row(Ok, 3, -1, 2001),
    Row(Ok, 3, -1, 2001), Row(Ok, 7, -1, 2000)]

  const GeqRows := [Row(Ok, 1, 1, 1000), Row(Ok, 1, 0, 1000), Row(Ok, 3, 1, 2001),
    Row(Ok, 3, 0, 2001), Row(Ok, 7, 1, 2000), Row(Ok, 7, 1, 2000), Row(Ok, 7, 1, 2000),
    Row(Ok, 7, 0, 2000), Row(KeyNotFound, 8, 0, 666)]

  const GtRows := [Row(Ok, 1, 1, 1000), Row(Ok, 3, 1, 2001), Row(Ok, 3, 1, 2001),
    Row(Ok, 7, 1, 2000), Row(Ok, 7, 1, 2000), Row(Ok, 7, 1, 2000), Row(Ok, 7, 1, 2000),
    Row(KeyNotFound, 7, 0, 666), Row(KeyNotFound, 8, 0, 666)]

  const EqRows := [Row(KeyNotFound, 0, 0, 666), Row(Ok, 1, 0, 1000), Row(KeyNotFound, 2, 0, 666),
    Row(Ok, 3, 0, 2001), Row(KeyNotFound, 4, 0, 666), Row(KeyNotFound, 5, 0, 666),
    Row(KeyNotFound, 6, 0, 666), Row(Ok, 7, 0, 2000), Row(KeyNotFound, 8, 0, 666)]

  /** The record stored under value 1, 3 or 7. */
  function Stored(v: int32): Record
  {
    TestRecord(if v == 1 then 1000 else if v == 3 then 2001 else 2000)
  }

  /** The answer worked out on the integers: an exact hit when `v` is one of 1, 3 and 7
      and the mode accepts it, else the next of them below `v` when LT is set, else the
      next above when GT is set, else a miss. */
  function Expected(v: int32, f: FindFlags): FindReply
  {
    var below: Option<int32> := if v > 7 then Some(7) else if v > 3 then Some(3) else if v > 1 then Some(1) else None;
    var above: Option<int32> := if v < 1 then Some(1) else if v < 3 then Some(3) else if v < 7 then Some(7) else None;
    if (v == 1 || v == 3 || v == 7) && AcceptsExact(f) then FindReply(Ok, TK(v), Some(Stored(v)), 0)
    else if f.lt && below.Some? then FindReply(Ok, TK(below.value), Some(Stored(below.value)), -1)
    else if f.gt && above.Some? then FindReply(Ok, TK(above.value), Some(Stored(above.value)), 1)
    else FindReply(KeyNotFound, TK(v), None, 0)
  }

  /** LayoutFind for the values up to 3. */
  lemma LayoutFindLow(v: int32, f: FindFlags)
    requires v <= 3
    ensures FindIn(Layout(), TK(v), f) == Expected(v, f)
  {
    Probe(v);
    var l := Layout();
    assert l[0].key == TK(1) && l[1].key == TK(3);
  }

  /** LayoutFind for the values above 3. */
  lemma LayoutFindHigh(v: int32, f: FindFlags)
    requires v > 3
    ensures FindIn(Layout(), TK(v), f) == Expected(v, f)
  {
    Probe(v);
    var l := Layout();
    assert l[1].key == TK(3) && l[2].key == TK(7);
  }

  /** The store's find on Layout() is the integer answer, for every value and mode. */
  lemma LayoutFind(v: int32, f: FindFlags)
    ensures FindIn(Layout(), TK(v), f) == Expected(v, f)
  {
    if v <= 3 {
      LayoutFindLow(v, f);
    } else {
      LayoutFindHigh(v, f);
    }
  }

  /** The integer answers agree with a table. */
  predicate ExpectedAgrees(f: FindFlags, rows: seq<Row>)
    requires |rows| == 9
  {
    forall v: int32 :: 0 <= v < 9 ==> Agrees(Expected(v, f), rows[v])
  }

  /** A table is checked one row at a time. */
  lemma RowByRow(f: FindFlags, rows: seq<Row>)
    requires |rows| == 9
    requires Agrees(Expected(0, f), rows[0]) && Agrees(Expected(1, f), rows[1]) && Agrees(Expected(2, f), rows[2])
    requires Agrees(Expected(3, f), rows[3]) && Agrees(Expected(4, f), rows[4]) && Agrees(Expected(5, f), rows[5])
    requires Agrees(Expected(6, f), rows[6]) && Agrees(Expected(7, f), rows[7]) && Agrees(Expected(8, f), rows[8])
    ensures ExpectedAgrees(f, rows)
  {
    forall v: int32 | 0 <= v < 9 ensures Agrees(Expected(v, f), rows[v]) {
      assert v == 0 || v == 1 || v == 2 || v == 3 || v == 4 || v == 5 || v == 6 || v == 7 || v == 8;
    }
  }

  /** A table the integer answers agree with is what the store's find returns. */
  lemma TableAgrees(f: FindFlags, rows: seq<Row>)
    requires |rows| == 9
    requires ExpectedAgrees(f, rows)
    ensures forall v: int32 :: 0 <= v < 9 ==> Agrees(FindIn(Layout(), TK(v), f), rows[v])
  {
    forall v: int32 | 0 <= v < 9 ensures Agrees(FindIn(Layout(), TK(v), f), rows[v]) {
      LayoutFind(v, f);
    }
  }

  /** The HAM_FIND_LEQ_MATCH table. */
  lemma LeqTableHolds()
    ensures forall v: int32 :: 0 <= v < 9 ==> Agrees(FindIn(Layout(), TK(v), FindLeq), LeqRows[v])
  {
    TestRecordValue(1000);
    TestRecordValue(2000);
    TestRecordValue(2001);
    RowByRow(FindLeq, LeqRows);
    TableAgrees(FindLeq, LeqRows);
  }

  /** The HAM_FIND_LT_MATCH table. */
  lemma LtTableHolds()
    ensures forall v: int32 :: 0 <= v < 9 ==> Agrees(FindIn(Layout(), TK(v), FindLt), LtRows[v])
  {
    TestRecordValue(1000);
    TestRecordValue(2000);
    TestRecordValue(2001);
    RowByRow(FindLt, LtRows);
    TableAgrees(FindLt, LtRows);
  }

  /** The HAM_FIND_GEQ_MATCH table. */
  lemma GeqTableHolds()
    ensures forall v: int32 :: 0 <= v < 9 ==> Agrees(FindIn(Layout(), TK(v), FindGeq), GeqRows[v])
  {
    TestRecordValue(1000);
    TestRecordValue(2000);
    TestRecordValue(2001);
    RowByRow(FindGeq, GeqRows);
    TableAgrees(FindGeq, GeqRows);
  }

  /** The HAM_FIND_GT_MATCH table. */
  lemma GtTableHolds()
    ensures forall v: int32 :: 0 <= v < 9 ==> Agrees(FindIn(Layout(), TK(v), FindGt), GtRows[v])
  {
    TestRecordValue(1000);
    TestRecordValue(2000);
    TestRecordValue(2001);
    RowByRow(FindGt, GtRows);
    TableAgrees(FindGt, GtRows);
  }

  /** The HAM_FIND_EXACT_MATCH table. */
  lemma ExactTableHolds()
    ensures forall v: int32 :: 0 <= v < 9 ==> Agrees(FindIn(Layout(), TK(v), FindExact), EqRows[v])
  {
    TestRecordValue(1000);
    TestRecordValue(2000);
    TestRecordValue(2001);
    RowByRow(FindExact, EqRows);
    TableAgrees(FindExact, EqRows);
  }

  /** Mode 0, the default, against the exact-match table. */
  lemma DefaultTableHolds()
    ensures forall v: int32 :: 0 <= v < 9 ==> Agrees(FindIn(Layout(), TK(v), FindDefault), EqRows[v])
  {
    TestRecordValue(1000);
    TestRecordValue(2000);
    TestRecordValue(2001);
    RowByRow(FindDefault, EqRows);
    TableAgrees(FindDefault, EqRows);
  }

  // ---------------------------------------------------------------------------------
  // The second collection: six more keys, then a walk over all nine.

  /** The store holding the values `vals` in this order, `recs[j]` being rec_val1 of the
      record under `vals[j]`. */
  function Built(vals: seq<int32>, recs: seq<nat>): (r: seq<Entry>)
    requires |vals| == |recs| && forall j :: 0 <= j < |recs| ==> recs[j] < 0x1_0000_0000
    ensures |r| == |vals| && forall j :: 0 <= j < |vals| ==> r[j] == Entry(TK(vals[j]), [TestRecord(recs[j])])
  {
    seq(|vals|, j requires 0 <= j < |vals| => Entry(TK(vals[j]), [TestRecord(recs[j])]))
  }

  /** Each value is below the next one. */
  predicate Increasing(vals: seq<int32>)
  {
    forall i :: 0 <= i < |vals| - 1 ==> vals[i] < vals[i + 1]
  }

  predicate RecordValues(recs: seq<nat>)
  {
    forall j :: 0 <= j < |recs| ==> recs[j] < 0x1_0000_0000
  }

  lemma {:induction false} IncreasingOrdered(vals: seq<int32>, i: nat, j: nat)
    requires Increasing(vals) && i < j < |vals|
    ensures vals[i] < vals[j]
    decreases j - i
  {
    if i + 1 < j {
      IncreasingOrdered(vals, i + 1, j);
    }
  }

  lemma BuiltWellFormed(vals: seq<int32>, recs: seq<nat>)
    requires |vals| == |recs| && RecordValues(recs) && Increasing(vals)
    ensures WellFormed(Built(vals, recs))
  {
    var r := Built(vals, recs);
    forall i, j | 0 <= i < j < |r| ensures Less(r[i].key, r[j].key) {
      IncreasingOrdered(vals, i, j);
      CompareTK(vals[i], vals[j]);
    }
  }

  /** Where a value that lies between vals[b-1] and vals[b] belongs. */
  lemma BuiltCountBelow(vals: seq<int32>, recs: seq<nat>, v: int32, b: nat)
    requires |vals| == |recs| && RecordValues(recs) && Increasing(vals)
    requires b <= |vals| && (forall i :: 0 <= i < b ==> vals[i] < v) && (forall i :: b <= i < |vals| ==> v < vals[i])
    ensures WellFormed(Built(vals, recs))
    ensures CountBelow(Built(vals, recs), TK(v)) == b && !Present(Built(vals, recs), TK(v))
  {
    BuiltWellFormed(vals, recs);
    var es := Built(vals, recs);
    forall i | 0 <= i < |es| ensures (Less(es[i].key, TK(v)) <==> i < b) && es[i].key != TK(v) {
      CompareTK(vals[i], v);
    }
    CountBelowIs(es, TK(v), b);
  }

  /** Splicing one entry into a built store builds the spliced lists. */
  lemma BuiltSplice(vals: seq<int32>, recs: seq<nat>, v: int32, val: nat, b: nat)
    requires |vals| == |recs| && RecordValues(recs) && val < 0x1_0000_0000 && b <= |vals|
    ensures RecordValues(recs[..b] + [val] + recs[b..])
    ensures Built(vals, recs)[..b] + [Entry(TK(v), [TestRecord(val)])] + Built(vals, recs)[b..] ==
      Built(vals[..b] + [v] + vals[b..], recs[..b] + [val] + recs[b..])
  {
    var vs, rs := vals[..b] + [v] + vals[b..], recs[..b] + [val] + recs[b..];
    forall j | 0 <= j < |rs| ensures rs[j] < 0x1_0000_0000 && (j != b ==> rs[j] == recs[if j < b then j else j - 1]) {
      if j != b { assert rs[j] == recs[if j < b then j else j - 1]; }
    }
    var es := Built(vals, recs);
    var r := es[..b] + [Entry(TK(v), [TestRecord(val)])] + es[b..];
    forall j | 0 <= j < |vs| ensures r[j] == Built(vs, rs)[j] {
      if j < b {
        assert r[j] == es[j] && vs[j] == vals[j];
      } else if j > b {
        assert r[j] == es[j - 1] && vs[j] == vals[j - 1];
      }
    }
  }

  /** A value that fits between two neighbours of an increasing list is above every value
      before them and below every value after them. */
  lemma Between(vals: seq<int32>, v: int32, b: nat)
    requires Increasing(vals) && b <= |vals|
    requires (b == 0 || vals[b - 1] < v) && (b == |vals| || v < vals[b])
    ensures forall i :: 0 <= i < b ==> vals[i] < v
    ensures forall i :: b <= i < |vals| ==> v < vals[i]
  {
    forall i | 0 <= i < b - 1
      ensures vals[i] < v
    {
      IncreasingOrdered(vals, i, b - 1);
    }
    forall i | b < i < |vals|
      ensures v < vals[i]
    {
      IncreasingOrdered(vals, b, i);
    }
  }

  /** A Put of a value that lies between vals[b-1] and vals[b] adds it there. */
  lemma PutAmong(vals: seq<int32>, recs: seq<nat>, v: int32, val: nat, b: nat)
    requires |vals| == |recs| && RecordValues(recs) && Increasing(vals) && val < 0x1_0000_0000
    requires b <= |vals| && (b == 0 || vals[b - 1] < v) && (b == |vals| || v < vals[b])
    ensures WellFormed(Built(vals, recs))
    ensures RecordValues(recs[..b] + [val] + recs[b..])
    ensures Put(Built(vals, recs), v, val).status == Ok
    ensures Put(Built(vals, recs), v, val).entries == Built(vals[..b] + [v] + vals[b..], recs[..b] + [val] + recs[b..])
  {
    Between(vals, v, b);
    BuiltCountBelow(vals, recs, v, b);
    PutAt(Built(vals, recs), v, val, b);
    BuiltSplice(vals, recs, v, val, b);
  }

  /** The values stored before each round of the loop, and after the last. */
  function StageValues(i: nat): seq<int32>
    requires i <= 6
  {
    [[1, 3, 7], [1, 2, 3, 7], [1, 2, 3, 7, 9], [1, 2, 3, 7, 9, 55], [1, 2, 3, 7, 9, 42, 55],
     [1, 2, 3, 7, 9, 42, 55, 660], [1, 2, 3, 7, 9, 14, 42, 55, 660]][i]
  }

  /** rec_val1 under each of them. */
  function StageRecords(i: nat): seq<nat>
    requires i <= 6
  {
    [[1000, 2001, 2000], [1000, 3000, 2001, 2000], [1000, 3000, 2001, 2000, 3001],
     [1000, 3000, 2001, 2000, 3001, 3002], [1000, 3000, 2001, 2000, 3001, 3003, 3002],
     [1000, 3000, 2001, 2000, 3001, 3003, 3002, 3004],
     [1000, 3000, 2001, 2000, 3001, 3005, 3003, 3002, 3004]][i]
  }

  function Stage(i: nat): (r: seq<Entry>)
    requires i <= 6
    ensures WellFormed(r)
  {
    BuiltWellFormed(StageValues(i), StageRecords(i));
    Built(StageValues(i), StageRecords(i))
  }

  /** vals[3] .. vals[8] of the test: the keys the loop inserts. */
  const MoreValues: seq<int32> := [2, 9, 55, 42, 660, 14]

  // The loop at lines 1045-1057 inserts vals[3] .. vals[8], round i with rec_val1
  // 3000 + i, each by a plain ham_db_insert that must succeed. Each StagePut lemma below is
  // one round: it names the slot the key takes in the sorted store built so far.

  /** Round 0 of the second insertion loop: key 2 lands at slot 1. */
  lemma StagePut0(i: nat)
    requires i == 0
    ensures Put(Stage(i), MoreValues[i], 3000 + i).status == Ok
    ensures Put(Stage(i), MoreValues[i], 3000 + i).entries == Stage(i + 1)
  {
    var vs: seq<int32>, rs: seq<nat> := [1, 3, 7], [1000, 2001, 2000];
    assert StageValues(i) == vs && StageRecords(i) == rs && MoreValues[i] == 2;
    assert StageValues(i + 1) == vs[..1] + [2] + vs[1..];
    assert StageRecords(i + 1) == rs[..1] + [3000] + rs[1..];
    PutAmong(vs, rs, 2, 3000, 1);
  }

  /** Round 1 of the second insertion loop: key 9 lands at slot 4. */
  lemma StagePut1(i: nat)
    requires i == 1
    ensures Put(Stage(i), MoreValues[i], 3000 + i).status == Ok
    ensures Put(Stage(i), MoreValues[i], 3000 + i).entries == Stage(i + 1)
  {
    var vs: seq<int32>, rs: seq<nat> := [1, 2, 3, 7], [1000, 3000, 2001, 2000];
    assert StageValues(i) == vs && StageRecords(i) == rs && MoreValues[i] == 9;
    assert StageValues(i + 1) == vs[..4] + [9] + vs[4..];
    assert StageRecords(i + 1) == rs[..4] + [3001] + rs[4..];
    PutAmong(vs, rs, 9, 3001, 4);
  }

  /** Round 2 of the second insertion loop: key 55 lands at slot 5. */
  lemma StagePut2(i: nat)
    requires i == 2
    ensures Put(Stage(i), MoreValues[i], 3000 + i).status == Ok
    ensures Put(Stage(i), MoreValues[i], 3000 + i).entries == Stage(i + 1)
  {
    var vs: seq<int32>, rs: seq<nat> := [1, 2, 3, 7, 9], [1000, 3000, 2001, 2000, 3001];
    assert StageValues(i) == vs && StageRecords(i) == rs && MoreValues[i] == 55;
    assert StageValues(i + 1) == vs[..5] + [55] + vs[5..];
    assert StageRecords(i + 1) == rs[..5] + [3002] + rs[5..];
    PutAmong(vs, rs, 55, 3002, 5);
  }

  /** Round 3 of the second insertion loop: key 42 lands at slot 5. */
  lemma StagePut3(i: nat)
    requires i == 3
    ensures Put(Stage(i), MoreValues[i], 3000 + i).status == Ok
    ensures Put(Stage(i), MoreValues[i], 3000 + i).entries == Stage(i + 1)
  {
    var vs: seq<int32>, rs: seq<nat> := [1, 2, 3, 7, 9, 55], [1000, 3000, 2001, 2000, 3001, 3002];
    assert StageValues(i) == vs && StageRecords(i) == rs && MoreValues[i] == 42;
    assert StageValues(i + 1) == vs[..5] + [42] + vs[5..];
    assert StageRecords(i + 1) == rs[..5] + [3003] + rs[5..];
    PutAmong(vs, rs, 42, 3003, 5);
  }

  /** Round 4 of the second insertion loop: key 660 lands at slot 7. */
  lemma StagePut4(i: nat)
    requires i == 4
    ensures Put(Stage(i), MoreValues[i], 3000 + i).status == Ok
    ensures Put(Stage(i), MoreValues[i], 3000 + i).entries == Stage(i + 1)
  {
    var vs: seq<int32>, rs: seq<nat> := [1, 2, 3, 7, 9, 42, 55], [1000, 3000, 2001, 2000, 3001, 3003, 3002];
    assert StageValues(i) == vs && StageRecords(i) == rs && MoreValues[i] == 660;
    assert StageValues(i + 1) == vs[..7] + [660] + vs[7..];
    assert StageRecords(i + 1) == rs[..7] + [3004] + rs[7..];
    PutAmong(vs, rs, 660, 3004, 7);
  }

  /** Round 5 of the second insertion loop: key 14 lands at slot 5. */
  lemma StagePut5(i: nat)
    requires i == 5
    ensures Put(Stage(i), MoreValues[i], 3000 + i).status == Ok
    ensures Put(Stage(i), MoreValues[i], 3000 + i).entries == Stage(i + 1)
  {
    var vs: seq<int32>, rs: seq<nat> := [1, 2, 3, 7, 9, 42, 55, 660], [1000, 3000, 2001, 2000, 3001, 3003, 3002, 3004];
    assert StageValues(i) == vs && StageRecords(i) == rs && MoreValues[i] == 14;
    assert StageValues(i + 1) == vs[..5] + [14] + vs[5..];
    assert StageRecords(i + 1) == rs[..5] + [3005] + rs[5..];
    PutAmong(vs, rs, 14, 3005, 5);
  }

  /** Round `i` inserts MoreValues[i] with rec_val1 3000 + i and goes to the next stage. */
  lemma StagePut(i: nat)
    requires i < 6
    ensures Put(Stage(i), MoreValues[i], 3000 + i).status == Ok
    ensures Put(Stage(i), MoreValues[i], 3000 + i).entries == Stage(i + 1)
  {
    if i == 0 {
      StagePut0(i);
    } else if i == 1 {
      StagePut1(i);
    } else if i == 2 {
      StagePut2(i);
    } else if i == 3 {
      StagePut3(i);
    } else if i == 4 {
      StagePut4(i);
    } else {
      StagePut5(i);
    }
  }

  /** The first three insertions leave the first stage. */
  lemma LayoutIsStage()
    ensures Layout() == Stage(0)
  {
    var r := Stage(0);
    assert |r| == 3;
    assert r[0] == Entry(TK(1), [TestRecord(1000)]);
    assert r[1] == Entry(TK(3), [TestRecord(2001)]);
    assert r[2] == Entry(TK(7), [TestRecord(2000)]);
  }

  method InsertMore() returns (es: seq<Entry>, allOk: bool)
    ensures WellFormed(es) && allOk
    ensures es == Built([1, 2, 3, 7, 9, 14, 42, 55, 660], [1000, 3000, 2001, 2000, 3001, 3005, 3003, 3002, 3004])
  {
    LayoutIsStage();
    es := Layout();
    allOk := true;
    var i := 0;
    while i < 6
      invariant 0 <= i <= 6 && allOk && es == Stage(i) && WellFormed(es)
    {
      StagePut(i);
      var r := Put(es, MoreValues[i], 3000 + i);
      allOk := allOk && r.status == Ok;
      es := r.entries;
      i := i + 1;
    }
  }

  /** The walk over a built store: the `i`-th NEXT from nil reaches vals[i], whose record
      holds recs[i], and the move after the last finds nothing. */
  lemma BuiltWalk(vals: seq<int32>, recs: seq<nat>, i: nat)
    requires |vals| == |recs| && RecordValues(recs) && Increasing(vals) && i <= |vals|
    ensures WellFormed(Built(vals, recs))
    ensures i < |vals| ==> WalkNext(Built(vals, recs), None, i + 1) == Some(Pos(TK(vals[i]), 0))
    ensures i < |vals| ==> U32Value(RecordAt(Built(vals, recs), Pos(TK(vals[i]), 0))[..4]) == recs[i]
    ensures i == |vals| ==> WalkNext(Built(vals, recs), None, i + 1) == None
  {
    var es := Built(vals, recs);
    BuiltWellFormed(vals, recs);
    WalkSingles(es, i);
    if i < |vals| {
      IndexOfEntry(es, i);
      TestRecordValue(recs[i]);
    }
  }

  /** The final walk: the `i`-th NEXT from nil reaches the `i`-th of 1, 2, 3, 7, 9, 14,
      42, 55, 660 with the record it was inserted with (rec_val1 1000, 3000, 2001, ...), and the
      tenth move finds nothing. */
  lemma CollectionWalk(i: nat)
    requires i <= 9
    ensures i < 9 ==> WalkNext(Stage(6), None, i + 1) == Some(Pos(TK(StageValues(6)[i]), 0))
    ensures i < 9 ==> U32Value(RecordAt(Stage(6), Pos(TK(StageValues(6)[i]), 0))[..4]) == StageRecords(6)[i]
    ensures i == 9 ==> WalkNext(Stage(6), None, 10) == None
  {
    var vs, rs := StageValues(6), StageRecords(6);
    assert vs == [1, 2, 3, 7, 9, 14, 42, 55, 660];
    assert rs == [1000, 3000, 2001, 2000, 3001, 3005, 3003, 3002, 3004];
    BuiltWalk(vs, rs, i);
  }
}
