/** What the stress test of approximate matching expects: a database filled through a
    cursor with the keys 0, 2, 4, ..., 2(n-1) (record value 100i under key 2i), walked in
    order, and then searched for every multiple of three around that range in each match
    mode, the expected answers being worked out by the test with integer arithmetic. */
module NearFindStressTest {
  import opened Codes
  import opened KeyCompare
  import opened Entries
  import opened Positions
  import opened Find
  import opened Flags
  import opened Store
  import opened Database

  /** RECORD_COUNT_PER_DB of the release build; the debug build uses 20000. */
  const RecordCountPerDb := 50000

  /** The test's key (my_key_t, 16 bytes): the signed value val1, then three zero words. */
  function SK(v: int32): Key
  {
    RawKey(16, [v, 0, 0, 0])
  }

  /** These keys are ordered by their values. */
  lemma CompareSK(a: int32, b: int32)
    ensures Compare(SK(a), SK(b)) == if a < b then -1 else if a > b then 1 else 0
    ensures SK(a) == SK(b) <==> a == b
  {
    CompareByFirstWord(SK(a), SK(b));
  }

  /** The fifteen zero words after val1 in my_rec_t. */
  function Padding(): (z: seq<byte>)
    ensures |z| == 60
  {
    seq(60, i => 0 as byte)
  }

  /** The test's record (my_rec_t, 64 bytes) with val1 = `val`. */
  function SR(val: nat): Record
    requires val < 0x8000_0000
  {
    U32Bytes(val) + Padding()
  }

  /** val1 reads back from the first four bytes. */
  lemma SRValue(val: nat)
    requires val < 0x8000_0000
    ensures |SR(val)| == 64 && U32Value(SR(val)[..4]) == val
  {
    assert SR(val)[..4] == U32Bytes(val);
    U32RoundTrip(val);
  }

  /** The entry the insert loop makes in round `i`: key 2i with the one record 100i. */
  function EvenEntry(i: nat): Entry
    requires i < RecordCountPerDb
  {
    Entry(SK((2 * i) as int32), [SR(100 * i)])
  }

  /** Entries made in earlier rounds sort first. */
  lemma EvenEntriesOrdered(i: nat, j: nat)
    requires i < j < RecordCountPerDb
    ensures Less(EvenEntry(i).key, EvenEntry(j).key)
  {
    CompareSK((2 * i) as int32, (2 * j) as int32);
  }

  lemma EvenSorted(r: seq<Entry>)
    requires |r| <= RecordCountPerDb
    requires forall i :: 0 <= i < |r| ==> r[i] == EvenEntry(i)
    ensures WellFormed(r)
  {
    forall i, j | 0 <= i < j < |r| ensures Less(r[i].key, r[j].key) {
      EvenEntriesOrdered(i, j);
    }
  }

  /** The content after `n` rounds of the insert loop. */
  function EvenStore(n: nat): (r: seq<Entry>)
    requires n <= RecordCountPerDb
    ensures |r| == n && forall i :: 0 <= i < n ==> r[i] == EvenEntry(i)
    ensures WellFormed(r)
  {
    var r := seq(n, i requires 0 <= i < n => EvenEntry(i));
    EvenSorted(r);
    r
  }

  /** One more round appends the next entry. */
  lemma EvenStoreGrows(n: nat)
    requires n < RecordCountPerDb
    ensures EvenStore(n + 1) == EvenStore(n) + [EvenEntry(n)]
  {
    assert EvenStore(n + 1)[..n] == EvenStore(n);
  }

  // ---------------------------------------------------------------------------------
  // Filling the database.

  /** A cursor insert of the next key is accepted and appends it. */
  lemma InsertNext(n: nat, c: Option<Pos>)
    requires n < RecordCountPerDb
    ensures InsertInto(EvenStore(n), EvenEntry(n).key, SR(100 * n), PlainInsert, c) ==
      Inserted(Ok, EvenStore(n + 1), Some(Pos(EvenEntry(n).key, 0)), None)
  {
    var es := EvenStore(n);
    var k := EvenEntry(n).key;
    forall i | 0 <= i < n ensures Less(es[i].key, k) && es[i].key != k {
      EvenEntriesOrdered(i, n);
      LessTotal(k, k);
    }
    assert !Present(es, k);
    var b := CountBelow(es, k);
    EvenStoreGrows(n);
    assert es[..n] + [EvenEntry(n)] + es[n..] == EvenStore(n + 1);
  }

  /** The insert loop of the test: `n` ham_cursor_insert calls with flags 0 through one
      cursor on a fresh database without duplicates; every call returns 0 and the
      content is then EvenStore(n). */
  method FillDatabase(n: nat) returns (db: Db, c: Cursor, allOk: bool)
    requires n <= RecordCountPerDb
    ensures fresh(db) && fresh(c)
    ensures db.Valid() && c in db.cursors && c.db == db && !db.dupsEnabled
    ensures allOk && db.entries == EvenStore(n)
  {
    db := new Db(false, false);
    c := new Cursor(db);
    allOk := true;
    var i := 0;
    while i < n
      invariant 0 <= i <= n
      invariant db.Valid() && c in db.cursors && c.db == db && !db.dupsEnabled
      invariant allOk && db.entries == EvenStore(i)
    {
      InsertNext(i, c.pos);
      var st := c.Insert(EvenEntry(i).key, SR(100 * i), PlainInsert, true, true);
      allOk := allOk && st == Ok;
      i := i + 1;
    }
  }

  /** The second loop of the test: NEXT from a nil cursor reaches key 2i with record
      100i in round i, and the move after the last key is KEY_NOT_FOUND. */
  lemma EvenWalk(n: nat, i: nat)
    requires n <= RecordCountPerDb && i <= n
    ensures i < n ==> WalkNext(EvenStore(n), None, i + 1) == Some(Pos(EvenEntry(i).key, 0))
    ensures i < n ==> RecordAt(EvenStore(n), Pos(EvenEntry(i).key, 0)) == SR(100 * i)
    ensures i == n ==> WalkNext(EvenStore(n), None, n + 1) == None
  {
    var es := EvenStore(n);
    WalkSingles(es, i);
    if i < n {
      IndexOfEntry(es, i);
    }
  }

  // ---------------------------------------------------------------------------------
  // Where a query value lands.

  function Min(a: int, b: int): int { if a < b then a else b }

  function Max(a: int, b: int): int { if a < b then b else a }

  /** How many of the keys 0, 2, ..., 2(n-1) are below `q`. */
  function BelowCount(n: nat, q: int): (c: nat)
    ensures c <= n
  {
    if q <= 0 then 0 else Min(n, (q + 1) / 2)
  }

  /** The query values the searches use: the test's multiples of three lie well inside. */
  predicate InQueryRange(q: int32)
  {
    -0x4000_0000 <= q <= 0x4000_0000
  }

  lemma EvenCountBelow(n: nat, q: int32)
    requires 1 <= n <= RecordCountPerDb && InQueryRange(q)
    ensures CountBelow(EvenStore(n), SK(q)) == BelowCount(n, q as int)
  {
    var es := EvenStore(n);
    var c := BelowCount(n, q as int);
    assert c == 0 || 2 * (c - 1) < q as int;
    assert c < n ==> 2 * c >= q as int;
    forall i | 0 <= i < c ensures Less(es[i].key, SK(q)) {
      CompareSK((2 * i) as int32, q);
    }
    if c < n {
      CompareSK((2 * c) as int32, q);
    }
    CountBelowIs(es, SK(q), c);
  }

  // ---------------------------------------------------------------------------------
  // The answers the test expects, as it computes them.

  /** lower_bound_of_range and upper_bound_of_range: the smallest and the largest key. */
  const LowerBound := 0

  function UpperBound(n: nat): int { 2 * (n - 1) }

  function Abs(x: int): nat { if x < 0 then -x else x }

  /** C's `a % 2`: the remainder of a division that truncates toward zero, so it takes
      the sign of `a`. */
  function CRem2(a: int): (r: int)
    ensures -2 < r < 2 && (a - r) % 2 == 0
    ensures a >= 0 ==> r >= 0
    ensures a < 0 ==> r <= 0
  {
    if a >= 0 then a % 2 else -((-a) % 2)
  }

  /** abs(x % 2) in C is the parity of `x`, whatever its sign. */
  lemma CParity(x: int)
    ensures Abs(CRem2(x)) == x % 2
  {
  }

  /** abs(x) % 2 is the parity of `x` as well. */
  lemma AbsParity(x: int)
    ensures Abs(x) % 2 == x % 2
  {
    if x < 0 {
      var h := x / 2;
      assert x == 2 * h + x % 2;
      assert -x == 2 * (-h - x % 2) + x % 2;
    }
  }

  /** Rounding to an even value. */
  lemma EvenRounding(x: int, b: int)
    requires b % 2 == 0
    ensures (x - x % 2 - b) % 2 == 0 && (x + x % 2 - b) % 2 == 0
  {
    var h := x / 2;
    assert x == 2 * h + x % 2;
    assert b == 2 * (b / 2);
    assert x - x % 2 - b == 2 * (h - b / 2);
    assert x + x % 2 - b == 2 * (h - b / 2 + x % 2);
  }

  /** The greatest even value at most `q`, or `ub` when that is smaller. */
  function LeKey(q: int, ub: int): int { Min(q - q % 2, ub) }

  /** The greatest even value below `q`, or `ub` when that is smaller. */
  function LtKey(q: int, ub: int): int { Min((q - 1) - (q - 1) % 2, ub) }

  /** The least even value at least `q`, or `lb` when that is greater. */
  function GeKey(q: int, lb: int): int { Max(q + q % 2, lb) }

  /** The least even value above `q`, or `lb` when that is greater. */
  function GtKey(q: int, lb: int): int { Max((q + 1) + (q + 1) % 2, lb) }

  /** The test's expectations for one query: whether an exact match exists, and the key
      the LEQ/LT/GEQ/GT searches should find together with whether it exists. */
  datatype Expectation = Expectation(eq: bool, le: int, leOk: bool, lt: int, ltOk: bool,
                                     ge: int, geOk: bool, gt: int, gtOk: bool)

  /** The expectations in closed form: the nearest even value on the asked side, pulled
      back into [lb, ub] when it lies outside. */
  function Expect(q: int, lb: int, ub: int): Expectation
  {
    var le := LeKey(q, ub);
    var lt := LtKey(q, ub);
    var ge := GeKey(q, lb);
    var gt := GtKey(q, lb);
    Expectation(q % 2 == 0 && lb <= q <= ub,
                le, lb <= le <= ub, lt, lb <= lt <= ub,
                ge, lb <= ge <= ub, gt, lb <= gt <= ub)
  }

  /** `while (v > ub) v -= 2;` */
  method StepDown(start: int, ub: int) returns (v: int)
    requires (start - ub) % 2 == 0
    ensures v == Min(start, ub)
  {
    v := start;
    while v > ub
      invariant v == start || (ub <= v < start && (v - ub) % 2 == 0)
      invariant (v - ub) % 2 == 0
      decreases v - ub
    {
      v := v - 2;
    }
  }

  /** `while (v < lb) v += 2;` */
  method StepUp(start: int, lb: int) returns (v: int)
    requires (start - lb) % 2 == 0
    ensures v == Max(start, lb)
  {
    v := start;
    while v < lb
      invariant v == start || (start < v <= lb && (lb - v) % 2 == 0)
      invariant (lb - v) % 2 == 0
      decreases lb - v
    {
      v := v + 2;
    }
  }

  /** The test's le_keyval and lt_keyval: the even value at or below `q` and the one
      below `q`, each stepped down to `ub` while above it. */
  method KeysBelow(q: int, ub: int) returns (le: int, lt: int)
    requires ub % 2 == 0
    ensures le == LeKey(q, ub) && lt == LtKey(q, ub)
  {
    CParity(q);
    AbsParity(q - 1);
    EvenRounding(q, ub);
    EvenRounding(q - 1, ub);
    le := StepDown(q - Abs(CRem2(q)), ub);
    lt := StepDown((q - 1) - Abs(q - 1) % 2, ub);
  }

  /** The test's ge_keyval and gt_keyval: the even value at or above `q` and the one
      above `q`, each stepped up to `lb` while below it. */
  method KeysAbove(q: int, lb: int) returns (ge: int, gt: int)
    requires lb % 2 == 0
    ensures ge == GeKey(q, lb) && gt == GtKey(q, lb)
  {
    CParity(q);
    AbsParity(q + 1);
    EvenRounding(q, lb);
    EvenRounding(q + 1, lb);
    ge := StepUp(q + Abs(CRem2(q)), lb);
    gt := StepUp((q + 1) + Abs(q + 1) % 2, lb);
  }

  /** The test's computation of the expectations for `looking_for` = `q`. */
  method ExpectedFor(q: int, lb: int, ub: int) returns (e: Expectation)
    requires lb % 2 == 0 && ub % 2 == 0
    ensures e == Expect(q, lb, ub)
  {
    var eq := q % 2 == 0 && q >= lb && q <= ub;
    var le, lt := KeysBelow(q, ub);
    var ge, gt := KeysAbove(q, lb);
    e := Expectation(eq, le, lb <= le <= ub, lt, lb <= lt <= ub,
                     ge, lb <= ge <= ub, gt, lb <= gt <= ub);
  }

  // ---------------------------------------------------------------------------------
  // The store's answers against the expectations.

  /** Whether the query hits a stored key: `q` is one of 0, 2, ..., 2(n-1). */
  predicate Hit(n: nat, q: int)
  {
    var b := BelowCount(n, q);
    b < n && 2 * b == q
  }

  /** Index of the first stored key above `q`. */
  function AboveIndex(n: nat, q: int): nat
  {
    if Hit(n, q) then BelowCount(n, q) + 1 else BelowCount(n, q)
  }

  /** How the test's expected keys relate to where the query lands among the stored keys. */
  lemma Landing(n: nat, q: int)
    requires n >= 1
    ensures Hit(n, q) <==> q % 2 == 0 && 0 <= q <= UpperBound(n)
    ensures BelowCount(n, q) > 0 <==> q > 0
    ensures BelowCount(n, q) > 0 ==> 2 * (BelowCount(n, q) - 1) == LtKey(q, UpperBound(n))
    ensures AboveIndex(n, q) < n <==> q < UpperBound(n)
    ensures AboveIndex(n, q) < n ==> 2 * AboveIndex(n, q) == GtKey(q, LowerBound)
    ensures LtKey(q, UpperBound(n)) <= UpperBound(n) && (LtKey(q, UpperBound(n)) >= 0 <==> q > 0)
    ensures GtKey(q, LowerBound) >= 0 && (GtKey(q, LowerBound) <= UpperBound(n) <==> q < UpperBound(n))
    ensures LeKey(q, UpperBound(n)) >= 0 <==> q >= 0
    ensures GeKey(q, LowerBound) <= UpperBound(n) <==> q <= UpperBound(n)
    ensures Hit(n, q) ==> LeKey(q, UpperBound(n)) == q && GeKey(q, LowerBound) == q
    ensures !Hit(n, q) && q > 0 ==> LeKey(q, UpperBound(n)) == LtKey(q, UpperBound(n))
    ensures !Hit(n, q) && q < UpperBound(n) ==> GeKey(q, LowerBound) == GtKey(q, LowerBound)
  {
    var ub := UpperBound(n);
    var h := q / 2;
    assert q == 2 * h + q % 2;
    assert q - 1 == 2 * (h - 1 + q % 2) + (1 - q % 2);
    assert (q - 1) % 2 == 1 - q % 2;
    assert q + 1 == 2 * (h + q % 2) + (1 - q % 2);
    assert (q + 1) % 2 == 1 - q % 2;
    if q > 0 {
      assert (q + 1) / 2 == h + q % 2;
    }
  }

  /** What the test reads back from a find: the status it expects, val1 of the key
      structure (the query itself when nothing was found) and val1 of the record, which
      is 50 times the key for every stored entry; no record when nothing was found. */
  predicate Sees(r: FindReply, q: int32, found: bool, keyval: int)
  {
    r.status == (if found then Ok else KeyNotFound) &&
    |r.key.words| > 0 && r.key.words[0] as int == (if found then keyval else q as int) &&
    if found then r.record.Some? && |r.record.value| >= 4 && U32Value(r.record.value[..4]) == 50 * keyval
    else r.record.None?
  }

  /** The stored entry `i` as a find reports it. */
  lemma SeesEntry(n: nat, i: nat, q: int32, r: FindReply)
    requires i < n <= RecordCountPerDb
    requires r.status == Ok && r.key == EvenStore(n)[i].key && r.record == Some(EvenStore(n)[i].records[0])
    ensures Sees(r, q, true, 2 * i)
  {
    SRValue(100 * i);
  }

  /** Where FindIn lands on the filled store, in terms of the query value alone. */
  function StoreAnswer(n: nat, q: int, f: FindFlags): (bool, int)
  {
    if Hit(n, q) && AcceptsExact(f) then (true, q)
    else if f.lt && BelowCount(n, q) > 0 then (true, 2 * (BelowCount(n, q) - 1))
    else if f.gt && AboveIndex(n, q) < n then (true, 2 * AboveIndex(n, q))
    else (false, q)
  }

  /** Where the query key sits in the filled store. */
  lemma StoreLanding(n: nat, q: int32)
    requires 1 <= n <= RecordCountPerDb && InQueryRange(q)
    ensures CountBelow(EvenStore(n), SK(q)) == BelowCount(n, q as int)
    ensures (BelowCount(n, q as int) < n && EvenStore(n)[BelowCount(n, q as int)].key == SK(q)) <==> Hit(n, q as int)
    ensures Above(EvenStore(n), SK(q)) == AboveIndex(n, q as int)
  {
    EvenCountBelow(n, q);
    var b := BelowCount(n, q as int);
    if b < n {
      CompareSK((2 * b) as int32, q);
    }
  }

  /** The generic find on a sorted store, one branch at a time. */
  lemma FindBranch(es: seq<Entry>, q: Key, f: FindFlags)
    requires WellFormed(es)
    ensures var b := CountBelow(es, q); var r := FindIn(es, q, f);
      if b < |es| && es[b].key == q && AcceptsExact(f) then r.status == Ok && r.key == es[b].key && r.record == Some(es[b].records[0])
      else if f.lt && b > 0 then r.status == Ok && r.key == es[b - 1].key && r.record == Some(es[b - 1].records[0])
      else if f.gt && Above(es, q) < |es| then
        r.status == Ok && r.key == es[Above(es, q)].key && r.record == Some(es[Above(es, q)].records[0])
      else r == FindReply(KeyNotFound, q, None, 0)
  {
  }

  /** The find hands back the entry `i` of the filled store. */
  lemma AnswerAt(n: nat, q: int32, f: FindFlags, i: nat)
    requires i < n <= RecordCountPerDb
    requires FindIn(EvenStore(n), SK(q), f).status == Ok
    requires FindIn(EvenStore(n), SK(q), f).key == EvenStore(n)[i].key
    requires FindIn(EvenStore(n), SK(q), f).record == Some(EvenStore(n)[i].records[0])
    ensures Sees(FindIn(EvenStore(n), SK(q), f), q, true, 2 * i)
  {
    SeesEntry(n, i, q, FindIn(EvenStore(n), SK(q), f));
  }

  /** The find on the filled store in terms of the query value: StoreAnswer says whether
      it succeeds and which value's entry it hands back. */
  lemma StoreAnswers(n: nat, q: int32, f: FindFlags)
    requires 1 <= n <= RecordCountPerDb && InQueryRange(q)
    ensures Sees(FindIn(EvenStore(n), SK(q), f), q, StoreAnswer(n, q as int, f).0, StoreAnswer(n, q as int, f).1)
  {
    var b := BelowCount(n, q as int);
    var a := AboveIndex(n, q as int);
    if Hit(n, q as int) && AcceptsExact(f) {
      AnswerHit(n, q, f);
    } else if f.lt && b > 0 {
      AnswerBelow(n, q, f);
    } else if f.gt && a < n {
      AnswerAbove(n, q, f);
    } else {
      AnswerMiss(n, q, f);
    }
  }

  /** The query is stored and an exact hit is acceptable: the entry itself. */
  lemma AnswerHit(n: nat, q: int32, f: FindFlags)
    requires 1 <= n <= RecordCountPerDb && InQueryRange(q)
    requires Hit(n, q as int) && AcceptsExact(f)
    ensures Sees(FindIn(EvenStore(n), SK(q), f), q, true, q as int)
  {
    StoreLanding(n, q);
    FindBranch(EvenStore(n), SK(q), f);
    AnswerAt(n, q, f, BelowCount(n, q as int));
  }

  /** Otherwise, with LT set and a key below: the entry just below. */
  lemma AnswerBelow(n: nat, q: int32, f: FindFlags)
    requires 1 <= n <= RecordCountPerDb && InQueryRange(q)
    requires !(Hit(n, q as int) && AcceptsExact(f)) && f.lt && BelowCount(n, q as int) > 0
    ensures Sees(FindIn(EvenStore(n), SK(q), f), q, true, 2 * (BelowCount(n, q as int) - 1))
  {
    StoreLanding(n, q);
    FindBranch(EvenStore(n), SK(q), f);
    AnswerAt(n, q, f, BelowCount(n, q as int) - 1);
  }

  /** Otherwise, with GT set and a key above: the entry just above. */
  lemma AnswerAbove(n: nat, q: int32, f: FindFlags)
    requires 1 <= n <= RecordCountPerDb && InQueryRange(q)
    requires !(Hit(n, q as int) && AcceptsExact(f)) && !(f.lt && BelowCount(n, q as int) > 0) && f.gt && AboveIndex(n, q as int) < n
    ensures Sees(FindIn(EvenStore(n), SK(q), f), q, true, 2 * AboveIndex(n, q as int))
  {
    StoreLanding(n, q);
    FindBranch(EvenStore(n), SK(q), f);
    AnswerAt(n, q, f, AboveIndex(n, q as int));
  }

  /** Otherwise a miss: the key structure still holds the query. */
  lemma AnswerMiss(n: nat, q: int32, f: FindFlags)
    requires 1 <= n <= RecordCountPerDb && InQueryRange(q)
    requires !(Hit(n, q as int) && AcceptsExact(f)) && !(f.lt && BelowCount(n, q as int) > 0) && !(f.gt && AboveIndex(n, q as int) < n)
    ensures Sees(FindIn(EvenStore(n), SK(q), f), q, false, q as int)
  {
    StoreLanding(n, q);
    FindBranch(EvenStore(n), SK(q), f);
  }

  // The checks of the search loop: for each match mode, the status, the key and the
  // record the test expects are what the find hands back.

  /** The find with flags 0: an exact match exactly when the query is stored; the key stays the query. */
  lemma ExactFindMeetsExpectation(n: nat, q: int32)
    requires 1 <= n <= RecordCountPerDb && InQueryRange(q)
    ensures var e := Expect(q as int, LowerBound, UpperBound(n));
      Sees(FindIn(EvenStore(n), SK(q), FindDefault), q, e.eq, q as int)
  {
    Landing(n, q as int);
    StoreAnswers(n, q, FindDefault);
  }

  /** HAM_FIND_LT_MATCH: the test's lt_keyval, when it lies in range. */
  lemma LtFindMeetsExpectation(n: nat, q: int32)
    requires 1 <= n <= RecordCountPerDb && InQueryRange(q)
    ensures var e := Expect(q as int, LowerBound, UpperBound(n));
      Sees(FindIn(EvenStore(n), SK(q), FindLt), q, e.ltOk, e.lt)
  {
    Landing(n, q as int);
    StoreAnswers(n, q, FindLt);
  }

  /** HAM_FIND_GT_MATCH: the test's gt_keyval, when it lies in range. */
  lemma GtFindMeetsExpectation(n: nat, q: int32)
    requires 1 <= n <= RecordCountPerDb && InQueryRange(q)
    ensures var e := Expect(q as int, LowerBound, UpperBound(n));
      Sees(FindIn(EvenStore(n), SK(q), FindGt), q, e.gtOk, e.gt)
  {
    Landing(n, q as int);
    StoreAnswers(n, q, FindGt);
  }

  /** HAM_FIND_LEQ_MATCH: the test's le_keyval, when it lies in range. */
  lemma LeqFindMeetsExpectation(n: nat, q: int32)
    requires 1 <= n <= RecordCountPerDb && InQueryRange(q)
    ensures var e := Expect(q as int, LowerBound, UpperBound(n));
      Sees(FindIn(EvenStore(n), SK(q), FindLeq), q, e.leOk, e.le)
  {
    Landing(n, q as int);
    StoreAnswers(n, q, FindLeq);
  }

  /** HAM_FIND_GEQ_MATCH: the test's ge_keyval, when it lies in range. */
  lemma GeqFindMeetsExpectation(n: nat, q: int32)
    requires 1 <= n <= RecordCountPerDb && InQueryRange(q)
    ensures var e := Expect(q as int, LowerBound, UpperBound(n));
      Sees(FindIn(EvenStore(n), SK(q), FindGeq), q, e.geOk, e.ge)
  {
    Landing(n, q as int);
    StoreAnswers(n, q, FindGeq);
  }

  /** HAM_FIND_NEAR_MATCH: found when le_keyval or ge_keyval is in range; the test accepts
      either side, and the key is le_keyval whenever that one is in range. */
  lemma NearFindMeetsExpectation(n: nat, q: int32)
    requires 1 <= n <= RecordCountPerDb && InQueryRange(q)
    ensures var e := Expect(q as int, LowerBound, UpperBound(n));
      Sees(FindIn(EvenStore(n), SK(q), FindNear), q, e.leOk || e.geOk, if e.leOk then e.le else e.ge)
  {
    Landing(n, q as int);
    StoreAnswers(n, q, FindNear);
  }

  /** HAM_FIND_LT_MATCH | HAM_FIND_GT_MATCH: found when lt_keyval or gt_keyval is in range;
      the test accepts either side, and the key is lt_keyval whenever that one is in range. */
  lemma LtOrGtFindMeetsExpectation(n: nat, q: int32)
    requires 1 <= n <= RecordCountPerDb && InQueryRange(q)
    ensures var e := Expect(q as int, LowerBound, UpperBound(n));
      Sees(FindIn(EvenStore(n), SK(q), FindLtOrGt), q, e.ltOk || e.gtOk, if e.ltOk then e.lt else e.gt)
  {
    Landing(n, q as int);
    StoreAnswers(n, q, FindLtOrGt);
  }
}
