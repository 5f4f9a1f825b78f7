/** Cursor positions over the store content. A cursor is either nil or stands on one
    record: a key together with the index of one of its duplicates. Traversal order is key
    order, and within a key the order of its duplicate list. */
module Positions {
  import opened Codes
  import opened KeyCompare
  import opened Entries

  datatype Pos = Pos(key: Key, dup: nat)

  /** `p` names an existing record. */
  predicate ValidPos(es: seq<Entry>, p: Pos)
  {
    var i := IndexOf(es, p.key);
    i >= 0 && p.dup < |es[i].records|
  }

  /** A cursor is nil or on an existing record. */
  predicate PosOk(es: seq<Entry>, c: Option<Pos>)
  {
    c.None? || ValidPos(es, c.value)
  }

  /** The record a cursor at `p` reads. */
  function RecordAt(es: seq<Entry>, p: Pos): Record
    requires ValidPos(es, p)
  {
    es[IndexOf(es, p.key)].records[p.dup]
  }

  // ---------------------------------------------------------------------------------
  // The four moves (HAM_CURSOR_FIRST, LAST, NEXT, PREVIOUS).

  /** The first duplicate of the smallest key. */
  function FirstPos(es: seq<Entry>): (r: Option<Pos>)
    requires WellFormed(es)
    ensures r.None? <==> es == []
    ensures r.Some? ==> (ValidPos(es, r.value) && r.value.dup == 0 &&
      forall k :: Present(es, k) ==> LessEq(r.value.key, k))
  {
    if es == [] then None
    else
      IndexOfEntry(es, 0);
      forall k | Present(es, k) ensures LessEq(es[0].key, k) {
        var j := IndexOf(es, k);
        if j > 0 { assert Less(es[0].key, es[j].key); }
        else { CompareZeroIffEqual(k, k); }
      }
      Some(Pos(es[0].key, 0))
  }

  /** The last duplicate of the largest key. */
  function LastPos(es: seq<Entry>): (r: Option<Pos>)
    requires WellFormed(es)
    ensures r.None? <==> es == []
    ensures r.Some? ==> (ValidPos(es, r.value) &&
      r.value.dup == |Lookup(es, r.value.key).value| - 1 &&
      forall k :: Present(es, k) ==> LessEq(k, r.value.key))
  {
    if es == [] then None
    else
      var n := |es| - 1;
      IndexOfEntry(es, n);
      forall k | Present(es, k) ensures LessEq(k, es[n].key) {
        var j := IndexOf(es, k);
        if j < n { assert Less(es[j].key, es[n].key); }
        else { CompareZeroIffEqual(k, k); }
      }
      Some(Pos(es[n].key, |es[n].records| - 1))
  }

  /** The next duplicate of the same key, or else the first duplicate of the next key. */
  function NextPos(es: seq<Entry>, p: Pos): (r: Option<Pos>)
    requires WellFormed(es) && ValidPos(es, p)
    ensures r.Some? ==> ValidPos(es, r.value)
    ensures r.Some? && r.value.key == p.key ==> r.value.dup == p.dup + 1
    ensures r.Some? && r.value.key != p.key ==>
      r.value.dup == 0 && p.dup == |Lookup(es, p.key).value| - 1 && Less(p.key, r.value.key) &&
      forall k :: Present(es, k) && Less(p.key, k) ==> LessEq(r.value.key, k)
    ensures r.None? <==>
      p.dup == |Lookup(es, p.key).value| - 1 && forall k :: Present(es, k) ==> !Less(p.key, k)
  {
    var i := IndexOf(es, p.key);
    if p.dup + 1 < |es[i].records| then Some(Pos(p.key, p.dup + 1))
    else if i + 1 < |es| then
      IndexOfEntry(es, i + 1);
      forall k | Present(es, k) && Less(p.key, k) ensures LessEq(es[i + 1].key, k) {
        var j := IndexOf(es, k);
        if j < i { assert Less(es[j].key, es[i].key); LessTransitive(k, p.key, k); LessTotal(k, k); }
        else if j == i { LessTotal(k, k); }
        else if j > i + 1 { assert Less(es[i + 1].key, es[j].key); }
        else { CompareZeroIffEqual(k, k); }
      }
      assert Less(es[i].key, es[i + 1].key);
      LessTotal(es[i].key, es[i + 1].key);
      Some(Pos(es[i + 1].key, 0))
    else
      forall k | Present(es, k) ensures !Less(p.key, k) {
        var j := IndexOf(es, k);
        if j < i { assert Less(es[j].key, es[i].key); LessTotal(k, p.key); }
        else { LessTotal(k, k); }
      }
      None
  }

  /** The previous duplicate of the same key, or else the last duplicate of the previous key. */
  function PrevPos(es: seq<Entry>, p: Pos): (r: Option<Pos>)
    requires WellFormed(es) && ValidPos(es, p)
    ensures r.Some? ==> ValidPos(es, r.value)
    ensures r.Some? && r.value.key == p.key ==> r.value.dup + 1 == p.dup
    ensures r.Some? && r.value.key != p.key ==>
      p.dup == 0 && r.value.dup == |Lookup(es, r.value.key).value| - 1 && Less(r.value.key, p.key) &&
      forall k :: Present(es, k) && Less(k, p.key) ==> LessEq(k, r.value.key)
    ensures r.None? <==> p.dup == 0 && forall k :: Present(es, k) ==> !Less(k, p.key)
  {
    var i := IndexOf(es, p.key);
    if p.dup > 0 then Some(Pos(p.key, p.dup - 1))
    else if i > 0 then
      IndexOfEntry(es, i - 1);
      forall k | Present(es, k) && Less(k, p.key) ensures LessEq(k, es[i - 1].key) {
        var j := IndexOf(es, k);
        if j > i { assert Less(es[i].key, es[j].key); LessTransitive(k, p.key, k); LessTotal(k, k); }
        else if j == i { LessTotal(k, k); }
        else if j < i - 1 { assert Less(es[j].key, es[i - 1].key); }
        else { CompareZeroIffEqual(k, k); }
      }
      assert Less(es[i - 1].key, es[i].key);
      LessTotal(es[i - 1].key, es[i].key);
      Some(Pos(es[i - 1].key, |es[i - 1].records| - 1))
    else
      forall k | Present(es, k) ensures !Less(k, p.key) {
        var j := IndexOf(es, k);
        if j > i { assert Less(es[i].key, es[j].key); LessTotal(k, p.key); }
        else { LessTotal(k, k); }
      }
      None
  }

  // ---------------------------------------------------------------------------------
  // An independent description of traversal: the records numbered in order.

  /** The position of the `n`-th record (from 0) in key order, duplicates in list order. */
  function PosAt(es: seq<Entry>, n: nat): Option<Pos>
  {
    if es == [] then None
    else if n < |es[0].records| then Some(Pos(es[0].key, n))
    else PosAt(es[1..], n - |es[0].records|)
  }

  /** The number of a position: the records of all smaller keys come before it. */
  function Rank(es: seq<Entry>, p: Pos): nat
    requires ValidPos(es, p)
  {
    RecordCount(es[..IndexOf(es, p.key)]) + p.dup
  }

  lemma RecordCountSnoc(es: seq<Entry>, i: nat)
    requires i < |es|
    ensures RecordCount(es[..i + 1]) == RecordCount(es[..i]) + |es[i].records|
  {
    assert es[..i + 1] == es[..i] + [es[i]];
    RecordCountAppend(es[..i], [es[i]]);
    assert [es[i]][1..] == [];
  }

  lemma SortedTail(es: seq<Entry>)
    requires Sorted(es) && es != []
    ensures Sorted(es[1..])
  {
    forall a, b | 0 <= a < b < |es[1..]| ensures Less(es[1..][a].key, es[1..][b].key) {
      assert es[1..][a] == es[a + 1] && es[1..][b] == es[b + 1];
    }
  }

  /** Duplicate `d` of the entry at index `i` is record number RecordCount(es[..i]) + d. */
  lemma {:induction false} PosAtIndex(es: seq<Entry>, i: nat, d: nat)
    requires i < |es| && d < |es[i].records|
    ensures PosAt(es, RecordCount(es[..i]) + d) == Some(Pos(es[i].key, d))
    decreases i
  {
    if i == 0 {
      assert es[..0] == [];
    } else {
      assert es[..i][0] == es[0];
      assert es[..i][1..] == es[1..][..i - 1];
      assert es[1..][i - 1] == es[i];
      PosAtIndex(es[1..], i - 1, d);
    }
  }

  /** There are exactly RecordCount(es) records to number. */
  lemma {:induction false} PosAtDefined(es: seq<Entry>, n: nat)
    ensures PosAt(es, n).Some? <==> n < RecordCount(es)
    decreases |es|
  {
    if es != [] && n >= |es[0].records| {
      PosAtDefined(es[1..], n - |es[0].records|);
    }
  }

  /** Every valid position carries its own number. */
  lemma PosAtRank(es: seq<Entry>, p: Pos)
    requires ValidPos(es, p)
    ensures Rank(es, p) < RecordCount(es) && PosAt(es, Rank(es, p)) == Some(p)
  {
    PosAtIndex(es, IndexOf(es, p.key), p.dup);
    PosAtDefined(es, Rank(es, p));
  }

  /** Every number below the record count names a valid position, whose number it is. */
  lemma {:induction false} PosAtValid(es: seq<Entry>, n: nat)
    requires Sorted(es) && n < RecordCount(es)
    ensures PosAt(es, n).Some? && ValidPos(es, PosAt(es, n).value) && Rank(es, PosAt(es, n).value) == n
    decreases |es|
  {
    var m := |es[0].records|;
    if n < m {
      assert es[..0] == [];
    } else {
      SortedTail(es);
      PosAtValid(es[1..], n - m);
      var p := PosAt(es[1..], n - m).value;
      var j := IndexOf(es[1..], p.key);
      assert es[j + 1] == es[1..][j];
      IndexOfEntry(es, j + 1);
      assert es[..j + 1][0] == es[0];
      assert es[..j + 1][1..] == es[1..][..j];
    }
  }

  /** Numbering is one-to-one: distinct numbers name distinct records. */
  lemma PosAtInjective(es: seq<Entry>, m: nat, n: nat)
    requires Sorted(es) && m < n < RecordCount(es)
    ensures PosAt(es, m) != PosAt(es, n)
  {
    PosAtValid(es, m);
    PosAtValid(es, n);
  }

  /** FIRST goes to record number 0. */
  lemma FirstInOrder(es: seq<Entry>)
    requires WellFormed(es)
    ensures FirstPos(es) == PosAt(es, 0)
  {
  }

  /** LAST goes to the record with the highest number. */
  lemma LastRecord(es: seq<Entry>)
    requires es != [] && es[|es| - 1].records != []
    ensures RecordCount(es) > 0
    ensures PosAt(es, RecordCount(es) - 1) == Some(Pos(es[|es| - 1].key, |es[|es| - 1].records| - 1))
  {
    var n := |es| - 1;
    PosAtIndex(es, n, |es[n].records| - 1);
    RecordCountSnoc(es, n);
    assert es[..n + 1] == es;
  }

  lemma LastInOrder(es: seq<Entry>)
    requires WellFormed(es)
    ensures RecordCount(es) == 0 <==> es == []
    ensures LastPos(es) == if es == [] then None else PosAt(es, RecordCount(es) - 1)
  {
    if es != [] {
      LastRecord(es);
    }
  }

  // The three cases of NEXT and of PREVIOUS, each connected to the numbering on its own.

  lemma NextCaseKey(es: seq<Entry>, p: Pos)
    requires WellFormed(es) && ValidPos(es, p)
    requires p.dup + 1 == |es[IndexOf(es, p.key)].records| && IndexOf(es, p.key) + 1 < |es|
    ensures PosAt(es, Rank(es, p) + 1) == Some(Pos(es[IndexOf(es, p.key) + 1].key, 0))
  {
    var i := IndexOf(es, p.key);
    PosAtIndex(es, i + 1, 0);
    RecordCountSnoc(es, i);
  }

  lemma NextCaseEnd(es: seq<Entry>, p: Pos)
    requires ValidPos(es, p)
    requires p.dup + 1 == |es[IndexOf(es, p.key)].records| && IndexOf(es, p.key) + 1 == |es|
    ensures PosAt(es, Rank(es, p) + 1) == None
  {
    var i := IndexOf(es, p.key);
    RecordCountSnoc(es, i);
    assert es[..i + 1] == es;
    PosAtDefined(es, Rank(es, p) + 1);
  }

  lemma PrevCaseKey(es: seq<Entry>, p: Pos)
    requires WellFormed(es) && ValidPos(es, p) && p.dup == 0 && IndexOf(es, p.key) > 0
    ensures Rank(es, p) > 0
    ensures PosAt(es, Rank(es, p) - 1) ==
      Some(Pos(es[IndexOf(es, p.key) - 1].key, |es[IndexOf(es, p.key) - 1].records| - 1))
  {
    var i := IndexOf(es, p.key);
    PosAtIndex(es, i - 1, |es[i - 1].records| - 1);
    RecordCountSnoc(es, i - 1);
  }

  lemma PrevCaseStart(es: seq<Entry>, p: Pos)
    requires ValidPos(es, p) && p.dup == 0 && IndexOf(es, p.key) == 0
    ensures Rank(es, p) == 0
  {
    assert es[..0] == [];
  }

  /** NEXT goes to the record numbered one higher, and fails after the last one. */
  lemma NextInOrder(es: seq<Entry>, p: Pos)
    requires WellFormed(es) && ValidPos(es, p)
    ensures NextPos(es, p) == PosAt(es, Rank(es, p) + 1)
  {
    var i := IndexOf(es, p.key);
    if p.dup + 1 < |es[i].records| {
      PosAtIndex(es, i, p.dup + 1);
    } else if i + 1 < |es| {
      NextCaseKey(es, p);
    } else {
      NextCaseEnd(es, p);
    }
  }

  /** PREVIOUS goes to the record numbered one lower, and fails before the first one. */
  lemma PrevInOrder(es: seq<Entry>, p: Pos)
    requires WellFormed(es) && ValidPos(es, p)
    ensures PrevPos(es, p) == if Rank(es, p) == 0 then None else PosAt(es, Rank(es, p) - 1)
  {
    var i := IndexOf(es, p.key);
    if p.dup > 0 {
      PosAtIndex(es, i, p.dup - 1);
    } else if i > 0 {
      PrevCaseKey(es, p);
    } else {
      PrevCaseStart(es, p);
    }
  }

  /** One HAM_CURSOR_NEXT from a cursor state; from nil it starts at the beginning. */
  function StepNext(es: seq<Entry>, c: Option<Pos>): (r: Option<Pos>)
    requires WellFormed(es) && PosOk(es, c)
    ensures PosOk(es, r)
  {
    if c.None? then FirstPos(es) else NextPos(es, c.value)
  }

  /** `n` successive NEXT moves from cursor state `c`. */
  function WalkNext(es: seq<Entry>, c: Option<Pos>, n: nat): (r: Option<Pos>)
    requires WellFormed(es) && PosOk(es, c)
    ensures PosOk(es, r)
    decreases n
  {
    if n == 0 then c else WalkNext(es, StepNext(es, c), n - 1)
  }

  /** Moving NEXT from a nil cursor visits the records in numbering order and, after
      the last, reports that there is nothing more. */
  lemma {:induction false} WalkVisitsAll(es: seq<Entry>, n: nat)
    requires WellFormed(es) && 1 <= n <= RecordCount(es) + 1
    ensures WalkNext(es, None, n) == PosAt(es, n - 1)
  {
    if n == 1 {
      FirstInOrder(es);
    } else {
      WalkVisitsAll(es, n - 1);
      WalkOneMore(es, n);
    }
  }

  /** One more NEXT after reaching record number `n - 2` reaches record number `n - 1`. */
  lemma WalkOneMore(es: seq<Entry>, n: nat)
    requires WellFormed(es) && 2 <= n <= RecordCount(es) + 1
    requires WalkNext(es, None, n - 1) == PosAt(es, n - 2)
    ensures WalkNext(es, None, n) == PosAt(es, n - 1)
  {
    WalkSplit(es, None, n - 1);
    StepInOrder(es, n - 2);
  }

  /** Without duplicates, the `i`-th NEXT from nil reaches the `i`-th key, and the move
      after the last key finds nothing. */
  lemma WalkSingles(es: seq<Entry>, i: nat)
    requires WellFormed(es) && i <= |es|
    requires forall j :: 0 <= j < |es| ==> |es[j].records| == 1
    ensures i < |es| ==> WalkNext(es, None, i + 1) == Some(Pos(es[i].key, 0))
    ensures i == |es| ==> WalkNext(es, None, i + 1) == None
  {
    RecordCountWithoutDuplicates(es);
    WalkVisitsAll(es, i + 1);
    SinglePosAt(es, i);
  }

  /** Without duplicates, record number `i` is the only record of the `i`-th key, and there
      is no record numbered |es|. */
  lemma SinglePosAt(es: seq<Entry>, i: nat)
    requires WellFormed(es) && i <= |es|
    requires forall j :: 0 <= j < |es| ==> |es[j].records| == 1
    ensures PosAt(es, i) == if i < |es| then Some(Pos(es[i].key, 0)) else None
  {
    if i < |es| {
      RecordCountWithoutDuplicates(es[..i]);
      PosAtIndex(es, i, 0);
    } else {
      RecordCountWithoutDuplicates(es);
      PosAtDefined(es, i);
    }
  }

  /** From record number `n`, one NEXT goes to record number `n + 1`. */
  lemma StepInOrder(es: seq<Entry>, n: nat)
    requires WellFormed(es) && n < RecordCount(es)
    ensures PosAt(es, n).Some? && ValidPos(es, PosAt(es, n).value)
    ensures StepNext(es, PosAt(es, n)) == PosAt(es, n + 1)
  {
    PosAtValid(es, n);
    NextInOrder(es, PosAt(es, n).value);
  }

  lemma {:induction false} WalkSplit(es: seq<Entry>, c: Option<Pos>, n: nat)
    requires WellFormed(es) && PosOk(es, c)
    ensures WalkNext(es, c, n + 1) == StepNext(es, WalkNext(es, c, n))
    decreases n
  {
    if n > 0 {
      WalkSplit(es, StepNext(es, c), n - 1);
    }
  }

  // ---------------------------------------------------------------------------------
  // Where other cursors end up when the content changes under them.

  /** Erasing a key (with all its duplicates) turns every cursor on it nil. */
  function AfterKeyErase(c: Option<Pos>, k: Key): Option<Pos>
  {
    if c.Some? && c.value.key == k then None else c
  }

  /** A duplicate inserted at `at` of key `k` shifts the cursors on the later duplicates. */
  function AfterDupInsert(c: Option<Pos>, k: Key, at: nat): Option<Pos>
  {
    if c.Some? && c.value.key == k && c.value.dup >= at then Some(Pos(k, c.value.dup + 1)) else c
  }

  /** Removing duplicate `at` of key `k` turns cursors on it nil and shifts the later ones back. */
  function AfterDupErase(c: Option<Pos>, k: Key, at: nat): Option<Pos>
  {
    if c.Some? && c.value.key == k && c.value.dup == at then None
    else if c.Some? && c.value.key == k && c.value.dup > at then Some(Pos(k, c.value.dup - 1))
    else c
  }

  /** Inserting a new key leaves every cursor on the record it was on. */
  lemma CursorAfterInsertNew(es: seq<Entry>, k: Key, rec: Record, c: Option<Pos>)
    requires WellFormed(es) && !Present(es, k) && PosOk(es, c)
    ensures PosOk(InsertNew(es, k, rec), c)
    ensures c.Some? ==> RecordAt(InsertNew(es, k, rec), c.value) == RecordAt(es, c.value)
  {
    if c.Some? {
      assert c.value.key != k;
      assert Lookup(InsertNew(es, k, rec), c.value.key) == Lookup(es, c.value.key);
    }
  }

  /** Erasing a key leaves cursors elsewhere on the record they were on. */
  lemma CursorAfterKeyErase(es: seq<Entry>, k: Key, c: Option<Pos>)
    requires WellFormed(es) && Present(es, k) && PosOk(es, c)
    ensures PosOk(EraseKey(es, k), AfterKeyErase(c, k))
    ensures AfterKeyErase(c, k).Some? ==>
      RecordAt(EraseKey(es, k), AfterKeyErase(c, k).value) == RecordAt(es, c.value)
    ensures AfterKeyErase(c, k).None? <==> c.None? || c.value.key == k
  {
    if c.Some? && c.value.key != k {
      assert Lookup(EraseKey(es, k), c.value.key) == Lookup(es, c.value.key);
    }
  }

  /** Replacing the duplicate list of a key by one of the same length keeps every cursor
      valid, and cursors on other keys or other duplicates read what they read before. */
  lemma CursorAfterSetRecords(es: seq<Entry>, k: Key, recs: seq<Record>, c: Option<Pos>)
    requires WellFormed(es) && Present(es, k) && PosOk(es, c)
    requires |recs| == |Lookup(es, k).value|
    ensures PosOk(SetRecords(es, k, recs), c)
    ensures c.Some? && c.value.key != k ==> RecordAt(SetRecords(es, k, recs), c.value) == RecordAt(es, c.value)
    ensures c.Some? && c.value.key == k ==> RecordAt(SetRecords(es, k, recs), c.value) == recs[c.value.dup]
  {
    if c.Some? {
      assert Lookup(SetRecords(es, k, recs), c.value.key) ==
        if c.value.key == k then Some(recs) else Lookup(es, c.value.key);
    }
  }

  /** After a duplicate is inserted, every cursor still reads the record it read before. */
  lemma CursorAfterDupInsert(es: seq<Entry>, k: Key, at: nat, rec: Record, c: Option<Pos>)
    requires WellFormed(es) && Present(es, k) && PosOk(es, c)
    requires at <= |Lookup(es, k).value|
    ensures PosOk(SetRecords(es, k, InsertAt(Lookup(es, k).value, at, rec)), AfterDupInsert(c, k, at))
    ensures c.Some? ==> (AfterDupInsert(c, k, at).Some? &&
      RecordAt(SetRecords(es, k, InsertAt(Lookup(es, k).value, at, rec)), AfterDupInsert(c, k, at).value)
        == RecordAt(es, c.value))
  {
    var recs := InsertAt(Lookup(es, k).value, at, rec);
    if c.Some? {
      assert Lookup(SetRecords(es, k, recs), c.value.key) ==
        if c.value.key == k then Some(recs) else Lookup(es, c.value.key);
    }
  }

  /** After a duplicate (not the only one) is removed, cursors on it are nil and every
      other cursor still reads the record it read before. */
  lemma CursorAfterDupErase(es: seq<Entry>, k: Key, at: nat, c: Option<Pos>)
    requires WellFormed(es) && Present(es, k) && PosOk(es, c)
    requires at < |Lookup(es, k).value| && |Lookup(es, k).value| > 1
    ensures PosOk(SetRecords(es, k, RemoveAt(Lookup(es, k).value, at)), AfterDupErase(c, k, at))
    ensures AfterDupErase(c, k, at).None? <==> c.None? || c.value == Pos(k, at)
    ensures AfterDupErase(c, k, at).Some? ==>
      RecordAt(SetRecords(es, k, RemoveAt(Lookup(es, k).value, at)), AfterDupErase(c, k, at).value)
        == RecordAt(es, c.value)
  {
    var recs := RemoveAt(Lookup(es, k).value, at);
    if c.Some? {
      assert Lookup(SetRecords(es, k, recs), c.value.key) ==
        if c.value.key == k then Some(recs) else Lookup(es, c.value.key);
    }
  }
}
