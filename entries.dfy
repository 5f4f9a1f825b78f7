/** The logical content of one database: its keys in comparator order, each with the
    ordered list of records (duplicates) stored under it. The B-tree pages that hold this
    content in the engine are not modelled; every search result the tests check is a
    function of this ordered list. */
module Entries {
  import opened Codes
  import opened KeyCompare

  /** One index entry: a key and its duplicate list (first record first). */
  datatype Entry = Entry(key: Key, records: seq<Record>)

  /** Entries are kept in strictly ascending comparator order. */
  ghost predicate Sorted(es: seq<Entry>)
  {
    forall i, j {:trigger Less(es[i].key, es[j].key)} :: 0 <= i < j < |es| ==> Less(es[i].key, es[j].key)
  }

  /** The store invariant: sorted, and no entry without a record. */
  ghost predicate WellFormed(es: seq<Entry>)
  {
    Sorted(es) && forall i :: 0 <= i < |es| ==> es[i].records != []
  }

  /** Position of the first entry holding key `k`, or -1. */
  function IndexOf(es: seq<Entry>, k: Key): (r: int)
    ensures -1 <= r < |es|
    ensures r >= 0 ==> es[r].key == k && forall i :: 0 <= i < r ==> es[i].key != k
    ensures r < 0 <==> forall i :: 0 <= i < |es| ==> es[i].key != k
  {
    if es == [] then -1
    else if es[0].key == k then 0
    else
      var r := IndexOf(es[1..], k);
      assert forall i :: 1 <= i < |es| ==> es[i] == es[1..][i - 1];
      if r < 0 then -1 else r + 1
  }

  /** In a sorted list a key occurs once, so an entry's index is the index of its key. */
  lemma IndexOfEntry(es: seq<Entry>, i: nat)
    requires Sorted(es) && i < |es|
    ensures IndexOf(es, es[i].key) == i
  {
    var j := IndexOf(es, es[i].key);
    if j < i {
      assert Less(es[j].key, es[i].key);
      LessTotal(es[i].key, es[i].key);
    }
  }

  /** The duplicate list stored under `k`, if `k` is present. */
  function Lookup(es: seq<Entry>, k: Key): Option<seq<Record>>
  {
    var i := IndexOf(es, k);
    if i < 0 then None else Some(es[i].records)
  }

  predicate Present(es: seq<Entry>, k: Key) { IndexOf(es, k) >= 0 }

  /** Number of entries whose key is below `q`; in a sorted list they are exactly the
      first ones, so this is where `q` belongs. */
  function CountBelow(es: seq<Entry>, q: Key): (r: nat)
    requires Sorted(es)
    ensures r <= |es|
    ensures forall i :: 0 <= i < r ==> Less(es[i].key, q)
    ensures forall i :: r <= i < |es| ==> !Less(es[i].key, q)
  {
    if es == [] || !Less(es[0].key, q) then
      (forall i | 0 < i < |es| ensures !Less(es[i].key, q) {
         if Less(es[i].key, q) { LessTransitive(es[0].key, es[i].key, q); }
       }
       0)
    else
      assert forall i :: 1 <= i < |es| ==> es[i] == es[1..][i - 1];
      1 + CountBelow(es[1..], q)
  }

  /** CountBelow is the one index that splits the keys below `q` from the others. */
  lemma CountBelowIs(es: seq<Entry>, q: Key, c: nat)
    requires Sorted(es) && c <= |es|
    requires forall i :: 0 <= i < c ==> Less(es[i].key, q)
    requires c < |es| ==> !Less(es[c].key, q)
    ensures CountBelow(es, q) == c
  {
    var b := CountBelow(es, q);
    assert b < |es| ==> !Less(es[b].key, q);
  }

  // ---------------------------------------------------------------------------------
  // Sortedness under the three shapes of change.

  lemma SortedInsertAt(es: seq<Entry>, b: nat, e: Entry)
    requires Sorted(es) && b <= |es|
    requires forall i :: 0 <= i < b ==> Less(es[i].key, e.key)
    requires forall i :: b <= i < |es| ==> Less(e.key, es[i].key)
    ensures Sorted(es[..b] + [e] + es[b..])
  {
    var r := es[..b] + [e] + es[b..];
    forall i, j | 0 <= i < j < |r| ensures Less(r[i].key, r[j].key) {
      if j < b {
        assert r[i] == es[i] && r[j] == es[j];
      } else if j == b {
        assert r[i] == es[i] && r[j] == e;
      } else if i < b {
        assert r[i] == es[i] && r[j] == es[j - 1];
      } else if i == b {
        assert r[i] == e && r[j] == es[j - 1];
      } else {
        assert r[i] == es[i - 1] && r[j] == es[j - 1];
      }
    }
  }

  lemma SortedRemoveAt(es: seq<Entry>, i: nat)
    requires Sorted(es) && i < |es|
    ensures Sorted(es[..i] + es[i + 1..])
  {
    var r := es[..i] + es[i + 1..];
    forall a, b | 0 <= a < b < |r| ensures Less(r[a].key, r[b].key) {
      var a' := if a < i then a else a + 1;
      var b' := if b < i then b else b + 1;
      assert r[a] == es[a'] && r[b] == es[b'];
    }
  }

  // ---------------------------------------------------------------------------------
  // The changes insert, overwrite and erase make to the content.

  /** Looking a key up after an entry was placed between smaller and larger keys. */
  lemma LookupInsertAt(es: seq<Entry>, b: nat, e: Entry)
    requires Sorted(es) && b <= |es|
    requires forall i :: 0 <= i < b ==> Less(es[i].key, e.key)
    requires forall i :: b <= i < |es| ==> Less(e.key, es[i].key)
    ensures Sorted(es[..b] + [e] + es[b..])
    ensures Lookup(es[..b] + [e] + es[b..], e.key) == Some(e.records)
    ensures forall k' :: k' != e.key ==> Lookup(es[..b] + [e] + es[b..], k') == Lookup(es, k')
  {
    SortedInsertAt(es, b, e);
    var r := es[..b] + [e] + es[b..];
    assert r[b] == e;
    IndexOfEntry(r, b);
    forall k' | k' != e.key ensures Lookup(r, k') == Lookup(es, k') {
      var j := IndexOf(es, k');
      if j >= 0 {
        var j' := if j < b then j else j + 1;
        assert r[j'] == es[j];
        IndexOfEntry(r, j');
      } else {
        forall i | 0 <= i < |r| ensures r[i].key != k' {
          if i < b { assert r[i] == es[i]; }
          else if i > b { assert r[i] == es[i - 1]; }
        }
      }
    }
  }

  /** A new key with one record, placed where the comparator puts it. */
  function InsertNew(es: seq<Entry>, k: Key, rec: Record): (r: seq<Entry>)
    requires WellFormed(es) && !Present(es, k)
    ensures WellFormed(r) && |r| == |es| + 1
    ensures Lookup(r, k) == Some([rec])
    ensures forall k' :: k' != k ==> Lookup(r, k') == Lookup(es, k')
  {
    var b := CountBelow(es, k);
    forall i | b <= i < |es| ensures Less(k, es[i].key) {
      LessTotal(k, es[i].key);
    }
    LookupInsertAt(es, b, Entry(k, [rec]));
    var r := es[..b] + [Entry(k, [rec])] + es[b..];
    assert forall i :: 0 <= i < |r| && i != b ==> r[i] == es[if i < b then i else i - 1];
    r
  }

  /** The entry of a present key with its duplicate list replaced. */
  function SetRecords(es: seq<Entry>, k: Key, recs: seq<Record>): (r: seq<Entry>)
    requires WellFormed(es) && Present(es, k) && recs != []
    ensures WellFormed(r) && |r| == |es|
    ensures Lookup(r, k) == Some(recs)
    ensures forall k' :: k' != k ==> Lookup(r, k') == Lookup(es, k')
    ensures forall i :: 0 <= i < |es| ==> r[i].key == es[i].key
  {
    var i := IndexOf(es, k);
    var r := es[i := Entry(k, recs)];
    assert Sorted(r) by {
      forall a, b | 0 <= a < b < |r| ensures Less(r[a].key, r[b].key) {
        assert r[a].key == es[a].key && r[b].key == es[b].key;
      }
    }
    IndexOfEntry(r, i);
    forall k' | k' != k ensures Lookup(r, k') == Lookup(es, k') {
      var j := IndexOf(es, k');
      if j >= 0 {
        IndexOfEntry(r, j);
      }
    }
    r
  }

  /** The key and everything stored under it removed. */
  function EraseKey(es: seq<Entry>, k: Key): (r: seq<Entry>)
    requires WellFormed(es) && Present(es, k)
    ensures WellFormed(r) && |r| == |es| - 1
    ensures Lookup(r, k) == None
    ensures forall k' :: k' != k ==> Lookup(r, k') == Lookup(es, k')
  {
    var i := IndexOf(es, k);
    SortedRemoveAt(es, i);
    var r := es[..i] + es[i + 1..];
    assert forall a :: 0 <= a < |r| ==> r[a] == es[if a < i then a else a + 1];
    forall a | 0 <= a < |r| ensures r[a].key != k {
      IndexOfEntry(es, if a < i then a else a + 1);
    }
    forall k' | k' != k ensures Lookup(r, k') == Lookup(es, k') {
      var j := IndexOf(es, k');
      if j >= 0 {
        assert j != i;
        var j' := if j < i then j else j - 1;
        assert r[j'] == es[j];
        IndexOfEntry(r, j');
      }
    }
    r
  }

  /** The records of `recs` with `rec` placed at position `at`. */
  function InsertAt(recs: seq<Record>, at: nat, rec: Record): (r: seq<Record>)
    requires at <= |recs|
    ensures |r| == |recs| + 1 && r[at] == rec
    ensures forall j :: 0 <= j < at ==> r[j] == recs[j]
    ensures forall j :: at <= j < |recs| ==> r[j + 1] == recs[j]
  {
    recs[..at] + [rec] + recs[at..]
  }

  /** The records of `recs` without the one at position `at`. */
  function RemoveAt(recs: seq<Record>, at: nat): (r: seq<Record>)
    requires at < |recs|
    ensures |r| == |recs| - 1
    ensures forall j :: 0 <= j < at ==> r[j] == recs[j]
    ensures forall j :: at < j < |recs| ==> r[j - 1] == recs[j]
  {
    recs[..at] + recs[at + 1..]
  }

  // ---------------------------------------------------------------------------------
  // Counting (ham_db_get_key_count).

  /** Every record of every key: the default count. */
  function RecordCount(es: seq<Entry>): nat
  {
    if es == [] then 0 else |es[0].records| + RecordCount(es[1..])
  }

  lemma {:induction false} RecordCountAppend(a: seq<Entry>, b: seq<Entry>)
    ensures RecordCount(a + b) == RecordCount(a) + RecordCount(b)
  {
    if a == [] {
      assert a + b == b;
    } else {
      assert (a + b)[1..] == a[1..] + b;
      RecordCountAppend(a[1..], b);
    }
  }

  /** Replacing one entry changes the record count by the difference in duplicate counts. */
  lemma RecordCountUpdate(es: seq<Entry>, i: nat, e: Entry)
    requires i < |es|
    ensures RecordCount(es[i := e]) == RecordCount(es) - |es[i].records| + |e.records|
  {
    assert es == es[..i] + [es[i]] + es[i + 1..];
    assert es[i := e] == es[..i] + [e] + es[i + 1..];
    RecordCountAppend(es[..i] + [es[i]], es[i + 1..]);
    RecordCountAppend(es[..i], [es[i]]);
    RecordCountAppend(es[..i] + [e], es[i + 1..]);
    RecordCountAppend(es[..i], [e]);
  }

  /** When no key holds duplicates, counting records and counting keys agree. */
  lemma {:induction false} RecordCountWithoutDuplicates(es: seq<Entry>)
    requires forall i :: 0 <= i < |es| ==> |es[i].records| == 1
    ensures RecordCount(es) == |es|
  {
    if es != [] {
      assert forall i :: 0 <= i < |es[1..]| ==> es[1..][i] == es[i + 1];
      RecordCountWithoutDuplicates(es[1..]);
    }
  }

  /** The distinct keys the content holds. */
  ghost function Keys(es: seq<Entry>): set<Key>
  {
    set i | 0 <= i < |es| :: es[i].key
  }

  /** In sorted content no key appears twice, so there are as many distinct keys as
      entries. */
  lemma {:induction false} KeysCardinality(es: seq<Entry>)
    requires Sorted(es)
    ensures |Keys(es)| == |es|
    decreases |es|
  {
    if es != [] {
      var tail := es[1..];
      forall a, b | 0 <= a < b < |tail| ensures Less(tail[a].key, tail[b].key) {
        assert tail[a] == es[a + 1] && tail[b] == es[b + 1];
      }
      KeysCardinality(tail);
      assert Keys(es) == {es[0].key} + Keys(tail) by {
        forall x | x in Keys(es) ensures x in {es[0].key} + Keys(tail) {
          var i :| 0 <= i < |es| && es[i].key == x;
          if i > 0 { assert tail[i - 1] == es[i]; }
        }
        forall x | x in Keys(tail) ensures x in Keys(es) {
          var i :| 0 <= i < |tail| && tail[i].key == x;
          assert es[i + 1] == tail[i];
        }
      }
      forall i | 0 <= i < |tail| ensures tail[i].key != es[0].key {
        assert es[i + 1] == tail[i];
        assert Less(es[0].key, es[i + 1].key);
        LessTotal(es[0].key, es[0].key);
      }
    }
  }

  /** A new key adds one record and one key. */
  lemma RecordCountInsertNew(es: seq<Entry>, k: Key, rec: Record)
    requires WellFormed(es) && !Present(es, k)
    ensures RecordCount(InsertNew(es, k, rec)) == RecordCount(es) + 1
  {
    var b := CountBelow(es, k);
    assert es == es[..b] + es[b..];
    RecordCountAppend(es[..b], es[b..]);
    RecordCountAppend(es[..b] + [Entry(k, [rec])], es[b..]);
    RecordCountAppend(es[..b], [Entry(k, [rec])]);
  }

  /** Replacing a key's duplicate list changes the record count by the difference. */
  lemma RecordCountSetRecords(es: seq<Entry>, k: Key, recs: seq<Record>)
    requires WellFormed(es) && Present(es, k) && recs != []
    ensures RecordCount(SetRecords(es, k, recs)) == RecordCount(es) - |Lookup(es, k).value| + |recs|
  {
    RecordCountUpdate(es, IndexOf(es, k), Entry(k, recs));
  }

  /** Removing a key removes all of its records. */
  lemma RecordCountEraseKey(es: seq<Entry>, k: Key)
    requires WellFormed(es) && Present(es, k)
    ensures RecordCount(EraseKey(es, k)) == RecordCount(es) - |Lookup(es, k).value|
  {
    var i := IndexOf(es, k);
    assert es == es[..i] + [es[i]] + es[i + 1..];
    RecordCountAppend(es[..i] + [es[i]], es[i + 1..]);
    RecordCountAppend(es[..i], [es[i]]);
    RecordCountAppend(es[..i], es[i + 1..]);
  }

  // ---------------------------------------------------------------------------------
  // The content is a map: it is determined by what every key looks up to.

  /** Dropping the smallest entry forgets its key and nothing else. */
  lemma LookupTail(es: seq<Entry>, k: Key)
    requires WellFormed(es) && es != []
    ensures WellFormed(es[1..])
    ensures Lookup(es[1..], k) == if k == es[0].key then None else Lookup(es, k)
  {
    assert forall i :: 0 <= i < |es[1..]| ==> es[1..][i] == es[i + 1];
    if k == es[0].key {
      forall i | 0 <= i < |es[1..]| ensures es[1..][i].key != k {
        assert Less(es[0].key, es[i + 1].key);
        LessTotal(k, k);
      }
    }
  }

  /** Two well-formed contents with the same lookups are the same content. */
  lemma {:induction false} LookupDetermines(a: seq<Entry>, b: seq<Entry>)
    requires WellFormed(a) && WellFormed(b)
    requires forall k :: Lookup(a, k) == Lookup(b, k)
    ensures a == b
    decreases |a|
  {
    if a != [] {
      IndexOfEntry(a, 0);
      assert Lookup(b, a[0].key).Some?;
    }
    if b != [] {
      IndexOfEntry(b, 0);
      assert Lookup(a, b[0].key).Some?;
    }
    if a != [] && b != [] {
      var x, y := a[0].key, b[0].key;
      IndexOfEntry(a, 0);
      IndexOfEntry(b, 0);
      if x != y {
        var j := IndexOf(b, x);
        var i := IndexOf(a, y);
        assert Lookup(b, x).Some? && Lookup(a, y).Some?;
        assert Less(y, x) by { assert j > 0 && Less(b[0].key, b[j].key); }
        assert Less(x, y) by { assert i > 0 && Less(a[0].key, a[i].key); }
        LessTotal(x, y);
      }
      assert a[0].records == b[0].records by { assert Lookup(a, x) == Lookup(b, x); }
      forall k ensures Lookup(a[1..], k) == Lookup(b[1..], k) {
        LookupTail(a, k);
        LookupTail(b, k);
      }
      LookupTail(a, x);
      LookupTail(b, x);
      LookupDetermines(a[1..], b[1..]);
      assert a == [a[0]] + a[1..] && b == [b[0]] + b[1..];
    }
  }
}
