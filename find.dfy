/** Exact and approximate lookup (ham_db_find / ham_cursor_find with HAM_FIND_LT_MATCH,
    HAM_FIND_GT_MATCH, HAM_FIND_EXACT_MATCH and their combinations). */
module Find {
  import opened Codes
  import opened KeyCompare
  import opened Entries

  /** The three match bits of a find call. HAM_FIND_LEQ_MATCH is `lt` with `exact`,
      HAM_FIND_GEQ_MATCH is `gt` with `exact`, HAM_FIND_NEAR_MATCH is all three, and a
      call with none of them set is an exact match. */
  datatype FindFlags = FindFlags(lt: bool, gt: bool, exact: bool)

  const FindExact := FindFlags(false, false, true)
  const FindDefault := FindFlags(false, false, false)
  const FindLt := FindFlags(true, false, false)
  const FindGt := FindFlags(false, true, false)
  const FindLeq := FindFlags(true, false, true)
  const FindGeq := FindFlags(false, true, true)
  const FindNear := FindFlags(true, true, true)
  const FindLtOrGt := FindFlags(true, true, false)

  /** An exact hit is acceptable when asked for, or when no approximate bit is set. */
  predicate AcceptsExact(f: FindFlags)
  {
    f.exact || (!f.lt && !f.gt)
  }

  /** What a find hands back: the status, the key the caller's key structure then holds,
      the record (None when the record structure is left empty) and the approximate
      match sign (ham_key_get_approximate_match_type: -1 when the key found is below the
      one asked for, +1 when above, 0 for an exact hit or a miss). */
  datatype FindReply = FindReply(status: Status, key: Key, record: Option<Record>, sign: int)

  // ---------------------------------------------------------------------------------
  // What the result means, independently of how it is computed.

  /** Some stored key is below `q`. */
  ghost predicate HasBelow(es: seq<Entry>, q: Key)
  {
    exists i :: 0 <= i < |es| && Less(es[i].key, q)
  }

  /** Some stored key is above `q`. */
  ghost predicate HasAbove(es: seq<Entry>, q: Key)
  {
    exists i :: 0 <= i < |es| && Less(q, es[i].key)
  }

  /** `k` is the greatest stored key below `q`. */
  ghost predicate NearestBelow(es: seq<Entry>, q: Key, k: Key)
  {
    Present(es, k) && Less(k, q) && forall i :: 0 <= i < |es| && Less(es[i].key, q) ==> LessEq(es[i].key, k)
  }

  /** `k` is the smallest stored key above `q`. */
  ghost predicate NearestAbove(es: seq<Entry>, q: Key, k: Key)
  {
    Present(es, k) && Less(q, k) && forall i :: 0 <= i < |es| && Less(q, es[i].key) ==> LessEq(k, es[i].key)
  }

  /** Index of the first stored key above `q`: just past the key itself if it is stored. */
  function Above(es: seq<Entry>, q: Key): nat
    requires Sorted(es)
  {
    var b := CountBelow(es, q);
    if b < |es| && es[b].key == q then b + 1 else b
  }

  /** The candidate below: the entry just before where `q` belongs. */
  lemma BelowCandidate(es: seq<Entry>, q: Key)
    requires Sorted(es)
    ensures HasBelow(es, q) <==> CountBelow(es, q) > 0
    ensures CountBelow(es, q) > 0 ==> NearestBelow(es, q, es[CountBelow(es, q) - 1].key)
  {
    var b := CountBelow(es, q);
    if b > 0 {
      IndexOfEntry(es, b - 1);
      forall i | 0 <= i < |es| && Less(es[i].key, q) ensures LessEq(es[i].key, es[b - 1].key) {
        if i < b - 1 {
          assert Less(es[i].key, es[b - 1].key);
        } else {
          CompareZeroIffEqual(es[i].key, es[i].key);
        }
      }
    }
  }

  /** The key itself, when stored, sits where it belongs. */
  lemma HitCandidate(es: seq<Entry>, q: Key)
    requires Sorted(es)
    ensures Present(es, q) <==> CountBelow(es, q) < |es| && es[CountBelow(es, q)].key == q
  {
    var b := CountBelow(es, q);
    if Present(es, q) {
      LessTotal(q, q);
    }
  }

  /** Every entry from Above(es, q) on is above `q`, and none before it is. */
  lemma AboveSplit(es: seq<Entry>, q: Key)
    requires Sorted(es)
    ensures Above(es, q) <= |es|
    ensures forall i :: Above(es, q) <= i < |es| ==> Less(q, es[i].key)
    ensures forall i :: 0 <= i < Above(es, q) ==> !Less(q, es[i].key)
  {
    var b := CountBelow(es, q);
    var a := Above(es, q);
    forall i | a <= i < |es| ensures Less(q, es[i].key) {
      LessTotal(q, es[i].key);
    }
    forall i | 0 <= i < a ensures !Less(q, es[i].key) {
      LessTotal(q, es[i].key);
      if i < b {
        assert Less(es[i].key, q);
      } else {
        LessTotal(q, q);
      }
    }
  }

  /** The candidate above: the first entry past `q` and past the key itself. */
  lemma AboveCandidate(es: seq<Entry>, q: Key)
    requires Sorted(es)
    ensures HasAbove(es, q) <==> Above(es, q) < |es|
    ensures Above(es, q) < |es| ==> NearestAbove(es, q, es[Above(es, q)].key)
  {
    AboveSplit(es, q);
    var a := Above(es, q);
    if a < |es| {
      IndexOfEntry(es, a);
      forall i | 0 <= i < |es| && Less(q, es[i].key) ensures LessEq(es[a].key, es[i].key) {
        if i > a {
          assert Less(es[a].key, es[i].key);
        } else {
          CompareZeroIffEqual(es[i].key, es[i].key);
        }
      }
    }
  }

  /** The facts every lemma below rests on: where the candidates of FindIn sit. */
  lemma Candidates(es: seq<Entry>, q: Key)
    requires Sorted(es)
    ensures HasBelow(es, q) <==> CountBelow(es, q) > 0
    ensures CountBelow(es, q) > 0 ==> NearestBelow(es, q, es[CountBelow(es, q) - 1].key)
    ensures Present(es, q) <==> CountBelow(es, q) < |es| && es[CountBelow(es, q)].key == q
    ensures HasAbove(es, q) <==> Above(es, q) < |es|
    ensures Above(es, q) < |es| ==> NearestAbove(es, q, es[Above(es, q)].key)
  {
    BelowCandidate(es, q);
    HitCandidate(es, q);
    AboveCandidate(es, q);
  }

  /** The lookup: an exact hit if acceptable; otherwise the nearest key below if LT is
      set; otherwise the nearest key above if GT is set; otherwise a miss, which leaves
      the caller's key as it was and returns no record. */
  function FindIn(es: seq<Entry>, q: Key, f: FindFlags): (r: FindReply)
    requires WellFormed(es)
    ensures r.status == Ok || r.status == KeyNotFound
    ensures r.status == KeyNotFound ==> r.key == q && r.record.None? && r.sign == 0
    ensures r.status == Ok ==>
      Present(es, r.key) && r.record == Some(Lookup(es, r.key).value[0]) && r.sign == Compare(r.key, q)
    ensures r.status == Ok && r.sign == 0 ==> AcceptsExact(f) && r.key == q
    ensures r.status == Ok && r.sign == -1 ==> f.lt && Less(r.key, q)
    ensures r.status == Ok && r.sign == 1 ==> f.gt && Less(q, r.key)
  {
    var b := CountBelow(es, q);
    var a := Above(es, q);
    if b < |es| && es[b].key == q && AcceptsExact(f) then
      IndexOfEntry(es, b);
      CompareZeroIffEqual(q, q);
      FindReply(Ok, q, Some(es[b].records[0]), 0)
    else if f.lt && b > 0 then
      BelowCandidate(es, q);
      IndexOfEntry(es, b - 1);
      CompareAntisymmetric(es[b - 1].key, q);
      FindReply(Ok, es[b - 1].key, Some(es[b - 1].records[0]), -1)
    else if f.gt && a < |es| then
      AboveCandidate(es, q);
      IndexOfEntry(es, a);
      CompareAntisymmetric(q, es[a].key);
      FindReply(Ok, es[a].key, Some(es[a].records[0]), 1)
    else
      FindReply(KeyNotFound, q, None, 0)
  }

  /** There is at most one nearest key on each side. */
  lemma NearestUnique(es: seq<Entry>, q: Key, k1: Key, k2: Key)
    requires Sorted(es)
    ensures NearestBelow(es, q, k1) && NearestBelow(es, q, k2) ==> k1 == k2
    ensures NearestAbove(es, q, k1) && NearestAbove(es, q, k2) ==> k1 == k2
  {
    if (NearestBelow(es, q, k1) && NearestBelow(es, q, k2)) || (NearestAbove(es, q, k1) && NearestAbove(es, q, k2)) {
      var i1, i2 := IndexOf(es, k1), IndexOf(es, k2);
      assert es[i1].key == k1 && es[i2].key == k2;
      LessEqAntisymmetric(k1, k2);
    }
  }

  /** HAM_FIND_EXACT_MATCH, and a find with no match bits: found exactly when the key is
      stored; the key is then the one asked for and the sign is 0. */
  lemma ExactMatchMeaning(es: seq<Entry>, q: Key, f: FindFlags)
    requires WellFormed(es) && !f.lt && !f.gt
    ensures FindIn(es, q, f).status == Ok <==> Present(es, q)
    ensures Present(es, q) ==> FindIn(es, q, f) == FindReply(Ok, q, Some(Lookup(es, q).value[0]), 0)
  {
    Candidates(es, q);
  }

  /** HAM_FIND_LT_MATCH: found exactly when some key is below; it is the greatest such. */
  lemma LtMatchMeaning(es: seq<Entry>, q: Key)
    requires WellFormed(es)
    ensures FindIn(es, q, FindLt).status == Ok <==> HasBelow(es, q)
    ensures HasBelow(es, q) ==>
      NearestBelow(es, q, FindIn(es, q, FindLt).key) && FindIn(es, q, FindLt).sign == -1
  {
    Candidates(es, q);
  }

  /** HAM_FIND_GT_MATCH: found exactly when some key is above; it is the smallest such. */
  lemma GtMatchMeaning(es: seq<Entry>, q: Key)
    requires WellFormed(es)
    ensures FindIn(es, q, FindGt).status == Ok <==> HasAbove(es, q)
    ensures HasAbove(es, q) ==>
      NearestAbove(es, q, FindIn(es, q, FindGt).key) && FindIn(es, q, FindGt).sign == 1
  {
    Candidates(es, q);
  }

  /** HAM_FIND_LEQ_MATCH: the key itself if stored, else the greatest key below. */
  lemma LeqMatchMeaning(es: seq<Entry>, q: Key)
    requires WellFormed(es)
    ensures FindIn(es, q, FindLeq).status == Ok <==> Present(es, q) || HasBelow(es, q)
    ensures Present(es, q) ==> FindIn(es, q, FindLeq).key == q && FindIn(es, q, FindLeq).sign == 0
    ensures !Present(es, q) && HasBelow(es, q) ==>
      NearestBelow(es, q, FindIn(es, q, FindLeq).key) && FindIn(es, q, FindLeq).sign == -1
  {
    Candidates(es, q);
  }

  /** HAM_FIND_GEQ_MATCH: the key itself if stored, else the smallest key above. */
  lemma GeqMatchMeaning(es: seq<Entry>, q: Key)
    requires WellFormed(es)
    ensures FindIn(es, q, FindGeq).status == Ok <==> Present(es, q) || HasAbove(es, q)
    ensures Present(es, q) ==> FindIn(es, q, FindGeq).key == q && FindIn(es, q, FindGeq).sign == 0
    ensures !Present(es, q) && HasAbove(es, q) ==>
      NearestAbove(es, q, FindIn(es, q, FindGeq).key) && FindIn(es, q, FindGeq).sign == 1
  {
    Candidates(es, q);
  }

  /** HAM_FIND_NEAR_MATCH: fails only on an empty store; otherwise the key itself, or a
      nearest neighbour on one side. */
  lemma NearMatchMeaning(es: seq<Entry>, q: Key)
    requires WellFormed(es)
    ensures FindIn(es, q, FindNear).status == Ok <==> Present(es, q) || HasBelow(es, q) || HasAbove(es, q)
    ensures FindIn(es, q, FindNear).status == Ok <==> es != []
    ensures Present(es, q) ==> FindIn(es, q, FindNear).key == q
    ensures FindIn(es, q, FindNear).status == Ok && !Present(es, q) ==>
      NearestBelow(es, q, FindIn(es, q, FindNear).key) || NearestAbove(es, q, FindIn(es, q, FindNear).key)
  {
    Candidates(es, q);
    if es != [] && !HasBelow(es, q) && !HasAbove(es, q) {
      LessTotal(es[0].key, q);
    }
  }

  /** HAM_FIND_LT_MATCH together with HAM_FIND_GT_MATCH: never the key itself; a nearest
      neighbour on either side when there is one. */
  lemma LtOrGtMatchMeaning(es: seq<Entry>, q: Key)
    requires WellFormed(es)
    ensures FindIn(es, q, FindLtOrGt).status == Ok <==> HasBelow(es, q) || HasAbove(es, q)
    ensures FindIn(es, q, FindLtOrGt).status == Ok ==>
      FindIn(es, q, FindLtOrGt).key != q &&
      (NearestBelow(es, q, FindIn(es, q, FindLtOrGt).key) || NearestAbove(es, q, FindIn(es, q, FindLtOrGt).key))
  {
    Candidates(es, q);
  }

  /** On an empty store every kind of find misses. */
  lemma EmptyStoreMisses(q: Key, f: FindFlags)
    ensures FindIn([], q, f) == FindReply(KeyNotFound, q, None, 0)
  {
  }
}
