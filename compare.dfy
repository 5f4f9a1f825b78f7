/** The two key comparators the unit tests install on a database:
    `my_compare_func_u32` (full keys) and `my_prefix_compare_func_u32` (key prefixes).
    Both read a key as consecutive signed 32-bit words. */
module KeyCompare {

  newtype int32 = x: int | -0x8000_0000 <= x < 0x8000_0000

  /** A key as the comparators see it: its length in bytes and the signed 32-bit words
      that its first `length / 4` whole 4-byte groups hold. */
  datatype RawKey = RawKey(length: nat, words: seq<int32>)

  /** Bytes after the last whole word are never read by either comparator, so a key is
      determined, as far as ordering goes, by its length and its words. */
  type Key = k: RawKey | |k.words| == k.length / 4 witness RawKey(0, [])

  function Min(a: nat, b: nat): nat { if a < b then a else b }

  /** The tie-break after the word loop: the shorter key is less. */
  function LengthSign(la: nat, lb: nat): int { if la < lb then -1 else if lb < la then 1 else 0 }

  /** The word loop both comparators share: it walks the words the two sequences have in
      common and the first pair that differs decides; 0 means the loop ran out undecided. */
  function WordVerdict(a: seq<int32>, b: seq<int32>): (r: int)
    ensures r == -1 || r == 0 || r == 1
  {
    if a == [] || b == [] then 0
    else if a[0] < b[0] then -1
    else if a[0] > b[0] then 1
    else WordVerdict(a[1..], b[1..])
  }

  /** Result of `my_compare_func_u32`: negative, zero or positive. */
  function Compare(a: Key, b: Key): int
  {
    var v := WordVerdict(a.words, b.words);
    if v != 0 then v else LengthSign(a.length, b.length)
  }

  predicate Less(a: Key, b: Key) { Compare(a, b) < 0 }

  predicate LessEq(a: Key, b: Key) { Compare(a, b) <= 0 }

  /** What `my_prefix_compare_func_u32` can answer: a decided order, or the request for the
      full keys (HAM_PREFIX_REQUEST_FULLKEY). It never answers "equal". */
  datatype PrefixVerdict = PrefixLess | PrefixGreater | RequestFullKey

  function PrefixCompare(a: Key, b: Key): PrefixVerdict
  {
    var v := WordVerdict(a.words, b.words);
    if v < 0 then PrefixLess else if v > 0 then PrefixGreater else RequestFullKey
  }

  // ---------------------------------------------------------------------------------
  // The comparators as the loops they are in the source.

  /** `my_compare_func_u32`: the loop over `min(lhs_length, rhs_length) / 4` words. */
  method CompareU32(lhs: Key, rhs: Key) returns (r: int)
    ensures r == Compare(lhs, rhs)
    ensures r == -1 || r == 0 || r == 1
  {
    var len: nat := (if lhs.length < rhs.length then lhs.length else rhs.length) / 4;
    var i: nat := 0;  // how far the l and r pointers have advanced
    while len > 0
      invariant i + len == Min(|lhs.words|, |rhs.words|)
      invariant WordVerdict(lhs.words[i..], rhs.words[i..]) == WordVerdict(lhs.words, rhs.words)
    {
      if lhs.words[i] < rhs.words[i] {
        return -1;
      } else if lhs.words[i] > rhs.words[i] {
        return 1;
      }
      assert lhs.words[i..][1..] == lhs.words[i + 1..] && rhs.words[i..][1..] == rhs.words[i + 1..];
      len := len - 1;
      i := i + 1;
    }
    if lhs.length < rhs.length {
      return -1;
    } else if rhs.length < lhs.length {
      return 1;
    }
    return 0;
  }

  /** `my_prefix_compare_func_u32`: the same loop over the prefixes it is given; the real
      lengths of the two keys are passed in but, as in the source, not consulted. */
  method PrefixCompareU32(lhs: Key, lhsRealLength: nat, rhs: Key, rhsRealLength: nat)
    returns (r: PrefixVerdict)
    ensures r == PrefixCompare(lhs, rhs)
  {
    var len: nat := (if lhs.length < rhs.length then lhs.length else rhs.length) / 4;
    var i: nat := 0;
    while len > 0
      invariant i + len == Min(|lhs.words|, |rhs.words|)
      invariant WordVerdict(lhs.words[i..], rhs.words[i..]) == WordVerdict(lhs.words, rhs.words)
    {
      if lhs.words[i] < rhs.words[i] {
        return PrefixLess;
      } else if lhs.words[i] > rhs.words[i] {
        return PrefixGreater;
      }
      assert lhs.words[i..][1..] == lhs.words[i + 1..] && rhs.words[i..][1..] == rhs.words[i + 1..];
      len := len - 1;
      i := i + 1;
    }
    return RequestFullKey;
  }

  // ---------------------------------------------------------------------------------
  // What the word loop decides.

  /** The word loop is decided by the first differing pair among the common words:
      it answers 0 exactly when all common words agree, and otherwise the sign of the
      first pair that differs. */
  lemma {:induction false} WordVerdictFirstDifference(a: seq<int32>, b: seq<int32>)
    ensures WordVerdict(a, b) == 0 <==> forall j :: 0 <= j < |a| && j < |b| ==> a[j] == b[j]
    ensures WordVerdict(a, b) != 0 ==>
      exists i :: 0 <= i < |a| && i < |b| && a[..i] == b[..i] && a[i] != b[i] &&
        (WordVerdict(a, b) == -1 <==> a[i] < b[i])
  {
    if a == [] || b == [] {
    } else if a[0] != b[0] {
      assert a[..0] == b[..0];
    } else {
      WordVerdictFirstDifference(a[1..], b[1..]);
      if WordVerdict(a, b) == 0 {
        forall j | 0 <= j < |a| && j < |b| ensures a[j] == b[j] {
          if j > 0 { assert a[j] == a[1..][j - 1] && b[j] == b[1..][j - 1]; }
        }
      } else {
        var i :| 0 <= i < |a[1..]| && i < |b[1..]| && a[1..][..i] == b[1..][..i] && a[1..][i] != b[1..][i] &&
          (WordVerdict(a[1..], b[1..]) == -1 <==> a[1..][i] < b[1..][i]);
        assert a[..i + 1] == [a[0]] + a[1..][..i];
        assert b[..i + 1] == [b[0]] + b[1..][..i];
      }
      if forall j :: 0 <= j < |a| && j < |b| ==> a[j] == b[j] {
        forall j | 0 <= j < |a[1..]| && j < |b[1..]| ensures a[1..][j] == b[1..][j] {
          assert a[1..][j] == a[j + 1];
        }
      }
    }
  }

  /** Swapping the arguments of the word loop flips its answer. */
  lemma {:induction false} WordVerdictAntisymmetric(a: seq<int32>, b: seq<int32>)
    ensures WordVerdict(a, b) == -WordVerdict(b, a)
  {
    if a != [] && b != [] && a[0] == b[0] {
      WordVerdictAntisymmetric(a[1..], b[1..]);
    }
  }

  /** A decision the loop reaches on prefixes of two word sequences is the decision on the
      whole sequences: the words after the prefixes are never reached. */
  lemma {:induction false} WordVerdictExtends(a: seq<int32>, b: seq<int32>, a': seq<int32>, b': seq<int32>)
    requires a' <= a && b' <= b
    requires WordVerdict(a', b') != 0
    ensures WordVerdict(a, b) == WordVerdict(a', b')
  {
    assert a' != [] && b' != [];
    assert a[0] == a'[0] && b[0] == b'[0];
    if a'[0] == b'[0] {
      assert a'[1..] <= a[1..] && b'[1..] <= b[1..];
      WordVerdictExtends(a[1..], b[1..], a'[1..], b'[1..]);
    }
  }

  // ---------------------------------------------------------------------------------
  // `my_compare_func_u32` is a total order on keys.

  /** Zero exactly on equal keys: reflexive, and two keys it cannot tell apart are the same key. */
  lemma CompareZeroIffEqual(a: Key, b: Key)
    ensures Compare(a, b) == 0 <==> a == b
  {
    WordVerdictFirstDifference(a.words, b.words);
    WordVerdictFirstDifference(a.words, a.words);
    if Compare(a, b) == 0 {
      assert |a.words| == |b.words|;
      assert a.words == b.words;
    }
  }

  /** Antisymmetric: swapping the keys flips the sign. */
  lemma CompareAntisymmetric(a: Key, b: Key)
    ensures Compare(a, b) == -Compare(b, a)
    ensures Compare(a, b) == -1 || Compare(a, b) == 0 || Compare(a, b) == 1
  {
    WordVerdictAntisymmetric(a.words, b.words);
  }

  /** Dropping the first word of each key when the two agree on it leaves the comparison alone. */
  function Tail(k: Key): (t: Key)
    requires k.words != []
    ensures |t.words| == |k.words| - 1
  {
    RawKey(k.length - 4, k.words[1..])
  }

  lemma CompareTail(a: Key, b: Key)
    requires a.words != [] && b.words != [] && a.words[0] == b.words[0]
    ensures Compare(a, b) == Compare(Tail(a), Tail(b))
  {
  }

  /** Transitive: the order the B-tree is kept in is a strict total order. */
  lemma {:induction false} LessTransitive(a: Key, b: Key, c: Key)
    requires Less(a, b) && Less(b, c)
    ensures Less(a, c)
    decreases |a.words|
  {
    if a.words == [] || b.words == [] || c.words == [] {
      // A key without whole words is shorter than any key with one.
    } else if a.words[0] == b.words[0] && b.words[0] == c.words[0] {
      CompareTail(a, b);
      CompareTail(b, c);
      CompareTail(a, c);
      LessTransitive(Tail(a), Tail(b), Tail(c));
    }
  }

  /** Any two distinct keys are ordered one way or the other. */
  lemma LessTotal(a: Key, b: Key)
    ensures a == b || Less(a, b) || Less(b, a)
    ensures !(Less(a, b) && Less(b, a))
    ensures !Less(a, a)
  {
    CompareZeroIffEqual(a, b);
    CompareZeroIffEqual(a, a);
    CompareAntisymmetric(a, b);
  }

  // ---------------------------------------------------------------------------------
  // The prefix comparator against the full one.

  /** LessEq is antisymmetric, so Less and LessEq order keys totally. */
  lemma LessEqAntisymmetric(a: Key, b: Key)
    requires LessEq(a, b) && LessEq(b, a)
    ensures a == b
  {
    CompareAntisymmetric(a, b);
    CompareZeroIffEqual(a, b);
  }

  /** A prefix of a key as the engine hands it to the prefix comparator: no longer than the
      key, and the words it holds are the key's first words. */
  predicate IsPrefixOf(p: Key, k: Key)
  {
    p.length <= k.length && p.words <= k.words
  }

  /** When the prefix comparator decides, the full comparator decides the same way on the
      full keys; only RequestFullKey sends the engine to the full keys. */
  lemma PrefixCompareSound(lp: Key, l: Key, rp: Key, r: Key)
    requires IsPrefixOf(lp, l) && IsPrefixOf(rp, r)
    ensures PrefixCompare(lp, rp) == PrefixLess ==> Compare(l, r) == -1
    ensures PrefixCompare(lp, rp) == PrefixGreater ==> Compare(l, r) == 1
  {
    if WordVerdict(lp.words, rp.words) != 0 {
      WordVerdictExtends(l.words, r.words, lp.words, rp.words);
    }
  }

  /** On full keys the prefix comparator answers -1/+1 exactly when the full comparator's
      word loop does, and asks for the full keys exactly when all common words agree. */
  lemma PrefixCompareAgrees(a: Key, b: Key)
    ensures PrefixCompare(a, b) == PrefixLess <==> WordVerdict(a.words, b.words) == -1
    ensures PrefixCompare(a, b) == PrefixGreater <==> WordVerdict(a.words, b.words) == 1
    ensures PrefixCompare(a, b) == RequestFullKey <==>
      forall j :: 0 <= j < |a.words| && j < |b.words| ==> a.words[j] == b.words[j]
    ensures PrefixCompare(a, b) != RequestFullKey ==>
      (PrefixCompare(a, b) == PrefixLess <==> Compare(a, b) == -1)
  {
    WordVerdictFirstDifference(a.words, b.words);
  }

  /** The full comparator, stated outright: the first differing word among the common ones
      decides, and when there is none the shorter key is less. */
  lemma CompareDecidedByFirstDifference(a: Key, b: Key, i: nat)
    requires i < |a.words| && i < |b.words| && a.words[..i] == b.words[..i] && a.words[i] != b.words[i]
    ensures Compare(a, b) == (if a.words[i] < b.words[i] then -1 else 1)
  {
    WordVerdictFirstDifference(a.words, b.words);
    assert WordVerdict(a.words, b.words) != 0;
    var i' :| 0 <= i' < |a.words| && i' < |b.words| && a.words[..i'] == b.words[..i'] && a.words[i'] != b.words[i'] &&
      (WordVerdict(a.words, b.words) == -1 <==> a.words[i'] < b.words[i']);
    assert i' == i;
  }

  lemma CompareCommonWordsEqual(a: Key, b: Key)
    requires forall j :: 0 <= j < |a.words| && j < |b.words| ==> a.words[j] == b.words[j]
    ensures Compare(a, b) == LengthSign(a.length, b.length)
  {
    WordVerdictFirstDifference(a.words, b.words);
  }

  /** Keys of one length that differ at most in their first word are ordered by that word. */
  lemma CompareByFirstWord(a: Key, b: Key)
    requires a.length == b.length && |a.words| > 0 && a.words[1..] == b.words[1..]
    ensures Compare(a, b) == (if a.words[0] < b.words[0] then -1 else if a.words[0] > b.words[0] then 1 else 0)
    ensures a == b <==> a.words[0] == b.words[0]
  {
    if a.words[0] == b.words[0] {
      assert a.words == [a.words[0]] + a.words[1..];
      assert b.words == [b.words[0]] + b.words[1..];
      CompareZeroIffEqual(a, b);
    }
  }
}
