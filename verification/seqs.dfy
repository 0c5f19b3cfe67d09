/** Order-preserving subsequences, and picking elements by position. */
module Seqs {

  /** `a` is obtained from `b` by deleting elements, without reordering. */
  predicate IsSubsequence<T(==)>(a: seq<T>, b: seq<T>)
    decreases |b|
  {
    a == [] || (b != [] && ((a[0] == b[0] && IsSubsequence(a[1..], b[1..])) || IsSubsequence(a, b[1..])))
  }

  /** A subsequence stays one when an element is put in front of the larger sequence. */
  lemma SubsequenceCons<T>(a: seq<T>, x: T, b: seq<T>)
    requires IsSubsequence(a, b)
    ensures IsSubsequence(a, [x] + b)
  {
    assert ([x] + b)[1..] == b;
  }

  /** The elements of `s` at positions `ks`, in the order of `ks`. */
  function Gather<T>(s: seq<T>, ks: seq<nat>): (r: seq<T>)
    requires forall k :: 0 <= k < |ks| ==> ks[k] < |s|
    ensures |r| == |ks|
  {
    seq(|ks|, k requires 0 <= k < |ks| => s[ks[k]])
  }

  lemma GatherCons<T>(s: seq<T>, i: nat, ks: seq<nat>)
    requires i < |s|
    requires forall k :: 0 <= k < |ks| ==> ks[k] < |s|
    ensures Gather(s, [i] + ks) == [s[i]] + Gather(s, ks)
  {
    var l, r := Gather(s, [i] + ks), [s[i]] + Gather(s, ks);
    assert |l| == |r|;
    forall k | 0 <= k < |l| ensures l[k] == r[k] {
      if k > 0 {
        assert ([i] + ks)[k] == ks[k - 1];
      }
    }
  }
}
