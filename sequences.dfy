/** Order-preserving filtering of sequences, characterised by the indices it keeps. */
module Sequences {

  /** The elements of `s` satisfying `p`, in their original order (a stream filter). */
  function Filter<T>(s: seq<T>, p: T -> bool): (r: seq<T>)
    ensures |r| <= |s|
  {
    if s == [] then []
    else Filter(s[..|s| - 1], p) + (if p(s[|s| - 1]) then [s[|s| - 1]] else [])
  }

  /** The positions of `s` whose element satisfies `p`, in increasing order. */
  function KeptIndices<T>(s: seq<T>, p: T -> bool): seq<nat>
  {
    if s == [] then []
    else KeptIndices(s[..|s| - 1], p) + (if p(s[|s| - 1]) then [|s| - 1] else [])
  }

  ghost predicate StrictlyIncreasing(idx: seq<nat>)
  {
    forall k1, k2 :: 0 <= k1 < k2 < |idx| ==> idx[k1] < idx[k2]
  }

  /** The kept positions are in range, strictly increasing, and are exactly the positions
      whose element satisfies `p`. */
  lemma {:induction false} KeptIndicesExact<T>(s: seq<T>, p: T -> bool)
    ensures var idx := KeptIndices(s, p);
      && (forall k :: 0 <= k < |idx| ==> idx[k] < |s|)
      && StrictlyIncreasing(idx)
      && (forall i :: 0 <= i < |s| ==> (p(s[i]) <==> i in idx))
  {
    if s != [] {
      var n := |s| - 1;
      var init := s[..n];
      KeptIndicesExact(init, p);
      var before := KeptIndices(init, p);
      assert forall i :: 0 <= i < n ==> init[i] == s[i];
      if p(s[n]) {
        assert KeptIndices(s, p) == before + [n];
      } else {
        assert KeptIndices(s, p) == before;
      }
    }
  }

  /** The filter's output lists the elements at the kept positions. */
  lemma {:induction false} FilterAtKeptIndices<T>(s: seq<T>, p: T -> bool)
    ensures var idx := KeptIndices(s, p);
      && |Filter(s, p)| == |idx|
      && (forall k :: 0 <= k < |idx| ==> 0 <= idx[k] < |s| && Filter(s, p)[k] == s[idx[k]])
  {
    if s != [] {
      var n := |s| - 1;
      var init := s[..n];
      FilterAtKeptIndices(init, p);
      KeptIndicesExact(init, p);
      assert forall i :: 0 <= i < n ==> init[i] == s[i];
    }
  }

  /** `Filter` keeps exactly the positions satisfying `p`, in order, and nothing else. */
  lemma FilterIsKeptIndices<T>(s: seq<T>, p: T -> bool)
    ensures var idx := KeptIndices(s, p);
      && |Filter(s, p)| == |idx|
      && StrictlyIncreasing(idx)
      && (forall k :: 0 <= k < |idx| ==> idx[k] < |s| && Filter(s, p)[k] == s[idx[k]])
      && (forall i :: 0 <= i < |s| ==> (p(s[i]) <==> i in idx))
  {
    KeptIndicesExact(s, p);
    FilterAtKeptIndices(s, p);
  }

  /** Nothing is kept if and only if no element satisfies `p`. */
  lemma FilterEmptyIff<T>(s: seq<T>, p: T -> bool)
    ensures Filter(s, p) == [] <==> forall i :: 0 <= i < |s| ==> !p(s[i])
  {
    FilterIsKeptIndices(s, p);
    var idx := KeptIndices(s, p);
    if Filter(s, p) != [] {
      assert p(s[idx[0]]);
    }
  }

  /** At least two elements are kept if and only if two distinct positions satisfy `p`. */
  lemma FilterAtLeastTwoIff<T>(s: seq<T>, p: T -> bool)
    ensures |Filter(s, p)| >= 2 <==> exists i, j :: 0 <= i < j < |s| && p(s[i]) && p(s[j])
  {
    FilterIsKeptIndices(s, p);
    var idx := KeptIndices(s, p);
    if |Filter(s, p)| >= 2 {
      assert idx[0] < idx[1] && p(s[idx[0]]) && p(s[idx[1]]);
    }
    if exists i, j :: 0 <= i < j < |s| && p(s[i]) && p(s[j]) {
      var i, j :| 0 <= i < j < |s| && p(s[i]) && p(s[j]);
      assert i in idx && j in idx;
    }
  }

  /** Exactly one element is kept if and only if exactly one position satisfies `p`;
      the kept element is the one at that position. */
  lemma FilterSingletonIff<T>(s: seq<T>, p: T -> bool, i: int)
    requires 0 <= i < |s|
    ensures (p(s[i]) && forall j :: 0 <= j < |s| && j != i ==> !p(s[j]))
        <==> (|Filter(s, p)| == 1 && KeptIndices(s, p) == [i])
    ensures |Filter(s, p)| == 1 && KeptIndices(s, p) == [i] ==> Filter(s, p) == [s[i]]
  {
    FilterIsKeptIndices(s, p);
    var idx := KeptIndices(s, p);
    if p(s[i]) && forall j :: 0 <= j < |s| && j != i ==> !p(s[j]) {
      assert i in idx;
      forall k | 0 <= k < |idx| ensures idx[k] == i {
        assert p(s[idx[k]]);
      }
      IncreasingSpread(idx);
      assert idx == [i];
    }
  }

  /** The last element of a strictly increasing sequence exceeds the first by at least its length less one. */
  lemma {:induction false} IncreasingSpread(idx: seq<nat>)
    requires StrictlyIncreasing(idx)
    requires |idx| > 0
    ensures idx[|idx| - 1] >= idx[0] + |idx| - 1
  {
    if |idx| > 1 {
      var init := idx[..|idx| - 1];
      assert forall k :: 0 <= k < |init| ==> init[k] == idx[k];
      IncreasingSpread(init);
      assert idx[|idx| - 2] < idx[|idx| - 1];
    }
  }
}
