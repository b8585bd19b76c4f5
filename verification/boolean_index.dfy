/** Boolean-mask indexing of a table (`df[mask]`): keep the rows whose mask
    entry is true, in their original order, unchanged. */
module BooleanIndex {

  /** `s` is `t` with some elements dropped and the rest kept in order. */
  predicate IsSubsequence<T(==)>(s: seq<T>, t: seq<T>)
    decreases |t|
  {
    if |s| == 0 then true
    else if |t| == 0 then false
    else
      || (s[|s| - 1] == t[|t| - 1] && IsSubsequence(s[..|s| - 1], t[..|t| - 1]))
      || IsSubsequence(s, t[..|t| - 1])
  }

  /** The positions whose mask entry is true, in ascending order. */
  function KeptIndices(mask: seq<bool>): (ix: seq<nat>)
    ensures |ix| <= |mask|
    decreases |mask|
  {
    if |mask| == 0 then []
    else
      var n := |mask| - 1;
      KeptIndices(mask[..n]) + (if mask[n] then [n] else [])
  }

  /** `KeptIndices` lists exactly the true positions, strictly ascending. */
  lemma {:induction false} KeptIndicesExact(mask: seq<bool>)
    ensures forall k :: 0 <= k < |KeptIndices(mask)| ==>
              KeptIndices(mask)[k] < |mask| && mask[KeptIndices(mask)[k]]
    ensures forall i :: 0 <= i < |mask| && mask[i] ==> i in KeptIndices(mask)
    ensures forall k, l :: 0 <= k < l < |KeptIndices(mask)| ==>
              KeptIndices(mask)[k] < KeptIndices(mask)[l]
    decreases |mask|
  {
    if |mask| > 0 {
      var n := |mask| - 1;
      KeptIndicesExact(mask[..n]);
      var ix := KeptIndices(mask[..n]);
      assert KeptIndices(mask) == ix + (if mask[n] then [n] else []);
      forall i | 0 <= i < n && mask[i]
        ensures i in KeptIndices(mask)
      {
        assert mask[..n][i];
      }
    }
  }

  /** `xs[mask]`: the elements at the positions the mask keeps. */
  function ApplyMask<T(==)>(xs: seq<T>, mask: seq<bool>): (r: seq<T>)
    requires |mask| == |xs|
    ensures IsSubsequence(r, xs)
    decreases |xs|
  {
    if |xs| == 0 then []
    else
      var n := |xs| - 1;
      var front := ApplyMask(xs[..n], mask[..n]);
      assert xs[..n] == xs[..|xs| - 1];
      if mask[n] then
        assert (front + [xs[n]])[..|front|] == front;
        front + [xs[n]]
      else
        front
  }

  /** The result of `xs[mask]` is exactly the elements at the kept
      positions, in ascending position order: nothing else, nothing
      missing, nothing changed. */
  lemma {:induction false} ApplyMaskPicksKept<T>(xs: seq<T>, mask: seq<bool>)
    requires |mask| == |xs|
    ensures |ApplyMask(xs, mask)| == |KeptIndices(mask)|
    ensures forall k :: 0 <= k < |KeptIndices(mask)| ==>
              KeptIndices(mask)[k] < |xs| && ApplyMask(xs, mask)[k] == xs[KeptIndices(mask)[k]]
    decreases |xs|
  {
    if |xs| > 0 {
      var n := |xs| - 1;
      ApplyMaskPicksKept(xs[..n], mask[..n]);
      KeptIndicesExact(mask[..n]);
      var front := ApplyMask(xs[..n], mask[..n]);
      var ix := KeptIndices(mask[..n]);
      var extra := if mask[n] then [xs[n]] else [];
      var extraIx := if mask[n] then [n] else [];
      assert ApplyMask(xs, mask) == front + extra;
      assert KeptIndices(mask) == ix + extraIx;
      forall k | 0 <= k < |ix| + |extraIx|
        ensures KeptIndices(mask)[k] < |xs| && ApplyMask(xs, mask)[k] == xs[KeptIndices(mask)[k]]
      {
        if k < |ix| {
          assert KeptIndices(mask)[k] == ix[k];
          assert ApplyMask(xs, mask)[k] == front[k] == xs[..n][ix[k]];
        }
      }
    }
  }

  /** Every element at a true position appears in `xs[mask]`. */
  lemma ApplyMaskComplete<T>(xs: seq<T>, mask: seq<bool>)
    requires |mask| == |xs|
    ensures forall i :: 0 <= i < |xs| && mask[i] ==> xs[i] in ApplyMask(xs, mask)
  {
    KeptIndicesExact(mask);
    ApplyMaskPicksKept(xs, mask);
    var ix := KeptIndices(mask);
    forall i | 0 <= i < |xs| && mask[i]
      ensures xs[i] in ApplyMask(xs, mask)
    {
      var k :| 0 <= k < |ix| && ix[k] == i;
      assert ApplyMask(xs, mask)[k] == xs[i];
    }
  }

  /** A subsequence is never longer than the sequence it is taken from. */
  lemma {:induction false} SubsequenceLength<T>(s: seq<T>, t: seq<T>)
    requires IsSubsequence(s, t)
    ensures |s| <= |t|
    decreases |t|
  {
    if |s| > 0 {
      if s[|s| - 1] == t[|t| - 1] && IsSubsequence(s[..|s| - 1], t[..|t| - 1]) {
        SubsequenceLength(s[..|s| - 1], t[..|t| - 1]);
      } else {
        SubsequenceLength(s, t[..|t| - 1]);
      }
    }
  }

  /** Appending to the longer sequence keeps a subsequence a subsequence. */
  lemma SubsequenceAppend<T>(s: seq<T>, t: seq<T>, x: T)
    requires IsSubsequence(s, t)
    ensures IsSubsequence(s, t + [x])
  {
    assert (t + [x])[..|t|] == t;
  }

  /** An all-true mask keeps the whole sequence. */
  lemma {:induction false} ApplyMaskAllTrue<T>(xs: seq<T>, mask: seq<bool>)
    requires |mask| == |xs|
    requires forall i :: 0 <= i < |mask| ==> mask[i]
    ensures ApplyMask(xs, mask) == xs
    decreases |xs|
  {
    if |xs| > 0 {
      var n := |xs| - 1;
      ApplyMaskAllTrue(xs[..n], mask[..n]);
      assert xs[..n] + [xs[n]] == xs;
    }
  }

  /** A false entry anywhere drops at least one position. */
  lemma {:induction false} KeptIndicesMissing(mask: seq<bool>, i: nat)
    requires i < |mask| && !mask[i]
    ensures |KeptIndices(mask)| < |mask|
    decreases |mask|
  {
    var n := |mask| - 1;
    if i < n {
      KeptIndicesMissing(mask[..n], i);
    }
  }

  /** `xs[mask]` is all of `xs` exactly when every mask entry is true. */
  lemma ApplyMaskKeepsAll<T>(xs: seq<T>, mask: seq<bool>)
    requires |mask| == |xs|
    ensures ApplyMask(xs, mask) == xs <==> forall i :: 0 <= i < |mask| ==> mask[i]
  {
    if forall i :: 0 <= i < |mask| ==> mask[i] {
      ApplyMaskAllTrue(xs, mask);
    } else {
      var i :| 0 <= i < |mask| && !mask[i];
      KeptIndicesMissing(mask, i);
      ApplyMaskPicksKept(xs, mask);
    }
  }

  /** What a smaller mask keeps is a subsequence of what a larger one keeps. */
  lemma {:induction false} ApplyMaskMonotone<T>(xs: seq<T>, small: seq<bool>, large: seq<bool>)
    requires |small| == |xs| && |large| == |xs|
    requires forall i :: 0 <= i < |xs| && small[i] ==> large[i]
    ensures IsSubsequence(ApplyMask(xs, small), ApplyMask(xs, large))
    decreases |xs|
  {
    if |xs| > 0 {
      var n := |xs| - 1;
      var s' := ApplyMask(xs[..n], small[..n]);
      var l' := ApplyMask(xs[..n], large[..n]);
      ApplyMaskMonotone(xs[..n], small[..n], large[..n]);
      if small[n] {
        assert (s' + [xs[n]])[..|s'|] == s';
        assert (l' + [xs[n]])[..|l'|] == l';
      } else if large[n] {
        SubsequenceAppend(s', l', xs[n]);
      }
    }
  }
}
