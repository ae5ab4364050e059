/**
 * The few `Array.prototype` operations the task logic relies on, with
 * JavaScript's conventions for a missing element (`indexOf` gives -1) and
 * for negative or out-of-range `slice` bounds.
 */
module JsArray {

  /** `xs.indexOf(x)`: the first position holding `x`, or -1 when there is none. */
  function IndexOf<T(==)>(xs: seq<T>, x: T): (r: int)
    ensures -1 <= r < |xs|
    ensures r == -1 <==> x !in xs
    ensures 0 <= r ==> xs[r] == x && x !in xs[..r]
  {
    if |xs| == 0 then -1
    else if xs[0] == x then 0
    else
      var k := IndexOf(xs[1..], x);
      assert k >= 0 ==> xs[..k + 1] == [xs[0]] + xs[1..][..k];
      if k == -1 then -1 else k + 1
  }

  /** One bound of `slice`: a negative bound counts back from the end, and both are clamped to `[0, len]`. */
  function SliceBound(k: int, len: nat): (r: nat)
    ensures r <= len
    ensures 0 <= k <= len ==> r == k
    ensures k < 0 && len + k >= 0 ==> r == len + k
  {
    if k < 0 then (if len + k < 0 then 0 else len + k)
    else if k > len then len
    else k
  }

  /** `xs.slice(start, end)`: empty when the resolved bounds cross. */
  function Slice<T>(xs: seq<T>, start: int, end: int): (r: seq<T>)
    ensures |r| <= |xs|
    ensures forall y :: y in r ==> y in xs
    ensures 0 <= start <= end <= |xs| ==> r == xs[start..end]
  {
    var a := SliceBound(start, |xs|);
    var b := SliceBound(end, |xs|);
    if a < b then xs[a..b] else []
  }

  /** `xs.slice(start)`. */
  function SliceFrom<T>(xs: seq<T>, start: int): (r: seq<T>)
    ensures |r| <= |xs|
    ensures forall y :: y in r ==> y in xs
    ensures 0 <= start <= |xs| ==> r == xs[start..]
    ensures start < 0 && |xs| + start >= 0 ==> r == xs[|xs| + start..]
    ensures start < 0 && |xs| + start < 0 ==> r == xs
    ensures start > |xs| ==> r == []
  {
    Slice(xs, start, |xs|)
  }

  /**
   * Splitting around `xs.indexOf(x)`. On a hit at `i`, `slice(0, i)` and
   * `slice(i + 1)` are the parts strictly before and after it. On a miss the
   * index is -1: `slice(0, -1)` drops the last element and `slice(0)` is the
   * whole array.
   */
  lemma SplitAtIndexOf<T>(xs: seq<T>, x: T)
    ensures var i := IndexOf(xs, x);
      && (0 <= i ==> Slice(xs, 0, i) == xs[..i] && SliceFrom(xs, i + 1) == xs[i + 1..])
      && (i == -1 ==> SliceFrom(xs, i + 1) == xs)
      && (i == -1 && |xs| > 0 ==> Slice(xs, 0, i) == xs[..|xs| - 1])
      && (i == -1 && |xs| == 0 ==> Slice(xs, 0, i) == [])
  {
    var i := IndexOf(xs, x);
    if i == -1 {
      assert SliceFrom(xs, 0) == xs[0..];
      if |xs| > 0 {
        assert SliceBound(-1, |xs|) == |xs| - 1;
      }
    } else {
      assert Slice(xs, 0, i) == xs[0..i];
    }
  }

  /** `indexOf` finds the first occurrence. */
  lemma IndexOfFirst<T>(xs: seq<T>, x: T, i: nat)
    requires i < |xs| && xs[i] == x && x !in xs[..i]
    ensures IndexOf(xs, x) == i
  {
  }

  /** `xs.reverse()` applied to a fresh array. */
  function Reverse<T>(xs: seq<T>): (r: seq<T>)
    ensures |r| == |xs|
    ensures forall i :: 0 <= i < |xs| ==> r[i] == xs[|xs| - 1 - i]
  {
    if |xs| == 0 then [] else Reverse(xs[1..]) + [xs[0]]
  }

  /** Reversal keeps exactly the same elements. */
  lemma ReverseSameElements<T>(xs: seq<T>)
    ensures forall y :: y in Reverse(xs) <==> y in xs
  {
    var r := Reverse(xs);
    forall y | y in r ensures y in xs {
      var i :| 0 <= i < |r| && r[i] == y;
      assert xs[|xs| - 1 - i] == y;
    }
    forall y | y in xs ensures y in r {
      var i :| 0 <= i < |xs| && xs[i] == y;
      assert r[|xs| - 1 - i] == y;
    }
  }
}
