/** Whole-vector numpy arithmetic on equal-length vectors, as the curve
    operations use it (`a - b`, `a + b`, `a * c`, `a / 2`). Broadcasting of
    length-1 vectors is not modelled: operands of two vectors have equal
    lengths. */
module Elementwise {

  /** `a - b` */
  function Sub(a: seq<real>, b: seq<real>): (r: seq<real>)
    requires |a| == |b|
    ensures |r| == |a|
    ensures forall k :: 0 <= k < |r| ==> r[k] == a[k] - b[k]
  {
    if a == [] then [] else [a[0] - b[0]] + Sub(a[1..], b[1..])
  }

  /** `a + b` */
  function Add(a: seq<real>, b: seq<real>): (r: seq<real>)
    requires |a| == |b|
    ensures |r| == |a|
    ensures forall k :: 0 <= k < |r| ==> r[k] == a[k] + b[k]
  {
    if a == [] then [] else [a[0] + b[0]] + Add(a[1..], b[1..])
  }

  /** `a * c` for a scalar `c` */
  function Scale(a: seq<real>, c: real): (r: seq<real>)
    ensures |r| == |a|
    ensures forall k :: 0 <= k < |r| ==> r[k] == a[k] * c
  {
    if a == [] then [] else [a[0] * c] + Scale(a[1..], c)
  }

  /** `a / 2` */
  function Halve(a: seq<real>): (r: seq<real>)
    ensures |r| == |a|
    ensures forall k :: 0 <= k < |r| ==> r[k] == a[k] / 2.0
  {
    if a == [] then [] else [a[0] / 2.0] + Halve(a[1..])
  }

  /** Every entry of `a` is zero. */
  predicate AllZero(a: seq<real>)
  {
    forall k :: 0 <= k < |a| ==> a[k] == 0.0
  }

  /** The sample axis never goes down (what `np.interp` assumes of `xp`). */
  predicate NonDecreasing(s: seq<real>)
  {
    forall j, k :: 0 <= j <= k < |s| ==> s[j] <= s[k]
  }

  predicate StrictlyIncreasing(s: seq<real>)
  {
    forall j, k :: 0 <= j < k < |s| ==> s[j] < s[k]
  }
}
