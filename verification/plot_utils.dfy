/** The radius-of-gyration difference between paired models. */
module PlotUtils {

  /** `m` is a valid numpy index into a vector of length `n`, counting from
      the end when negative. */
  predicate ValidIndex(n: nat, m: int)
  {
    -(n as int) <= m < n
  }

  /** `rg[m]` with numpy's negative indices. */
  function At(rg: seq<real>, m: int): (v: real)
    requires ValidIndex(|rg|, m)
    ensures v == rg[m % |rg|]
  {
    if m < 0 then rg[|rg| + m] else rg[m]
  }

  /** A non-negative index and the negative index that counts from the end
      to the same place read the same entry. */
  lemma AtNegativeAlias(rg: seq<real>, m: int)
    requires 0 <= m < |rg|
    ensures At(rg, m - |rg|) == At(rg, m)
  {
  }

  function Min(a: nat, b: nat): nat
  {
    if a <= b then a else b
  }

  /** Every index pair `zip` reaches is valid for `rg`. */
  predicate PairsInRange(light: seq<int>, dark: seq<int>, rg: seq<real>)
  {
    forall k :: 0 <= k < |light| && k < |dark| ==>
      ValidIndex(|rg|, light[k]) && ValidIndex(|rg|, dark[k])
  }

  /** `get_rg_diff(indices_light, indices_dark, rg)`: `rg[m1] - rg[m2]` for
      each pair of `zip(indices_light, indices_dark)`, which stops at the
      shorter list. */
  function GetRgDiff(light: seq<int>, dark: seq<int>, rg: seq<real>): (d: seq<real>)
    requires PairsInRange(light, dark, rg)
    ensures |d| == Min(|light|, |dark|)
    ensures forall k :: 0 <= k < |d| ==> d[k] == At(rg, light[k]) - At(rg, dark[k])
  {
    if light == [] || dark == [] then []
    else
      assert PairsInRange(light[1..], dark[1..], rg) by {
        forall k | 0 <= k < |light| - 1 && k < |dark| - 1
          ensures ValidIndex(|rg|, light[1..][k]) && ValidIndex(|rg|, dark[1..][k])
        {
          assert light[1..][k] == light[k + 1] && dark[1..][k] == dark[k + 1];
        }
      }
      [At(rg, light[0]) - At(rg, dark[0])] + GetRgDiff(light[1..], dark[1..], rg)
  }

  /** A model paired with itself has zero difference. */
  lemma GetRgDiffSameModel(light: seq<int>, dark: seq<int>, rg: seq<real>, k: nat)
    requires PairsInRange(light, dark, rg)
    requires k < |light| && k < |dark| && light[k] == dark[k]
    ensures k < |GetRgDiff(light, dark, rg)| && GetRgDiff(light, dark, rg)[k] == 0.0
  {
  }

  /** Swapping the two index lists negates every difference. */
  lemma GetRgDiffSwap(light: seq<int>, dark: seq<int>, rg: seq<real>)
    requires PairsInRange(light, dark, rg)
    ensures PairsInRange(dark, light, rg)
    ensures var a, b := GetRgDiff(light, dark, rg), GetRgDiff(dark, light, rg);
            |b| == |a| && forall k :: 0 <= k < |a| ==> b[k] == -a[k]
  {
  }

  /** Only the first `min(len)` pairs matter: the longer list's tail is ignored. */
  lemma GetRgDiffTruncates(light: seq<int>, dark: seq<int>, rg: seq<real>)
    requires PairsInRange(light, dark, rg)
    ensures var n := Min(|light|, |dark|);
            PairsInRange(light[..n], dark[..n], rg)
            && GetRgDiff(light[..n], dark[..n], rg) == GetRgDiff(light, dark, rg)
  {
    var n := Min(|light|, |dark|);
    assert PairsInRange(light[..n], dark[..n], rg);
    var a, b := GetRgDiff(light[..n], dark[..n], rg), GetRgDiff(light, dark, rg);
    assert |a| == |b|;
    assert forall k :: 0 <= k < |a| ==> a[k] == b[k];
  }
}
