/** The curve arithmetic: difference curves, buffer subtraction, linear
    interpolation onto a target grid, and the two objectives the scale-factor
    fits minimise. */
module Methods {
  import opened Elementwise
  import opened Saxs

  /** Why numpy refuses an operation (each is an exception in the source). */
  datatype Failure =
    | ShapeMismatch    // vectors of different lengths meet in one expression
    | UntrackedError   // an error vector is the empty "untracked" marker
    | EmptySamples     // `np.interp` was given no sample points

  datatype Result<T> = Ok(value: T) | Err(failure: Failure)

  // ---------------------------------------------------------------------
  // calc_diff
  // ---------------------------------------------------------------------

  /** `calc_diff(light, dark)` on the two records. The difference vector is
      passed to `set_data` as its first argument, so it lands in the `q`
      field, and `light.q` lands in `i`. */
  function DiffCurve(light: Curve, dark: Curve): (r: Result<Curve>)
    ensures r.Err? <==>
              |light.i| != |dark.i| || light.error == [] || dark.error == []
              || |light.error| != |dark.error|
    ensures r == Err(ShapeMismatch) <==>
              (|light.i| != |dark.i|
               || (light.error != [] && dark.error != [] && |light.error| != |dark.error|))
    ensures r == Err(UntrackedError) <==>
              |light.i| == |dark.i| && (light.error == [] || dark.error == [])
    ensures r.Ok? ==>
              && |r.value.q| == |light.i|
              && (forall k :: 0 <= k < |r.value.q| ==> r.value.q[k] == light.i[k] - dark.i[k])
              && r.value.i == light.q
              && |r.value.error| == |light.error|
              && (forall k :: 0 <= k < |r.value.error| ==>
                    r.value.error[k] == (light.error[k] + dark.error[k]) / 2.0)
  {
    if |light.i| != |dark.i| then Err(ShapeMismatch)
    else if light.error == [] || dark.error == [] then Err(UntrackedError)
    else if |light.error| != |dark.error| then Err(ShapeMismatch)
    else
      var diffVector := Sub(light.i, dark.i);
      var errorVector := Halve(Add(light.error, dark.error));
      Ok(Stored(diffVector, light.q, Some(errorVector)))
  }

  /** A curve minus itself: all-zero difference, and the error is the curve's own. */
  lemma DiffSelf(c: Curve)
    requires c.error != []
    ensures DiffCurve(c, c).Ok?
    ensures AllZero(DiffCurve(c, c).value.q) && |DiffCurve(c, c).value.q| == |c.i|
    ensures DiffCurve(c, c).value.error == c.error
  {
    var r := DiffCurve(c, c).value;
    assert forall k :: 0 <= k < |r.error| ==> r.error[k] == c.error[k];
  }

  /** Swapping light and dark negates the difference and keeps the error;
      the `i` field is taken from the first argument. */
  lemma DiffSwap(light: Curve, dark: Curve)
    requires DiffCurve(light, dark).Ok?
    ensures DiffCurve(dark, light).Ok?
    ensures var a, b := DiffCurve(light, dark).value, DiffCurve(dark, light).value;
            && |b.q| == |a.q| && (forall k :: 0 <= k < |a.q| ==> b.q[k] == -a.q[k])
            && b.error == a.error && b.i == dark.q
  {
    var a, b := DiffCurve(light, dark).value, DiffCurve(dark, light).value;
    assert forall k :: 0 <= k < |a.error| ==> b.error[k] == a.error[k];
  }

  /** `calc_diff` on objects: a fresh `ScatterData` filled by `set_data`; the
      inputs are only read. */
  method CalcDiff(light: ScatterData, dark: ScatterData) returns (r: Result<ScatterData>)
    ensures r.Err? <==> DiffCurve(light.Snapshot(), dark.Snapshot()).Err?
    ensures r.Err? ==> r.failure == DiffCurve(light.Snapshot(), dark.Snapshot()).failure
    ensures r.Ok? ==> fresh(r.value)
                      && r.value.Snapshot() == DiffCurve(light.Snapshot(), dark.Snapshot()).value
  {
    var v := DiffCurve(light.Snapshot(), dark.Snapshot());
    if v.Err? {
      return Err(v.failure);
    }
    var diffVector := Sub(light.i, dark.i);
    var errorVector := Halve(Add(light.error, dark.error));
    var diffScatter := new ScatterData();
    diffScatter.SetData(diffVector, light.q, Some(errorVector));
    return Ok(diffScatter);
  }

  // ---------------------------------------------------------------------
  // buffer_sub
  // ---------------------------------------------------------------------

  /** `buffer_sub(data, buffer, q, factor)`: `data - buffer*factor` as the
      intensity, the supplied `q` as the axis, and no error argument. */
  function BufferSubCurve(data: seq<real>, buffer: seq<real>, q: seq<real>, factor: real): (r: Result<Curve>)
    ensures r.Err? <==> |data| != |buffer|
    ensures r.Err? ==> r.failure == ShapeMismatch
    ensures r.Ok? ==>
              && r.value.q == q
              && |r.value.i| == |data|
              && (forall k :: 0 <= k < |data| ==> r.value.i[k] == data[k] - factor * buffer[k])
              && ErrorUntracked(r.value)
  {
    if |data| != |buffer| then Err(ShapeMismatch)
    else Ok(Stored(q, Sub(data, Scale(buffer, factor)), None))
  }

  /** With the default `factor = 1` buffer subtraction is plain subtraction,
      and the same vector `calc_diff` puts in its `q` field. */
  lemma BufferSubDefaultFactor(light: Curve, dark: Curve, q: seq<real>)
    requires DiffCurve(light, dark).Ok?
    ensures BufferSubCurve(light.i, dark.i, q, 1.0).Ok?
    ensures BufferSubCurve(light.i, dark.i, q, 1.0).value.i == Sub(light.i, dark.i)
    ensures BufferSubCurve(light.i, dark.i, q, 1.0).value.i == DiffCurve(light, dark).value.q
  {
    var r := BufferSubCurve(light.i, dark.i, q, 1.0).value;
    assert forall k :: 0 <= k < |r.i| ==> r.i[k] == Sub(light.i, dark.i)[k];
    assert forall k :: 0 <= k < |r.i| ==> r.i[k] == DiffCurve(light, dark).value.q[k];
  }

  /** A zero factor leaves the data untouched. */
  lemma BufferSubZeroFactor(data: seq<real>, buffer: seq<real>, q: seq<real>)
    requires |data| == |buffer|
    ensures BufferSubCurve(data, buffer, q, 0.0) == Ok(Curve(q, data, []))
  {
    var r := BufferSubCurve(data, buffer, q, 0.0).value;
    assert forall k :: 0 <= k < |r.i| ==> r.i[k] == data[k];
    assert r.i == data;
  }

  /** `buffer_sub` on objects: a fresh `ScatterData`. */
  method BufferSub(data: seq<real>, buffer: seq<real>, q: seq<real>, factor: real)
    returns (r: Result<ScatterData>)
    ensures r.Err? <==> BufferSubCurve(data, buffer, q, factor).Err?
    ensures r.Err? ==> r.failure == ShapeMismatch
    ensures r.Ok? ==> fresh(r.value)
                      && r.value.Snapshot() == BufferSubCurve(data, buffer, q, factor).value
  {
    if |data| != |buffer| {
      return Err(ShapeMismatch);
    }
    var buffSubbedData := Sub(data, Scale(buffer, factor));
    var newData := new ScatterData();
    newData.SetData(q, buffSubbedData, None);
    return Ok(newData);
  }

  // ---------------------------------------------------------------------
  // interpolate (np.interp)
  // ---------------------------------------------------------------------

  /** The interval of the sample axis holding `x`: the largest `j` with
      `xp[j] <= x`, which is where numpy's bracketing search stops. */
  function Bracket(x: real, xp: seq<real>, lo: nat): (j: nat)
    requires NonDecreasing(xp)
    requires lo < |xp| - 1 && xp[lo] <= x < xp[|xp| - 1]
    ensures lo <= j < |xp| - 1 && xp[j] <= x < xp[j + 1]
    decreases |xp| - lo
  {
    if x < xp[lo + 1] then lo else Bracket(x, xp, lo + 1)
  }

  /** On a non-decreasing axis only one interval holds `x`, so any search
      that brackets `x` finds the same `j` as `Bracket`. */
  lemma BracketUnique(x: real, xp: seq<real>, j: nat)
    requires NonDecreasing(xp)
    requires j < |xp| - 1 && xp[j] <= x < xp[j + 1] && x < xp[|xp| - 1]
    ensures xp[0] <= x && Bracket(x, xp, 0) == j
  {
  }

  /** `np.interp(x, xp, fp)` at one point: flat left of the first sample
      point, flat from the last one on, linear in between. */
  function InterpAt(x: real, xp: seq<real>, fp: seq<real>): (y: real)
    requires |xp| == |fp| > 0 && NonDecreasing(xp)
    ensures x < xp[0] ==> y == fp[0]
    ensures x >= xp[|xp| - 1] ==> y == fp[|fp| - 1]
  {
    var n := |xp|;
    if x < xp[0] then fp[0]
    else if x >= xp[n - 1] then fp[n - 1]
    else
      var j := Bracket(x, xp, 0);
      if xp[j] == x then fp[j]
      else (fp[j + 1] - fp[j]) / (xp[j + 1] - xp[j]) * (x - xp[j]) + fp[j]
  }

  /** Inside an interval `[xp[j], xp[j+1])` the value is the linear blend of
      the two bracketing nodes. */
  lemma InterpOnSegment(x: real, xp: seq<real>, fp: seq<real>, j: nat)
    requires |xp| == |fp| > 0 && NonDecreasing(xp)
    requires j < |xp| - 1 && xp[j] <= x < xp[j + 1]
    ensures InterpAt(x, xp, fp) ==
              (fp[j + 1] - fp[j]) / (xp[j + 1] - xp[j]) * (x - xp[j]) + fp[j]
  {
    var n := |xp|;
    assert xp[0] <= xp[j] && xp[j + 1] <= xp[n - 1];
    BracketUnique(x, xp, j);
  }

  /** On a strictly increasing axis, interpolating at a sample point gives
      that sample's intensity. */
  lemma InterpAtNode(xp: seq<real>, fp: seq<real>, j: nat)
    requires |xp| == |fp| && j < |xp| && StrictlyIncreasing(xp)
    ensures InterpAt(xp[j], xp, fp) == fp[j]
  {
    if j < |xp| - 1 {
      assert xp[j] < xp[|xp| - 1];
      BracketUnique(xp[j], xp, j);
    }
  }

  /** On a strictly increasing axis every target at or below the first
      sample point gets the first intensity. */
  lemma InterpClampLow(x: real, xp: seq<real>, fp: seq<real>)
    requires |xp| == |fp| > 0 && StrictlyIncreasing(xp) && x <= xp[0]
    ensures InterpAt(x, xp, fp) == fp[0]
  {
    if x == xp[0] {
      InterpAtNode(xp, fp, 0);
    }
  }

  /** A blend `a + t*(b - a)` with `0 <= t <= 1` stays between any bounds of `a` and `b`. */
  lemma BlendBetween(a: real, b: real, t: real, lo: real, hi: real)
    requires 0.0 <= t <= 1.0 && lo <= a <= hi && lo <= b <= hi
    ensures lo <= a + t * (b - a) <= hi
  {
    var d := b - a;
    if d >= 0.0 {
      ProductNonNegative(t, d);
      ProductNonNegative(1.0 - t, d);
    } else {
      ProductNonNegative(t, -d);
      ProductNonNegative(1.0 - t, -d);
    }
  }

  lemma ProductNonNegative(x: real, y: real)
    requires x >= 0.0 && y >= 0.0
    ensures x * y >= 0.0
  {
  }

  /** The interpolated value never leaves the range of the intensities. */
  lemma InterpBounded(x: real, xp: seq<real>, fp: seq<real>, lo: real, hi: real)
    requires |xp| == |fp| > 0 && NonDecreasing(xp)
    requires forall k :: 0 <= k < |fp| ==> lo <= fp[k] <= hi
    ensures lo <= InterpAt(x, xp, fp) <= hi
  {
    var n := |xp|;
    if xp[0] <= x < xp[n - 1] {
      var j := Bracket(x, xp, 0);
      var h, e := xp[j + 1] - xp[j], x - xp[j];
      var t := e / h;
      assert 0.0 <= t <= 1.0;
      assert (fp[j + 1] - fp[j]) / h * e == t * (fp[j + 1] - fp[j]);
      BlendBetween(fp[j], fp[j + 1], t, lo, hi);
    }
  }

  /** `np.interp` over a whole target grid. */
  function InterpAll(xs: seq<real>, xp: seq<real>, fp: seq<real>): (ys: seq<real>)
    requires |xp| == |fp| > 0 && NonDecreasing(xp)
    ensures |ys| == |xs|
    ensures forall t :: 0 <= t < |xs| ==> ys[t] == InterpAt(xs[t], xp, fp)
  {
    if xs == [] then [] else [InterpAt(xs[0], xp, fp)] + InterpAll(xs[1..], xp, fp)
  }

  /** `interpolate(q_target, data)`. The interpolated intensities are passed
      to `set_data` first, so they land in the `q` field and `q_target` in `i`;
      no error argument is given. */
  function InterpolateCurve(qTarget: seq<real>, data: Curve): (r: Result<Curve>)
    requires NonDecreasing(data.q)
    ensures r == Err(EmptySamples) <==> data.q == []
    ensures r == Err(ShapeMismatch) <==> data.q != [] && |data.q| != |data.i|
    ensures r.Ok? <==> data.q != [] && |data.q| == |data.i|
    ensures r.Ok? ==>
              && |r.value.q| == |qTarget|
              && (forall t :: 0 <= t < |qTarget| ==>
                    r.value.q[t] == InterpAt(qTarget[t], data.q, data.i))
              && r.value.i == qTarget
              && ErrorUntracked(r.value)
  {
    if data.q == [] then Err(EmptySamples)
    else if |data.q| != |data.i| then Err(ShapeMismatch)
    else Ok(Stored(InterpAll(qTarget, data.q, data.i), qTarget, None))
  }

  /** Interpolating a curve onto its own (strictly increasing) axis gives back
      its intensities, stored in the `q` field. */
  lemma InterpolateAtOwnNodes(data: Curve)
    requires data.q != [] && |data.q| == |data.i| && StrictlyIncreasing(data.q)
    ensures InterpolateCurve(data.q, data).Ok?
    ensures InterpolateCurve(data.q, data).value.q == data.i
    ensures InterpolateCurve(data.q, data).value.i == data.q
  {
    var r := InterpolateCurve(data.q, data).value;
    forall t | 0 <= t < |data.q|
      ensures r.q[t] == data.i[t]
    {
      InterpAtNode(data.q, data.i, t);
    }
  }

  /** Every interpolated value lies within any bounds of the curve's intensities. */
  lemma InterpolateBounded(qTarget: seq<real>, data: Curve, lo: real, hi: real)
    requires NonDecreasing(data.q) && InterpolateCurve(qTarget, data).Ok?
    requires forall k :: 0 <= k < |data.i| ==> lo <= data.i[k] <= hi
    ensures forall t :: 0 <= t < |qTarget| ==>
              lo <= InterpolateCurve(qTarget, data).value.q[t] <= hi
  {
    forall t | 0 <= t < |qTarget|
      ensures lo <= InterpolateCurve(qTarget, data).value.q[t] <= hi
    {
      InterpBounded(qTarget[t], data.q, data.i, lo, hi);
    }
  }

  /** `interpolate` on objects: a fresh `ScatterData`. */
  method Interpolate(qTarget: seq<real>, data: ScatterData) returns (r: Result<ScatterData>)
    requires NonDecreasing(data.q)
    ensures r.Err? <==> InterpolateCurve(qTarget, data.Snapshot()).Err?
    ensures r.Err? ==> r.failure == InterpolateCurve(qTarget, data.Snapshot()).failure
    ensures r.Ok? ==> fresh(r.value)
                      && r.value.Snapshot() == InterpolateCurve(qTarget, data.Snapshot()).value
  {
    if data.q == [] {
      return Err(EmptySamples);
    }
    if |data.q| != |data.i| {
      return Err(ShapeMismatch);
    }
    var i := InterpAll(qTarget, data.q, data.i);
    var interpolatedCurve := new ScatterData();
    interpolatedCurve.SetData(i, qTarget, None);
    return Ok(interpolatedCurve);
  }

  // ---------------------------------------------------------------------
  // The objectives of chi_square and SSE (the Nelder-Mead search that
  // minimises them is not modelled)
  // ---------------------------------------------------------------------

  /** A product, kept behind a function so that the solver reasons about
      `Times(r, r)` as one term. */
  function Times(a: real, b: real): real
  {
    a * b
  }

  lemma TimesPositive(x: real, y: real)
    requires (x > 0.0 && y > 0.0) || (x < 0.0 && y < 0.0)
    ensures Times(x, y) > 0.0
  {
  }

  /** `r**2`, with the two facts about squares the objectives rest on. */
  function Square(r: real): (s: real)
    ensures s >= 0.0
    ensures s == 0.0 <==> r == 0.0
  {
    if r != 0.0 then TimesPositive(r, r); Times(r, r) else Times(r, r)
  }

  /** The SSE objective `nansum((v1 - v2*x)**2)`. */
  function SseObjective(v1: seq<real>, v2: seq<real>, x: real): (s: real)
    requires |v1| == |v2|
    ensures s >= 0.0
  {
    if v1 == [] then 0.0
    else Square(v1[0] - v2[0] * x) + SseObjective(v1[1..], v2[1..], x)
  }

  /** `v1` is exactly `x` times `v2`. */
  predicate ExactScale(v1: seq<real>, v2: seq<real>, x: real)
    requires |v1| == |v2|
  {
    forall k :: 0 <= k < |v1| ==> v1[k] == v2[k] * x
  }

  lemma ExactScaleCons(v1: seq<real>, v2: seq<real>, x: real)
    requires |v1| == |v2| > 0
    ensures ExactScale(v1, v2, x) <==> v1[0] == v2[0] * x && ExactScale(v1[1..], v2[1..], x)
  {
    if v1[0] == v2[0] * x && ExactScale(v1[1..], v2[1..], x) {
      forall k | 0 <= k < |v1| ensures v1[k] == v2[k] * x {
        if k > 0 { assert v1[k] == v1[1..][k - 1]; }
      }
    }
  }

  /** The SSE objective is zero exactly at a scale that fits every point. */
  lemma {:induction false} SseZeroIffExact(v1: seq<real>, v2: seq<real>, x: real)
    requires |v1| == |v2|
    ensures SseObjective(v1, v2, x) == 0.0 <==> ExactScale(v1, v2, x)
  {
    if v1 != [] {
      SseZeroIffExact(v1[1..], v2[1..], x);
      ExactScaleCons(v1, v2, x);
    }
  }

  /** `SSE(v1, v2, initial_guess)` returns the optimiser's point and the
      objective there; the point found by the search is an input here. */
  function Sse(v1: seq<real>, v2: seq<real>, xmin: real): (r: (real, real))
    requires |v1| == |v2|
    ensures r.0 == xmin && r.1 == SseObjective(v1, v2, xmin) && r.1 >= 0.0
    ensures r.1 == 0.0 <==> ExactScale(v1, v2, xmin)
  {
    SseZeroIffExact(v1, v2, xmin);
    (xmin, SseObjective(v1, v2, xmin))
  }

  /** Sum of the pointwise products `a[k] * b[k]`. */
  function Dot(a: seq<real>, b: seq<real>): real
    requires |a| == |b|
  {
    if a == [] then 0.0 else Times(a[0], b[0]) + Dot(a[1..], b[1..])
  }

  /** The quadratic `a - 2bx + cx^2`. */
  function Quadratic(a: real, b: real, c: real, x: real): real
  {
    a - 2.0 * x * b + x * x * c
  }

  lemma SquareExpand(a: real, b: real, x: real)
    ensures Square(a - b * x) == Quadratic(Times(a, a), Times(a, b), Times(b, b), x)
  {
  }

  lemma QuadraticAdd(a: real, b: real, c: real, p: real, q: real, r: real, x: real)
    ensures Quadratic(a, b, c, x) + Quadratic(p, q, r, x) == Quadratic(a + p, b + q, c + r, x)
  {
  }

  /** The SSE objective is the quadratic `A - 2Bx + Cx^2` in the scale. */
  lemma {:induction false} SseQuadratic(v1: seq<real>, v2: seq<real>, x: real)
    requires |v1| == |v2|
    ensures SseObjective(v1, v2, x) == Quadratic(Dot(v1, v1), Dot(v1, v2), Dot(v2, v2), x)
  {
    if v1 != [] {
      var t1, t2 := v1[1..], v2[1..];
      var a, b := v1[0], v2[0];
      SseQuadratic(t1, t2, x);
      SquareExpand(a, b, x);
      QuadraticAdd(Times(a, a), Times(a, b), Times(b, b), Dot(t1, t1), Dot(t1, t2), Dot(t2, t2), x);
      assert SseObjective(v1, v2, x) == Square(a - b * x) + SseObjective(t1, t2, x);
      assert Dot(v1, v1) == Times(a, a) + Dot(t1, t1);
      assert Dot(v1, v2) == Times(a, b) + Dot(t1, t2);
      assert Dot(v2, v2) == Times(b, b) + Dot(t2, t2);
    }
  }

  /** `sum(v*v)` is positive once some entry is non-zero. */
  lemma {:induction false} DotSelfPositive(v: seq<real>, k: nat)
    requires k < |v| && v[k] != 0.0
    ensures Dot(v, v) > 0.0
  {
    DotSelfNonNegative(v[1..]);
    assert Dot(v, v) == Square(v[0]) + Dot(v[1..], v[1..]);
    if k > 0 {
      DotSelfPositive(v[1..], k - 1);
    }
  }

  lemma {:induction false} DotSelfNonNegative(v: seq<real>)
    ensures Dot(v, v) >= 0.0
  {
    if v != [] {
      DotSelfNonNegative(v[1..]);
      assert Dot(v, v) == Square(v[0]) + Dot(v[1..], v[1..]);
    }
  }

  /** The least-squares scale `sum(v1*v2) / sum(v2*v2)`: the point the SSE
      search is after. */
  function LeastSquaresScale(v1: seq<real>, v2: seq<real>): real
    requires |v1| == |v2| && Dot(v2, v2) != 0.0
  {
    Dot(v1, v2) / Dot(v2, v2)
  }

  /** With `c > 0` the vertex `b/c` minimises `a - 2bx + cx^2`. */
  lemma QuadraticVertex(a: real, b: real, c: real, s: real, y: real)
    requires c > 0.0 && s == b / c
    ensures Quadratic(a, b, c, s) <= Quadratic(a, b, c, y)
  {
    assert b == s * c;
    var d := y - s;
    assert (a - 2.0 * y * b + y * y * c) - (a - 2.0 * s * b + s * s * c) == c * Square(d);
    assert c * Square(d) >= 0.0;
  }

  /** When `v2` is not all zero, the least-squares scale minimises the SSE
      objective: no scale does better. */
  lemma SseMinimum(v1: seq<real>, v2: seq<real>, k: nat, y: real)
    requires |v1| == |v2| && k < |v2| && v2[k] != 0.0
    ensures Dot(v2, v2) > 0.0
    ensures SseObjective(v1, v2, LeastSquaresScale(v1, v2)) <= SseObjective(v1, v2, y)
  {
    DotSelfPositive(v2, k);
    var a, b, c := Dot(v1, v1), Dot(v1, v2), Dot(v2, v2);
    var s := LeastSquaresScale(v1, v2);
    assert s == b / c;
    SseQuadratic(v1, v2, s);
    SseQuadratic(v1, v2, y);
    QuadraticVertex(a, b, c, s, y);
  }

  /** The numbers reach infinity only through a division by a zero error. */
  datatype Extended = Finite(v: real) | PosInf

  function Plus(a: Extended, b: Extended): Extended
  {
    if a.PosInf? || b.PosInf? then PosInf else Finite(a.v + b.v)
  }

  /** One term `((res) / err)**2` as `nansum` adds it: a zero error turns a
      non-zero residual into infinity and a zero residual into NaN, which
      `nansum` skips. */
  function ChiTerm(res: real, err: real): (t: Extended)
    ensures t.Finite? ==> t.v >= 0.0
    ensures t == Finite(0.0) <==> res == 0.0
    ensures t.PosInf? <==> err == 0.0 && res != 0.0
  {
    if err != 0.0 then
      assert res != 0.0 ==> res / err != 0.0;
      Finite(Square(res / err))
    else if res == 0.0 then Finite(0.0)
    else PosInf
  }

  lemma PlusZeroIff(a: Extended, b: Extended)
    requires a.Finite? ==> a.v >= 0.0
    requires b.Finite? ==> b.v >= 0.0
    ensures Plus(a, b) == Finite(0.0) <==> a == Finite(0.0) && b == Finite(0.0)
  {
  }

  /** The chi-square objective `nansum(((v1 - v2*x) / v1_error)**2)`. */
  function ChiSquareObjective(v1: seq<real>, v2: seq<real>, err: seq<real>, x: real): (c: Extended)
    requires |v1| == |v2| == |err|
    ensures c.Finite? ==> c.v >= 0.0
  {
    if v1 == [] then Finite(0.0)
    else
      Plus(ChiTerm(v1[0] - v2[0] * x, err[0]), ChiSquareObjective(v1[1..], v2[1..], err[1..], x))
  }

  /** Some point with a zero error misses the curve scaled by `x`. */
  predicate MissesAtZeroError(v1: seq<real>, v2: seq<real>, err: seq<real>, x: real)
    requires |v1| == |v2| == |err|
  {
    exists k :: 0 <= k < |v1| && err[k] == 0.0 && v1[k] != v2[k] * x
  }

  lemma MissesCons(v1: seq<real>, v2: seq<real>, err: seq<real>, x: real)
    requires |v1| == |v2| == |err| > 0
    ensures MissesAtZeroError(v1, v2, err, x) <==>
              (err[0] == 0.0 && v1[0] != v2[0] * x) || MissesAtZeroError(v1[1..], v2[1..], err[1..], x)
  {
    if MissesAtZeroError(v1, v2, err, x) {
      var k :| 0 <= k < |v1| && err[k] == 0.0 && v1[k] != v2[k] * x;
      if k > 0 {
        assert err[1..][k - 1] == 0.0 && v1[1..][k - 1] != v2[1..][k - 1] * x;
      }
    }
    if MissesAtZeroError(v1[1..], v2[1..], err[1..], x) {
      var k :| 0 <= k < |v1| - 1 && err[1..][k] == 0.0 && v1[1..][k] != v2[1..][k] * x;
      assert err[k + 1] == 0.0 && v1[k + 1] != v2[k + 1] * x;
    }
  }

  /** The chi-square objective is infinite exactly when some point with a
      zero error misses the scaled curve. */
  lemma {:induction false} ChiSquareInfiniteIff(v1: seq<real>, v2: seq<real>, err: seq<real>, x: real)
    requires |v1| == |v2| == |err|
    ensures ChiSquareObjective(v1, v2, err, x).PosInf? <==> MissesAtZeroError(v1, v2, err, x)
  {
    if v1 != [] {
      ChiSquareInfiniteIff(v1[1..], v2[1..], err[1..], x);
      MissesCons(v1, v2, err, x);
    }
  }

  /** The chi-square objective is zero exactly at a scale that fits every
      point, whatever the errors (a zero error there only yields a skipped NaN). */
  lemma {:induction false} ChiSquareZeroIffExact(v1: seq<real>, v2: seq<real>, err: seq<real>, x: real)
    requires |v1| == |v2| == |err|
    ensures ChiSquareObjective(v1, v2, err, x) == Finite(0.0) <==> ExactScale(v1, v2, x)
  {
    if v1 != [] {
      ChiSquareZeroIffExact(v1[1..], v2[1..], err[1..], x);
      ExactScaleCons(v1, v2, x);
      var t := ChiTerm(v1[0] - v2[0] * x, err[0]);
      var rest := ChiSquareObjective(v1[1..], v2[1..], err[1..], x);
      assert ChiSquareObjective(v1, v2, err, x) == Plus(t, rest);
      PlusZeroIff(t, rest);
    }
  }

  /** With unit errors the chi-square objective is the SSE objective. */
  lemma {:induction false} ChiSquareUnitErrors(v1: seq<real>, v2: seq<real>, err: seq<real>, x: real)
    requires |v1| == |v2| == |err|
    requires forall k :: 0 <= k < |err| ==> err[k] == 1.0
    ensures ChiSquareObjective(v1, v2, err, x) == Finite(SseObjective(v1, v2, x))
  {
    if v1 != [] {
      ChiSquareUnitErrors(v1[1..], v2[1..], err[1..], x);
      var res := v1[0] - v2[0] * x;
      assert res / err[0] == res;
      assert ChiSquareObjective(v1, v2, err, x) ==
               Plus(ChiTerm(res, err[0]), ChiSquareObjective(v1[1..], v2[1..], err[1..], x));
      assert SseObjective(v1, v2, x) == Square(res) + SseObjective(v1[1..], v2[1..], x);
    }
  }

  // ---------------------------------------------------------------------
  // Worked scenarios
  // ---------------------------------------------------------------------

  /** Light `i = [10, 20, 30]` minus dark `i = [5, 5, 5]` on `q = [1, 2, 3]`
      with unit errors: the difference `[5, 15, 25]` is stored in `q`, the grid
      in `i`. */
  lemma DiffExample()
    ensures DiffCurve(Curve([1.0, 2.0, 3.0], [10.0, 20.0, 30.0], [1.0, 1.0, 1.0]),
                      Curve([1.0, 2.0, 3.0], [5.0, 5.0, 5.0], [1.0, 1.0, 1.0]))
            == Ok(Curve([5.0, 15.0, 25.0], [1.0, 2.0, 3.0], [1.0, 1.0, 1.0]))
  {
    var r := DiffCurve(Curve([1.0, 2.0, 3.0], [10.0, 20.0, 30.0], [1.0, 1.0, 1.0]),
                       Curve([1.0, 2.0, 3.0], [5.0, 5.0, 5.0], [1.0, 1.0, 1.0])).value;
    assert r.q == [5.0, 15.0, 25.0];
    assert r.error == [1.0, 1.0, 1.0];
  }

  /** `[2, 4, 6]` against `[1, 2, 3]`: the least-squares scale is 2 and the
      SSE there is 0, the smallest value the objective takes. */
  lemma SseExactFitExample(y: real)
    ensures LeastSquaresScale([2.0, 4.0, 6.0], [1.0, 2.0, 3.0]) == 2.0
    ensures Sse([2.0, 4.0, 6.0], [1.0, 2.0, 3.0], 2.0) == (2.0, 0.0)
    ensures SseObjective([2.0, 4.0, 6.0], [1.0, 2.0, 3.0], 2.0)
            <= SseObjective([2.0, 4.0, 6.0], [1.0, 2.0, 3.0], y)
  {
    var v1, v2 := [2.0, 4.0, 6.0], [1.0, 2.0, 3.0];
    assert Dot(v1, v2) == 28.0 && Dot(v2, v2) == 14.0;
    assert ExactScale(v1, v2, 2.0);
    SseZeroIffExact(v1, v2, 2.0);
  }
}
