/** The scattering-curve record: momentum transfer `q`, intensity `i` and the
    experimental `error`, where an empty error vector means "error untracked". */
module Saxs {

  datatype Option<T> = None | Some(value: T)

  /** The three fields of a `ScatterData` object, as a value. */
  datatype Curve = Curve(q: seq<real>, i: seq<real>, error: seq<real>)

  /** The error vector stored for an optional error argument: an absent
      argument is stored as the empty vector. */
  function StoredError(e: Option<seq<real>>): seq<real>
  {
    match e
    case None => []
    case Some(v) => v
  }

  /** The record `set_data(q, i, e)` leaves behind, in parameter order. */
  function Stored(q: seq<real>, i: seq<real>, e: Option<seq<real>>): Curve
  {
    Curve(q, i, StoredError(e))
  }

  predicate ErrorUntracked(c: Curve)
  {
    c.error == []
  }

  /** The record `ScatterData()` starts with when no file is given. */
  function DefaultCurve(): Curve
  {
    Curve([0.0], [0.0], [])
  }

  class ScatterData {
    var q: seq<real>
    var i: seq<real>
    var error: seq<real>

    function Snapshot(): Curve
      reads this
    {
      Curve(q, i, error)
    }

    /** `ScatterData()` without a file: one-element zero vectors, untracked error. */
    constructor ()
      ensures q == [0.0] && i == [0.0] && error == []
      ensures Snapshot() == DefaultCurve() && ErrorUntracked(Snapshot())
    {
      q := [0.0];
      i := [0.0];
      error := [];
    }

    /** `set_data(q, i, e=None)`: stores its arguments unchecked and in
        parameter order; no argument for `e` leaves the error untracked. The
        new state does not depend on the old one. */
    method SetData(q: seq<real>, i: seq<real>, e: Option<seq<real>>)
      modifies this
      ensures this.q == q && this.i == i
      ensures e.None? ==> this.error == [] && ErrorUntracked(Snapshot())
      ensures e.Some? ==> this.error == e.value
      ensures Snapshot() == Stored(q, i, e)
    {
      var err := if e.None? then [] else e.value;
      this.q := q;
      this.i := i;
      this.error := err;
    }
  }

  /** Two `set_data` calls in a row: the second one leaves no trace of the first. */
  method SetDataTwice(d: ScatterData, q1: seq<real>, i1: seq<real>, e1: Option<seq<real>>,
                      q2: seq<real>, i2: seq<real>, e2: Option<seq<real>>)
    modifies d
    ensures d.Snapshot() == Stored(q2, i2, e2)
  {
    d.SetData(q1, i1, e1);
    d.SetData(q2, i2, e2);
  }
}
