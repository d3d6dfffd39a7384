// Dense vectors of reals as the GSL vectors of the network code hold them:
// sums, weighted sums and the effect of adding a value at one or several
// entries, which is how flow vectors and binned abundances are assembled.

module Vectors {

  /** A vector of n zeros (gsl_vector_calloc). */
  function Zeros(n: nat): (v: seq<real>)
    ensures |v| == n && forall i | 0 <= i < n :: v[i] == 0.0
  {
    seq(n, i => 0.0)
  }

  /** The sum of the entries. */
  function Sum(v: seq<real>): real
  {
    if |v| == 0 then 0.0 else Sum(v[..|v| - 1]) + v[|v| - 1]
  }

  /** The weighted sum of v with weights w. */
  function Dot(w: seq<real>, v: seq<real>): real
    requires |w| == |v|
  {
    if |v| == 0 then 0.0 else Dot(w[..|w| - 1], v[..|v| - 1]) + w[|w| - 1] * v[|v| - 1]
  }

  /** Every index of idx is an index of a vector of length n. */
  predicate InRange(idx: seq<nat>, n: nat)
  {
    forall j | 0 <= j < |idx| :: idx[j] < n
  }

  /** The weights picked out by a list of indices, added up. */
  function Gather(w: seq<real>, idx: seq<nat>): real
    requires InRange(idx, |w|)
  {
    if |idx| == 0 then 0.0 else Gather(w, idx[..|idx| - 1]) + w[idx[|idx| - 1]]
  }

  /** x added at every index of idx in turn (an index listed k times receives k·x). */
  function Shifted(v: seq<real>, idx: seq<nat>, x: real): (r: seq<real>)
    requires InRange(idx, |v|)
    ensures |r| == |v|
  {
    if |idx| == 0 then v
    else
      var r := Shifted(v, idx[..|idx| - 1], x);
      var i := idx[|idx| - 1];
      r[i := r[i] + x]
  }

  lemma {:induction false} SumZeros(n: nat)
    ensures Sum(Zeros(n)) == 0.0
  {
    if n > 0 {
      assert Zeros(n)[..n - 1] == Zeros(n - 1);
      SumZeros(n - 1);
    }
  }

  lemma {:induction false} DotZeros(w: seq<real>)
    ensures Dot(w, Zeros(|w|)) == 0.0
  {
    if |w| > 0 {
      assert Zeros(|w|)[..|w| - 1] == Zeros(|w| - 1);
      DotZeros(w[..|w| - 1]);
    }
  }

  /** Adding x at one entry adds x to the sum. */
  lemma {:induction false} SumPointUpdate(v: seq<real>, i: nat, x: real)
    requires i < |v|
    ensures Sum(v[i := v[i] + x]) == Sum(v) + x
  {
    var n := |v|;
    var u := v[i := v[i] + x];
    if i < n - 1 {
      assert u[..n - 1] == v[..n - 1][i := v[i] + x];
      SumPointUpdate(v[..n - 1], i, x);
    } else {
      assert u[..n - 1] == v[..n - 1];
    }
  }

  /** Adding x at entry i adds w[i]·x to the weighted sum. */
  lemma {:induction false} DotPointUpdate(w: seq<real>, v: seq<real>, i: nat, x: real)
    requires |w| == |v| && i < |v|
    ensures Dot(w, v[i := v[i] + x]) == Dot(w, v) + w[i] * x
  {
    var n := |v|;
    var u := v[i := v[i] + x];
    if i < n - 1 {
      assert u[..n - 1] == v[..n - 1][i := v[i] + x];
      DotPointUpdate(w[..n - 1], v[..n - 1], i, x);
    } else {
      assert u[..n - 1] == v[..n - 1];
      assert w[n - 1] * (v[n - 1] + x) == w[n - 1] * v[n - 1] + w[n - 1] * x;
    }
  }

  /** Adding x at every index of idx adds x times the gathered weights to the weighted
      sum. */
  lemma {:induction false} DotShifted(w: seq<real>, v: seq<real>, idx: seq<nat>, x: real)
    requires |w| == |v| && InRange(idx, |v|)
    ensures Dot(w, Shifted(v, idx, x)) == Dot(w, v) + x * Gather(w, idx)
  {
    if |idx| > 0 {
      var k := |idx| - 1;
      var r := Shifted(v, idx[..k], x);
      DotShifted(w, v, idx[..k], x);
      DotPointUpdate(w, r, idx[k], x);
      assert x * Gather(w, idx) == x * Gather(w, idx[..k]) + x * w[idx[k]];
    }
  }

  /** Adding x at every index of idx adds x once per index to the sum. */
  lemma {:induction false} SumShifted(v: seq<real>, idx: seq<nat>, x: real)
    requires InRange(idx, |v|)
    ensures Sum(Shifted(v, idx, x)) == Sum(v) + (|idx| as real) * x
  {
    if |idx| > 0 {
      var k := |idx| - 1;
      SumShifted(v, idx[..k], x);
      SumPointUpdate(Shifted(v, idx[..k], x), idx[k], x);
    }
  }
}
