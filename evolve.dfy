// Evolving one zone over a time step (user/evolve.cpp): the Newton-Raphson
// iterations, the convergence check on each correction, the repair of small
// negative abundances, the step-cutting and step-growing schedule of
// safe_evolve and the temperature, density and step clamps of evolve_zone.
//
// Abundances are the zone's abundance vector in species-index order
// (Libnucnet__Zone__getAbundances).  The Jacobian, the right-hand side and the
// linear solve are one parameter, the correction they produce; exp and sqrt are
// parameters as well.  The constants of user/evolve.h (I_ITMAX, D_MIN,
// D_Y_MIN, D_X_EPS) are not part of this model and enter as parameters.

module Evolve {
  import opened Common
  import opened Vectors

  // ---------------------------------------------------------------------------
  // Negative abundances (is_nonneg_abunds).
  // ---------------------------------------------------------------------------

  /** A negative abundance smaller in magnitude than the threshold: noise to be zeroed. */
  predicate SmallNegative(y: real, threshold: real)
  {
    y < 0.0 && AbsReal(y) < threshold
  }

  /** A negative abundance at least as large in magnitude as the threshold. */
  predicate LargeNegative(y: real, threshold: real)
  {
    y < 0.0 && !(AbsReal(y) < threshold)
  }

  /** The threshold is_nonneg_abunds uses: the zone's LARGE_NEG_ABUND_THRESHOLD, or 0. */
  function NegativeThreshold(property: Option<real>): real
  {
    if property.Some? then property.value else 0.0
  }

  /** The first index from `from` on that holds a large negative abundance, |y| if none. */
  function FirstLargeNegative(y: seq<real>, threshold: real, from: nat): (f: nat)
    requires from <= |y|
    ensures from <= f <= |y|
    ensures forall i | from <= i < f :: !LargeNegative(y[i], threshold)
    ensures f < |y| ==> LargeNegative(y[f], threshold)
    decreases |y| - from
  {
    if from == |y| || LargeNegative(y[from], threshold) then from
    else FirstLargeNegative(y, threshold, from + 1)
  }

  /** The abundances with every small negative entry before index upTo set to 0. */
  function Repaired(y: seq<real>, threshold: real, upTo: nat): (r: seq<real>)
    ensures |r| == |y|
  {
    seq(|y|, i requires 0 <= i < |y| => if i < upTo && SmallNegative(y[i], threshold) then 0.0 else y[i])
  }

  /** What is_nonneg_abunds returns: no large negative abundance. */
  function NonnegOk(y: seq<real>, threshold: real): bool
  {
    FirstLargeNegative(y, threshold, 0) == |y|
  }

  /** The abundances is_nonneg_abunds leaves: small negatives zeroed up to the first large
      negative one, where it stops. */
  function AfterNonnegScan(y: seq<real>, threshold: real): (r: seq<real>)
    ensures |r| == |y|
  {
    Repaired(y, threshold, FirstLargeNegative(y, threshold, 0))
  }

  /** The scan stops at i when i holds the first large negative abundance. */
  lemma {:induction false} FirstLargeNegativeIs(y: seq<real>, threshold: real, from: nat, i: nat)
    requires from <= i <= |y|
    requires forall k | from <= k < i :: !LargeNegative(y[k], threshold)
    requires i < |y| ==> LargeNegative(y[i], threshold)
    ensures FirstLargeNegative(y, threshold, from) == i
    decreases i - from
  {
    if from < i {
      FirstLargeNegativeIs(y, threshold, from + 1, i);
    }
  }

  /** The scan succeeds exactly when no abundance is a large negative one; then every
      abundance it leaves is non-negative, and each differs from the one before the scan
      only where a small negative was zeroed. */
  lemma NonnegScanMeaning(y: seq<real>, threshold: real)
    ensures NonnegOk(y, threshold) <==> forall i | 0 <= i < |y| :: !LargeNegative(y[i], threshold)
    ensures NonnegOk(y, threshold) ==> forall i | 0 <= i < |y| :: AfterNonnegScan(y, threshold)[i] >= 0.0
    ensures forall i | 0 <= i < |y| ::
              AfterNonnegScan(y, threshold)[i] == y[i]
              || (SmallNegative(y[i], threshold) && AfterNonnegScan(y, threshold)[i] == 0.0)
    ensures forall i | 0 <= i < |y| :: AbsReal(AfterNonnegScan(y, threshold)[i] - y[i]) < threshold
                                       || AfterNonnegScan(y, threshold)[i] == y[i]
  {
    if !NonnegOk(y, threshold) {
      var f := FirstLargeNegative(y, threshold, 0);
      assert LargeNegative(y[f], threshold);
    }
  }

  /** With no threshold set, nothing is zeroed and the scan succeeds exactly when every
      abundance is non-negative. */
  lemma NonnegScanWithoutThreshold(y: seq<real>)
    ensures AfterNonnegScan(y, NegativeThreshold(None)) == y
    ensures NonnegOk(y, NegativeThreshold(None)) <==> forall i | 0 <= i < |y| :: y[i] >= 0.0
  {
    NonnegScanMeaning(y, 0.0);
    var r := AfterNonnegScan(y, 0.0);
    assert forall i | 0 <= i < |y| :: r[i] == y[i];
  }

  // ---------------------------------------------------------------------------
  // The convergence check (check_matrix_solution).
  // ---------------------------------------------------------------------------

  /** The largest relative correction |Δy/y| over the species whose abundance exceeds the
      threshold, 0 when none does. */
  function MaxRelativeChange(y: seq<real>, sol: seq<real>, threshold: real): real
    requires |sol| == |y| && threshold >= 0.0
  {
    if |y| == 0 then 0.0
    else
      var k := |y| - 1;
      var prev := MaxRelativeChange(y[..k], sol[..k], threshold);
      if y[k] > threshold && AbsReal(sol[k] / y[k]) > prev then AbsReal(sol[k] / y[k]) else prev
  }

  /** The check is the maximum: non-negative, no counted species exceeds it, and it is 0
      or the relative correction of a counted species. */
  lemma {:induction false} MaxRelativeChangeIsMaximum(y: seq<real>, sol: seq<real>, threshold: real)
    requires |sol| == |y| && threshold >= 0.0
    ensures MaxRelativeChange(y, sol, threshold) >= 0.0
    ensures forall i | 0 <= i < |y| && y[i] > threshold :: AbsReal(sol[i] / y[i]) <= MaxRelativeChange(y, sol, threshold)
    ensures MaxRelativeChange(y, sol, threshold) == 0.0
            || exists i | 0 <= i < |y| && y[i] > threshold :: MaxRelativeChange(y, sol, threshold) == AbsReal(sol[i] / y[i])
  {
    if |y| > 0 {
      var k := |y| - 1;
      MaxRelativeChangeIsMaximum(y[..k], sol[..k], threshold);
      var prev := MaxRelativeChange(y[..k], sol[..k], threshold);
      assert forall i | 0 <= i < k :: y[..k][i] == y[i] && sol[..k][i] == sol[i];
      if prev != 0.0 {
        var i :| 0 <= i < k && y[..k][i] > threshold && prev == AbsReal(sol[..k][i] / y[..k][i]);
        assert y[i] > threshold && prev == AbsReal(sol[i] / y[i]);
      }
    }
  }

  /** x², gsl_pow_2. */
  function Square(x: real): real
  {
    x * x
  }

  /** The sum of the squares of the mass-weighted corrections, Σ (Δy·A)². */
  function SumOfSquares(sol: seq<real>, a: seq<real>): real
    requires |a| == |sol|
  {
    if |sol| == 0 then 0.0
    else
      var k := |sol| - 1;
      SumOfSquares(sol[..k], a[..k]) + Square(sol[k] * a[k])
  }

  /** The pair check_matrix_solution returns: the largest relative correction and the
      norm of the mass-weighted correction. */
  datatype SolutionCheck = SolutionCheck(maxRelativeChange: real, weightedNorm: real)

  /** check_matrix_solution, one pass over the species in index order. */
  method CheckMatrixSolution(y: seq<real>, sol: seq<real>, a: seq<real>, threshold: real, sqrt: real -> real)
    returns (c: SolutionCheck)
    requires |sol| == |y| && |a| == |y| && threshold >= 0.0
    ensures c == SolutionCheck(MaxRelativeChange(y, sol, threshold), sqrt(SumOfSquares(sol, a)))
  {
    var check, total := 0.0, 0.0;
    for i := 0 to |y|
      invariant CheckedUpTo(y, sol, a, threshold, i, check, total)
    {
      CheckStep(y, sol, a, threshold, i, check, total);
      if y[i] > threshold {
        var checkT := AbsReal(sol[i] / y[i]);
        if checkT > check {
          check := checkT;
        }
      }
      total := total + Square(sol[i] * a[i]);
    }
    assert y[..|y|] == y && sol[..|y|] == sol && a[..|y|] == a;
    c := SolutionCheck(check, sqrt(total));
  }

  /** The running check and sum of check_matrix_solution after the first i species. */
  ghost predicate CheckedUpTo(y: seq<real>, sol: seq<real>, a: seq<real>, threshold: real, i: nat,
                              check: real, total: real)
    requires |sol| == |y| && |a| == |y| && threshold >= 0.0 && i <= |y|
  {
    check == MaxRelativeChange(y[..i], sol[..i], threshold) && total == SumOfSquares(sol[..i], a[..i])
  }

  /** Species i updates the running check and sum. */
  lemma CheckStep(y: seq<real>, sol: seq<real>, a: seq<real>, threshold: real, i: nat, check: real, total: real)
    requires |sol| == |y| && |a| == |y| && threshold >= 0.0 && i < |y|
    requires CheckedUpTo(y, sol, a, threshold, i, check, total)
    ensures CheckedUpTo(y, sol, a, threshold, i + 1,
                        if y[i] > threshold && AbsReal(sol[i] / y[i]) > check then AbsReal(sol[i] / y[i]) else check,
                        total + Square(sol[i] * a[i]))
  {
    assert y[..i + 1][..i] == y[..i] && sol[..i + 1][..i] == sol[..i] && a[..i + 1][..i] == a[..i];
    assert y[..i + 1][i] == y[i] && sol[..i + 1][i] == sol[i] && a[..i + 1][i] == a[i];
  }

  // ---------------------------------------------------------------------------
  // The Newton-Raphson iterations (evolve).
  // ---------------------------------------------------------------------------

  /** y + d, entry by entry (gsl_vector_add). */
  function Added(y: seq<real>, d: seq<real>): (r: seq<real>)
    requires |d| == |y|
    ensures |r| == |y|
  {
    seq(|y|, i requires 0 <= i < |y| => y[i] + d[i])
  }

  /** y - x, entry by entry (gsl_vector_sub). */
  function Difference(y: seq<real>, x: seq<real>): (r: seq<real>)
    requires |x| == |y|
    ensures |r| == |y|
  {
    seq(|y|, i requires 0 <= i < |y| => y[i] - x[i])
  }

  /** What the iterations depend on.  correction(y, yOld, dt) is the solution of the
      linear system the Jacobian, 1/dt on its diagonal and the right-hand side corrected
      by (y - yOld)/dt give; itmax is I_ITMAX; converge is the zone's
      NEWTON_RAPHSON_CONVERGE or D_MIN; checkThreshold is its NEWTON_RAPHSON_ABUNDANCE or
      D_Y_MIN; massNumbers and sqrt enter the norm check_matrix_solution also returns. */
  datatype NewtonParams = NewtonParams(
    correction: (seq<real>, seq<real>, real) -> seq<real>,
    itmax: nat,
    converge: real,
    checkThreshold: real,
    massNumbers: seq<real>,
    sqrt: real -> real)

  /** The correction has one entry per species, and the check threshold is not negative
      (a negative one would divide by a zero abundance). */
  ghost predicate ParamsFit(p: NewtonParams)
  {
    && p.checkThreshold >= 0.0
    && forall y: seq<real>, yOld: seq<real>, dt: real | |yOld| == |y| :: |p.correction(y, yOld, dt)| == |y|
  }

  /** The result of evolve and the abundances it leaves. */
  datatype NewtonOutcome = NewtonOutcome(result: int, y: seq<real>)

  /** The iterations from iteration k on: each adds the correction; a check below the
      convergence criterion stops them with k; otherwise, when the zone sets a
      large-negative threshold, a large negative abundance stops them with -1 and small
      ones are zeroed.  After itmax iterations the loop counter, itmax + 1, is the
      result. */
  function Newton(p: NewtonParams, negThreshold: Option<real>, y: seq<real>, yOld: seq<real>, dt: real, k: nat)
    : (o: NewtonOutcome)
    requires ParamsFit(p) && |yOld| == |y| && k >= 1
    ensures |o.y| == |y|
    decreases p.itmax + 1 - k
  {
    if k > p.itmax then NewtonOutcome(k, y)
    else
      var sol := p.correction(y, yOld, dt);
      var y' := Added(y, sol);
      if MaxRelativeChange(y, sol, p.checkThreshold) < p.converge then NewtonOutcome(k, y')
      else if negThreshold.None? then Newton(p, negThreshold, y', yOld, dt, k + 1)
      else if !NonnegOk(y', negThreshold.value) then NewtonOutcome(-1, AfterNonnegScan(y', negThreshold.value))
      else Newton(p, negThreshold, AfterNonnegScan(y', negThreshold.value), yOld, dt, k + 1)
  }

  /** evolve returns -1 (only when the zone sets a large-negative threshold) or an
      iteration count from k to itmax + 1; never 0.  A result of at most itmax means the
      check fell below the convergence criterion. */
  lemma {:induction false} NewtonResult(p: NewtonParams, negThreshold: Option<real>, y: seq<real>, yOld: seq<real>,
                                        dt: real, k: nat)
    requires ParamsFit(p) && |yOld| == |y| && 1 <= k <= p.itmax + 1
    ensures var r := Newton(p, negThreshold, y, yOld, dt, k).result;
            (r == -1 && negThreshold.Some?) || k <= r <= p.itmax + 1
    ensures Newton(p, negThreshold, y, yOld, dt, k).result != 0
    decreases p.itmax + 1 - k
  {
    if k <= p.itmax {
      var sol := p.correction(y, yOld, dt);
      var y' := Added(y, sol);
      if MaxRelativeChange(y, sol, p.checkThreshold) >= p.converge {
        if negThreshold.None? {
          NewtonResult(p, negThreshold, y', yOld, dt, k + 1);
        } else if NonnegOk(y', negThreshold.value) {
          NewtonResult(p, negThreshold, AfterNonnegScan(y', negThreshold.value), yOld, dt, k + 1);
        }
      }
    }
  }

  /** Every iteration that goes on to the next one, with a large-negative threshold set,
      leaves non-negative abundances. */
  lemma NewtonContinuesNonNegative(p: NewtonParams, threshold: real, y: seq<real>, yOld: seq<real>, dt: real)
    requires ParamsFit(p) && |yOld| == |y|
    requires var sol := p.correction(y, yOld, dt);
             MaxRelativeChange(y, sol, p.checkThreshold) >= p.converge
             && NonnegOk(Added(y, sol), threshold)
    ensures forall i | 0 <= i < |y| :: AfterNonnegScan(Added(y, p.correction(y, yOld, dt)), threshold)[i] >= 0.0
  {
    NonnegScanMeaning(Added(y, p.correction(y, yOld, dt)), threshold);
  }

  /** The mass fractions A·y sum to 1 within xEps. */
  predicate Balanced(massNumbers: seq<real>, y: seq<real>, xEps: real)
    requires |massNumbers| == |y|
  {
    AbsReal(1.0 - Dot(massNumbers, y)) < xEps
  }

  /** The verdict of default_safe_evolve_check_function on abundances y. */
  predicate CheckPasses(massNumbers: seq<real>, y: seq<real>, xEps: real, threshold: real)
    requires |massNumbers| == |y|
  {
    Balanced(massNumbers, y, xEps) || NonnegOk(y, threshold)
  }

  /** The abundances default_safe_evolve_check_function leaves: untouched when the mass
      fractions balance, otherwise the non-negativity scan has run over them. */
  function CheckedAbundances(massNumbers: seq<real>, y: seq<real>, xEps: real, threshold: real): (r: seq<real>)
    requires |massNumbers| == |y|
    ensures |r| == |y|
  {
    if Balanced(massNumbers, y, xEps) then y else AfterNonnegScan(y, threshold)
  }

  /** The check changes an abundance only by zeroing a small negative one, and a check
      that passes without balanced mass fractions leaves no negative abundance. */
  lemma CheckedAbundancesMeaning(massNumbers: seq<real>, y: seq<real>, xEps: real, threshold: real)
    requires |massNumbers| == |y|
    ensures var r := CheckedAbundances(massNumbers, y, xEps, threshold);
            forall i | 0 <= i < |y| :: r[i] == y[i] || (SmallNegative(y[i], threshold) && r[i] == 0.0)
    ensures CheckPasses(massNumbers, y, xEps, threshold) && !Balanced(massNumbers, y, xEps) ==>
              forall i | 0 <= i < |y| :: CheckedAbundances(massNumbers, y, xEps, threshold)[i] >= 0.0
    ensures !CheckPasses(massNumbers, y, xEps, threshold) <==>
              !Balanced(massNumbers, y, xEps) && exists i | 0 <= i < |y| :: LargeNegative(y[i], threshold)
  {
    NonnegScanMeaning(y, threshold);
  }

  /** The verdict of one trial of safe_evolve's first step: the zone evolved from yOld
      over step, then checked. */
  predicate TrialPasses(p: NewtonParams, negThreshold: Option<real>, yOld: seq<real>, xEps: real, step: real)
    requires ParamsFit(p) && |p.massNumbers| == |yOld|
  {
    CheckPasses(p.massNumbers, Newton(p, negThreshold, yOld, yOld, step, 1).y, xEps, NegativeThreshold(negThreshold))
  }

  /** The abundances that trial leaves. */
  function TrialAbundances(p: NewtonParams, negThreshold: Option<real>, yOld: seq<real>, xEps: real, step: real)
    : (r: seq<real>)
    requires ParamsFit(p) && |p.massNumbers| == |yOld|
    ensures |r| == |yOld|
  {
    CheckedAbundances(p.massNumbers, Newton(p, negThreshold, yOld, yOld, step, 1).y, xEps, NegativeThreshold(negThreshold))
  }

  /** The step s divided by 10, k times. */
  function Cut(s: real, k: nat): real
  {
    if k == 0 then s else Cut(s, k - 1) / 10.0
  }

  /** After cuts > 0 cuts of safe_evolve's first step from s0: every cut was made
      from a step above dtMin after a failed trial, so the trials over s0 cut 1 to
      cuts - 1 times all failed, and the verdict ok and abundances y are those of the
      trial over step. */
  ghost predicate CutsMade(p: NewtonParams, negThreshold: Option<real>, yOld: seq<real>, xEps: real, s0: real,
                           dtMin: real, step: real, ok: bool, cuts: nat, y: seq<real>)
    requires ParamsFit(p) && |p.massNumbers| == |yOld|
  {
    && cuts > 0 && step == Cut(s0, cuts) && Cut(s0, cuts - 1) > dtMin
    && (forall i | 1 <= i < cuts :: !TrialPasses(p, negThreshold, yOld, xEps, Cut(s0, i)))
    && ok == TrialPasses(p, negThreshold, yOld, xEps, step)
    && y == TrialAbundances(p, negThreshold, yOld, xEps, step)
  }

  /** The state of safe_evolve's cutting loop, started from s0 with verdict ok0 on
      abundances y0: no cut leaves them as they were; after a cut, which only a failed
      verdict and a step above dtMin allow, CutsMade holds and DTIME is the step. */
  ghost predicate CutTrials(p: NewtonParams, negThreshold: Option<real>, yOld: seq<real>, xEps: real, s0: real,
                            dtMin: real, ok0: bool, y0: seq<real>, step: real, ok: bool, cuts: nat, y: seq<real>,
                            dtime: real)
    requires ParamsFit(p) && |p.massNumbers| == |yOld|
  {
    && 0.0 < step <= s0 && step == Cut(s0, cuts)
    && (cuts == 0 ==> ok == ok0 && y == y0)
    && (cuts > 0 ==>
          && !ok0 && s0 > dtMin && dtime == step
          && CutsMade(p, negThreshold, yOld, xEps, s0, dtMin, step, ok, cuts, y))
  }

  /** One cut of the loop: a failed trial over a step above dtMin, followed by the trial
      over a tenth of it, keeps CutTrials. */
  lemma CutTrialsStep(p: NewtonParams, negThreshold: Option<real>, yOld: seq<real>, xEps: real, s0: real,
                      dtMin: real, ok0: bool, y0: seq<real>, step: real, cuts: nat, y: seq<real>, dtime: real)
    requires ParamsFit(p) && |p.massNumbers| == |yOld|
    requires CutTrials(p, negThreshold, yOld, xEps, s0, dtMin, ok0, y0, step, false, cuts, y, dtime)
    requires step > dtMin
    ensures CutTrials(p, negThreshold, yOld, xEps, s0, dtMin, ok0, y0, step / 10.0,
                      TrialPasses(p, negThreshold, yOld, xEps, step / 10.0), cuts + 1,
                      TrialAbundances(p, negThreshold, yOld, xEps, step / 10.0), step / 10.0)
  {
  }

  // ---------------------------------------------------------------------------
  // The zone being evolved.
  // ---------------------------------------------------------------------------

  /** The state of a zone that evolve and safe_evolve update: its abundances and
      abundance changes in species-index order, its DTIME property and its
      LARGE_NEG_ABUND_THRESHOLD property, if set. */
  class EvolvingZone {
    var abundances: seq<real>
    var abundanceChanges: seq<real>
    var dtime: real
    var largeNegThreshold: Option<real>
    var time: real
    var t9: real
    var rho: real
    var steps: nat

    constructor(y: seq<real>, dt: real, threshold: Option<real>, t9_0: real, rho0: real)
      ensures abundances == y && abundanceChanges == Zeros(|y|) && dtime == dt && largeNegThreshold == threshold
      ensures time == 0.0 && t9 == t9_0 && rho == rho0 && steps == 0
    {
      abundances, abundanceChanges, dtime, largeNegThreshold := y, Zeros(|y|), dt, threshold;
      time, t9, rho, steps := 0.0, t9_0, rho0, 0;
    }

    /** is_nonneg_abunds: over the species in index order, a negative abundance smaller
        in magnitude than the threshold is set to 0 and a larger one ends the scan with
        false. */
    method IsNonnegAbunds() returns (ok: bool)
      modifies this`abundances
      ensures ok == NonnegOk(old(abundances), NegativeThreshold(largeNegThreshold))
      ensures abundances == AfterNonnegScan(old(abundances), NegativeThreshold(largeNegThreshold))
    {
      var threshold := NegativeThreshold(largeNegThreshold);
      ghost var y := abundances;
      for i := 0 to |abundances|
        invariant abundances == Repaired(y, threshold, i)
        invariant forall k | 0 <= k < i :: !LargeNegative(y[k], threshold)
      {
        if abundances[i] < 0.0 {
          if AbsReal(abundances[i]) < threshold {
            abundances := abundances[i := 0.0];
          } else {
            FirstLargeNegativeIs(y, threshold, 0, i);
            return false;
          }
        }
      }
      FirstLargeNegativeIs(y, threshold, 0, |y|);
      return true;
    }

    /** evolve: the Newton-Raphson iterations over the current DTIME from the current
        abundances; unless it returns -1 it stores the abundance changes, new minus old.
        (The branch for zones evolved in NSE with weak rates is not part of this model.) */
    method Evolve(p: NewtonParams) returns (r: int)
      requires ParamsFit(p) && |p.massNumbers| == |abundances|
      modifies this`abundances, this`abundanceChanges
      ensures |abundances| == |old(abundances)|
      ensures var o := Newton(p, largeNegThreshold, old(abundances), old(abundances), dtime, 1);
              r == o.result && abundances == o.y
      ensures r != -1 ==> abundanceChanges == Difference(abundances, old(abundances))
      ensures r == -1 ==> abundanceChanges == old(abundanceChanges)
    {
      var yOld, dt := abundances, dtime;
      var iter := 1;
      while iter <= p.itmax
        invariant 1 <= iter <= p.itmax + 1 && |abundances| == |yOld|
        invariant Newton(p, largeNegThreshold, abundances, yOld, dt, iter)
                  == Newton(p, largeNegThreshold, yOld, yOld, dt, 1)
        invariant abundanceChanges == old(abundanceChanges)
        decreases p.itmax + 1 - iter
      {
        var sol := p.correction(abundances, yOld, dt);
        var check := CheckMatrixSolution(abundances, sol, p.massNumbers, p.checkThreshold, p.sqrt);
        abundances := Added(abundances, sol);
        if check.maxRelativeChange < p.converge {
          break;
        }
        if largeNegThreshold.Some? {
          var ok := IsNonnegAbunds();
          if !ok {
            return -1;
          }
        }
        iter := iter + 1;
      }
      abundanceChanges := Difference(abundances, yOld);
      return iter;
    }

    /** default_safe_evolve_check_function: the mass fractions sum to 1 within xEps, or
        else is_nonneg_abunds succeeds (and has zeroed the small negative abundances). */
    method DefaultSafeEvolveCheck(massNumbers: seq<real>, xEps: real) returns (ok: bool)
      requires |massNumbers| == |abundances|
      modifies this`abundances
      ensures |abundances| == |old(abundances)|
      ensures ok == CheckPasses(massNumbers, old(abundances), xEps, NegativeThreshold(largeNegThreshold))
      ensures abundances == CheckedAbundances(massNumbers, old(abundances), xEps, NegativeThreshold(largeNegThreshold))
    {
      ok := AbsReal(1.0 - Dot(massNumbers, abundances)) < xEps;
      if !ok {
        ok := IsNonnegAbunds();
      }
    }

    /** safe_evolve with the default check: a first step of dt1; while the check fails
        and the step exceeds dtMin, the abundances are restored and the step is cut by
        10; then steps growing by 1.15, the last one clipped, carry the elapsed time to
        dt.  The abundance changes are then final minus initial abundances and DTIME is
        dt again. */
    method SafeEvolve(p: NewtonParams, xEps: real, dt1: real, dt: real, dtMin: real) returns (ghost elapsed: real)
      requires ParamsFit(p) && |p.massNumbers| == |abundances| && dt1 > 0.0 && dtMin > 0.0
      modifies this`abundances, this`abundanceChanges, this`dtime
      ensures |abundances| == |old(abundances)|
      ensures abundanceChanges == Difference(abundances, old(abundances))
      ensures dtime == dt && elapsed >= dt
    {
      var yOld := abundances;
      var step, ok;
      ghost var cuts;
      step, ok, cuts := FirstSafeStep(p, xEps, dt1, dtMin);
      elapsed := GrowingSteps(p, step, dt);
      abundanceChanges := Difference(abundances, yOld);
      dtime := dt;
    }

    /** The first step of safe_evolve: evolve over dt1, and while the check fails and
        the step exceeds dtMin, restore the abundances and retry with a tenth of it.  The
        step it settles on passed the check or is at most dtMin; it is dt1 cut `cuts`
        times, each cut made from a step above dtMin after a failed trial. */
    method FirstSafeStep(p: NewtonParams, xEps: real, dt1: real, dtMin: real)
      returns (step: real, ok: bool, ghost cuts: nat)
      requires ParamsFit(p) && |p.massNumbers| == |abundances| && dt1 > 0.0 && dtMin > 0.0
      modifies this`abundances, this`abundanceChanges, this`dtime
      ensures |abundances| == |old(abundances)| && 0.0 < step <= dt1 && dtime == step
      ensures ok || step <= dtMin
      ensures step == Cut(dt1, cuts)
      ensures TrialPasses(p, largeNegThreshold, old(abundances), xEps, dt1) ==>
                cuts == 0 && ok && abundances == TrialAbundances(p, largeNegThreshold, old(abundances), xEps, dt1)
      ensures cuts == 0 && !TrialPasses(p, largeNegThreshold, old(abundances), xEps, dt1) ==>
                abundances == CheckedAbundances(p.massNumbers, TrialAbundances(p, largeNegThreshold, old(abundances), xEps, dt1),
                                                xEps, NegativeThreshold(largeNegThreshold))
      ensures cuts > 0 ==>
                && !TrialPasses(p, largeNegThreshold, old(abundances), xEps, dt1)
                && CutsMade(p, largeNegThreshold, old(abundances), xEps, dt1, dtMin, step, ok, cuts, abundances)
    {
      var yOld := abundances;
      step := dt1;
      ok := CheckedStep(p, xEps, step);
      cuts := 0;
      if !ok {
        ok := DefaultSafeEvolveCheck(p.massNumbers, xEps);
        step, ok, cuts := CutSteps(p, xEps, yOld, step, dtMin, ok);
      }
    }

    /** The cutting loop of safe_evolve: while the check fails and the step exceeds
        dtMin, restore the abundances yOld and retry with a tenth of the step.  It stops
        on a trial that passes or on a step at most dtMin; a passing verdict ok0 or a
        step s0 at most dtMin makes no cut. */
    method CutSteps(p: NewtonParams, xEps: real, yOld: seq<real>, s0: real, dtMin: real, ok0: bool)
      returns (step: real, ok: bool, ghost cuts: nat)
      requires ParamsFit(p) && |p.massNumbers| == |yOld| && |abundances| == |yOld| && s0 > 0.0 && dtMin > 0.0
      modifies this`abundances, this`abundanceChanges, this`dtime
      ensures |abundances| == |yOld| && 0.0 < step <= s0
      ensures ok || step <= dtMin
      ensures step == Cut(s0, cuts)
      ensures cuts == 0 <==> ok0 || s0 <= dtMin
      ensures cuts == 0 ==> ok == ok0 && abundances == old(abundances) && dtime == old(dtime)
      ensures cuts > 0 ==> CutsMade(p, largeNegThreshold, yOld, xEps, s0, dtMin, step, ok, cuts, abundances) && dtime == step
    {
      step := s0;
      ok := ok0;
      cuts := 0;
      ghost var y0 := abundances;
      while !ok && step > dtMin
        invariant |abundances| == |yOld|
        invariant CutTrials(p, largeNegThreshold, yOld, xEps, s0, dtMin, ok0, y0, step, ok, cuts, abundances, dtime)
        invariant cuts == 0 ==> dtime == old(dtime)
        decreases (step / dtMin).Floor
      {
        CutShrinks(step, dtMin);
        step, ok := CutOnce(p, xEps, yOld, s0, dtMin, ok0, y0, step, cuts);
        cuts := cuts + 1;
      }
    }

    /** One pass of the cutting loop: restore yOld and retry with a tenth of the step. */
    method CutOnce(p: NewtonParams, xEps: real, yOld: seq<real>, s0: real, dtMin: real, ok0: bool, ghost y0: seq<real>,
                   step: real, ghost cuts: nat)
      returns (cut: real, ok: bool)
      requires ParamsFit(p) && |p.massNumbers| == |yOld| && step > dtMin
      requires CutTrials(p, largeNegThreshold, yOld, xEps, s0, dtMin, ok0, y0, step, false, cuts, abundances, dtime)
      modifies this`abundances, this`abundanceChanges, this`dtime
      ensures cut == step / 10.0 && |abundances| == |yOld|
      ensures CutTrials(p, largeNegThreshold, yOld, xEps, s0, dtMin, ok0, y0, cut, ok, cuts + 1, abundances, dtime)
    {
      CutTrialsStep(p, largeNegThreshold, yOld, xEps, s0, dtMin, ok0, y0, step, cuts, abundances, dtime);
      abundances := yOld;
      cut := step / 10.0;
      ok := CheckedStep(p, xEps, cut);
    }

    /** One trial of safe_evolve: DTIME is set to the step, the zone evolved from its
        abundances over that step and the result checked. */
    method CheckedStep(p: NewtonParams, xEps: real, step: real) returns (ok: bool)
      requires ParamsFit(p) && |p.massNumbers| == |abundances|
      modifies this`abundances, this`abundanceChanges, this`dtime
      ensures |abundances| == |old(abundances)| && dtime == step
      ensures ok == TrialPasses(p, largeNegThreshold, old(abundances), xEps, step)
      ensures abundances == TrialAbundances(p, largeNegThreshold, old(abundances), xEps, step)
      ensures var o := Newton(p, largeNegThreshold, old(abundances), old(abundances), step, 1);
              && (o.result != -1 ==> abundanceChanges == Difference(o.y, old(abundances)))
              && (o.result == -1 ==> abundanceChanges == old(abundanceChanges))
    {
      dtime := step;
      var r := Evolve(p);
      ok := DefaultSafeEvolveCheck(p.massNumbers, xEps);
    }

    /** The rest of safe_evolve: steps growing by 1.15 from s0, the last one clipped,
        until the elapsed time reaches dt. */
    method GrowingSteps(p: NewtonParams, s0: real, dt: real) returns (ghost t: real)
      requires ParamsFit(p) && |p.massNumbers| == |abundances| && s0 > 0.0
      modifies this`abundances, this`abundanceChanges, this`dtime
      ensures |abundances| == |old(abundances)| && t >= dt
    {
      var yOld := abundances;
      var step := s0;
      var now := s0;
      while now < dt
        invariant |abundances| == |yOld| && |p.massNumbers| == |yOld|
        invariant now < dt ==> step > 0.0 && (step >= s0 || now + step > dt)
        decreases if now < dt then ((dt - now) / s0).Floor + 1 else 0
      {
        var r := Evolve(p);
        GrowthProgress(dt, now, step, s0);
        now := now + step;
        if now < dt {
          NextTrialStepBounds(now, step, dt);
        }
        step := NextTrialStep(now, step, dt);
        dtime := step;
      }
      t := now;
    }

    /** One step of evolve_zone's loop: the time advances by DTIME; T9 and ρ follow the
        exponential expansion with their floors; the zone is evolved, a failure being
        reported; the next DTIME is the step the time-step update proposes, shortened so
        that the time does not pass tEnd. */
    method EvolveZoneStep(p: NewtonParams, h: Expansion, exp: real -> real,
                          proposeStep: (seq<real>, seq<real>, real) -> real, tEnd: real)
      returns (r: Result<int>)
      requires ParamsFit(p) && |p.massNumbers| == |abundances| && h.tau != 0.0
      modifies this`abundances, this`abundanceChanges, this`dtime, this`time, this`t9, this`rho, this`steps
      ensures steps == old(steps) + 1 && time == old(time) + old(dtime)
      ensures t9 == ConditionsAt(time, h, exp).t9 && rho == ConditionsAt(time, h, exp).rho
      ensures var o := Newton(p, largeNegThreshold, old(abundances), old(abundances), old(dtime), 1);
              abundances == o.y && (r.Failure? <==> ConvergenceProblem(o.result))
      ensures var o := Newton(p, largeNegThreshold, old(abundances), old(abundances), old(dtime), 1);
              && (o.result != -1 ==> abundanceChanges == Difference(abundances, old(abundances)))
              && (o.result == -1 ==> abundanceChanges == old(abundanceChanges))
      ensures r.Success? ==> dtime == ClippedStep(time, proposeStep(abundances, abundanceChanges, old(dtime)), tEnd)
    {
      steps := steps + 1;
      time := time + dtime;
      var c := ConditionsAt(time, h, exp);
      t9, rho := c.t9, c.rho;
      var result := Evolve(p);
      if ConvergenceProblem(result) {
        return Failure(ConvergenceMessage);
      }
      var dt := proposeStep(abundances, abundanceChanges, dtime);
      if time + dt > tEnd {
        dt := tEnd - time;
      }
      dtime := dt;
      r := Success(result);
    }
  }

  /** The trial step after one of safe_evolve's growing steps ends at t: 1.15 times the
      last one, or, if that would pass dt, the rest of the way plus 1e-30. */
  function NextTrialStep(t: real, step: real, dt: real): real
  {
    if step * 1.15 + t > dt then dt - t + 1.0e-30 else step * 1.15
  }

  /** Before the end the next step is positive and ends at most 1e-30 past dt; it is
      1.15 times the last one unless it is the clipped one that carries the time past dt. */
  lemma NextTrialStepBounds(t: real, step: real, dt: real)
    requires t < dt && step > 0.0
    ensures NextTrialStep(t, step, dt) > 0.0
    ensures t + NextTrialStep(t, step, dt) <= dt + 1.0e-30
    ensures NextTrialStep(t, step, dt) == step * 1.15 || t + NextTrialStep(t, step, dt) > dt
  {
  }

  /** Dividing a step above dtMin by 10 lowers the whole number of dtMin it holds. */
  lemma CutShrinks(step: real, dtMin: real)
    requires dtMin > 0.0 && step > dtMin
    ensures 0 <= ((step / 10.0) / dtMin).Floor < (step / dtMin).Floor
  {
    var x := step / dtMin;
    assert x > 1.0 by {
      assert x * dtMin == step;
      if x <= 1.0 {
        assert false;
      }
    }
    assert (step / 10.0) / dtMin == x / 10.0;
    if x >= 2.0 {
      assert x / 10.0 <= x - 1.0;
    }
    assert x / 10.0 < x.Floor as real;
  }

  /** A growing step of at least s0, or one that ends past dt, lowers the count of s0
      steps left before dt. */
  lemma GrowthProgress(dt: real, t: real, step: real, s0: real)
    requires s0 > 0.0 && t < dt && step > 0.0 && (step >= s0 || t + step > dt)
    ensures 0 <= ((dt - t) / s0).Floor
    ensures (if t + step < dt then ((dt - (t + step)) / s0).Floor + 1 else 0) < ((dt - t) / s0).Floor + 1
  {
    var x := (dt - t) / s0;
    assert x * s0 == dt - t;
    assert x > 0.0 by {
      if x <= 0.0 {
        assert false;
      }
    }
    if t + step < dt {
      var y := (dt - (t + step)) / s0;
      var q := step / s0;
      assert y == x - q;
      QuotientAtLeastOne(step, s0);
    }
  }

  lemma QuotientAtLeastOne(a: real, b: real)
    requires b > 0.0 && a >= b
    ensures a / b >= 1.0
  {
    var q := a / b;
    assert q * b == a;
    assert (q - 1.0) * b == a - b;
  }

  // ---------------------------------------------------------------------------
  // evolve_zone: conditions, step clipping and the convergence test.
  // ---------------------------------------------------------------------------

  const MinT9: real := 1.0e-6
  const MinRho: real := 1.0e-18
  const ConvergenceMessage := "Problem converging."

  /** The zone's expansion: initial T9 and density and the expansion time scale τ. */
  datatype Expansion = Expansion(t9_0: real, rho0: real, tau: real)

  datatype Conditions = Conditions(t9: real, rho: real)

  /** T9 and ρ at time t: T9_0·exp(-t/(3τ)) and ρ_0·exp(-t/τ), floored at 1e-6 and 1e-18. */
  function ConditionsAt(t: real, h: Expansion, exp: real -> real): (c: Conditions)
    requires h.tau != 0.0
    ensures c.t9 >= MinT9 && c.rho >= MinRho
    ensures c.t9 == MaxReal(h.t9_0 * exp(-t / (3.0 * h.tau)), MinT9)
    ensures c.rho == MaxReal(h.rho0 * exp(-t / h.tau), MinRho)
  {
    var t9 := h.t9_0 * exp(-t / (3.0 * h.tau));
    var rho := h.rho0 * exp(-t / h.tau);
    Conditions(if t9 < MinT9 then MinT9 else t9, if rho < MinRho then MinRho else rho)
  }

  /** The next step, shortened to end at tEnd when it would pass it: the time never
      passes tEnd, and a step that fits is kept. */
  function ClippedStep(t: real, dt: real, tEnd: real): (r: real)
    ensures t + r <= tEnd || (r == dt && t + dt <= tEnd)
    ensures r <= dt
    ensures t + dt <= tEnd ==> r == dt
    ensures t + dt > tEnd ==> t + r == tEnd
  {
    if t + dt > tEnd then tEnd - t else dt
  }

  /** evolve_zone's test of evolve's result as written, `!evolve(zone)`: only 0 counts
      as a problem. */
  function ConvergenceProblemAsWritten(result: int): bool
  {
    result == 0
  }

  /** The test evolve's contract calls for: -1 reports the failure. */
  function ConvergenceProblem(result: int): bool
  {
    result < 0
  }

  /** As written the test never fires: evolve never returns 0, and the -1 it returns on
      a large negative abundance passes unnoticed, as the one-species run below shows for
      every convergence tolerance up to 2 (its relative change is 2). */
  lemma ConvergenceProblemAsWrittenNeverFires(p: NewtonParams, negThreshold: Option<real>, y: seq<real>, dt: real)
    requires ParamsFit(p)
    ensures !ConvergenceProblemAsWritten(Newton(p, negThreshold, y, y, dt, 1).result)
  {
    NewtonResult(p, negThreshold, y, y, dt, 1);
  }

  lemma ConvergenceProblemAsWrittenMissesFailure(converge: real)
    requires converge <= 2.0
    ensures var p := NewtonParams((y: seq<real>, yOld: seq<real>, dt: real) => seq(|y|, i => -2.0), 1, converge, 0.0,
                                  [1.0], x => x);
            ParamsFit(p)
            && Newton(p, Some(0.5), [1.0], [1.0], 1.0, 1).result == -1
            && !ConvergenceProblemAsWritten(Newton(p, Some(0.5), [1.0], [1.0], 1.0, 1).result)
  {
    var p := NewtonParams((y: seq<real>, yOld: seq<real>, dt: real) => seq(|y|, i => -2.0), 1, converge, 0.0, [1.0],
                          x => x);
    var sol := p.correction([1.0], [1.0], 1.0);
    assert sol == [-2.0];
    assert MaxRelativeChange([1.0], sol, 0.0) == 2.0 by {
      assert [1.0][..0] == [];
      assert AbsReal(-2.0 / 1.0) == 2.0;
    }
    var y' := Added([1.0], sol);
    assert y' == [-1.0];
    assert LargeNegative(y'[0], 0.5);
    assert !NonnegOk(y', 0.5);
  }

  /** The corrected test fires exactly when evolve reports failure. */
  lemma ConvergenceProblemDetectsFailure(p: NewtonParams, negThreshold: Option<real>, y: seq<real>, dt: real)
    requires ParamsFit(p)
    ensures ConvergenceProblem(Newton(p, negThreshold, y, y, dt, 1).result)
            <==> Newton(p, negThreshold, y, y, dt, 1).result == -1
  {
    NewtonResult(p, negThreshold, y, y, dt, 1);
  }
}
