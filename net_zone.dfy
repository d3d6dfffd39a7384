// Zone-level computations of libnucnet (vendor/libnucnet/0.28/src/Libnucnet.c):
// the flow vector, the abundances summed by Z, N or A, and the time-step rule.
//
// A reaction of the zone's evolution view enters the flow vector as a FlowTerm:
// the species indices of its nuclide reactants and products, its duplicate
// factors and the forward and reverse rates the zone holds for it.  The order
// in which the reaction hash is scanned is a parameter.

module NetZone {
  import opened Common
  import opened Vectors
  import opened Transfers
  import opened Libnucnet
  import Nuc

  // ---------------------------------------------------------------------------
  // The flow vector.
  // ---------------------------------------------------------------------------

  datatype FlowTerm = FlowTerm(reactants: seq<nat>, products: seq<nat>,
                               reactantFactor: nat, productFactor: nat,
                               forward: real, reverse: real)

  /** The term's indices are species of a network of n species and its factors are
      those of a reaction (never 0). */
  predicate Fits(t: FlowTerm, n: nat)
  {
    InRange(t.reactants, n) && InRange(t.products, n) && t.reactantFactor >= 1 && t.productFactor >= 1
  }

  predicate AllFit(ts: seq<FlowTerm>, n: nat)
  {
    forall k | 0 <= k < |ts| :: Fits(ts[k], n)
  }

  /** The product of the abundances at the listed indices. */
  function AbundanceProduct(y: seq<real>, idx: seq<nat>): real
    requires InRange(idx, |y|)
  {
    if |idx| == 0 then 1.0 else AbundanceProduct(y, idx[..|idx| - 1]) * y[idx[|idx| - 1]]
  }

  /** The net rate of one reaction: fwd·ΠY(reactants)/dupR − rev·ΠY(products)/dupP. */
  function NetRate(t: FlowTerm, y: seq<real>): real
    requires Fits(t, |y|)
  {
    t.forward / (t.reactantFactor as real) * AbundanceProduct(y, t.reactants)
    - t.reverse / (t.productFactor as real) * AbundanceProduct(y, t.products)
  }

  /** The net rates of the reactions of ts, in order. */
  function NetRates(y: seq<real>, ts: seq<FlowTerm>): (us: seq<real>)
    requires AllFit(ts, |y|)
    ensures |us| == |ts| && forall k | 0 <= k < |ts| :: us[k] == NetRate(ts[k], y)
  {
    seq(|ts|, k requires 0 <= k < |ts| && AllFit(ts, |y|) => NetRate(ts[k], y))
  }

  /** The flow vector of n species after the reactions of ts, in scan order, with net
      rates us: each reaction's rate is taken from every reactant and given to every
      product. */
  function Flow(n: nat, ts: seq<FlowTerm>, us: seq<real>): (v: seq<real>)
    requires AllFit(ts, n) && |us| == |ts|
    ensures |v| == n
  {
    if ts == [] then Zeros(n)
    else
      var t, u := ts[|ts| - 1], us[|us| - 1];
      Shifted(Shifted(Flow(n, ts[..|ts| - 1], us[..|us| - 1]), t.reactants, -u), t.products, u)
  }

  /** When every reaction carries as much of a quantity in as out (mass number A, say,
      with w[i] the A of species i), the flow vector leaves that quantity unchanged:
      Σ w·dY/dt = 0, whatever the rates. */
  lemma {:induction false} FlowConserves(w: seq<real>, ts: seq<FlowTerm>, us: seq<real>)
    requires AllFit(ts, |w|) && |us| == |ts|
    requires forall k | 0 <= k < |ts| :: Gather(w, ts[k].reactants) == Gather(w, ts[k].products)
    ensures Dot(w, Flow(|w|, ts, us)) == 0.0
  {
    if ts == [] {
      DotZeros(w);
    } else {
      var init, t, u := ts[..|ts| - 1], ts[|ts| - 1], us[|us| - 1];
      assert AllFit(init, |w|) && Fits(t, |w|);
      FlowConserves(w, init, us[..|us| - 1]);
      DotTakeGiveBalanced(w, Flow(|w|, init, us[..|us| - 1]), t.reactants, t.products, u);
    }
  }

  /** The running product of the loops: start from a rate over its factor and multiply
      in the abundance at each index. */
  method MultiplyAbundances(y: seq<real>, idx: seq<nat>, start: real) returns (p: real)
    requires InRange(idx, |y|)
    ensures p == start * AbundanceProduct(y, idx)
  {
    p := start;
    var i := 0;
    while i < |idx|
      invariant 0 <= i <= |idx|
      invariant p == start * AbundanceProduct(y, idx[..i])
    {
      assert idx[..i + 1][..i] == idx[..i];
      p := p * y[idx[i]];
      i := i + 1;
    }
    assert idx[..|idx|] == idx;
  }

  /** Adds x at every listed index of the vector. */
  method AddAt(v: array<real>, idx: seq<nat>, x: real)
    requires InRange(idx, v.Length)
    modifies v
    ensures v[..] == Shifted(old(v[..]), idx, x)
  {
    var i := 0;
    while i < |idx|
      invariant 0 <= i <= |idx|
      invariant v[..] == Shifted(old(v[..]), idx[..i], x)
    {
      assert idx[..i + 1][..i] == idx[..i];
      v[idx[i]] := v[idx[i]] + x;
      i := i + 1;
    }
    assert idx[..|idx|] == idx;
  }

  /** Libnucnet__Zone__computeFlowVector: one entry per species, starting at zero; every
      reaction in scan order takes its net rate from each reactant and adds it to each
      product. */
  method ComputeFlowVector(y: seq<real>, ts: seq<FlowTerm>) returns (flow: array<real>)
    requires AllFit(ts, |y|)
    ensures fresh(flow) && flow[..] == Flow(|y|, ts, NetRates(y, ts))
  {
    flow := new real[|y|](_ => 0.0);
    assert flow[..] == Zeros(|y|);
    ghost var us: seq<real> := [];
    var k := 0;
    while k < |ts|
      invariant 0 <= k <= |ts| && flow.Length == |y|
      invariant AllFit(ts[..k], |y|) && |us| == k
      invariant forall j | 0 <= j < k :: us[j] == NetRate(ts[j], y)
      invariant flow[..] == Flow(|y|, ts[..k], us)
    {
      var u := ApplyTerm(flow, y, ts[k]);
      FlowLast(|y|, ts[..k + 1], us + [u]);
      assert ts[..k + 1][..k] == ts[..k] && ts[..k + 1][k] == ts[k] && (us + [u])[..k] == us;
      us := us + [u];
      k := k + 1;
    }
    assert ts[..|ts|] == ts;
    assert us == NetRates(y, ts);
  }

  lemma FlowLast(n: nat, ts: seq<FlowTerm>, us: seq<real>)
    requires AllFit(ts, n) && |us| == |ts| && ts != []
    ensures AllFit(ts[..|ts| - 1], n)
    ensures Flow(n, ts, us)
         == Shifted(Shifted(Flow(n, ts[..|ts| - 1], us[..|us| - 1]), ts[|ts| - 1].reactants, -us[|us| - 1]),
                    ts[|ts| - 1].products, us[|us| - 1])
  {
    assert AllFit(ts[..|ts| - 1], n);
  }

  /** One call of the scan: the reaction's net rate from the abundances, taken from each
      reactant and added to each product. */
  method ApplyTerm(flow: array<real>, y: seq<real>, t: FlowTerm) returns (u: real)
    requires Fits(t, |y|) && flow.Length == |y|
    modifies flow
    ensures u == NetRate(t, y)
    ensures flow[..] == Shifted(Shifted(old(flow[..]), t.reactants, -u), t.products, u)
  {
    var forward := MultiplyAbundances(y, t.reactants, t.forward / (t.reactantFactor as real));
    var reverse := MultiplyAbundances(y, t.products, t.reverse / (t.productFactor as real));
    u := forward - reverse;
    AddAt(flow, t.reactants, -u);
    AddAt(flow, t.products, u);
  }

  // ---------------------------------------------------------------------------
  // Summed abundances.
  // ---------------------------------------------------------------------------

  /** The species is in the network and its Z, N or A (kind) is below size. */
  predicate Binnable(kind: string, species: map<string, Nuc.Species>, x: string, size: nat)
  {
    x in species && Nuc.IsNucleonType(kind) && Nuc.NucleonNumber(kind, species[x]) < size
  }

  /** The abundances of the listed species added up by their Z, N or A. */
  function Binned(kind: string, species: map<string, Nuc.Species>, y: map<string, real>,
                  names: seq<string>, size: nat): (v: seq<real>)
    requires forall i | 0 <= i < |names| :: Binnable(kind, species, names[i], size)
    ensures |v| == size
  {
    if names == [] then Zeros(size)
    else
      var v := Binned(kind, species, y, names[..|names| - 1], size);
      var x := names[|names| - 1];
      assert Binnable(kind, species, x, size);
      var k := Nuc.NucleonNumber(kind, species[x]);
      v[k := v[k] + Lookup(y, x)]
  }

  /** The summed abundance of the listed species. */
  function AbundanceTotal(y: map<string, real>, names: seq<string>): real
  {
    if names == [] then 0.0 else AbundanceTotal(y, names[..|names| - 1]) + Lookup(y, names[|names| - 1])
  }

  /** Binning keeps the total: the entries add up to the summed abundance. */
  lemma {:induction false} BinnedTotal(kind: string, species: map<string, Nuc.Species>, y: map<string, real>,
                                       names: seq<string>, size: nat)
    requires forall i | 0 <= i < |names| :: Binnable(kind, species, names[i], size)
    ensures Sum(Binned(kind, species, y, names, size)) == AbundanceTotal(y, names)
  {
    if names == [] {
      SumZeros(size);
    } else {
      var x := names[|names| - 1];
      BinnedTotal(kind, species, y, names[..|names| - 1], size);
      SumPointUpdate(Binned(kind, species, y, names[..|names| - 1], size), Nuc.NucleonNumber(kind, species[x]), Lookup(y, x));
    }
  }

  /** Some member of a non-empty set of species. */
  ghost function Pick(xs: set<string>): string
    requires xs != {}
  {
    var x :| x in xs; x
  }

  /** The summed abundance of a set of species, whatever order they are taken in. */
  ghost function SetTotal(y: map<string, real>, xs: set<string>): real
    decreases xs
  {
    if xs == {} then 0.0 else Lookup(y, Pick(xs)) + SetTotal(y, xs - {Pick(xs)})
  }

  /** Any member of the set can be taken out first. */
  lemma {:induction false} SetTotalRemove(y: map<string, real>, xs: set<string>, x: string)
    requires x in xs
    ensures SetTotal(y, xs) == Lookup(y, x) + SetTotal(y, xs - {x})
    decreases xs
  {
    var z := Pick(xs);
    if z != x {
      SetTotalRemove(y, xs - {z}, x);
      SetTotalRemove(y, xs - {x}, z);
      assert xs - {z} - {x} == xs - {x} - {z};
    }
  }

  /** Summed along a repetition-free list, the abundances give the set's total. */
  lemma {:induction false} TotalOfDistinct(y: map<string, real>, names: seq<string>)
    requires Distinct(names)
    ensures AbundanceTotal(y, names) == SetTotal(y, set x | x in names)
  {
    if names != [] {
      var init, x := names[..|names| - 1], names[|names| - 1];
      assert Distinct(init);
      TotalOfDistinct(y, init);
      SetTotalRemove(y, (set z | z in names), x);
      assert x !in init;
      assert (set z | z in names) - {x} == set z | z in init;
    }
  }

  /** The listed species of the network whose Z, N or A is k. */
  predicate HasNumber(kind: string, species: map<string, Nuc.Species>, x: string, k: nat)
  {
    x in species && Nuc.IsNucleonType(kind) && Nuc.NucleonNumber(kind, species[x]) == k
  }

  /** The listed species whose Z, N or A is k, in list order. */
  function WithNumber(kind: string, species: map<string, Nuc.Species>, names: seq<string>, k: nat): seq<string>
  {
    if names == [] then []
    else
      WithNumber(kind, species, names[..|names| - 1], k)
      + (if HasNumber(kind, species, names[|names| - 1], k) then [names[|names| - 1]] else [])
  }

  /** The filter keeps exactly the listed species with number k, each once if the list
      has no repetition. */
  lemma {:induction false} WithNumberMembers(kind: string, species: map<string, Nuc.Species>, names: seq<string>, k: nat)
    ensures forall x :: x in WithNumber(kind, species, names, k) <==> x in names && HasNumber(kind, species, x, k)
    ensures Distinct(names) ==> Distinct(WithNumber(kind, species, names, k))
  {
    if names != [] {
      var init, x := names[..|names| - 1], names[|names| - 1];
      WithNumberMembers(kind, species, init, k);
      assert forall z :: z in names <==> z in init || z == x;
      assert Distinct(names) ==> Distinct(init) && x !in init;
    }
  }

  /** Entry k of the binned vector sums the listed species whose number is k. */
  lemma {:induction false} BinnedEntry(kind: string, species: map<string, Nuc.Species>, y: map<string, real>,
                                       names: seq<string>, size: nat, k: nat)
    requires forall i | 0 <= i < |names| :: Binnable(kind, species, names[i], size)
    requires k < size
    ensures Binned(kind, species, y, names, size)[k] == AbundanceTotal(y, WithNumber(kind, species, names, k))
  {
    if names != [] {
      var init, x := names[..|names| - 1], names[|names| - 1];
      var w := WithNumber(kind, species, init, k);
      assert Binned(kind, species, y, init, size)[k] == AbundanceTotal(y, w) by {
        BinnedEntry(kind, species, y, init, size, k);
      }
      var added := if Nuc.NucleonNumber(kind, species[x]) == k then Lookup(y, x) else 0.0;
      assert Binned(kind, species, y, names, size)[k] == Binned(kind, species, y, init, size)[k] + added;
      if HasNumber(kind, species, x, k) {
        assert WithNumber(kind, species, names, k) == w + [x];
        assert AbundanceTotal(y, w + [x]) == AbundanceTotal(y, w) + Lookup(y, x) by {
          assert (w + [x])[..|w|] == w;
        }
      } else {
        assert WithNumber(kind, species, names, k) == w;
      }
    }
  }

  /** The species of the network whose Z, N or A is k. */
  ghost function HavingNumber(kind: string, species: map<string, Nuc.Species>, k: nat): set<string>
  {
    set x | x in species && HasNumber(kind, species, x, k)
  }

  /** Over a scan of every species once, entry k of the binned vector is the summed
      abundance of the species whose Z, N or A is k, whatever the scan order. */
  lemma SummedBySpecies(kind: string, species: map<string, Nuc.Species>, y: map<string, real>,
                        scan: seq<string>, size: nat, k: nat)
    requires ScansOnce(scan, species.Keys)
    requires forall i | 0 <= i < |scan| :: Binnable(kind, species, scan[i], size)
    requires k < size
    ensures Binned(kind, species, y, scan, size)[k] == SetTotal(y, HavingNumber(kind, species, k))
  {
    BinnedEntry(kind, species, y, scan, size, k);
    var w := WithNumber(kind, species, scan, k);
    WithNumberMembers(kind, species, scan, k);
    TotalOfDistinct(y, w);
    assert (set x | x in w) == HavingNumber(kind, species, k);
  }

  /** The scan of the helper: each species adds its abundance at its Z, N or A. */
  method BinAbundances(kind: string, species: map<string, Nuc.Species>, y: map<string, real>,
                       scan: seq<string>, size: nat) returns (sums: array<real>)
    requires forall i | 0 <= i < |scan| :: Binnable(kind, species, scan[i], size)
    ensures fresh(sums) && sums[..] == Binned(kind, species, y, scan, size)
  {
    sums := new real[size](_ => 0.0);
    assert sums[..] == Zeros(size);
    var i := 0;
    while i < |scan|
      invariant 0 <= i <= |scan| && sums.Length == size
      invariant sums[..] == Binned(kind, species, y, scan[..i], size)
    {
      assert scan[..i + 1][..i] == scan[..i] && scan[..i + 1][i] == scan[i];
      var k := Nuc.NucleonNumber(kind, species[scan[i]]);
      sums[k] := sums[k] + Lookup(y, scan[i]);
      i := i + 1;
    }
    assert scan[..|scan|] == scan;
  }

  /** Libnucnet__Zone__getSummedAbundances: a vector one longer than the largest Z, N or
      A of the network, entry k holding the summed abundance of the species with that
      number.  An unknown kind is a fatal error once a species is met. */
  method GetSummedAbundances(nuc: Nuc.Nuc, zone: Zone, kind: string, scan: seq<string>) returns (sums: array<real>)
    requires Nuc.IsNucleonType(kind) || nuc.species == map[]
    requires ScansOnce(scan, nuc.species.Keys)
    ensures fresh(sums)
    ensures forall x | x in nuc.species :: Nuc.NucleonNumber(kind, nuc.species[x]) < sums.Length
    ensures sums.Length == 1 || exists x | x in nuc.species :: Nuc.NucleonNumber(kind, nuc.species[x]) == sums.Length - 1
    ensures sums[..] == Binned(kind, nuc.species, zone.abundances, scan, sums.Length)
    ensures forall k | 0 <= k < sums.Length :: sums[k] == SetTotal(zone.abundances, HavingNumber(kind, nuc.species, k))
  {
    var largest := nuc.GetLargestNucleonNumber(kind);
    sums := BinAbundances(kind, nuc.species, zone.abundances, scan, largest + 1);
    forall k | 0 <= k < sums.Length
      ensures sums[k] == SetTotal(zone.abundances, HavingNumber(kind, nuc.species, k))
    {
      SummedBySpecies(kind, nuc.species, zone.abundances, scan, sums.Length, k);
    }
  }

  // ---------------------------------------------------------------------------
  // Time step.
  // ---------------------------------------------------------------------------

  /** Keeps the step estimate finite where the abundance change is 0. */
  const Tiny: real := 1.0e-300

  /** A species limits the step when its abundance is above the floor and it changes. */
  predicate Limits(y: real, dy: real, ymin: real)
  {
    y > ymin && dy != 0.0 && dy + Tiny != 0.0
  }

  /** The step a limiting species allows: dt·regy·|y/(dy + tiny)|. */
  function StepLimit(dt: real, regy: real, y: real, dy: real): real
    requires dy + Tiny != 0.0
  {
    dt * regy * AbsReal(y / (dy + Tiny))
  }

  /** The species limits the zone's step. */
  predicate LimitsZone(zone: Zone, x: string, ymin: real)
    reads zone`abundances, zone`abundanceChanges
  {
    Limits(Lookup(zone.abundances, x), Lookup(zone.abundanceChanges, x), ymin)
  }

  /** The step a limiting species of the zone allows. */
  function ZoneStepLimit(zone: Zone, x: string, dt: real, regy: real, ymin: real): real
    requires LimitsZone(zone, x, ymin)
    reads zone`abundances, zone`abundanceChanges
  {
    StepLimit(dt, regy, Lookup(zone.abundances, x), Lookup(zone.abundanceChanges, x))
  }

  /** Libnucnet__Zone__updateTimeStep: the smallest of (1 + regt)·dt and the step every
      limiting species of the zone's network allows; the species are scanned once each,
      in hash order. */
  method UpdateTimeStep(zone: Zone, species: set<string>, scan: seq<string>, dt: real, regt: real, regy: real, ymin: real)
    returns (dt': real)
    requires ScansOnce(scan, species)
    ensures dt' <= (1.0 + regt) * dt
    ensures forall x | x in species && LimitsZone(zone, x, ymin) :: dt' <= ZoneStepLimit(zone, x, dt, regy, ymin)
    ensures dt' == (1.0 + regt) * dt
         || exists x | x in species && LimitsZone(zone, x, ymin) :: dt' == ZoneStepLimit(zone, x, dt, regy, ymin)
  {
    dt' := (1.0 + regt) * dt;
    var i := 0;
    while i < |scan|
      invariant 0 <= i <= |scan|
      invariant dt' <= (1.0 + regt) * dt
      invariant forall j | 0 <= j < i && LimitsZone(zone, scan[j], ymin) :: dt' <= ZoneStepLimit(zone, scan[j], dt, regy, ymin)
      invariant dt' == (1.0 + regt) * dt
         || exists j | 0 <= j < i && LimitsZone(zone, scan[j], ymin) :: dt' == ZoneStepLimit(zone, scan[j], dt, regy, ymin)
    {
      var y := zone.GetSpeciesAbundance(scan[i]);
      var dy := zone.GetSpeciesAbundanceChange(scan[i]);
      if Limits(y, dy, ymin) {
        var check := StepLimit(dt, regy, y, dy);
        if check < dt' {
          dt' := check;
        }
      }
      i := i + 1;
    }
    forall x | x in species && LimitsZone(zone, x, ymin)
      ensures dt' <= ZoneStepLimit(zone, x, dt, regy, ymin)
    {
      var j :| 0 <= j < |scan| && scan[j] == x;
    }
  }
}
