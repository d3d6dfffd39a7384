// The flow utilities of NucNet Tools (user/flow_utilities.cpp): the abundance product
// of a reaction's nuclide reactants or products (optionally leaving one species out
// once), the forward and reverse flows of a reaction in a zone, the forward, reverse
// and net flow vectors over the species of a network, their totals, and the running
// flow currents of a zone.
//
// The rates of a reaction come from code outside this model and are parameters.  A
// reaction enters the flow vectors through the species indices of its nuclide
// reactants and products and its pair of flows; the reactions are visited in the
// order of the sequence, as the reaction list gives them.

module FlowUtilities {
  import opened Common
  import opened Vectors
  import Libnucnet
  import NetZone
  import Transfers
  import Reac

  // ---------------------------------------------------------------------------
  // The abundance product (compute_reaction_abundance_product_in_zone).
  // ---------------------------------------------------------------------------

  /** The species a name resolves to in the network: itself when it is a species, no
      species otherwise (a null species pointer). */
  function Resolve(species: set<string>, name: string): Option<string>
  {
    if name in species then Some(name) else None
  }

  /** The species still to be left out after the listed elements: an element whose
      species is the one to leave out clears the exclusion. */
  function Pending(species: set<string>, names: seq<string>, exclude: Option<string>): (r: Option<string>)
    ensures r == exclude || r == None
  {
    if |names| == 0 then exclude
    else
      var prev := Pending(species, names[..|names| - 1], exclude);
      if Resolve(species, names[|names| - 1]) != prev then prev else None
  }

  /** The product the source returns: every element is multiplied in, except one whose
      species is the one still to be left out (a null species pointer, for a name that
      is no species, never matches a species to leave out; the source requires every
      name to be a species while one is). */
  function ProductExcluding(y: map<string, real>, species: set<string>, names: seq<string>,
                            exclude: Option<string>): real
    requires exclude.Some? ==> forall i | 0 <= i < |names| :: names[i] in species
  {
    if |names| == 0 then 1.0
    else
      var init, name := names[..|names| - 1], names[|names| - 1];
      var prev := ProductExcluding(y, species, init, exclude);
      if Resolve(species, name) != Pending(species, init, exclude) then prev * Libnucnet.Lookup(y, name)
      else prev
  }

  /** The plain product of the abundances of the listed species, one factor per entry. */
  function AbundanceProduct(y: map<string, real>, names: seq<string>): real
  {
    if |names| == 0 then 1.0
    else AbundanceProduct(y, names[..|names| - 1]) * Libnucnet.Lookup(y, names[|names| - 1])
  }

  /** With nothing to leave out, every element that is a species of the network is
      multiplied in: for a list of species, the product is the plain product. */
  lemma {:induction false} ProductWithoutExclusion(y: map<string, real>, species: set<string>, names: seq<string>)
    requires forall i | 0 <= i < |names| :: names[i] in species
    ensures Pending(species, names, None) == None
    ensures ProductExcluding(y, species, names, None) == AbundanceProduct(y, names)
  {
    if |names| > 0 {
      var init, name := names[..|names| - 1], names[|names| - 1];
      ProductWithoutExclusion(y, species, init);
      assert name in species;
    }
  }

  /** Leaving a species out removes exactly one of its factors: when it is listed, the
      exclusion is used up and the product times its abundance is the plain product;
      when it is not listed, the product is the plain product and the exclusion stays. */
  lemma {:induction false} ProductExcludesOnce(y: map<string, real>, species: set<string>, names: seq<string>, x: string)
    requires forall i | 0 <= i < |names| :: names[i] in species
    ensures Pending(species, names, Some(x)) == None <==> x in names
    ensures x in names ==> ProductExcluding(y, species, names, Some(x)) * Libnucnet.Lookup(y, x) == AbundanceProduct(y, names)
    ensures x !in names ==> ProductExcluding(y, species, names, Some(x)) == AbundanceProduct(y, names)
  {
    PendingUntilListed(species, names, x);
    if x in names {
      ProductSkipsListed(y, species, names, x);
    } else {
      ProductSkipsNothing(y, species, names, x);
    }
  }

  /** The exclusion is used up exactly when the species is listed. */
  lemma {:induction false} PendingUntilListed(species: set<string>, names: seq<string>, x: string)
    requires forall i | 0 <= i < |names| :: names[i] in species
    ensures Pending(species, names, Some(x)) == None <==> x in names
  {
    if |names| > 0 {
      var init, name := names[..|names| - 1], names[|names| - 1];
      assert names == init + [name];
      PendingUntilListed(species, init, x);
      assert name in species;
    }
  }

  /** A species that is not listed leaves the product whole. */
  lemma {:induction false} ProductSkipsNothing(y: map<string, real>, species: set<string>, names: seq<string>, x: string)
    requires forall i | 0 <= i < |names| :: names[i] in species
    requires x !in names
    ensures ProductExcluding(y, species, names, Some(x)) == AbundanceProduct(y, names)
  {
    if |names| > 0 {
      var init, name := names[..|names| - 1], names[|names| - 1];
      assert names == init + [name];
      ProductSkipsNothing(y, species, init, x);
      PendingUntilListed(species, init, x);
      assert name in species && name != x;
    }
  }

  /** A listed species loses exactly one factor. */
  lemma {:induction false} ProductSkipsListed(y: map<string, real>, species: set<string>, names: seq<string>, x: string)
    requires forall i | 0 <= i < |names| :: names[i] in species
    requires x in names
    ensures ProductExcluding(y, species, names, Some(x)) * Libnucnet.Lookup(y, x) == AbundanceProduct(y, names)
  {
    var init, name := names[..|names| - 1], names[|names| - 1];
    assert names == init + [name];
    PendingUntilListed(species, init, x);
    assert name in species;
    if x in init {
      ProductSkipsListed(y, species, init, x);
      SwapFactors(ProductExcluding(y, species, init, Some(x)), Libnucnet.Lookup(y, name), Libnucnet.Lookup(y, x));
    } else {
      ProductSkipsNothing(y, species, init, x);
    }
  }

  /** a·b·c = a·c·b. */
  lemma SwapFactors(a: real, b: real, c: real)
    ensures a * b * c == a * c * b
  {
  }

  /** The product loop: starts at 1 and walks the element list once. */
  method ComputeAbundanceProduct(y: map<string, real>, species: set<string>, names: seq<string>,
                                 exclude: Option<string>) returns (p: real)
    requires exclude.Some? ==> forall i | 0 <= i < |names| :: names[i] in species
    ensures p == ProductExcluding(y, species, names, exclude)
  {
    p := 1.0;
    var skip := exclude;
    var i := 0;
    while i < |names|
      invariant 0 <= i <= |names|
      invariant p == ProductExcluding(y, species, names[..i], exclude)
      invariant skip == Pending(species, names[..i], exclude)
    {
      assert names[..i + 1][..i] == names[..i] && names[..i + 1][i] == names[i];
      if Resolve(species, names[i]) != skip {
        p := p * Libnucnet.Lookup(y, names[i]);
      } else {
        skip := None;
      }
      i := i + 1;
    }
    assert names[..|names|] == names;
  }

  // ---------------------------------------------------------------------------
  // The flows of one reaction (compute_flows_for_reaction).
  // ---------------------------------------------------------------------------

  /** The forward and the reverse flow of a reaction. */
  datatype Flows = Flows(forward: real, reverse: real)

  /** x to a natural power. */
  function Power(x: real, k: nat): real
  {
    if k == 0 then 1.0 else Power(x, k - 1) * x
  }

  /** ρ^(n−1) for a side of n nuclides: 1/ρ for a side without nuclides. */
  function DensityFactor(rho: real, n: nat): real
    requires n == 0 ==> rho != 0.0
  {
    if n == 0 then 1.0 / rho else Power(rho, n - 1)
  }

  /** A reaction whose sides are lists of species, with duplicate factors (never 0) and a
      density that is not 0 where a side without nuclides divides by it. */
  predicate FlowsDefined(species: set<string>, reactants: seq<string>, products: seq<string>,
                         reactantFactor: nat, productFactor: nat, rho: real)
  {
    && (forall i | 0 <= i < |reactants| :: reactants[i] in species)
    && (forall i | 0 <= i < |products| :: products[i] in species)
    && reactantFactor >= 1 && productFactor >= 1
    && ((|reactants| == 0 || |products| == 0) ==> rho != 0.0)
  }

  /** The flow through one side of n nuclides: the rate times ρ^(n−1), times the
      product of the side's abundances, over the side's duplicate factor. */
  function SideFlow(species: set<string>, y: map<string, real>, rho: real, names: seq<string>,
                    factor: nat, rate: real): real
    requires factor >= 1 && (|names| == 0 ==> rho != 0.0)
  {
    rate * DensityFactor(rho, |names|) * ProductExcluding(y, species, names, None) / (factor as real)
  }

  /** The flows of a reaction with rates (forward, reverse) in a zone of density rho and
      abundances y: the forward flow through the reactants, the reverse flow through the
      products. */
  function ReactionFlows(species: set<string>, y: map<string, real>, rho: real,
                         reactants: seq<string>, products: seq<string>,
                         reactantFactor: nat, productFactor: nat,
                         forwardRate: real, reverseRate: real): Flows
    requires FlowsDefined(species, reactants, products, reactantFactor, productFactor, rho)
  {
    Flows(SideFlow(species, y, rho, reactants, reactantFactor, forwardRate),
          SideFlow(species, y, rho, products, productFactor, reverseRate))
  }

  /** A species that is absent from the zone (abundance 0) stops every reaction it is a
      reactant of: the forward flow is 0. */
  lemma ReactantAbsentStopsForwardFlow(species: set<string>, y: map<string, real>, rho: real,
                                        reactants: seq<string>, products: seq<string>,
                                        reactantFactor: nat, productFactor: nat,
                                        forwardRate: real, reverseRate: real, x: string)
    requires FlowsDefined(species, reactants, products, reactantFactor, productFactor, rho)
    requires x in reactants && Libnucnet.Lookup(y, x) == 0.0
    ensures ReactionFlows(species, y, rho, reactants, products, reactantFactor, productFactor,
                          forwardRate, reverseRate).forward == 0.0
  {
    ProductWithoutExclusion(y, species, reactants);
    ProductHasZeroFactor(y, reactants, x);
  }

  /** A product with a zero factor is 0. */
  lemma {:induction false} ProductHasZeroFactor(y: map<string, real>, names: seq<string>, x: string)
    requires x in names && Libnucnet.Lookup(y, x) == 0.0
    ensures AbundanceProduct(y, names) == 0.0
  {
    var init := names[..|names| - 1];
    assert names == init + [names[|names| - 1]];
    if x in init {
      ProductHasZeroFactor(y, init, x);
    }
  }

  /** Non-negative rates, density and abundances give non-negative flows. */
  lemma FlowsNonNegative(species: set<string>, y: map<string, real>, rho: real,
                         reactants: seq<string>, products: seq<string>,
                         reactantFactor: nat, productFactor: nat,
                         forwardRate: real, reverseRate: real)
    requires FlowsDefined(species, reactants, products, reactantFactor, productFactor, rho)
    requires forwardRate >= 0.0 && reverseRate >= 0.0 && rho >= 0.0
    requires forall name | name in y :: y[name] >= 0.0
    ensures var fl := ReactionFlows(species, y, rho, reactants, products, reactantFactor, productFactor,
                                    forwardRate, reverseRate);
            fl.forward >= 0.0 && fl.reverse >= 0.0
  {
    SideFlowNonNegative(species, y, rho, reactants, reactantFactor, forwardRate);
    SideFlowNonNegative(species, y, rho, products, productFactor, reverseRate);
  }

  lemma SideFlowNonNegative(species: set<string>, y: map<string, real>, rho: real, names: seq<string>,
                            factor: nat, rate: real)
    requires factor >= 1 && (|names| == 0 ==> rho != 0.0)
    requires forall i | 0 <= i < |names| :: names[i] in species
    requires rate >= 0.0 && rho >= 0.0
    requires forall name | name in y :: y[name] >= 0.0
    ensures SideFlow(species, y, rho, names, factor, rate) >= 0.0
  {
    ProductWithoutExclusion(y, species, names);
    ProductNonNegative(y, names);
    PowerNonNegative(rho, |names|);
    NonNegativeFlow(rate, DensityFactor(rho, |names|), ProductExcluding(y, species, names, None), factor);
  }

  lemma NonNegativeFlow(rate: real, density: real, product: real, factor: nat)
    requires rate >= 0.0 && density >= 0.0 && product >= 0.0 && factor >= 1
    ensures rate * density * product / (factor as real) >= 0.0
  {
    assert rate * density >= 0.0;
    assert rate * density * product >= 0.0;
  }

  lemma {:induction false} ProductNonNegative(y: map<string, real>, names: seq<string>)
    requires forall name | name in y :: y[name] >= 0.0
    ensures AbundanceProduct(y, names) >= 0.0
  {
    if |names| > 0 {
      ProductNonNegative(y, names[..|names| - 1]);
    }
  }

  lemma PowerNonNegative(rho: real, n: nat)
    requires n == 0 ==> rho != 0.0
    requires rho >= 0.0
    ensures DensityFactor(rho, n) >= 0.0
  {
    if n > 0 {
      PowerOfNonNegative(rho, n - 1);
    }
  }

  lemma {:induction false} PowerOfNonNegative(x: real, k: nat)
    requires x >= 0.0
    ensures Power(x, k) >= 0.0
  {
    if k > 0 {
      PowerOfNonNegative(x, k - 1);
    }
  }

  /** compute_flows_for_reaction on a reaction of the network: the rates are given, the
      abundance products come from the product loop. */
  method ComputeFlowsForReaction(zone: Libnucnet.Zone, species: set<string>, rho: real,
                                 reaction: Reac.Reaction, forwardRate: real, reverseRate: real)
    returns (fl: Flows)
    requires FlowsDefined(species, reaction.reactants, reaction.products,
                          reaction.duplicateReactantFactor, reaction.duplicateProductFactor, rho)
    ensures fl == ReactionFlows(species, zone.abundances, rho, reaction.reactants, reaction.products,
                                reaction.duplicateReactantFactor, reaction.duplicateProductFactor,
                                forwardRate, reverseRate)
  {
    var pr := ComputeAbundanceProduct(zone.abundances, species, reaction.reactants, None);
    var pp := ComputeAbundanceProduct(zone.abundances, species, reaction.products, None);
    fl := Flows(forwardRate * DensityFactor(rho, |reaction.reactants|) * pr
                  / (reaction.duplicateReactantFactor as real),
                reverseRate * DensityFactor(rho, |reaction.products|) * pp
                  / (reaction.duplicateProductFactor as real));
  }

  // ---------------------------------------------------------------------------
  // The flow vectors (compute_forward_flow_vector, compute_reverse_flow_vector,
  // compute_flow_vector) and their totals (compute_total_flow).
  // ---------------------------------------------------------------------------

  /** The species indices of a reaction's nuclide reactants and products. */
  datatype Participants = Participants(reactants: seq<nat>, products: seq<nat>)

  /** Every index is that of a species of a network of n species. */
  predicate AllIn(ps: seq<Participants>, n: nat)
  {
    forall k | 0 <= k < |ps| :: InRange(ps[k].reactants, n) && InRange(ps[k].products, n)
  }

  /** The forward flow vector: every reaction adds its forward flow at each of its
      reactants. */
  function ForwardFlowVector(n: nat, ps: seq<Participants>, fls: seq<Flows>): (v: seq<real>)
    requires AllIn(ps, n) && |fls| == |ps|
    ensures |v| == n
  {
    if |ps| == 0 then Zeros(n)
    else
      var k := |ps| - 1;
      Shifted(ForwardFlowVector(n, ps[..k], fls[..k]), ps[k].reactants, fls[k].forward)
  }

  /** The reverse flow vector: every reaction adds its reverse flow at each of its
      products. */
  function ReverseFlowVector(n: nat, ps: seq<Participants>, fls: seq<Flows>): (v: seq<real>)
    requires AllIn(ps, n) && |fls| == |ps|
    ensures |v| == n
  {
    if |ps| == 0 then Zeros(n)
    else
      var k := |ps| - 1;
      Shifted(ReverseFlowVector(n, ps[..k], fls[..k]), ps[k].products, fls[k].reverse)
  }

  /** The net flow vector: every reaction adds forward minus reverse at each reactant
      and reverse minus forward at each product. */
  function NetFlowVector(n: nat, ps: seq<Participants>, fls: seq<Flows>): (v: seq<real>)
    requires AllIn(ps, n) && |fls| == |ps|
    ensures |v| == n
  {
    if |ps| == 0 then Zeros(n)
    else
      var k := |ps| - 1;
      var f, r := fls[k].forward, fls[k].reverse;
      Shifted(Shifted(NetFlowVector(n, ps[..k], fls[..k]), ps[k].reactants, f - r), ps[k].products, r - f)
  }

  /** x counted k times: k·x. */
  function Repeated(k: nat, x: real): (r: real)
  {
    if k == 0 then 0.0 else Repeated(k - 1, x) + x
  }

  /** Counting k times is multiplying by k. */
  lemma {:induction false} RepeatedIsProduct(k: nat, x: real)
    ensures Repeated(k, x) == (k as real) * x
  {
    if k > 0 {
      RepeatedIsProduct(k - 1, x);
    }
  }

  /** Adding x at every index of idx adds x once per index to the sum. */
  lemma {:induction false} SumShiftedRepeated(v: seq<real>, idx: seq<nat>, x: real)
    requires InRange(idx, |v|)
    ensures Sum(Shifted(v, idx, x)) == Sum(v) + Repeated(|idx|, x)
  {
    if |idx| > 0 {
      var k := |idx| - 1;
      SumShiftedRepeated(v, idx[..k], x);
      SumPointUpdate(Shifted(v, idx[..k], x), idx[k], x);
    }
  }

  /** Σ over the reactions of the forward flow counted once per reactant. */
  function ForwardTotal(ps: seq<Participants>, fls: seq<Flows>): real
    requires |fls| == |ps|
  {
    if |ps| == 0 then 0.0
    else
      var k := |ps| - 1;
      ForwardTotal(ps[..k], fls[..k]) + Repeated(|ps[k].reactants|, fls[k].forward)
  }

  /** Σ over the reactions of the reverse flow counted once per product. */
  function ReverseTotal(ps: seq<Participants>, fls: seq<Flows>): real
    requires |fls| == |ps|
  {
    if |ps| == 0 then 0.0
    else
      var k := |ps| - 1;
      ReverseTotal(ps[..k], fls[..k]) + Repeated(|ps[k].products|, fls[k].reverse)
  }

  /** Σ over the reactions of forward minus reverse flow counted once per reactant and
      reverse minus forward flow counted once per product. */
  function NetTotal(ps: seq<Participants>, fls: seq<Flows>): real
    requires |fls| == |ps|
  {
    if |ps| == 0 then 0.0
    else
      var k := |ps| - 1;
      var f, r := fls[k].forward, fls[k].reverse;
      NetTotal(ps[..k], fls[..k]) + Repeated(|ps[k].reactants|, f - r) + Repeated(|ps[k].products|, r - f)
  }

  /** The entries of the forward flow vector add up to each forward flow counted once per
      reactant. */
  lemma {:induction false} ForwardFlowSum(n: nat, ps: seq<Participants>, fls: seq<Flows>)
    requires AllIn(ps, n) && |fls| == |ps|
    ensures Sum(ForwardFlowVector(n, ps, fls)) == ForwardTotal(ps, fls)
  {
    if |ps| == 0 {
      SumZeros(n);
    } else {
      var k := |ps| - 1;
      assert AllIn(ps[..k], n);
      ForwardFlowSum(n, ps[..k], fls[..k]);
      SumShiftedRepeated(ForwardFlowVector(n, ps[..k], fls[..k]), ps[k].reactants, fls[k].forward);
    }
  }

  /** The entries of the reverse flow vector add up to each reverse flow counted once per
      product. */
  lemma {:induction false} ReverseFlowSum(n: nat, ps: seq<Participants>, fls: seq<Flows>)
    requires AllIn(ps, n) && |fls| == |ps|
    ensures Sum(ReverseFlowVector(n, ps, fls)) == ReverseTotal(ps, fls)
  {
    if |ps| == 0 {
      SumZeros(n);
    } else {
      var k := |ps| - 1;
      assert AllIn(ps[..k], n);
      ReverseFlowSum(n, ps[..k], fls[..k]);
      SumShiftedRepeated(ReverseFlowVector(n, ps[..k], fls[..k]), ps[k].products, fls[k].reverse);
    }
  }

  /** The entries of the net flow vector add up to each net flow counted once per
      reactant, less once per product. */
  lemma {:induction false} NetFlowSum(n: nat, ps: seq<Participants>, fls: seq<Flows>)
    requires AllIn(ps, n) && |fls| == |ps|
    ensures Sum(NetFlowVector(n, ps, fls)) == NetTotal(ps, fls)
  {
    if |ps| == 0 {
      SumZeros(n);
    } else {
      var k := |ps| - 1;
      var f, r := fls[k].forward, fls[k].reverse;
      var prev := NetFlowVector(n, ps[..k], fls[..k]);
      assert AllIn(ps[..k], n);
      NetFlowSum(n, ps[..k], fls[..k]);
      SumShiftedRepeated(prev, ps[k].reactants, f - r);
      SumShiftedRepeated(Shifted(prev, ps[k].reactants, f - r), ps[k].products, r - f);
    }
  }

  /** A network whose every reaction keeps the number of nuclides (as many reactants as
      products) has net flows that add up to 0. */
  lemma NetFlowSumBalanced(n: nat, ps: seq<Participants>, fls: seq<Flows>)
    requires AllIn(ps, n) && |fls| == |ps|
    requires forall k | 0 <= k < |ps| :: |ps[k].reactants| == |ps[k].products|
    ensures Sum(NetFlowVector(n, ps, fls)) == 0.0
  {
    NetFlowSum(n, ps, fls);
    NetTotalBalanced(ps, fls);
  }

  lemma {:induction false} NetTotalBalanced(ps: seq<Participants>, fls: seq<Flows>)
    requires |fls| == |ps|
    requires forall k | 0 <= k < |ps| :: |ps[k].reactants| == |ps[k].products|
    ensures NetTotal(ps, fls) == 0.0
  {
    if |ps| > 0 {
      var k := |ps| - 1;
      NetTotalBalanced(ps[..k], fls[..k]);
      RepeatedOpposite(|ps[k].reactants|, fls[k].forward - fls[k].reverse, fls[k].reverse - fls[k].forward);
    }
  }

  /** A value and its negation counted equally often cancel. */
  lemma {:induction false} RepeatedOpposite(k: nat, x: real, y: real)
    requires y == -x
    ensures Repeated(k, x) + Repeated(k, y) == 0.0
  {
    if k > 0 {
      RepeatedOpposite(k - 1, x, y);
    }
  }

  /** A quantity every reaction carries as much of in as out (with w[i] the mass number
      of species i, say) is unchanged by the net flow vector: Σ w·flow = 0. */
  lemma {:induction false} NetFlowConserves(w: seq<real>, ps: seq<Participants>, fls: seq<Flows>)
    requires AllIn(ps, |w|) && |fls| == |ps|
    requires forall k | 0 <= k < |ps| :: Gather(w, ps[k].reactants) == Gather(w, ps[k].products)
    ensures Dot(w, NetFlowVector(|w|, ps, fls)) == 0.0
  {
    if |ps| == 0 {
      DotZeros(w);
    } else {
      var k := |ps| - 1;
      var f, r := fls[k].forward, fls[k].reverse;
      var prev := NetFlowVector(|w|, ps[..k], fls[..k]);
      assert AllIn(ps[..k], |w|);
      NetFlowConserves(w, ps[..k], fls[..k]);
      assert f - r == -(r - f);
      Transfers.DotTakeGiveBalanced(w, prev, ps[k].reactants, ps[k].products, r - f);
    }
  }

  /** The vector with every entry negated. */
  function Negated(v: seq<real>): (r: seq<real>)
    ensures |r| == |v| && forall i | 0 <= i < |v| :: r[i] == -v[i]
  {
    seq(|v|, i requires 0 <= i < |v| => -v[i])
  }

  /** The reactions as libnucnet's flow terms (only their indices enter the flow). */
  function Terms(ps: seq<Participants>): (ts: seq<NetZone.FlowTerm>)
    ensures |ts| == |ps|
    ensures forall k | 0 <= k < |ps| :: ts[k] == NetZone.FlowTerm(ps[k].reactants, ps[k].products, 1, 1, 0.0, 0.0)
  {
    seq(|ps|, k requires 0 <= k < |ps| => NetZone.FlowTerm(ps[k].reactants, ps[k].products, 1, 1, 0.0, 0.0))
  }

  /** Forward minus reverse flow of each reaction. */
  function Differences(fls: seq<Flows>): (us: seq<real>)
    ensures |us| == |fls| && forall k | 0 <= k < |fls| :: us[k] == fls[k].forward - fls[k].reverse
  {
    seq(|fls|, k requires 0 <= k < |fls| => fls[k].forward - fls[k].reverse)
  }

  lemma {:induction false} NegatedShifted(v: seq<real>, idx: seq<nat>, x: real)
    requires InRange(idx, |v|)
    ensures Negated(Shifted(v, idx, x)) == Shifted(Negated(v), idx, -x)
  {
    if |idx| > 0 {
      NegatedShifted(v, idx[..|idx| - 1], x);
    }
  }

  /** The net flow vector of the flow utilities is the negative of libnucnet's flow
      vector (Libnucnet__Zone__computeFlowVector) with the net flows as the reactions'
      rates: the utilities count a flow positive where it leaves a species, libnucnet
      where it arrives. */
  lemma {:induction false} NetFlowOpposesLibnucnet(n: nat, ps: seq<Participants>, fls: seq<Flows>)
    requires AllIn(ps, n) && |fls| == |ps|
    ensures NetZone.AllFit(Terms(ps), n)
    ensures NetFlowVector(n, ps, fls) == Negated(NetZone.Flow(n, Terms(ps), Differences(fls)))
  {
    TermsFit(n, ps);
    if |ps| == 0 {
      assert Negated(Zeros(n)) == Zeros(n);
    } else {
      var k := |ps| - 1;
      var f, r := fls[k].forward, fls[k].reverse;
      assert AllIn(ps[..k], n);
      NetFlowOpposesLibnucnet(n, ps[..k], fls[..k]);
      LibnucnetFlowStep(n, ps, fls);
      var prev := NetFlowVector(n, ps[..k], fls[..k]);
      assert NetFlowVector(n, ps, fls) == Shifted(Shifted(prev, ps[k].reactants, f - r), ps[k].products, r - f);
      NetStepOpposes(prev, NetZone.Flow(n, Terms(ps[..k]), Differences(fls[..k])), ps[k].reactants, ps[k].products, f, r);
    }
  }

  /** The last reaction's step of libnucnet's flow vector, in the terms of the flow
      utilities. */
  lemma LibnucnetFlowStep(n: nat, ps: seq<Participants>, fls: seq<Flows>)
    requires AllIn(ps, n) && |fls| == |ps| && |ps| > 0
    ensures AllIn(ps[..|ps| - 1], n) && NetZone.AllFit(Terms(ps), n) && NetZone.AllFit(Terms(ps[..|ps| - 1]), n)
    ensures var k := |ps| - 1;
            var u := fls[k].forward - fls[k].reverse;
            NetZone.Flow(n, Terms(ps), Differences(fls))
            == Shifted(Shifted(NetZone.Flow(n, Terms(ps[..k]), Differences(fls[..k])), ps[k].reactants, -u),
                       ps[k].products, u)
  {
    var k := |ps| - 1;
    var ts, us := Terms(ps), Differences(fls);
    assert AllIn(ps[..k], n);
    TermsFit(n, ps);
    TermsFit(n, ps[..k]);
    assert Terms(ps[..k]) == ts[..k];
    assert Differences(fls[..k]) == us[..k];
  }

  lemma TermsFit(n: nat, ps: seq<Participants>)
    requires AllIn(ps, n)
    ensures NetZone.AllFit(Terms(ps), n)
  {
    var ts := Terms(ps);
    forall k | 0 <= k < |ts| ensures NetZone.Fits(ts[k], n) {
    }
  }

  /** One reaction's step of the net flow vector, applied to the negation of libnucnet's
      vector, is the negation of libnucnet's step with the net flow as the rate. */
  lemma NetStepOpposes(prev: seq<real>, lib: seq<real>, reactants: seq<nat>, products: seq<nat>, f: real, r: real)
    requires prev == Negated(lib) && InRange(reactants, |lib|) && InRange(products, |lib|)
    ensures Shifted(Shifted(prev, reactants, f - r), products, r - f)
            == Negated(Shifted(Shifted(lib, reactants, -(f - r)), products, f - r))
  {
    NetStepNegated(lib, reactants, products, f - r);
    assert r - f == -(f - r);
  }

  /** Negating a reaction's step of libnucnet's flow vector is the same step with the
      opposite rate applied to the negated vector. */
  lemma NetStepNegated(v: seq<real>, reactants: seq<nat>, products: seq<nat>, u: real)
    requires InRange(reactants, |v|) && InRange(products, |v|)
    ensures Negated(Shifted(Shifted(v, reactants, -u), products, u))
            == Shifted(Shifted(Negated(v), reactants, u), products, -u)
  {
    NegatedShifted(Shifted(v, reactants, -u), products, u);
    NegatedShifted(v, reactants, -u);
    assert -(-u) == u;
  }

  /** Adds up the entries of a vector, first to last. */
  method SumEntries(v: array<real>) returns (s: real)
    ensures s == Sum(v[..])
  {
    s := 0.0;
    var i := 0;
    while i < v.Length
      invariant 0 <= i <= v.Length
      invariant s == Sum(v[..i])
    {
      assert v[..i + 1][..i] == v[..i];
      s := s + v[i];
      i := i + 1;
    }
    assert v[..v.Length] == v[..];
  }

  /** compute_forward_flow_vector: a zero vector with one entry per species, to which
      every reaction adds its forward flow at each reactant. */
  method ComputeForwardFlowVector(n: nat, ps: seq<Participants>, fls: seq<Flows>) returns (v: array<real>)
    requires AllIn(ps, n) && |fls| == |ps|
    ensures fresh(v) && v[..] == ForwardFlowVector(n, ps, fls)
  {
    v := new real[n](_ => 0.0);
    assert v[..] == Zeros(n);
    var k := 0;
    while k < |ps|
      invariant 0 <= k <= |ps| && v.Length == n
      invariant v[..] == ForwardFlowVector(n, ps[..k], fls[..k])
    {
      assert ps[..k + 1][..k] == ps[..k] && fls[..k + 1][..k] == fls[..k];
      NetZone.AddAt(v, ps[k].reactants, fls[k].forward);
      k := k + 1;
    }
    assert ps[..|ps|] == ps && fls[..|fls|] == fls;
  }

  /** compute_reverse_flow_vector: a zero vector with one entry per species, to which
      every reaction adds its reverse flow at each product. */
  method ComputeReverseFlowVector(n: nat, ps: seq<Participants>, fls: seq<Flows>) returns (v: array<real>)
    requires AllIn(ps, n) && |fls| == |ps|
    ensures fresh(v) && v[..] == ReverseFlowVector(n, ps, fls)
  {
    v := new real[n](_ => 0.0);
    assert v[..] == Zeros(n);
    var k := 0;
    while k < |ps|
      invariant 0 <= k <= |ps| && v.Length == n
      invariant v[..] == ReverseFlowVector(n, ps[..k], fls[..k])
    {
      assert ps[..k + 1][..k] == ps[..k] && fls[..k + 1][..k] == fls[..k];
      NetZone.AddAt(v, ps[k].products, fls[k].reverse);
      k := k + 1;
    }
    assert ps[..|ps|] == ps && fls[..|fls|] == fls;
  }

  /** compute_flow_vector: a zero vector with one entry per species; every reaction adds
      forward minus reverse flow at each reactant, then reverse minus forward at each
      product. */
  method ComputeNetFlowVector(n: nat, ps: seq<Participants>, fls: seq<Flows>) returns (v: array<real>)
    requires AllIn(ps, n) && |fls| == |ps|
    ensures fresh(v) && v[..] == NetFlowVector(n, ps, fls)
  {
    v := new real[n](_ => 0.0);
    assert v[..] == Zeros(n);
    var k := 0;
    while k < |ps|
      invariant 0 <= k <= |ps| && v.Length == n
      invariant v[..] == NetFlowVector(n, ps[..k], fls[..k])
    {
      assert ps[..k + 1][..k] == ps[..k] && fls[..k + 1][..k] == fls[..k];
      NetZone.AddAt(v, ps[k].reactants, fls[k].forward - fls[k].reverse);
      NetZone.AddAt(v, ps[k].products, fls[k].reverse - fls[k].forward);
      k := k + 1;
    }
    assert ps[..|ps|] == ps && fls[..|fls|] == fls;
  }

  /** The names of the three kinds of flow. */
  const ForwardKind := "forward"
  const ReverseKind := "reverse"
  const NetKind := "net"

  /** compute_total_flow: the sum of the entries of the chosen flow vector; any other kind
      of flow is an error. */
  method ComputeTotalFlow(kind: string, n: nat, ps: seq<Participants>, fls: seq<Flows>) returns (r: Result<real>)
    requires AllIn(ps, n) && |fls| == |ps|
    ensures r.Failure? <==> kind != ForwardKind && kind != ReverseKind && kind != NetKind
    ensures kind == ForwardKind ==> r == Success(ForwardTotal(ps, fls))
    ensures kind == ReverseKind ==> r == Success(ReverseTotal(ps, fls))
    ensures kind == NetKind ==> r == Success(NetTotal(ps, fls))
  {
    var v: array<real>;
    if kind == ForwardKind {
      v := ComputeForwardFlowVector(n, ps, fls);
      ForwardFlowSum(n, ps, fls);
    } else if kind == ReverseKind {
      v := ComputeReverseFlowVector(n, ps, fls);
      ReverseFlowSum(n, ps, fls);
    } else if kind == NetKind {
      v := ComputeNetFlowVector(n, ps, fls);
      NetFlowSum(n, ps, fls);
    } else {
      return Failure("No such flow type in compute_total_flow.");
    }
    var s := SumEntries(v);
    r := Success(s);
  }

  // ---------------------------------------------------------------------------
  // Flow currents (update_flow_currents).
  // ---------------------------------------------------------------------------

  /** The flow currents after adding, reaction by reaction, (forward − reverse)·dt to the
      current of the reaction's string: an existing current grows, a missing one is
      created. */
  function Accumulated(m: map<string, real>, names: seq<string>, fls: seq<Flows>, dt: real): map<string, real>
    requires |fls| == |names|
  {
    if |names| == 0 then m
    else
      var k := |names| - 1;
      var prev := Accumulated(m, names[..k], fls[..k], dt);
      var d := Increment(fls[k], dt);
      if names[k] in prev then prev[names[k] := prev[names[k]] + d] else prev[names[k] := d]
  }

  /** The current all reactions with string s add over the step. */
  function CurrentIncrement(names: seq<string>, fls: seq<Flows>, dt: real, s: string): real
    requires |fls| == |names|
  {
    if |names| == 0 then 0.0
    else
      var k := |names| - 1;
      CurrentIncrement(names[..k], fls[..k], dt, s)
        + (if names[k] == s then Increment(fls[k], dt) else 0.0)
  }

  /** A reaction's current over a step: its net flow times the step. */
  function Increment(fl: Flows, dt: real): real
  {
    (fl.forward - fl.reverse) * dt
  }

  /** After the update a string has a current exactly when it had one or names a
      reaction, and its current is the old one (0 if none) plus its reactions' net flows
      times the step; the currents of other strings are untouched. */
  lemma {:induction false} AccumulatedCurrent(m: map<string, real>, names: seq<string>, fls: seq<Flows>,
                                              dt: real, s: string)
    requires |fls| == |names|
    ensures s in Accumulated(m, names, fls, dt) <==> s in m || s in names
    ensures Libnucnet.Lookup(Accumulated(m, names, fls, dt), s)
            == Libnucnet.Lookup(m, s) + CurrentIncrement(names, fls, dt, s)
    ensures s !in names ==> CurrentIncrement(names, fls, dt, s) == 0.0
  {
    if |names| > 0 {
      var k := |names| - 1;
      assert names == names[..k] + [names[k]];
      AccumulatedCurrent(m, names[..k], fls[..k], dt, s);
    }
  }

  /** Reaction strings are distinct in a network, so each reaction's current grows by its
      own net flow times the step. */
  lemma {:induction false} CurrentIncrementOfDistinct(names: seq<string>, fls: seq<Flows>, dt: real, j: nat)
    requires |fls| == |names| && Distinct(names) && j < |names|
    ensures CurrentIncrement(names, fls, dt, names[j]) == Increment(fls[j], dt)
  {
    var k := |names| - 1;
    assert Distinct(names[..k]);
    if j < k {
      CurrentIncrementOfDistinct(names[..k], fls[..k], dt, j);
    } else {
      var m: map<string, real> := map[];
      AccumulatedCurrent(m, names[..k], fls[..k], dt, names[j]);
      assert names[j] !in names[..k];
    }
  }

  /** The loop of update_flow_currents on the table of currents. */
  method AccumulateCurrents(m: map<string, real>, names: seq<string>, fls: seq<Flows>, dt: real)
    returns (m': map<string, real>)
    requires |fls| == |names|
    ensures m' == Accumulated(m, names, fls, dt)
  {
    m' := m;
    var k := 0;
    while k < |names|
      invariant 0 <= k <= |names|
      invariant m' == Accumulated(m, names[..k], fls[..k], dt)
    {
      assert names[..k + 1][..k] == names[..k] && fls[..k + 1][..k] == fls[..k];
      assert names[..k + 1][k] == names[k] && fls[..k + 1][k] == fls[k];
      var d := Increment(fls[k], dt);
      if names[k] in m' {
        m' := m'[names[k] := m'[names[k]] + d];
      } else {
        m' := m'[names[k] := d];
      }
      k := k + 1;
    }
    assert names[..|names|] == names && fls[..|fls|] == fls;
  }

  /** The zone that keeps the flow currents: a current per reaction string. */
  class FlowCurrentZone {
    var currents: map<string, real>

    constructor()
      ensures currents == map[]
    {
      currents := map[];
    }

    /** update_flow_currents: the reactions' strings and flows over a step dt are given
        in the order of the reaction list. */
    method UpdateFlowCurrents(names: seq<string>, fls: seq<Flows>, dt: real)
      requires |fls| == |names|
      modifies this`currents
      ensures currents == Accumulated(old(currents), names, fls, dt)
    {
      currents := AccumulateCurrents(currents, names, fls, dt);
    }
  }
}
