// Reaction-level computations of a libnucnet network
// (vendor/libnucnet/0.28/src/Libnucnet.c): the validity and conservation
// checks, the Q value and the reverse rate.
//
// The species of the network are given as the species map of the nuclear
// collection; the NSE factors, the logarithm of the density and the
// exponential are parameters.

module NetReactions {
  import opened Common
  import opened Reac
  import Nuc

  // ---------------------------------------------------------------------------
  // Conserved quantities.
  // ---------------------------------------------------------------------------

  datatype Quantity = Baryon | Charge | ElectronLepton | MuLepton | TauLepton

  /** What one element carries of a quantity.  A nuclide carries its A (baryon number)
      and its Z (charge); the charged leptons carry their charge; the leptons and
      neutrinos carry their lepton numbers. */
  function Weight(q: Quantity, species: map<string, Nuc.Species>, name: string): int
  {
    match q
    case Baryon => if name in species then species[name].a else 0
    case Charge =>
      if IsNuclide(name) then (if name in species then species[name].z else 0)
      else if name == Electron || name == Mu || name == Tau then -1
      else if name == Positron || name == AntiMu || name == AntiTau then 1
      else 0
    case ElectronLepton =>
      if name == ElectronNeutrino || name == Electron then 1
      else if name == ElectronAntineutrino || name == Positron then -1
      else 0
    case MuLepton =>
      if name == MuNeutrino || name == Mu then 1
      else if name == MuAntineutrino || name == AntiMu then -1
      else 0
    case TauLepton =>
      if name == TauNeutrino || name == Tau then 1
      else if name == TauAntineutrino || name == AntiTau then -1
      else 0
  }

  /** What a list of elements carries in all. */
  function Total(q: Quantity, species: map<string, Nuc.Species>, names: seq<string>): int
  {
    if names == [] then 0 else Total(q, species, names[..|names| - 1]) + Weight(q, species, names[|names| - 1])
  }

  /** The change of a quantity across a reaction, products minus reactants, over the
      lists its check walks: the nuclide lists for baryon number, all four lists for
      charge and the other lists for the lepton numbers. */
  function Change(q: Quantity, species: map<string, Nuc.Species>, reactants: seq<string>,
                  otherReactants: seq<string>, products: seq<string>, otherProducts: seq<string>): int
  {
    match q
    case Baryon => Total(q, species, products) - Total(q, species, reactants)
    case Charge => Total(q, species, products + otherProducts) - Total(q, species, reactants + otherReactants)
    case _ => Total(q, species, otherProducts) - Total(q, species, otherReactants)
  }

  /** Every quantity is conserved. */
  predicate Balanced(species: map<string, Nuc.Species>, reactants: seq<string>,
                     otherReactants: seq<string>, products: seq<string>, otherProducts: seq<string>)
  {
    && Change(Quantity.Baryon, species, reactants, otherReactants, products, otherProducts) == 0
    && Change(Quantity.Charge, species, reactants, otherReactants, products, otherProducts) == 0
    && Change(Quantity.ElectronLepton, species, reactants, otherReactants, products, otherProducts) == 0
    && Change(Quantity.MuLepton, species, reactants, otherReactants, products, otherProducts) == 0
    && Change(Quantity.TauLepton, species, reactants, otherReactants, products, otherProducts) == 0
  }

  lemma {:induction false} TotalAppend(q: Quantity, species: map<string, Nuc.Species>, a: seq<string>, b: seq<string>)
    ensures Total(q, species, a + b) == Total(q, species, a) + Total(q, species, b)
    decreases |b|
  {
    if b != [] {
      assert (a + b)[..|a + b| - 1] == a + b[..|b| - 1];
      TotalAppend(q, species, a, b[..|b| - 1]);
    } else {
      assert a + b == a;
    }
  }

  /** Removing one element takes its weight off the total. */
  lemma {:induction false} TotalRemove(q: Quantity, species: map<string, Nuc.Species>, s: seq<string>, j: nat)
    requires j < |s|
    ensures Total(q, species, s) == Total(q, species, s[..j] + s[j + 1..]) + Weight(q, species, s[j])
  {
    assert s == s[..j] + [s[j]] + s[j + 1..];
    TotalAppend(q, species, s[..j] + [s[j]], s[j + 1..]);
    TotalAppend(q, species, s[..j], [s[j]]);
    TotalAppend(q, species, s[..j], s[j + 1..]);
    assert ([] + [s[j]])[..0] == [];
    assert [s[j]][..0] == [];
  }

  /** The totals do not depend on the order of the lists, so neither do the checks. */
  lemma {:induction false} TotalOrderFree(q: Quantity, species: map<string, Nuc.Species>, s: seq<string>, t: seq<string>)
    requires multiset(s) == multiset(t)
    ensures Total(q, species, s) == Total(q, species, t)
    decreases |s|
  {
    if s != [] {
      var x := s[|s| - 1];
      assert x in multiset(t);
      var j :| 0 <= j < |t| && t[j] == x;
      var t' := t[..j] + t[j + 1..];
      MultisetRemoveMatching(s, t, j);
      TotalOrderFree(q, species, s[..|s| - 1], t');
      TotalRemove(q, species, t, j);
    }
  }

  /** A reaction read backwards changes every quantity by the opposite amount, so it is
      balanced exactly when the reaction is. */
  lemma ReverseBalanced(species: map<string, Nuc.Species>, reactants: seq<string>,
                        otherReactants: seq<string>, products: seq<string>, otherProducts: seq<string>)
    ensures forall q: Quantity :: Change(q, species, products, otherProducts, reactants, otherReactants)
                                  == -Change(q, species, reactants, otherReactants, products, otherProducts)
    ensures Balanced(species, products, otherProducts, reactants, otherReactants)
        <==> Balanced(species, reactants, otherReactants, products, otherProducts)
  {
  }

  // ---------------------------------------------------------------------------
  // The walkers.
  // ---------------------------------------------------------------------------

  /** A walker adding each element's weight to a running total. */
  method AddWeights(q: Quantity, species: map<string, Nuc.Species>, names: seq<string>, acc: int)
    returns (acc': int)
    ensures acc' == acc + Total(q, species, names)
  {
    acc' := acc;
    var i := 0;
    while i < |names|
      invariant 0 <= i <= |names|
      invariant acc' == acc + Total(q, species, names[..i])
    {
      assert names[..i + 1][..i] == names[..i];
      acc' := acc' + Weight(q, species, names[i]);
      i := i + 1;
    }
    assert names[..|names|] == names;
  }

  /** The checkReactionFor*Conservation walks: the reactant lists are walked, the total
      negated, and the product lists walked onto it. */
  method ComputeChange(q: Quantity, species: map<string, Nuc.Species>, r: Reaction) returns (change: int)
    ensures change == Change(q, species, r.reactants, r.otherReactants, r.products, r.otherProducts)
  {
    change := 0;
    if q != Quantity.ElectronLepton && q != Quantity.MuLepton && q != Quantity.TauLepton {
      change := AddWeights(q, species, r.reactants, change);
    }
    if q != Quantity.Baryon {
      change := AddWeights(q, species, r.otherReactants, change);
    }
    change := -change;
    if q != Quantity.ElectronLepton && q != Quantity.MuLepton && q != Quantity.TauLepton {
      change := AddWeights(q, species, r.products, change);
    }
    if q != Quantity.Baryon {
      change := AddWeights(q, species, r.otherProducts, change);
    }
    if q == Quantity.Charge {
      TotalAppend(q, species, r.reactants, r.otherReactants);
      TotalAppend(q, species, r.products, r.otherProducts);
    }
  }

  /** Every element of the list is a species of the network. */
  predicate Known(species: map<string, Nuc.Species>, names: seq<string>)
  {
    forall i | 0 <= i < |names| :: names[i] in species
  }

  /** Libnucnet__Net__isValidReactionWalker over one list: stops at the first element
      that is not a species of the network. */
  method AllKnown(species: map<string, Nuc.Species>, names: seq<string>) returns (known: bool)
    ensures known <==> Known(species, names)
  {
    var i := 0;
    while i < |names|
      invariant 0 <= i <= |names|
      invariant Known(species, names[..i])
    {
      if names[i] !in species {
        return false;
      }
      i := i + 1;
    }
    assert names[..i] == names;
    return true;
  }

  /** The messages of the fatal conservation errors, in the order the checks run. */
  function Violation(species: map<string, Nuc.Species>, reactants: seq<string>,
                     otherReactants: seq<string>, products: seq<string>, otherProducts: seq<string>): string
  {
    if Change(Quantity.Baryon, species, reactants, otherReactants, products, otherProducts) != 0 then "Baryon number not conserved"
    else if Change(Quantity.Charge, species, reactants, otherReactants, products, otherProducts) != 0 then "Charge not conserved"
    else if Change(Quantity.ElectronLepton, species, reactants, otherReactants, products, otherProducts) != 0 then "Electron lepton number not conserved"
    else if Change(Quantity.MuLepton, species, reactants, otherReactants, products, otherProducts) != 0 then "Muon lepton number not conserved"
    else "Tauon lepton number not conserved"
  }

  /** Libnucnet__Net__isValidReaction: false when a nuclide reactant or product is not
      in the network; otherwise true when every quantity is conserved, and the fatal
      error of the first check that fails when one is not. */
  method IsValidReaction(species: map<string, Nuc.Species>, r: Reaction) returns (result: Result<bool>)
    ensures result == Success(false) <==> !(Known(species, r.reactants) && Known(species, r.products))
    ensures result == Success(true) <==>
      Known(species, r.reactants) && Known(species, r.products)
      && Balanced(species, r.reactants, r.otherReactants, r.products, r.otherProducts)
    ensures result.Failure? ==>
      && Known(species, r.reactants) && Known(species, r.products)
      && !Balanced(species, r.reactants, r.otherReactants, r.products, r.otherProducts)
      && result.error == Violation(species, r.reactants, r.otherReactants, r.products, r.otherProducts)
  {
    var known := AllKnown(species, r.reactants);
    if !known {
      return Success(false);
    }
    known := AllKnown(species, r.products);
    if !known {
      return Success(false);
    }
    var baryon := ComputeChange(Quantity.Baryon, species, r);
    if baryon != 0 {
      return Failure("Baryon number not conserved");
    }
    var charge := ComputeChange(Quantity.Charge, species, r);
    if charge != 0 {
      return Failure("Charge not conserved");
    }
    var electron := ComputeChange(Quantity.ElectronLepton, species, r);
    var mu := ComputeChange(Quantity.MuLepton, species, r);
    var tau := ComputeChange(Quantity.TauLepton, species, r);
    if electron != 0 {
      return Failure("Electron lepton number not conserved");
    }
    if mu != 0 {
      return Failure("Muon lepton number not conserved");
    }
    if tau != 0 {
      return Failure("Tauon lepton number not conserved");
    }
    return Success(true);
  }

  // ---------------------------------------------------------------------------
  // Q value.
  // ---------------------------------------------------------------------------

  /** The summed mass excesses of a list of species. */
  function MassExcessTotal(species: map<string, Nuc.Species>, names: seq<string>): real
  {
    if names == [] then 0.0
    else
      var x := names[|names| - 1];
      MassExcessTotal(species, names[..|names| - 1]) + (if x in species then species[x].massExcess else 0.0)
  }

  /** The Q value of a reaction: the mass excesses of the reactants less those of the
      products, less two electron masses for a beta-plus decay (neutrino_e and positron
      among the other products) and plus two for a positron capture. */
  function QValue(species: map<string, Nuc.Species>, reactants: seq<string>, otherReactants: seq<string>,
                  products: seq<string>, otherProducts: seq<string>, electronMass: real): real
  {
    MassExcessTotal(species, reactants) - MassExcessTotal(species, products)
    - (if CountNamed(otherProducts, ElectronNeutrino, Positron) == 2 then 2.0 * electronMass else 0.0)
    + (if CountNamed(otherReactants, ElectronAntineutrino, Positron) == 1
          && CountNamed(otherProducts, ElectronAntineutrino, Positron) == 1
       then 2.0 * electronMass else 0.0)
  }

  /** Read backwards, a reaction with no positron or electron neutrino among its other
      elements has the opposite Q value. */
  lemma QValueReversed(species: map<string, Nuc.Species>, reactants: seq<string>, products: seq<string>,
                       otherReactants: seq<string>, otherProducts: seq<string>, electronMass: real)
    requires !(Positron in otherReactants) && !(Positron in otherProducts)
    requires !(ElectronNeutrino in otherProducts) && !(ElectronNeutrino in otherReactants)
    requires !(ElectronAntineutrino in otherReactants) && !(ElectronAntineutrino in otherProducts)
    ensures QValue(species, products, otherProducts, reactants, otherReactants, electronMass)
         == -QValue(species, reactants, otherReactants, products, otherProducts, electronMass)
  {
    CountNamedAbsent(otherReactants, ElectronNeutrino, Positron);
    CountNamedAbsent(otherProducts, ElectronNeutrino, Positron);
    CountNamedAbsent(otherReactants, ElectronAntineutrino, Positron);
    CountNamedAbsent(otherProducts, ElectronAntineutrino, Positron);
  }

  /** A walker subtracting each species' mass excess from a running value. */
  method SubtractMassExcesses(species: map<string, Nuc.Species>, names: seq<string>, acc: real)
    returns (acc': real)
    ensures acc' == acc - MassExcessTotal(species, names)
  {
    acc' := acc;
    var i := 0;
    while i < |names|
      invariant 0 <= i <= |names|
      invariant acc' == acc - MassExcessTotal(species, names[..i])
    {
      assert names[..i + 1][..i] == names[..i];
      acc' := acc' - (if names[i] in species then species[names[i]].massExcess else 0.0);
      i := i + 1;
    }
    assert names[..|names|] == names;
  }

  /** The message of computeReactionQValue's fatal error for a reaction whose nuclides
      are not all in the network. */
  const InvalidReactionMessage := "Invalid reaction"

  /** Libnucnet__Net__computeReactionQValue: the reaction is first checked with
      isValidReaction, whose fatal conservation error, or else "Invalid reaction" for a
      nuclide missing from the network, is the failure; a valid reaction gets its Q
      value. */
  method ComputeReactionQValue(species: map<string, Nuc.Species>, r: Reaction, electronMass: real)
    returns (result: Result<real>)
    ensures !(Known(species, r.reactants) && Known(species, r.products)) ==> result == Failure(InvalidReactionMessage)
    ensures Known(species, r.reactants) && Known(species, r.products)
            && !Balanced(species, r.reactants, r.otherReactants, r.products, r.otherProducts) ==>
              result == Failure(Violation(species, r.reactants, r.otherReactants, r.products, r.otherProducts))
    ensures Known(species, r.reactants) && Known(species, r.products)
            && Balanced(species, r.reactants, r.otherReactants, r.products, r.otherProducts) ==>
              result == Success(QValue(species, r.reactants, r.otherReactants, r.products, r.otherProducts, electronMass))
  {
    var valid := IsValidReaction(species, r);
    if valid.Failure? {
      return Failure(valid.error);
    }
    if !valid.value {
      return Failure(InvalidReactionMessage);
    }
    var qValue := SubtractMassExcesses(species, r.reactants, 0.0);
    qValue := -qValue;
    qValue := SubtractMassExcesses(species, r.products, qValue);
    if r.IsBetaPlus() {
      qValue := qValue - 2.0 * electronMass;
    }
    if r.IsPositronCapture() {
      qValue := qValue + 2.0 * electronMass;
    }
    result := Success(qValue);
  }

  // ---------------------------------------------------------------------------
  // Reverse rate.
  // ---------------------------------------------------------------------------

  /** Above this exponent the forward rate is dropped (D_LARGE). */
  const ReverseExponentCap: real := 115.13

  /** Below this exponent the reverse rate is 0. */
  const ReverseExponentFloor: real := -300.0

  /** The summed NSE factors of a list of species. */
  function NseTotal(names: seq<string>, nse: string -> real): real
  {
    if names == [] then 0.0 else NseTotal(names[..|names| - 1], nse) + nse(names[|names| - 1])
  }

  /** The exponent of the reverse-to-forward ratio: the NSE factors of the reactants less
      those of the products, plus the difference in nuclide count times ln ρ. */
  function ReverseExponent(reactants: seq<string>, products: seq<string>, nse: string -> real, logRho: real): real
  {
    NseTotal(reactants, nse) - NseTotal(products, nse) + (|reactants| as real - |products| as real) * logRho
  }

  /** Read backwards, a reaction has the opposite exponent. */
  lemma ReverseExponentReversed(reactants: seq<string>, products: seq<string>, nse: string -> real, logRho: real)
    ensures ReverseExponent(products, reactants, nse, logRho) == -ReverseExponent(reactants, products, nse, logRho)
  {
    assert (|products| as real - |reactants| as real) * logRho == -((|reactants| as real - |products| as real) * logRho);
  }

  /** A walker subtracting each species' NSE factor from a running value. */
  method SubtractNseFactors(names: seq<string>, nse: string -> real, acc: real) returns (acc': real)
    ensures acc' == acc - NseTotal(names, nse)
  {
    acc' := acc;
    var i := 0;
    while i < |names|
      invariant 0 <= i <= |names|
      invariant acc' == acc - NseTotal(names[..i], nse)
    {
      assert names[..i + 1][..i] == names[..i];
      acc' := acc' - nse(names[i]);
      i := i + 1;
    }
    assert names[..|names|] == names;
  }

  /** The rate of the reverse reaction once it is known to be neither weak nor a decay:
      forward·e^x·dupP/dupR, where x above the cap zeroes both rates and x below the
      floor zeroes the reverse rate. */
  method ReverseRateOf(reactants: seq<string>, products: seq<string>, reactantFactor: nat, productFactor: nat,
                       forward: real, nse: string -> real, logRho: real, exp: real -> real)
    returns (forward': real, reverse: real)
    requires reactantFactor >= 1
    ensures var x := ReverseExponent(reactants, products, nse, logRho);
      && (x > ReverseExponentCap ==> forward' == 0.0 && reverse == 0.0)
      && (x <= ReverseExponentCap ==> forward' == forward)
      && (x < ReverseExponentFloor ==> reverse == 0.0)
      && (ReverseExponentFloor <= x <= ReverseExponentCap ==>
            reverse * (reactantFactor as real) == forward * exp(x) * (productFactor as real))
  {
    var x := SubtractNseFactors(reactants, nse, 0.0);
    x := -x;
    x := SubtractNseFactors(products, nse, x);
    x := x + (|reactants| as real - |products| as real) * logRho;
    if x > ReverseExponentCap {
      return 0.0, 0.0;
    }
    if x < ReverseExponentFloor {
      return forward, 0.0;
    }
    var scaled := forward * exp(x) * (productFactor as real);
    forward', reverse := forward, scaled / (reactantFactor as real);
    DividedBack(scaled, reactantFactor as real);
  }

  lemma DividedBack(a: real, b: real)
    requires b != 0.0
    ensures (a / b) * b == a
  {
  }

  /** Libnucnet__Net__computeReverseRate: 0 for weak reactions and single-reactant decays,
      otherwise as ReverseRateOf.  A reaction's duplicate factors are at least 1
      (DuplicateFactorPositive). */
  method ComputeReverseRate(r: Reaction, forward: real, nse: string -> real, logRho: real, exp: real -> real)
    returns (forward': real, reverse: real)
    requires r.duplicateReactantFactor >= 1
    ensures r.IsWeak() || |r.reactants| + |r.otherReactants| == 1 ==> forward' == forward && reverse == 0.0
    ensures !(r.IsWeak() || |r.reactants| + |r.otherReactants| == 1) ==>
      var x := ReverseExponent(r.reactants, r.products, nse, logRho);
      && (x > ReverseExponentCap ==> forward' == 0.0 && reverse == 0.0)
      && (x <= ReverseExponentCap ==> forward' == forward)
      && (x < ReverseExponentFloor ==> reverse == 0.0)
      && (ReverseExponentFloor <= x <= ReverseExponentCap ==>
            reverse * (r.duplicateReactantFactor as real) == forward * exp(x) * (r.duplicateProductFactor as real))
  {
    if r.IsWeak() || |r.reactants| + |r.otherReactants| == 1 {
      return forward, 0.0;
    }
    forward', reverse := ReverseRateOf(r.reactants, r.products, r.duplicateReactantFactor, r.duplicateProductFactor,
                                       forward, nse, logRho, exp);
  }
}
