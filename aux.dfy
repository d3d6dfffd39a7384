// The helpers of NucNet Tools (nnt/auxiliary.cpp): the species, zone and reaction
// comparators, the reaction-type tests on a reaction's string and the Q value they
// adjust, the XPath built from a list of species or of reactions, grids of values,
// the count of an element on one side of a reaction and the normalisation of a
// zone's abundances.
//
// atof and atoi on zone labels, log10 and pow(10, ·) are parameters.

module Aux {
  import opened Common
  import opened Vectors
  import Nuc
  import Reac
  import Libnucnet

  // ---------------------------------------------------------------------------
  // Species comparators.
  // ---------------------------------------------------------------------------

  /** species_sort_by_z_then_a: by Z, then A, then the sign of strcmp of the names. */
  function CompareByZThenA(s1: Nuc.Species, s2: Nuc.Species): int
  {
    if s1.z < s2.z then -1
    else if s1.z > s2.z then 1
    else if s1.a < s2.a then -1
    else if s1.a > s2.a then 1
    else Strcmp(s1.name, s2.name)
  }

  /** The comparison is 0 exactly for equal Z, A and name, and swapping the arguments
      flips its sign. */
  lemma CompareByZThenAAntisymmetric(s1: Nuc.Species, s2: Nuc.Species)
    ensures CompareByZThenA(s1, s2) == 0 <==> s1.z == s2.z && s1.a == s2.a && s1.name == s2.name
    ensures CompareByZThenA(s1, s2) == -CompareByZThenA(s2, s1)
    ensures CompareByZThenA(s1, s2) in {-1, 0, 1}
  {
    StrLessTotal(s1.name, s2.name);
  }

  /** The comparison is a strict order: "before" is transitive. */
  lemma CompareByZThenATransitive(s1: Nuc.Species, s2: Nuc.Species, s3: Nuc.Species)
    requires CompareByZThenA(s1, s2) == -1 && CompareByZThenA(s2, s3) == -1
    ensures CompareByZThenA(s1, s3) == -1
  {
    if s1.z == s2.z == s3.z && s1.a == s2.a == s3.a {
      StrLessTransitive(s1.name, s2.name, s3.name);
    }
  }

  /** The species species_sort_function sends to the end: he4 last, h1 just before it,
      n before that; 0 for every other species. */
  function EndRank(name: string): nat
  {
    if name == "he4" then 3 else if name == "h1" then 2 else if name == "n" then 1 else 0
  }

  /** species_sort_function as written: he4, then h1, then n are tested on the first
      argument before the second, so the species is placed after the other even when
      the other is the same species. */
  function SortFunctionAsWritten(s1: Nuc.Species, s2: Nuc.Species): int
  {
    if s1.name == "he4" then 1
    else if s2.name == "he4" then -1
    else if s1.name == "h1" then 1
    else if s2.name == "h1" then -1
    else if s1.name == "n" then 1
    else if s2.name == "n" then -1
    else CompareByZThenA(s1, s2)
  }

  /** Comparing he4 with itself gives 1, not the 0 promised for the same species. */
  lemma SortFunctionAsWrittenNotReflexive(s: Nuc.Species)
    requires s.name == "he4"
    ensures SortFunctionAsWritten(s, s) == 1
  {
  }

  /** species_sort_function with the same species compared equal: otherwise as written. */
  function SortFunction(s1: Nuc.Species, s2: Nuc.Species): int
  {
    if EndRank(s1.name) > 0 && s1.name == s2.name then CompareByZThenA(s1, s2)
    else SortFunctionAsWritten(s1, s2)
  }

  /** The two differ only on a species compared with a namesake. */
  lemma SortFunctionAgrees(s1: Nuc.Species, s2: Nuc.Species)
    requires s1.name != s2.name
    ensures SortFunction(s1, s2) == SortFunctionAsWritten(s1, s2)
  {
  }

  /** The order: ordinary species by Z, A and name, then n, then h1, then he4; 0 only
      for equal Z, A and name, and swapping the arguments flips the sign. */
  lemma SortFunctionOrder(s1: Nuc.Species, s2: Nuc.Species)
    ensures EndRank(s1.name) < EndRank(s2.name) ==> SortFunction(s1, s2) == -1
    ensures EndRank(s1.name) == EndRank(s2.name) == 0 ==> SortFunction(s1, s2) == CompareByZThenA(s1, s2)
    ensures SortFunction(s1, s2) == 0 <==> s1.z == s2.z && s1.a == s2.a && s1.name == s2.name
    ensures SortFunction(s1, s2) == -SortFunction(s2, s1)
  {
    CompareByZThenAAntisymmetric(s1, s2);
  }

  // ---------------------------------------------------------------------------
  // Reaction comparator.
  // ---------------------------------------------------------------------------

  /** compare_reactions_by_string: the sign of strcmp of the two reactions' strings. */
  function CompareReactionsByString(r1: string, r2: string): int
  {
    Strcmp(r1, r2)
  }

  /** The comparison is 0 exactly for the same string, swapping the reactions flips its
      sign, and "before" is transitive: reactions sort alphabetically by string. */
  lemma CompareReactionsByStringOrder(r1: string, r2: string, r3: string)
    ensures CompareReactionsByString(r1, r2) == 0 <==> r1 == r2
    ensures CompareReactionsByString(r1, r2) == -CompareReactionsByString(r2, r1)
    ensures CompareReactionsByString(r1, r2) == -1 && CompareReactionsByString(r2, r3) == -1 ==>
              CompareReactionsByString(r1, r3) == -1
  {
    if Strcmp(r1, r2) == -1 && Strcmp(r2, r3) == -1 {
      StrLessTransitive(r1, r2, r3);
    }
  }

  // ---------------------------------------------------------------------------
  // Zone comparators.
  // ---------------------------------------------------------------------------

  /** zone_compare_by_first_label: -1 when the first label of the first zone reads as
      the smaller number, 1 otherwise, equal labels included. */
  function CompareByFirstLabel(z1: Libnucnet.Labels, z2: Libnucnet.Labels, atof: string -> real): int
  {
    if atof(z1.0) < atof(z2.0) then -1 else 1
  }

  /** It never reports equality; it orders by the numeric value, and for values that
      differ swapping the zones flips the result. */
  lemma CompareByFirstLabelProperties(z1: Libnucnet.Labels, z2: Libnucnet.Labels, atof: string -> real)
    ensures CompareByFirstLabel(z1, z2, atof) != 0
    ensures CompareByFirstLabel(z1, z2, atof) == -1 <==> atof(z1.0) < atof(z2.0)
    ensures atof(z1.0) != atof(z2.0) ==> CompareByFirstLabel(z1, z2, atof) == -CompareByFirstLabel(z2, z1, atof)
  {
  }

  /** zone_sort_function: the first labels compared as integers, 0 when they read equal. */
  function ZoneSortFunction(z1: Libnucnet.Labels, z2: Libnucnet.Labels, atoi: string -> int): int
  {
    if atoi(z1.0) < atoi(z2.0) then -1 else if atoi(z1.0) > atoi(z2.0) then 1 else 0
  }

  lemma ZoneSortFunctionProperties(z1: Libnucnet.Labels, z2: Libnucnet.Labels, atoi: string -> int)
    ensures ZoneSortFunction(z1, z2, atoi) == 0 <==> atoi(z1.0) == atoi(z2.0)
    ensures ZoneSortFunction(z1, z2, atoi) == -ZoneSortFunction(z2, z1, atoi)
    ensures ZoneSortFunction(z1, z2, atoi) == -1 <==> atoi(z1.0) < atoi(z2.0)
  {
  }

  // ---------------------------------------------------------------------------
  // Reaction types, told from the reaction string.
  // ---------------------------------------------------------------------------

  const Electron := "electron"
  const Positron := "positron"
  const NeutrinoE := "neutrino_e"
  const AntiNeutrinoE := "anti-neutrino_e"

  /** is_electron_capture_reaction: an electron and an electron neutrino, no antineutrino. */
  predicate IsElectronCapture(s: string)
  {
    Contains(s, Electron) && Contains(s, NeutrinoE) && !Contains(s, AntiNeutrinoE)
  }

  /** is_beta_minus_reaction: an electron and an electron antineutrino. */
  predicate IsBetaMinus(s: string)
  {
    Contains(s, Electron) && Contains(s, AntiNeutrinoE)
  }

  /** is_positron_capture_reaction: a positron and an electron antineutrino. */
  predicate IsPositronCapture(s: string)
  {
    Contains(s, Positron) && Contains(s, AntiNeutrinoE)
  }

  /** is_beta_plus_reaction: a positron and an electron neutrino, no antineutrino. */
  predicate IsBetaPlus(s: string)
  {
    Contains(s, Positron) && Contains(s, NeutrinoE) && !Contains(s, AntiNeutrinoE)
  }

  /** Every string holding "anti-neutrino_e" holds "neutrino_e". */
  lemma AntiNeutrinoHoldsNeutrino(s: string)
    requires Contains(s, AntiNeutrinoE)
    ensures Contains(s, NeutrinoE)
  {
    var i :| 0 <= i <= |s| && OccursAt(s, AntiNeutrinoE, i);
    assert s[i + 5..i + 15] == s[i..i + 15][5..15];
    assert OccursAt(s, NeutrinoE, i + 5);
  }

  /** An electron with an electron (anti)neutrino is exactly one of beta-minus decay and
      electron capture; a positron with one is exactly one of positron capture and
      beta-plus decay. */
  lemma LeptonReactionTypes(s: string)
    ensures IsBetaMinus(s) || IsElectronCapture(s) <==> Contains(s, Electron) && Contains(s, NeutrinoE)
    ensures !(IsBetaMinus(s) && IsElectronCapture(s))
    ensures IsPositronCapture(s) || IsBetaPlus(s) <==> Contains(s, Positron) && Contains(s, NeutrinoE)
    ensures !(IsPositronCapture(s) && IsBetaPlus(s))
  {
    if Contains(s, AntiNeutrinoE) {
      AntiNeutrinoHoldsNeutrino(s);
    }
  }

  /** compute_reaction_nuclear_Qvalue: the network's Q value with mₑc² added for beta-minus
      and beta-plus decay and subtracted for electron and positron capture, tested in that
      order. */
  function NuclearQValue(q: real, s: string, mec2: real): real
  {
    if IsBetaMinus(s) then q + mec2
    else if IsElectronCapture(s) then q - mec2
    else if IsBetaPlus(s) then q + mec2
    else if IsPositronCapture(s) then q - mec2
    else q
  }

  /** The nuclear Q value differs from the network's by at most one mₑc²: a reaction
      without an electron neutrino or antineutrino keeps it, a decay emitting one gains
      mₑc² and a capture of an electron without a positron present loses it. */
  lemma NuclearQValueShift(q: real, s: string, mec2: real)
    ensures !Contains(s, NeutrinoE) ==> NuclearQValue(q, s, mec2) == q
    ensures NuclearQValue(q, s, mec2) in {q - mec2, q, q + mec2}
    ensures IsElectronCapture(s) && !Contains(s, Positron) ==> NuclearQValue(q, s, mec2) == q - mec2
    ensures IsBetaMinus(s) ==> NuclearQValue(q, s, mec2) == q + mec2
  {
    if Contains(s, AntiNeutrinoE) {
      AntiNeutrinoHoldsNeutrino(s);
    }
  }

  // ---------------------------------------------------------------------------
  // The XPath of a list of species.
  // ---------------------------------------------------------------------------

  /** The condition selecting the species of charge z and mass number a. */
  function ZATerm(z: nat, a: nat): string
  {
    "(z=" + DecimalString(z) + " and a=" + DecimalString(a) + ")"
  }

  /** The terms of the named species joined by " or ". */
  function JoinedTerms(names: seq<string>, species: map<string, Nuc.Species>): string
    requires forall i | 0 <= i < |names| :: names[i] in species
  {
    if names == [] then ""
    else
      var last := ZATerm(species[names[|names| - 1]].z, species[names[|names| - 1]].a);
      if |names| == 1 then last else JoinedTerms(names[..|names| - 1], species) + " or " + last
  }

  /** The XPath predicate create_nuc_xpath_from_list returns. */
  function NucXPath(names: seq<string>, species: map<string, Nuc.Species>): string
    requires forall i | 0 <= i < |names| :: names[i] in species
  {
    "[" + JoinedTerms(names, species) + "]"
  }

  /** create_nuc_xpath_from_list: "[", the term of each species with " or " between
      terms, "]". A name without a species is not handled by the source. */
  method CreateNucXPath(names: seq<string>, species: map<string, Nuc.Species>) returns (xpath: string)
    requires forall i | 0 <= i < |names| :: names[i] in species
    ensures xpath == NucXPath(names, species)
  {
    var body := "";
    var i := 0;
    while i < |names|
      invariant 0 <= i <= |names|
      invariant body == JoinedTerms(names[..i], species) + (if 0 < i < |names| then " or " else "")
    {
      ghost var before := JoinedTerms(names[..i], species);
      var term := ZATerm(species[names[i]].z, species[names[i]].a);
      assert names[..i + 1][..i] == names[..i];
      assert JoinedTerms(names[..i + 1], species) == if i == 0 then term else before + " or " + term;
      body := body + term;
      if i + 1 < |names| {
        body := body + " or ";
      }
      i := i + 1;
    }
    assert names[..i] == names;
    xpath := "[" + body + "]";
  }

  /** Where the shorter of two strings ends, the rest of it meets a character of the longer. */
  lemma NumeralEndsInside(d1: string, r1: string, d2: string, r2: string)
    requires |d1| < |d2| && |r1| > 0 && d1 + r1 == d2 + r2
    ensures r1[0] == d2[|d1|]
  {
    assert (d1 + r1)[|d1|] == r1[0];
    assert (d2 + r2)[|d1|] == d2[|d1|];
  }

  /** A numeral followed by a non-digit is told apart from the rest of the string. */
  lemma NumeralThenRest(d1: string, d2: string, r1: string, r2: string)
    requires forall i | 0 <= i < |d1| :: IsDigit(d1[i])
    requires forall i | 0 <= i < |d2| :: IsDigit(d2[i])
    requires |r1| > 0 && |r2| > 0 && !IsDigit(r1[0]) && !IsDigit(r2[0])
    requires d1 + r1 == d2 + r2
    ensures d1 == d2 && r1 == r2
  {
    var t := d1 + r1;
    if |d1| < |d2| {
      NumeralEndsInside(d1, r1, d2, r2);
      assert false;
    } else if |d2| < |d1| {
      NumeralEndsInside(d2, r2, d1, r1);
      assert false;
    } else {
      assert d1 == t[..|d1|] == d2;
      assert r1 == t[|d1|..] == r2;
    }
  }

  /** Different (Z, A) pairs give different terms, so the XPath names each species'
      charge and mass number unambiguously. */
  lemma ZATermInjective(z1: nat, a1: nat, z2: nat, a2: nat)
    requires ZATerm(z1, a1) == ZATerm(z2, a2)
    ensures z1 == z2 && a1 == a2
  {
    var d1, d2 := DecimalString(z1), DecimalString(z2);
    var e1, e2 := DecimalString(a1), DecimalString(a2);
    assert ZATerm(z1, a1) == "(z=" + (d1 + (" and a=" + (e1 + ")")));
    assert ZATerm(z2, a2) == "(z=" + (d2 + (" and a=" + (e2 + ")")));
    SamePrefix("(z=", d1 + (" and a=" + (e1 + ")")), d2 + (" and a=" + (e2 + ")")));
    NumeralThenRest(d1, d2, " and a=" + (e1 + ")"), " and a=" + (e2 + ")"));
    SamePrefix(" and a=", e1 + ")", e2 + ")");
    NumeralThenRest(e1, e2, ")", ")");
    DecimalStringInjective(z1, z2);
    DecimalStringInjective(a1, a2);
  }

  /** Strings with the same prefix are equal when their rests are. */
  lemma SamePrefix(p: string, x: string, y: string)
    requires p + x == p + y
    ensures x == y
  {
    assert x == (p + x)[|p|..];
  }

  // ---------------------------------------------------------------------------
  // The XPath of a list of reactions.
  // ---------------------------------------------------------------------------

  /** "reactant = 'r' and " for each reactant in turn. */
  function ReactantClauses(reactants: seq<string>): string
  {
    if reactants == [] then ""
    else ReactantClauses(reactants[..|reactants| - 1]) + "reactant = '" + reactants[|reactants| - 1] + "' and "
  }

  /** "product = 'p'" for each product in turn, with " and " between them. */
  function ProductClauses(products: seq<string>): string
  {
    if products == [] then ""
    else
      var last := "product = '" + products[|products| - 1] + "'";
      if |products| == 1 then last else ProductClauses(products[..|products| - 1]) + " and " + last
  }

  /** The condition selecting one reaction: its reactant clauses, then its product
      clauses, in parentheses.  A reaction without products leaves a dangling " and ". */
  function ReactionCondition(sd: Reac.Sides): string
  {
    "(" + ReactantClauses(sd.reactants) + ProductClauses(sd.products) + ")"
  }

  /** The conditions of the named reactions joined by " or ". */
  function JoinedConditions(names: seq<string>, sides: map<string, Reac.Sides>): string
    requires forall i | 0 <= i < |names| :: names[i] in sides
  {
    if names == [] then ""
    else
      var last := ReactionCondition(sides[names[|names| - 1]]);
      if |names| == 1 then last else JoinedConditions(names[..|names| - 1], sides) + " or " + last
  }

  /** The XPath predicate create_reac_xpath_from_list returns. */
  function ReacXPath(names: seq<string>, sides: map<string, Reac.Sides>): string
    requires forall i | 0 <= i < |names| :: names[i] in sides
  {
    "[" + JoinedConditions(names, sides) + "]"
  }

  /** Parts joined by a separator, built from the front. */
  function Interleaved(parts: seq<string>, sep: string): string
  {
    if parts == [] then ""
    else if |parts| == 1 then parts[0]
    else parts[0] + sep + Interleaved(parts[1..], sep)
  }

  /** Joining from the front and adding the last part with one more separator agree. */
  lemma {:induction false} InterleavedSnoc(parts: seq<string>, sep: string, x: string)
    requires parts != []
    ensures Interleaved(parts + [x], sep) == Interleaved(parts, sep) + sep + x
    decreases |parts|
  {
    if |parts| > 1 {
      assert (parts + [x])[1..] == parts[1..] + [x];
      InterleavedSnoc(parts[1..], sep, x);
    }
  }

  /** The product clauses are the clauses "product = 'p'" of the products in order,
      separated by " and ". */
  lemma {:induction false} ProductClausesInterleaved(products: seq<string>)
    ensures ProductClauses(products)
         == Interleaved(seq(|products|, i requires 0 <= i < |products| => "product = '" + products[i] + "'"), " and ")
  {
    var clauses := seq(|products|, i requires 0 <= i < |products| => "product = '" + products[i] + "'");
    if |products| > 1 {
      var init := products[..|products| - 1];
      var initClauses := seq(|init|, i requires 0 <= i < |init| => "product = '" + init[i] + "'");
      ProductClausesInterleaved(init);
      assert clauses == initClauses + [clauses[|products| - 1]];
      InterleavedSnoc(initClauses, " and ", clauses[|products| - 1]);
    }
  }

  /** The XPath is "[", the condition of each named reaction in order with " or "
      between them, and "]". */
  lemma {:induction false} JoinedConditionsInterleaved(names: seq<string>, sides: map<string, Reac.Sides>)
    requires forall i | 0 <= i < |names| :: names[i] in sides
    ensures JoinedConditions(names, sides)
         == Interleaved(seq(|names|, i requires 0 <= i < |names| && names[i] in sides => ReactionCondition(sides[names[i]])), " or ")
  {
    var conds := seq(|names|, i requires 0 <= i < |names| && names[i] in sides => ReactionCondition(sides[names[i]]));
    if |names| > 1 {
      var init := names[..|names| - 1];
      var initConds := seq(|init|, i requires 0 <= i < |init| && init[i] in sides => ReactionCondition(sides[init[i]]));
      JoinedConditionsInterleaved(init, sides);
      assert conds == initConds + [conds[|names| - 1]];
      InterleavedSnoc(initConds, " or ", conds[|names| - 1]);
    }
  }

  /** The reactant clauses, one per reactant in turn. */
  method BuildReactantClauses(reactants: seq<string>) returns (clauses: string)
    ensures clauses == ReactantClauses(reactants)
  {
    clauses := "";
    for i := 0 to |reactants|
      invariant clauses == ReactantClauses(reactants[..i])
    {
      assert reactants[..i + 1][..i] == reactants[..i];
      clauses := clauses + "reactant = '" + reactants[i] + "' and ";
    }
    assert reactants[..|reactants|] == reactants;
  }

  /** The product clauses, with " and " written after every product but the last. */
  method BuildProductClauses(products: seq<string>) returns (clauses: string)
    ensures clauses == ProductClauses(products)
  {
    clauses := "";
    var j := 0;
    while j < |products|
      invariant 0 <= j <= |products|
      invariant clauses == ProductClauses(products[..j]) + (if 0 < j < |products| then " and " else "")
    {
      assert products[..j + 1][..j] == products[..j];
      clauses := clauses + "product = '" + products[j] + "'";
      if j + 1 < |products| {
        clauses := clauses + " and ";
      }
      j := j + 1;
    }
    assert products[..j] == products;
  }

  /** The condition of one reaction, built as create_reac_xpath_from_list builds it:
      a clause per reactant, then the product clauses with " and " between them. */
  method BuildReactionCondition(sd: Reac.Sides) returns (condition: string)
    ensures condition == ReactionCondition(sd)
  {
    var reactants := BuildReactantClauses(sd.reactants);
    var products := BuildProductClauses(sd.products);
    condition := "(" + reactants + products + ")";
  }

  /** The conditions of the first i + 1 reactions: those of the first i, then the
      condition of reaction i. */
  lemma JoinedConditionsStep(names: seq<string>, sides: map<string, Reac.Sides>, i: nat)
    requires forall k | 0 <= k < |names| :: names[k] in sides
    requires i < |names|
    ensures JoinedConditions(names[..i + 1], sides)
         == if i == 0 then ReactionCondition(sides[names[i]])
            else JoinedConditions(names[..i], sides) + " or " + ReactionCondition(sides[names[i]])
  {
    assert names[..i + 1][..i] == names[..i];
  }

  /** create_reac_xpath_from_list: "[", the condition of each reaction with " or "
      between conditions, "]".  The reactions are given by their strings, each with its
      reactants and products as the reaction iterators list them; a string without a
      reaction is not handled by the source. */
  method CreateReacXPath(names: seq<string>, sides: map<string, Reac.Sides>) returns (xpath: string)
    requires forall i | 0 <= i < |names| :: names[i] in sides
    ensures xpath == ReacXPath(names, sides)
  {
    var body := "";
    var i := 0;
    while i < |names|
      invariant 0 <= i <= |names|
      invariant body == JoinedConditions(names[..i], sides) + (if 0 < i < |names| then " or " else "")
    {
      JoinedConditionsStep(names, sides, i);
      var condition := BuildReactionCondition(sides[names[i]]);
      body := body + condition;
      if i + 1 < |names| {
        body := body + " or ";
      }
      i := i + 1;
    }
    assert names[..i] == names;
    xpath := "[" + body + "]";
  }

  // ---------------------------------------------------------------------------
  // Grids.
  // ---------------------------------------------------------------------------

  /** The i-th point of a linear grid: x_min + i·del. */
  function LinearPoint(xmin: real, del: real, i: nat): real
  {
    xmin + (i as real) * del
  }

  /** n points x_min + i·del. */
  function LinearPoints(xmin: real, del: real, n: nat): (v: seq<real>)
    ensures |v| == n && forall i | 0 <= i < n :: v[i] == LinearPoint(xmin, del, i)
  {
    if n == 0 then [] else LinearPoints(xmin, del, n - 1) + [LinearPoint(xmin, del, n - 1)]
  }

  /** The i-th point of a logarithmic grid: x_min·10^(i·del). */
  function LogPoint(xmin: real, del: real, i: nat, pow10: real -> real): real
  {
    xmin * pow10((i as real) * del)
  }

  /** n points x_min·10^(i·del). */
  function LogPoints(xmin: real, del: real, n: nat, pow10: real -> real): (v: seq<real>)
    ensures |v| == n && forall i | 0 <= i < n :: v[i] == LogPoint(xmin, del, i, pow10)
  {
    if n == 0 then [] else LogPoints(xmin, del, n - 1, pow10) + [LogPoint(xmin, del, n - 1, pow10)]
  }

  /** The grid get_vector returns: one point for n = 1 whatever the spacing; otherwise
      n points evenly spaced, linearly or in log10, from x_min to x_max. Another
      spacing is a fatal error. */
  function Grid(xmin: real, xmax: real, n: nat, spacing: string,
                log10: real -> real, pow10: real -> real): Result<seq<real>>
    requires spacing == "logarithmic" && n != 1 ==> xmin != 0.0
  {
    if n == 1 then Success([xmin])
    else if spacing == "linear" then Success(LinearPoints(xmin, (xmax - xmin) / ((n as real) - 1.0), n))
    else if spacing == "logarithmic" then
      Success(LogPoints(xmin, log10(xmax / xmin) / ((n as real) - 1.0), n, pow10))
    else Failure("Invalid spacing for vector.")
  }

  /** get_vector. */
  method GetVector(xmin: real, xmax: real, n: nat, spacing: string, log10: real -> real, pow10: real -> real)
    returns (r: Result<seq<real>>)
    requires spacing == "logarithmic" && n != 1 ==> xmin != 0.0
    ensures r == Grid(xmin, xmax, n, spacing, log10, pow10)
  {
    if n == 1 {
      return Success([xmin]);
    }
    if spacing == "linear" {
      var v := FillLinear(xmin, (xmax - xmin) / ((n as real) - 1.0), n);
      return Success(v);
    } else if spacing == "logarithmic" {
      var v := FillLogarithmic(xmin, log10(xmax / xmin) / ((n as real) - 1.0), n, pow10);
      return Success(v);
    } else {
      return Failure("Invalid spacing for vector.");
    }
  }

  /** The linear loop of get_vector. */
  method FillLinear(xmin: real, del: real, n: nat) returns (v: seq<real>)
    ensures v == LinearPoints(xmin, del, n)
  {
    v := [];
    var i := 0;
    while i < n
      invariant 0 <= i <= n && v == LinearPoints(xmin, del, i)
    {
      v := v + [LinearPoint(xmin, del, i)];
      i := i + 1;
    }
  }

  /** The logarithmic loop of get_vector. */
  method FillLogarithmic(xmin: real, del: real, n: nat, pow10: real -> real) returns (v: seq<real>)
    ensures v == LogPoints(xmin, del, n, pow10)
  {
    v := [];
    var i := 0;
    while i < n
      invariant 0 <= i <= n && v == LogPoints(xmin, del, i, pow10)
    {
      v := v + [LogPoint(xmin, del, i, pow10)];
      i := i + 1;
    }
  }

  /** A linear grid of at least two points starts at x_min, ends at x_max, and
      consecutive points are (x_max − x_min)/(n − 1) apart. */
  lemma LinearGridEnds(xmin: real, xmax: real, n: nat, log10: real -> real, pow10: real -> real)
    requires n >= 2
    ensures var g := Grid(xmin, xmax, n, "linear", log10, pow10);
      g.Success? && |g.value| == n && g.value[0] == xmin && g.value[n - 1] == xmax
      && forall i | 0 <= i < n - 1 :: g.value[i + 1] - g.value[i] == (xmax - xmin) / ((n as real) - 1.0)
  {
    var m := (n as real) - 1.0;
    var del := (xmax - xmin) / m;
    assert m * del == xmax - xmin;
    assert ((n - 1) as real) == m;
    forall i | 0 <= i < n - 1
      ensures LinearPoints(xmin, del, n)[i + 1] - LinearPoints(xmin, del, n)[i] == del
    {
      assert ((i + 1) as real) * del == (i as real) * del + del;
    }
  }

  /** A logarithmic grid of at least two points starts at x_min and ends at x_max when
      pow10 inverts log10 on positive ratios and pow10(0) = 1. */
  lemma LogarithmicGridEnds(xmin: real, xmax: real, n: nat, log10: real -> real, pow10: real -> real)
    requires n >= 2 && xmin != 0.0 && xmax / xmin > 0.0
    requires pow10(0.0) == 1.0
    requires forall r | r > 0.0 :: pow10(log10(r)) == r
    ensures var g := Grid(xmin, xmax, n, "logarithmic", log10, pow10);
      g.Success? && |g.value| == n && g.value[0] == xmin && g.value[n - 1] == xmax
  {
    var r := xmax / xmin;
    var e := log10(r);
    var del := e / ((n as real) - 1.0);
    StepsToEnd(e, n);
    RatioBack(xmin, xmax);
    LogEnd(xmin, xmax, r, e, del, n - 1, pow10);
    assert LogPoint(xmin, del, 0, pow10) == xmin * pow10(0.0);
  }

  /** k steps of e/(n − 1) with k = n − 1 cover e. */
  lemma StepsToEnd(e: real, n: nat)
    requires n >= 2
    ensures ((n - 1) as real) * (e / ((n as real) - 1.0)) == e
  {
  }

  lemma LogEnd(xmin: real, xmax: real, r: real, e: real, del: real, k: nat, pow10: real -> real)
    requires (k as real) * del == e && pow10(e) == r && xmin * r == xmax
    ensures LogPoint(xmin, del, k, pow10) == xmax
  {
  }

  lemma RatioBack(xmin: real, xmax: real)
    requires xmin != 0.0
    ensures xmin * (xmax / xmin) == xmax
  {
  }

  // ---------------------------------------------------------------------------
  // Reaction elements.
  // ---------------------------------------------------------------------------

  /** reaction_element_count: the occurrences of the name among the reactants or among
      the products; any other type is a fatal error. */
  method ReactionElementCount(reaction: Reac.Reaction, kind: string, element: string)
    returns (r: Result<nat>)
    ensures kind == "reactant" ==> r == Success(multiset(reaction.reactants + reaction.otherReactants)[element])
    ensures kind == "product" ==> r == Success(multiset(reaction.products + reaction.otherProducts)[element])
    ensures kind != "reactant" && kind != "product" ==> r.Failure?
  {
    var elements: seq<string>;
    if kind == "reactant" {
      elements := reaction.reactants + reaction.otherReactants;
    } else if kind == "product" {
      elements := reaction.products + reaction.otherProducts;
    } else {
      return Failure("No such reaction element type.");
    }
    var count := CountOccurrences(elements, element);
    return Success(count);
  }

  // ---------------------------------------------------------------------------
  // Normalising abundances.
  // ---------------------------------------------------------------------------

  /** The abundances of the listed species, 0 for a species without an entry. */
  function AbundanceVector(y: map<string, real>, names: seq<string>): (v: seq<real>)
    ensures |v| == |names| && forall i | 0 <= i < |names| :: v[i] == Libnucnet.Lookup(y, names[i])
  {
    seq(|names|, i requires 0 <= i < |names| => Libnucnet.Lookup(y, names[i]))
  }

  /** Every entry multiplied by c. */
  function Scaled(v: seq<real>, c: real): (r: seq<real>)
    ensures |r| == |v| && forall i | 0 <= i < |v| :: r[i] == c * v[i]
  {
    seq(|v|, i requires 0 <= i < |v| => c * v[i])
  }

  /** Scaling the vector scales a weighted sum of it. */
  lemma {:induction false} DotScaled(w: seq<real>, v: seq<real>, c: real)
    requires |w| == |v|
    ensures Dot(w, Scaled(v, c)) == c * Dot(w, v)
    decreases |v|
  {
    if |v| > 0 {
      var k := |v| - 1;
      assert forall j | 0 <= j < k :: Scaled(v, c)[..k][j] == Scaled(v[..k], c)[j];
      assert Scaled(v, c)[..k] == Scaled(v[..k], c);
      DotScaled(w[..k], v[..k], c);
      assert w[k] * (c * v[k]) == c * (w[k] * v[k]);
    }
  }

  /** Σ A·Y: the mass fractions' sum, the listed species having the given mass numbers. */
  function MassFractionSum(masses: seq<real>, y: seq<real>): real
    requires |masses| == |y|
  {
    Dot(masses, y)
  }

  /** After dividing every abundance by Σ A·Y, the mass fractions sum to 1. */
  lemma NormalizedSumIsOne(masses: seq<real>, y: seq<real>)
    requires |masses| == |y| && MassFractionSum(masses, y) > 0.0
    ensures MassFractionSum(masses, Scaled(y, 1.0 / MassFractionSum(masses, y))) == 1.0
  {
    DotScaled(masses, y, 1.0 / Dot(masses, y));
  }

  /** The message normalize_zone_abundances prints before it exits. */
  const InvalidAbundancesMessage := "Invalid abundances in zone."

  /** normalize_zone_abundances over the species listed with their mass numbers: when
      Σ A·Y <= 0 the source's exit, a Failure with its message and nothing changed;
      otherwise every listed abundance is divided by Σ A·Y, so the mass fractions then
      sum to 1. */
  method NormalizeZoneAbundances(zone: Libnucnet.Zone, names: seq<string>, masses: seq<real>)
    returns (result: Result<()>)
    requires zone.Valid() && Distinct(names) && |masses| == |names|
    modifies zone`abundances
    ensures zone.Valid()
    ensures var y := AbundanceVector(old(zone.abundances), names);
      (result.Success? <==> MassFractionSum(masses, y) > 0.0)
      && (result.Failure? ==> result.error == InvalidAbundancesMessage && zone.abundances == old(zone.abundances))
      && (result.Success? ==> AbundanceVector(zone.abundances, names) == Scaled(y, 1.0 / MassFractionSum(masses, y))
                              && MassFractionSum(masses, AbundanceVector(zone.abundances, names)) == 1.0)
    ensures forall n | n !in names :: Libnucnet.Lookup(zone.abundances, n) == Libnucnet.Lookup(old(zone.abundances), n)
  {
    var y := AbundanceVector(zone.abundances, names);
    var xm := Dot(masses, y);
    if xm <= 0.0 {
      return Failure(InvalidAbundancesMessage);
    }
    var scaled := Scaled(y, 1.0 / xm);
    var i := 0;
    while i < |names|
      invariant 0 <= i <= |names| && zone.Valid()
      invariant forall j | 0 <= j < i :: Libnucnet.Lookup(zone.abundances, names[j]) == scaled[j]
      invariant forall j | i <= j < |names| :: Libnucnet.Lookup(zone.abundances, names[j]) == y[j]
      invariant forall n | n !in names :: Libnucnet.Lookup(zone.abundances, n) == Libnucnet.Lookup(old(zone.abundances), n)
    {
      zone.UpdateSpeciesAbundance(names[i], scaled[i]);
      i := i + 1;
    }
    assert AbundanceVector(zone.abundances, names) == scaled;
    NormalizedSumIsOne(masses, y);
    return Success(());
  }
}
