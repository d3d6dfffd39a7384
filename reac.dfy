// Reactions and the reaction collection of libnucnet (Libnucnet__Reac.c).

module Reac {
  import opened Common

  // ---------------------------------------------------------------------------
  // Reaction elements.
  // ---------------------------------------------------------------------------

  const Gamma := "gamma"
  const Electron := "electron"
  const Positron := "positron"
  const Mu := "mu"
  const AntiMu := "anti-mu"
  const Tau := "tau"
  const AntiTau := "anti-tau"
  const ElectronNeutrino := "neutrino_e"
  const ElectronAntineutrino := "anti-neutrino_e"
  const MuNeutrino := "neutrino_mu"
  const MuAntineutrino := "anti-neutrino_mu"
  const TauNeutrino := "neutrino_tau"
  const TauAntineutrino := "anti-neutrino_tau"

  /** The charged leptons and the neutrinos: the names Libnucnet__Reaction__isWeakWalker
      looks for. */
  predicate IsLepton(name: string)
  {
    Listed(name, Leptons)
  }

  const Leptons: seq<string> := [Positron, ElectronNeutrino, ElectronAntineutrino, Electron,
                                 Mu, AntiMu, Tau, AntiTau, MuNeutrino, MuAntineutrino,
                                 TauNeutrino, TauAntineutrino]

  /** name is one of names (searched from the front, as a chain of strcmp calls). */
  predicate Listed(name: string, names: seq<string>)
    decreases |names|
  {
    |names| > 0 && (names[0] == name || Listed(name, names[1..]))
  }

  lemma {:induction false} ListedAt(names: seq<string>, i: int)
    requires 0 <= i < |names|
    ensures Listed(names[i], names)
    decreases i
  {
    if i > 0 {
      ListedAt(names[1..], i - 1);
      assert names[1..][i - 1] == names[i];
    }
  }


  /** Libnucnet__Reaction__Element__isNuclide: everything but the photon and the leptons. */
  predicate IsNuclide(name: string)
  {
    !Listed(name, [Gamma] + Leptons)
  }

  // ---------------------------------------------------------------------------
  // The reaction string.
  // ---------------------------------------------------------------------------

  const Arrow := " -> "
  const Plus := " + "

  predicate EndsWith(s: string, t: string)
  {
    |s| >= |t| && s[|s| - |t|..] == t
  }

  /** One step of Libnucnet__Reaction__updateStringWalker: the first name starts the
      string; later names are joined by " + " unless the string ends with the arrow. */
  function WalkStep(acc: Option<string>, name: string): (r: string)
  {
    if acc.None? then name
    else if EndsWith(acc.value, Arrow) then acc.value + name
    else acc.value + Plus + name
  }

  /** The walker over a whole list. */
  function Walk(acc: Option<string>, names: seq<string>): (r: Option<string>)
    ensures names == [] ==> r == acc
    ensures names != [] ==> r.Some?
    decreases |names|
  {
    if names == [] then acc
    else Walk(Some(WalkStep(acc, names[0])), names[1..])
  }

  /** xmlStrcat: appending to NULL duplicates the appended string. */
  function Cat(acc: Option<string>, s: string): (r: string)
  {
    if acc.None? then s else acc.value + s
  }

  /** Libnucnet__Reaction__updateString as written: walk the nuclide then the other
      reactants, append the arrow, walk the nuclide then the other products. */
  function Built(reactants: seq<string>, otherReactants: seq<string>,
                 products: seq<string>, otherProducts: seq<string>): string
  {
    var left := Walk(Walk(None, reactants), otherReactants);
    var r := Walk(Walk(Some(Cat(left, Arrow)), products), otherProducts);
    if r.Some? then r.value else ""
  }

  /** The names joined by " + ". */
  function Join(names: seq<string>): (s: string)
    ensures |names| == 1 ==> s == names[0]
  {
    if names == [] then ""
    else if |names| == 1 then names[0]
    else Join(names[..|names| - 1]) + Plus + names[|names| - 1]
  }

  /** The canonical reaction string "a + b -> c + d". */
  function ReactionString(reactants: seq<string>, products: seq<string>): string
  {
    Join(reactants) + Arrow + Join(products)
  }

  /** Names as species and leptons are named: not empty and without '>'. */
  predicate PlainName(name: string)
  {
    |name| > 0 && Lacks(name, '>')
  }

  /** c does not occur in s. */
  predicate Lacks(s: string, c: char)
  {
    s == [] || (s[0] != c && Lacks(s[1..], c))
  }

  lemma {:induction false} LacksAt(s: string, c: char, i: int)
    requires Lacks(s, c) && 0 <= i < |s|
    ensures s[i] != c
  {
    if i > 0 {
      LacksAt(s[1..], c, i - 1);
    }
  }

  predicate PlainNames(names: seq<string>)
  {
    forall i | 0 <= i < |names| :: PlainName(names[i])
  }

  /** Appending a plain name after anything but '>' never leaves the arrow at the end. */
  lemma NoArrowAfterName(prefix: string, name: string)
    requires PlainName(name) && (prefix == [] || prefix[|prefix| - 1] != '>')
    ensures !EndsWith(prefix + name, Arrow)
  {
    var s := prefix + name;
    if |s| >= 2 {
      if |name| >= 2 {
        assert s[|s| - 2] == name[|name| - 2];
        LacksAt(name, '>', |name| - 2);
      } else if |prefix| >= 1 {
        assert s[|s| - 2] == prefix[|prefix| - 1];
      }
      assert s[|s| - 2] != '>';
    }
    assert Arrow[2] == '>';
  }

  /** The walker over a list with one more name at the end takes one more step. */
  lemma {:induction false} WalkSnoc(acc: Option<string>, names: seq<string>, x: string)
    ensures Walk(acc, names + [x]) == Some(WalkStep(Walk(acc, names), x))
    decreases |names|
  {
    if names == [] {
      assert names + [x] == [x];
    } else {
      assert (names + [x])[1..] == names[1..] + [x];
      WalkSnoc(Some(WalkStep(acc, names[0])), names[1..], x);
    }
  }

  /** Once the walker has put down pre and the first name, it joins the rest with " + ",
      and the string never ends with the arrow. */
  lemma {:induction false} WalkJoined(acc: Option<string>, pre: string, names: seq<string>)
    requires PlainNames(names) && names != []
    requires WalkStep(acc, names[0]) == pre + names[0]
    requires pre == [] || pre[|pre| - 1] != '>'
    ensures Walk(acc, names) == Some(pre + Join(names))
    ensures !EndsWith(pre + Join(names), Arrow)
    decreases |names|
  {
    var init, x := names[..|names| - 1], names[|names| - 1];
    assert names == init + [x];
    WalkSnoc(acc, init, x);
    if init == [] {
      NoArrowAfterName(pre, x);
    } else {
      WalkJoined(acc, pre, init);
      WalkJoinedNext(pre, init, x);
    }
  }

  lemma WalkJoinedNext(pre: string, init: seq<string>, x: string)
    requires PlainName(x) && init != []
    requires !EndsWith(pre + Join(init), Arrow)
    ensures WalkStep(Some(pre + Join(init)), x) == pre + Join(init + [x])
    ensures !EndsWith(pre + Join(init + [x]), Arrow)
  {
    var w := pre + Join(init);
    assert pre + Join(init + [x]) == w + Plus + x by {
      assert (init + [x])[..|init + [x]| - 1] == init;
      assert Join(init + [x]) == Join(init) + Plus + x;
    }
    NoArrowAfterName(w + Plus, x);
  }

  /** Joining two lists one after the other. */
  lemma {:induction false} JoinAppend(a: seq<string>, b: seq<string>)
    requires a != [] && b != []
    ensures Join(a + b) == Join(a) + Plus + Join(b)
    decreases |b|
  {
    if |b| == 1 {
      assert (a + b)[..|a + b| - 1] == a;
    } else {
      var b', x := b[..|b| - 1], b[|b| - 1];
      assert (a + b)[..|a + b| - 1] == a + b';
      assert Join(a + b) == Join(a + b') + Plus + x;
      JoinAppend(a, b');
      assert ((Join(a) + Plus + Join(b')) + Plus) + x == (Join(a) + Plus + Join(b')) + (Plus + x);
      assert ((Join(a) + Plus) + Join(b')) + (Plus + x) == (Join(a) + Plus) + (Join(b') + (Plus + x));
      assert (Join(b') + Plus) + x == Join(b') + (Plus + x);
    }
  }


  /** Walking the nuclide list then the other list from nothing joins both. */
  lemma WalkBoth(a: seq<string>, b: seq<string>)
    requires PlainNames(a) && PlainNames(b)
    ensures a + b == [] ==> Walk(Walk(None, a), b) == None
    ensures a + b != [] ==> Walk(Walk(None, a), b) == Some(Join(a + b))
  {
    if a == [] {
      assert a + b == b;
      if b != [] {
        WalkJoined(None, "", b);
        assert "" + Join(b) == Join(b);
      }
    } else if b == [] {
      assert a + b == a;
      WalkJoined(None, "", a);
      assert "" + Join(a) == Join(a);
    } else {
      WalkBothNonEmpty(a, b);
    }
  }

  lemma WalkBothNonEmpty(a: seq<string>, b: seq<string>)
    requires PlainNames(a) && PlainNames(b) && a != [] && b != []
    ensures Walk(Walk(None, a), b) == Some(Join(a + b))
  {
    WalkJoined(None, "", a);
    assert "" + Join(a) == Join(a);
    WalkJoined(Some(Join(a)), Join(a) + Plus, b);
    JoinAppend(a, b);
  }

  /** After the arrow, both product lists are joined as one. */
  lemma WalkAfterArrow(s: string, a: seq<string>, b: seq<string>)
    requires PlainNames(a) && PlainNames(b) && EndsWith(s, Arrow)
    ensures Walk(Walk(Some(s), a), b) == Some(s + Join(a + b))
  {
    assert s[|s| - 1] == ' ';
    if a == [] {
      assert a + b == b;
      if b != [] {
        WalkJoined(Some(s), s, b);
      } else {
        assert s + Join(a + b) == s;
      }
    } else if b == [] {
      assert a + b == a;
      WalkJoined(Some(s), s, a);
    } else {
      WalkAfterArrowNonEmpty(s, a, b);
    }
  }

  lemma WalkAfterArrowNonEmpty(s: string, a: seq<string>, b: seq<string>)
    requires PlainNames(a) && PlainNames(b) && EndsWith(s, Arrow) && a != [] && b != []
    ensures Walk(Walk(Some(s), a), b) == Some(s + Join(a + b))
  {
    WalkFromArrow(s, a);
    WalkAfterName(s + Join(a), b);
    JoinAppend(a, b);
    var ja, jb := Join(a), Join(b);
    assert s + ja + Plus + jb == s + (ja + Plus + jb);
  }

  /** After the arrow the first name is appended bare. */
  lemma WalkFromArrow(s: string, a: seq<string>)
    requires PlainNames(a) && EndsWith(s, Arrow) && a != []
    ensures Walk(Some(s), a) == Some(s + Join(a)) && !EndsWith(s + Join(a), Arrow)
  {
    assert s[|s| - 1] == ' ';
    WalkJoined(Some(s), s, a);
  }

  /** After a name every further name comes with a plus. */
  lemma WalkAfterName(t: string, b: seq<string>)
    requires PlainNames(b) && !EndsWith(t, Arrow) && b != []
    ensures Walk(Some(t), b) == Some(t + Plus + Join(b))
  {
    assert WalkStep(Some(t), b[0]) == t + Plus + b[0];
    assert (t + Plus)[|t + Plus| - 1] == ' ';
    WalkJoined(Some(t), t + Plus, b);
  }


  /** For plain names the walker builds the canonical string: nuclide reactants, then the
      other reactants, joined by " + ", the arrow, and the products likewise. */
  lemma BuiltIsReactionString(reactants: seq<string>, otherReactants: seq<string>,
                              products: seq<string>, otherProducts: seq<string>)
    requires PlainNames(reactants) && PlainNames(otherReactants)
    requires PlainNames(products) && PlainNames(otherProducts)
    ensures Built(reactants, otherReactants, products, otherProducts)
         == ReactionString(reactants + otherReactants, products + otherProducts)
  {
    WalkBoth(reactants, otherReactants);
    var left := Walk(Walk(None, reactants), otherReactants);
    var l := Join(reactants + otherReactants);
    assert Cat(left, Arrow) == l + Arrow;
    var s := l + Arrow;
    assert EndsWith(s, Arrow) by {
      assert s[|s| - |Arrow|..] == Arrow;
    }
    WalkAfterArrow(s, products, otherProducts);
  }

  /** Libnucnet__Reaction__updateString: the four walks of the walker, one list after
      the other. */
  method UpdateString(reactants: seq<string>, otherReactants: seq<string>,
                      products: seq<string>, otherProducts: seq<string>) returns (str: string)
    ensures str == Built(reactants, otherReactants, products, otherProducts)
    ensures PlainNames(reactants) && PlainNames(otherReactants) && PlainNames(products) && PlainNames(otherProducts)
      ==> str == ReactionString(reactants + otherReactants, products + otherProducts)
  {
    var acc := WalkList(None, reactants);
    acc := WalkList(acc, otherReactants);
    acc := Some(Cat(acc, Arrow));
    acc := WalkList(acc, products);
    acc := WalkList(acc, otherProducts);
    str := if acc.Some? then acc.value else "";
    if PlainNames(reactants) && PlainNames(otherReactants) && PlainNames(products) && PlainNames(otherProducts) {
      BuiltIsReactionString(reactants, otherReactants, products, otherProducts);
    }
  }

  /** xmlListWalk with Libnucnet__Reaction__updateStringWalker over one list. */
  method WalkList(acc0: Option<string>, names: seq<string>) returns (acc: Option<string>)
    ensures acc == Walk(acc0, names)
  {
    acc := acc0;
    var i := 0;
    while i < |names|
      invariant 0 <= i <= |names| && Walk(acc0, names) == Walk(acc, names[i..])
    {
      assert names[i..][1..] == names[i + 1..];
      acc := Some(WalkStep(acc, names[i]));
      i := i + 1;
    }
  }

  // ---------------------------------------------------------------------------
  // Duplicate factors.
  // ---------------------------------------------------------------------------

  function Factorial(k: nat): (f: nat)
    ensures f >= 1
  {
    if k == 0 then 1 else k * Factorial(k - 1)
  }

  /** The duplicate factor addReactant and addProduct keep: each nuclide appended
      multiplies it by the number of times its name now occurs in the list. */
  function DuplicateFactor(s: seq<string>): nat
    decreases |s|
  {
    if s == [] then 1 else DuplicateFactor(s[..|s| - 1]) * multiset(s)[s[|s| - 1]]
  }

  /** A duplicate factor is never zero, so rates may be divided by it. */
  lemma {:induction false} DuplicateFactorPositive(s: seq<string>)
    ensures DuplicateFactor(s) >= 1
    decreases |s|
  {
    if s != [] {
      DuplicateFactorPositive(s[..|s| - 1]);
      assert s[|s| - 1] in multiset(s);
    }
  }

  /** The product, over the distinct names of m, of the factorial of each multiplicity. */
  ghost function FactorialProduct(m: multiset<string>): nat
    decreases |m|
  {
    if m == multiset{} then 1
    else
      var x :| x in m;
      assert m[x := 0] + multiset{}[x := m[x]] == m;
      Factorial(m[x]) * FactorialProduct(m[x := 0])
  }

  /** FactorialProduct does not depend on which name it takes first. */
  lemma {:induction false} FactorialProductAny(m: multiset<string>, z: string)
    requires z in m
    ensures FactorialProduct(m) == Factorial(m[z]) * FactorialProduct(m[z := 0])
    decreases |m|
  {
    var x :| x in m && FactorialProduct(m) == Factorial(m[x]) * FactorialProduct(m[x := 0]);
    if x != z {
      assert m[x := 0] + multiset{}[x := m[x]] == m;
      assert m[z := 0] + multiset{}[z := m[z]] == m;
      FactorialProductAny(m[x := 0], z);
      FactorialProductAny(m[z := 0], x);
      assert m[x := 0][z := 0] == m[z := 0][x := 0];
      Rearrange(Factorial(m[x]), Factorial(m[z]), FactorialProduct(m[x := 0][z := 0]));
    }
  }

  lemma Rearrange(a: int, b: int, c: int)
    ensures a * (b * c) == b * (a * c)
  {
  }

  /** One more copy of y multiplies the product by its new multiplicity. */
  lemma FactorialProductAdd(m: multiset<string>, y: string)
    ensures FactorialProduct(m + multiset{y}) == FactorialProduct(m) * (m[y] + 1)
  {
    var m' := m + multiset{y};
    var k := m[y];
    assert m'[y] == k + 1 && m'[y := 0] == m[y := 0];
    var r := FactorialProduct(m[y := 0]);
    assert FactorialProduct(m') == Factorial(k + 1) * r by {
      FactorialProductAny(m', y);
    }
    assert Factorial(k + 1) == (k + 1) * Factorial(k);
    if y in m {
      assert FactorialProduct(m) == Factorial(k) * r by {
        FactorialProductAny(m, y);
      }
      MulShuffle(k + 1, Factorial(k), r);
    } else {
      assert m[y := 0] == m;
    }
  }

  lemma MulShuffle(a: int, b: int, c: int)
    ensures (a * b) * c == (b * c) * a
  {
  }

  /** The duplicate factor is the product of the factorials of the multiplicities, so
      k copies of one nuclide give k!. */
  lemma {:induction false} DuplicateFactorIsFactorialProduct(s: seq<string>)
    ensures DuplicateFactor(s) == FactorialProduct(multiset(s))
    decreases |s|
  {
    if s != [] {
      var t, y := s[..|s| - 1], s[|s| - 1];
      assert s == t + [y];
      DuplicateFactorIsFactorialProduct(t);
      FactorialProductAdd(multiset(t), y);
    }
  }

  /** The duplicate factor depends only on which names occur how often, not on their order. */
  lemma DuplicateFactorOrderFree(s: seq<string>, t: seq<string>)
    requires multiset(s) == multiset(t)
    ensures DuplicateFactor(s) == DuplicateFactor(t)
  {
    DuplicateFactorIsFactorialProduct(s);
    DuplicateFactorIsFactorialProduct(t);
  }

  /** k identical nuclides give k!. */
  lemma {:induction false} DuplicateFactorRepeated(x: string, k: nat)
    ensures DuplicateFactor(seq(k, _ => x)) == Factorial(k)
  {
    if k > 0 {
      var s := seq(k, _ => x);
      assert s[..k - 1] == seq(k - 1, _ => x);
      DuplicateFactorRepeated(x, k - 1);
      MultiplicityRepeated(x, k);
      assert DuplicateFactor(s) == Factorial(k - 1) * k;
    }
  }

  lemma {:induction false} MultiplicityRepeated(x: string, k: nat)
    ensures multiset(seq(k, _ => x))[x] == k
  {
    if k > 0 {
      assert seq(k, _ => x) == seq(k - 1, _ => x) + [x];
      MultiplicityRepeated(x, k - 1);
    }
  }

  /** Distinct nuclides leave the factor at 1. */
  lemma {:induction false} DuplicateFactorDistinct(s: seq<string>)
    requires Distinct(s)
    ensures DuplicateFactor(s) == 1
  {
    if s != [] {
      var t, y := s[..|s| - 1], s[|s| - 1];
      assert s == t + [y];
      assert y !in t;
      DuplicateFactorDistinct(t);
    }
  }

  // ---------------------------------------------------------------------------
  // Classification.
  // ---------------------------------------------------------------------------

  /** How many elements of s are named a or b (an element named both counts twice, as in
      the walkers, which test the two names one after the other). */
  function CountNamed(s: seq<string>, a: string, b: string): (k: nat)
    ensures k <= 2 * |s|
  {
    if s == [] then 0
    else CountNamed(s[..|s| - 1], a, b) + (if s[|s| - 1] == a then 1 else 0) + (if s[|s| - 1] == b then 1 else 0)
  }

  /** A list holding neither name counts none. */
  lemma {:induction false} CountNamedAbsent(s: seq<string>, a: string, b: string)
    requires a !in s && b !in s
    ensures CountNamed(s, a, b) == 0
  {
    if s != [] {
      assert forall x | x in s[..|s| - 1] :: x in s;
      CountNamedAbsent(s[..|s| - 1], a, b);
    }
  }

  /** Some element of s is a lepton. */
  predicate HasLepton(s: seq<string>)
  {
    exists i | 0 <= i < |s| :: IsLepton(s[i])
  }

  /** A name counted by CountNamed for two lepton names is a lepton among the list. */
  lemma {:induction false} CountedLepton(s: seq<string>, a: string, b: string)
    requires IsLepton(a) && IsLepton(b) && CountNamed(s, a, b) > 0
    ensures HasLepton(s)
  {
    var t := s[..|s| - 1];
    if s[|s| - 1] != a && s[|s| - 1] != b {
      CountedLepton(t, a, b);
      var i :| 0 <= i < |t| && IsLepton(t[i]);
      assert s[i] == t[i];
    }
  }

  /** A list of nuclides followed by other elements holds a lepton exactly when the
      other elements do. */
  lemma HasLeptonAppend(nuclides: seq<string>, others: seq<string>)
    requires forall i | 0 <= i < |nuclides| :: IsNuclide(nuclides[i])
    ensures HasLepton(nuclides + others) <==> HasLepton(others)
  {
    var s := nuclides + others;
    if HasLepton(s) {
      var i :| 0 <= i < |s| && IsLepton(s[i]);
      assert !IsNuclide(s[i]);
      assert i >= |nuclides|;
      assert others[i - |nuclides|] == s[i];
    }
    if HasLepton(others) {
      var i :| 0 <= i < |others| && IsLepton(others[i]);
      assert s[|nuclides| + i] == others[i];
    }
  }

  /** The two sides of a reaction as Libnucnet__Reac__getDuplicateReactionsCallback sees
      them: all reactants and all products. */
  datatype Sides = Sides(reactants: seq<string>, products: seq<string>)

  // ---------------------------------------------------------------------------
  // Rate data.
  // ---------------------------------------------------------------------------

  const NonSmokerKey := "non_smoker_fit"
  const RateTableKey := "rate_table"
  const SingleRateKey := "single_rate"

  /** Libnucnet__Reac__is_user_defined_rate_function: a key other than the three built-in
      ones. */
  predicate IsUserDefinedRateFunction(key: string)
  {
    key != NonSmokerKey && key != RateTableKey && key != SingleRateKey
  }

  /** A user rate-function property is keyed by name, tag1 and tag2. */
  datatype PropertyKey = PropertyKey(name: string, tag1: Option<string>, tag2: Option<string>)

  /** A (T9, rate, stellar enhancement factor) row of a rate table. */
  type RateRow = (real, real, real)

  function RowT9(row: RateRow): real
  {
    row.0
  }

  datatype RateData =
    | NoRate
    | SingleRate(rate: real)
    | RateTable(rows: seq<RateRow>)
    | UserProperties(properties: map<PropertyKey, string>)

  /** The rate data follow the function key: a built-in key names its own kind of data,
      and a user-defined key comes with a property table. */
  predicate KeyMatches(key: Option<string>, rates: RateData)
  {
    match rates
    case NoRate => key.None?
    case SingleRate(_) => key == Some(SingleRateKey)
    case RateTable(_) => key == Some(RateTableKey)
    case UserProperties(_) => key.Some?
  }

  /** Libnucnet__Reaction__computeRateFromTable: the first rate at or below the first T9,
      the last rate at or above the last T9, and in between the interpolation (linear in
      log10 for two rows, a spline otherwise), given as a parameter. */
  function RateFromTable(rows: seq<RateRow>, t9: real, interior: (seq<RateRow>, real) -> real): real
    requires |rows| > 0
  {
    if t9 <= rows[0].0 then rows[0].1
    else if t9 >= rows[|rows| - 1].0 then rows[|rows| - 1].1
    else interior(rows, t9)
  }

  /** Outside a table whose T9 grows from first to last row the rate is flat. */
  lemma RateFromTableFlatOutside(rows: seq<RateRow>, t9: real, interior: (seq<RateRow>, real) -> real)
    requires |rows| > 0 && rows[0].0 < rows[|rows| - 1].0
    ensures t9 <= rows[0].0 ==> RateFromTable(rows, t9, interior) == RateFromTable(rows, rows[0].0, interior) == rows[0].1
    ensures t9 >= rows[|rows| - 1].0 ==>
      RateFromTable(rows, t9, interior) == RateFromTable(rows, rows[|rows| - 1].0, interior) == rows[|rows| - 1].1
  {
  }

  /** The temperature a non-smoker fit is evaluated at: T9 clamped into [low, high]. */
  function NonSmokerT9(t9: real, low: real, high: real): (t: real)
    ensures low <= high ==> low <= t <= high
    ensures low <= t9 <= high ==> t == t9
    ensures t9 < low ==> t == low
    ensures t9 > high && t9 >= low ==> t == high
  {
    if t9 < low then low else if t9 > high then high else t9
  }

  // ---------------------------------------------------------------------------
  // A reaction.
  // ---------------------------------------------------------------------------

  /** Every element of s is a nuclide. */
  predicate AllNuclides(s: seq<string>)
  {
    forall i | 0 <= i < |s| :: IsNuclide(s[i])
  }

  /** No element of s is a nuclide. */
  predicate NoNuclides(s: seq<string>)
  {
    forall i | 0 <= i < |s| :: !IsNuclide(s[i])
  }

  /** The string a reaction holds for its lists: none before the first element. */
  function StringOf(reactants: seq<string>, otherReactants: seq<string>,
                    products: seq<string>, otherProducts: seq<string>): Option<string>
  {
    if |reactants| + |otherReactants| + |products| + |otherProducts| == 0 then None
    else Some(Built(reactants, otherReactants, products, otherProducts))
  }

  /** The lists of one side after an element joins it: a nuclide goes to the nuclide
      list, anything else to the other list. */
  function AddedTo(nuclides: seq<string>, others: seq<string>, name: string): (seq<string>, seq<string>)
  {
    if IsNuclide(name) then (nuclides + [name], others) else (nuclides, others + [name])
  }

  /** Adding an element keeps nuclides and other elements apart, adds exactly that
      element to the side, and multiplies the duplicate factor by the new multiplicity
      of a nuclide (leaving it alone otherwise). */
  lemma AddedToSide(nuclides: seq<string>, others: seq<string>, name: string)
    requires AllNuclides(nuclides) && NoNuclides(others)
    ensures AllNuclides(AddedTo(nuclides, others, name).0) && NoNuclides(AddedTo(nuclides, others, name).1)
    ensures multiset(AddedTo(nuclides, others, name).0 + AddedTo(nuclides, others, name).1)
         == multiset(nuclides + others) + multiset{name}
    ensures IsNuclide(name) ==>
      DuplicateFactor(AddedTo(nuclides, others, name).0)
      == DuplicateFactor(nuclides) * multiset(AddedTo(nuclides, others, name).0)[name]
    ensures !IsNuclide(name) ==> DuplicateFactor(AddedTo(nuclides, others, name).0) == DuplicateFactor(nuclides)
  {
    var (n, o) := AddedTo(nuclides, others, name);
    if IsNuclide(name) {
      assert n[..|n| - 1] == nuclides;
    }
  }

  /** One side of a reaction after an element joins it: a nuclide goes to the nuclide
      list and multiplies the factor by its new multiplicity, anything else goes to the
      other list. */
  method AddToSide(nuclides: seq<string>, others: seq<string>, factor: nat, name: string)
    returns (nuclides': seq<string>, others': seq<string>, factor': nat)
    requires AllNuclides(nuclides) && NoNuclides(others) && factor == DuplicateFactor(nuclides)
    ensures AllNuclides(nuclides') && NoNuclides(others') && factor' == DuplicateFactor(nuclides')
    ensures (nuclides', others') == AddedTo(nuclides, others, name)
  {
    AddedToSide(nuclides, others, name);
    if IsNuclide(name) {
      nuclides', others' := nuclides + [name], others;
      var k := CountOccurrences(nuclides', name);
      factor' := factor * k;
    } else {
      nuclides', others', factor' := nuclides, others + [name], factor;
    }
  }

  /** The lists and factors of a reaction agree: nuclides and other elements are in their
      own lists and the factors are the duplicate factors of the nuclide lists. */
  ghost predicate Consistent(reactants: seq<string>, otherReactants: seq<string>,
                             products: seq<string>, otherProducts: seq<string>,
                             reactantFactor: nat, productFactor: nat)
  {
    && AllNuclides(reactants) && NoNuclides(otherReactants)
    && AllNuclides(products) && NoNuclides(otherProducts)
    && reactantFactor == DuplicateFactor(reactants)
    && productFactor == DuplicateFactor(products)
  }

  /** Libnucnet__Reaction__addReactant on the values of a reaction. */
  method AddReactantTo(reactants: seq<string>, otherReactants: seq<string>,
                       products: seq<string>, otherProducts: seq<string>,
                       reactantFactor: nat, productFactor: nat, name: string)
    returns (reactants': seq<string>, otherReactants': seq<string>, str': string, reactantFactor': nat)
    requires Consistent(reactants, otherReactants, products, otherProducts, reactantFactor, productFactor)
    ensures Consistent(reactants', otherReactants', products, otherProducts, reactantFactor', productFactor)
    ensures Some(str') == StringOf(reactants', otherReactants', products, otherProducts)
    ensures (reactants', otherReactants') == AddedTo(reactants, otherReactants, name)
  {
    reactants', otherReactants', reactantFactor' := AddToSide(reactants, otherReactants, reactantFactor, name);
    str' := UpdateString(reactants', otherReactants', products, otherProducts);
  }

  /** Libnucnet__Reaction__addProduct on the values of a reaction. */
  method AddProductTo(reactants: seq<string>, otherReactants: seq<string>,
                      products: seq<string>, otherProducts: seq<string>,
                      reactantFactor: nat, productFactor: nat, name: string)
    returns (products': seq<string>, otherProducts': seq<string>, str': string, productFactor': nat)
    requires Consistent(reactants, otherReactants, products, otherProducts, reactantFactor, productFactor)
    ensures Consistent(reactants, otherReactants, products', otherProducts', reactantFactor, productFactor')
    ensures Some(str') == StringOf(reactants, otherReactants, products', otherProducts')
    ensures (products', otherProducts') == AddedTo(products, otherProducts, name)
  {
    products', otherProducts', productFactor' := AddToSide(products, otherProducts, productFactor, name);
    str' := UpdateString(reactants, otherReactants, products', otherProducts');
  }

  /** A Libnucnet__Reaction: the four element lists, its string, the duplicate factors and
      its rate data. */
  class Reaction {
    var reactants: seq<string>
    var otherReactants: seq<string>
    var products: seq<string>
    var otherProducts: seq<string>
    var str: Option<string>
    var duplicateReactantFactor: nat
    var duplicateProductFactor: nat
    var key: Option<string>
    var rates: RateData

    /** The lists and the factors agree. */
    ghost predicate ListsValid()
      reads this`reactants, this`otherReactants, this`products, this`otherProducts
      reads this`duplicateReactantFactor, this`duplicateProductFactor
    {
      Consistent(reactants, otherReactants, products, otherProducts,
                 duplicateReactantFactor, duplicateProductFactor)
    }

    /** The lists and the factors agree, and the string is the walk over the lists. */
    ghost predicate Valid()
      reads this`reactants, this`otherReactants, this`products, this`otherProducts, this`str
      reads this`duplicateReactantFactor, this`duplicateProductFactor
    {
      ListsValid() && str == StringOf(reactants, otherReactants, products, otherProducts)
    }

    /** Libnucnet__Reaction__new: no elements, no string, factors 1, no rate data. */
    constructor()
      ensures Valid() && str.None? && key.None? && rates == NoRate
      ensures reactants == otherReactants == products == otherProducts == []
      ensures duplicateReactantFactor == duplicateProductFactor == 1
    {
      reactants, otherReactants, products, otherProducts := [], [], [], [];
      str := None;
      duplicateReactantFactor, duplicateProductFactor := 1, 1;
      key, rates := None, NoRate;
    }

    /** Libnucnet__Reaction__addReactant: the element joins the reactant side; the string
        is rebuilt from the lists and the duplicate factor follows (AddedToSide says
        how). */
    method AddReactant(name: string)
      requires ListsValid()
      modifies this
      ensures Valid()
      ensures reactants == AddedTo(old(reactants), old(otherReactants), name).0
      ensures otherReactants == AddedTo(old(reactants), old(otherReactants), name).1
      ensures products == old(products) && otherProducts == old(otherProducts)
      ensures key == old(key) && rates == old(rates)
    {
      var r, o, s, f := AddReactantTo(reactants, otherReactants, products, otherProducts,
                                      duplicateReactantFactor, duplicateProductFactor, name);
      reactants, otherReactants, duplicateReactantFactor, str := r, o, f, Some(s);
    }

    /** Libnucnet__Reaction__addProduct: the element joins the product side; the string
        and the duplicate factor follow. */
    method AddProduct(name: string)
      requires ListsValid()
      modifies this
      ensures Valid()
      ensures products == AddedTo(old(products), old(otherProducts), name).0
      ensures otherProducts == AddedTo(old(products), old(otherProducts), name).1
      ensures reactants == old(reactants) && otherReactants == old(otherReactants)
      ensures key == old(key) && rates == old(rates)
    {
      var p, o, s, f := AddProductTo(reactants, otherReactants, products, otherProducts,
                                     duplicateReactantFactor, duplicateProductFactor, name);
      products, otherProducts, duplicateProductFactor, str := p, o, f, Some(s);
    }

    /** Both sides, each with its nuclides first. */
    function GetSides(): (sd: Sides)
      reads this
      ensures multiset(sd.reactants) == multiset(reactants) + multiset(otherReactants)
      ensures multiset(sd.products) == multiset(products) + multiset(otherProducts)
    {
      Sides(reactants + otherReactants, products + otherProducts)
    }

    /** Libnucnet__Reaction__isWeak: a lepton among the other reactants or the other
        products. */
    function IsWeak(): bool
      reads this
    {
      HasLepton(otherReactants) || HasLepton(otherProducts)
    }

    /** Libnucnet__Reaction__isBetaPlus: neutrino_e and positron occur twice in all among
        the other products. */
    function IsBetaPlus(): bool
      reads this
    {
      CountNamed(otherProducts, ElectronNeutrino, Positron) == 2
    }

    /** Libnucnet__Reaction__isPositronCapture: anti-neutrino_e or positron exactly once
        among the other reactants and exactly once among the other products. */
    function IsPositronCapture(): bool
      reads this
    {
      CountNamed(otherReactants, ElectronAntineutrino, Positron) == 1
      && CountNamed(otherProducts, ElectronAntineutrino, Positron) == 1
    }

    /** Looking at the other lists only is enough: a reaction is weak exactly when a lepton
        appears anywhere in it. */
    lemma IsWeakAnywhere()
      requires Valid()
      ensures IsWeak() <==> HasLepton(reactants + otherReactants) || HasLepton(products + otherProducts)
    {
      HasLeptonAppend(reactants, otherReactants);
      HasLeptonAppend(products, otherProducts);
    }

    /** Beta-plus decays and positron captures are weak reactions. */
    lemma ClassifiedWeak()
      ensures IsBetaPlus() ==> IsWeak()
      ensures IsPositronCapture() ==> IsWeak()
    {
      if IsBetaPlus() {
        ListedAt(Leptons, 0);
        ListedAt(Leptons, 1);
        CountedLepton(otherProducts, ElectronNeutrino, Positron);
      }
      if IsPositronCapture() {
        ListedAt(Leptons, 0);
        ListedAt(Leptons, 2);
        CountedLepton(otherProducts, ElectronAntineutrino, Positron);
      }
    }

    /** Libnucnet__Reaction__setUserRateFunctionKey: setting a key twice is a fatal error;
        the rate data become an empty property table. */
    method SetUserRateFunctionKey(k: string)
      requires Valid() && key.None?
      modifies this
      ensures Valid() && key == Some(k) && rates == UserProperties(map[]) && KeyMatches(key, rates)
      ensures reactants == old(reactants) && otherReactants == old(otherReactants)
      ensures products == old(products) && otherProducts == old(otherProducts) && str == old(str)
      ensures duplicateReactantFactor == old(duplicateReactantFactor)
      ensures duplicateProductFactor == old(duplicateProductFactor)
    {
      key := Some(k);
      rates := UserProperties(map[]);
    }

    /** Libnucnet__Reaction__updateUserRateFunctionProperty: 0 without a user-defined rate
        function; otherwise the property is stored (replacing any earlier value) and 1 is
        returned.  A reaction without a key is a fatal error, and a user-defined key always
        comes with its property table. */
    method UpdateUserRateFunctionProperty(name: string, tag1: Option<string>, tag2: Option<string>, value: string)
      returns (status: int)
      requires Valid() && key.Some? && (IsUserDefinedRateFunction(key.value) ==> rates.UserProperties?)
      modifies this
      ensures Valid() && key == old(key)
      ensures !IsUserDefinedRateFunction(key.value) ==> status == 0 && rates == old(rates)
      ensures IsUserDefinedRateFunction(key.value) ==>
        status == 1 && rates == UserProperties(old(rates).properties[PropertyKey(name, tag1, tag2) := value])
      ensures reactants == old(reactants) && otherReactants == old(otherReactants)
      ensures products == old(products) && otherProducts == old(otherProducts) && str == old(str)
      ensures duplicateReactantFactor == old(duplicateReactantFactor)
      ensures duplicateProductFactor == old(duplicateProductFactor)
    {
      if !IsUserDefinedRateFunction(key.value) {
        return 0;
      }
      rates := UserProperties(rates.properties[PropertyKey(name, tag1, tag2) := value]);
      status := 1;
    }

    /** Libnucnet__Reaction__updateSingleRate: the key becomes single_rate. */
    method UpdateSingleRate(forward: real)
      requires Valid()
      modifies this
      ensures Valid() && key == Some(SingleRateKey) && rates == SingleRate(forward) && KeyMatches(key, rates)
      ensures reactants == old(reactants) && otherReactants == old(otherReactants)
      ensures products == old(products) && otherProducts == old(otherProducts) && str == old(str)
      ensures duplicateReactantFactor == old(duplicateReactantFactor)
      ensures duplicateProductFactor == old(duplicateProductFactor)
    {
      key := Some(SingleRateKey);
      rates := SingleRate(forward);
    }

    /** Libnucnet__Reaction__updateRateTable: arrays of different lengths are a fatal
        error; the rows are stored in order of T9, each row kept whole. */
    method UpdateRateTable(t9: seq<real>, rate: seq<real>, sef: seq<real>)
      requires Valid() && |t9| == |rate| == |sef| > 0
      modifies this
      ensures Valid() && key == Some(RateTableKey) && rates.RateTable? && KeyMatches(key, rates)
      ensures SortedByKey(rates.rows, RowT9)
      ensures multiset(rates.rows) == multiset(seq(|t9|, i requires 0 <= i < |t9| => (t9[i], rate[i], sef[i])))
      ensures reactants == old(reactants) && otherReactants == old(otherReactants)
      ensures products == old(products) && otherProducts == old(otherProducts) && str == old(str)
      ensures duplicateReactantFactor == old(duplicateReactantFactor)
      ensures duplicateProductFactor == old(duplicateProductFactor)
    {
      var rows := SortByKey(seq(|t9|, i requires 0 <= i < |t9| => (t9[i], rate[i], sef[i])), RowT9);
      key := Some(RateTableKey);
      rates := RateTable(rows);
    }
  }

  /** A Libnucnet__Reac: the reactions keyed by their strings, the registered rate
      function keys and the update counter that every successful change advances. */
  class Reac {
    var reactions: map<string, Reaction>
    var functions: set<string>
    var update: nat

    /** Every stored reaction sits under its own string. */
    ghost predicate Keyed()
      reads this`reactions, set s | s in reactions :: reactions[s]
    {
      forall s | s in reactions :: reactions[s].str == Some(s)
    }

    /** Libnucnet__Reac__new: no reactions, the counter at 1 and then the three built-in
        rate functions registered, each advancing the counter. */
    constructor()
      ensures reactions == map[] && Keyed()
      ensures functions == {SingleRateKey, NonSmokerKey, RateTableKey} && update == 4
    {
      reactions, functions, update := map[], {}, 1;
      new;
      RegisterRateFunction(SingleRateKey);
      RegisterRateFunction(NonSmokerKey);
      RegisterRateFunction(RateTableKey);
    }

    /** Libnucnet__Reac__registerRateFunction: registering (or replacing) a key always
        succeeds and advances the counter. */
    method RegisterRateFunction(k: string)
      modifies this`functions, this`update
      ensures functions == old(functions) + {k} && update == old(update) + 1
    {
      functions := functions + {k};
      update := update + 1;
    }

    /** Libnucnet__Reac__getReactionByString: the reaction stored under the string, if
        any. */
    function GetReactionByString(s: string): (r: Option<Reaction>)
      reads this`reactions
      ensures r.Some? <==> s in reactions
      ensures r.Some? ==> r.value == reactions[s]
    {
      if s in reactions then Some(reactions[s]) else None
    }

    /** Libnucnet__Reac__getNumberOfReactions. */
    function NumberOfReactions(): (n: nat)
      reads this`reactions
      ensures n == |reactions.Keys|
    {
      |reactions|
    }

    /** Libnucnet__Reac__addReaction: a reaction without a string, or one whose string is
        already stored, is refused with 0; otherwise it is stored, the counter advances
        and 1 is returned. */
    method AddReaction(r: Reaction) returns (status: int)
      modifies this`reactions, this`update
      ensures r.str.None? || r.str.value in old(reactions) ==>
        status == 0 && reactions == old(reactions) && update == old(update)
      ensures r.str.Some? && r.str.value !in old(reactions) ==>
        && status == 1 && reactions == old(reactions)[r.str.value := r] && update == old(update) + 1
        && NumberOfReactions() == old(NumberOfReactions()) + 1
        && GetReactionByString(r.str.value) == Some(r)
      ensures old(Keyed()) ==> Keyed()
    {
      if r.str.None? || r.str.value in reactions {
        return 0;
      }
      reactions := reactions[r.str.value := r];
      update := update + 1;
      status := 1;
    }

    /** Libnucnet__Reac__updateReaction: storing the very object already stored under its
        string, or a reaction without a string, changes nothing and returns 0; otherwise
        the reaction is stored (replacing any other one under the same string), the
        counter advances and 1 is returned. */
    method UpdateReaction(r: Reaction) returns (status: int)
      modifies this`reactions, this`update
      ensures r.str.None? || old(GetReactionByString(r.str.value)) == Some(r) ==>
        status == 0 && reactions == old(reactions) && update == old(update)
      ensures r.str.Some? && old(GetReactionByString(r.str.value)) != Some(r) ==>
        && status == 1 && reactions == old(reactions)[r.str.value := r] && update == old(update) + 1
        && GetReactionByString(r.str.value) == Some(r)
      ensures old(Keyed()) ==> Keyed()
    {
      if r.str.None? || GetReactionByString(r.str.value) == Some(r) {
        return 0;
      }
      reactions := reactions[r.str.value := r];
      update := update + 1;
      status := 1;
    }

    /** Libnucnet__Reac__removeReaction: whatever is stored under the reaction's string is
        removed, the counter advances and 1 is returned; 0 when nothing is stored there. */
    method RemoveReaction(r: Reaction) returns (status: int)
      modifies this`reactions, this`update
      ensures r.str.None? || r.str.value !in old(reactions) ==>
        status == 0 && reactions == old(reactions) && update == old(update)
      ensures r.str.Some? && r.str.value in old(reactions) ==>
        && status == 1 && reactions == old(reactions) - {r.str.value} && update == old(update) + 1
        && NumberOfReactions() + 1 == old(NumberOfReactions())
        && GetReactionByString(r.str.value).None?
      ensures old(Keyed()) ==> Keyed()
    {
      if r.str.None? || r.str.value !in reactions {
        return 0;
      }
      reactions := reactions - {r.str.value};
      update := update + 1;
      status := 1;
    }
  }
}
