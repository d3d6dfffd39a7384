// The nuclear species collection of libnucnet
// (vendor/libnucnet/0.28/src/Libnucnet__Nuc.c).
//
// A species is keyed by its name, which is generated from (Z, A) and an
// optional state suffix ("he4", "nn", "al26g", "uue300").  Every species
// carries a dense index: the indices of a collection are exactly 0 .. n - 1.

module Nuc {
  import opened Common

  // ---------------------------------------------------------------------------
  // Species names.
  // ---------------------------------------------------------------------------

  /** The lower-case element names for Z = 0 .. 116 (Z = 0 is the neutron; "n" is also nitrogen). */
  const ElementSymbols: seq<string> := [
    "n",
    "h", "he", "li", "be", "b", "c", "n", "o", "f", "ne",
    "na", "mg", "al", "si", "p", "s", "cl", "ar", "k", "ca",
    "sc", "ti", "v", "cr", "mn", "fe", "co", "ni", "cu", "zn",
    "ga", "ge", "as", "se", "br", "kr", "rb", "sr", "y", "zr",
    "nb", "mo", "tc", "ru", "rh", "pd", "ag", "cd", "in", "sn",
    "sb", "te", "i", "xe", "cs", "ba", "la", "ce", "pr", "nd",
    "pm", "sm", "eu", "gd", "tb", "dy", "ho", "er", "tm", "yb",
    "lu", "hf", "ta", "w", "re", "os", "ir", "pt", "au", "hg",
    "tl", "pb", "bi", "po", "at", "rn", "fr", "ra", "ac", "th",
    "pa", "u", "np", "pu", "am", "cm", "bk", "cf", "es", "fm",
    "md", "no", "lr", "rf", "db", "sg", "bh", "hs", "mt", "ds",
    "rg", "cn", "uut", "fl", "uup", "lv"
  ]

  /** The largest Z with a tabulated element name. */
  const LastTabulatedZ := 116

  /** The placeholder letters for the decimal digits 0 .. 9. */
  const DigitLetters: string := "nubtqphsoe"

  /** The placeholder element name of Z: one letter per decimal digit, most significant first. */
  function UnassignedName(z: nat): (r: string)
    ensures forall i | 0 <= i < |r| :: r[i] in DigitLetters
  {
    if z == 0 then "" else UnassignedName(z / 10) + [DigitLetters[z % 10]]
  }

  /** The digit a placeholder letter stands for. */
  function LetterDigit(c: char): (d: nat)
    requires c in DigitLetters
    ensures d < 10 && DigitLetters[d] == c
  {
    if c == 'n' then 0 else if c == 'u' then 1 else if c == 'b' then 2
    else if c == 't' then 3 else if c == 'q' then 4 else if c == 'p' then 5
    else if c == 'h' then 6 else if c == 's' then 7 else if c == 'o' then 8 else 9
  }

  /** The number a placeholder element name spells. */
  function UnassignedValue(s: string): nat
    requires forall i | 0 <= i < |s| :: s[i] in DigitLetters
  {
    if |s| == 0 then 0 else 10 * UnassignedValue(s[..|s| - 1]) + LetterDigit(s[|s| - 1])
  }

  /** Reading a placeholder name gives Z back, so distinct Z get distinct names. */
  lemma {:induction false} UnassignedRoundTrip(z: nat)
    ensures UnassignedValue(UnassignedName(z)) == z
  {
    if z > 0 {
      var r := UnassignedName(z);
      assert r[..|r| - 1] == UnassignedName(z / 10);
      assert r[|r| - 1] == DigitLetters[z % 10];
      LetterDigitInverse(z % 10);
      UnassignedRoundTrip(z / 10);
    }
  }

  lemma LetterDigitInverse(d: nat)
    requires d < 10
    ensures LetterDigit(DigitLetters[d]) == d
  {
  }

  /** Libnucnet__Nuc__create_unassigned_element_name: the digit letters are first
      appended least significant first, then copied out in reverse. */
  method CreateUnassignedElementName(z: nat) returns (name: string)
    ensures name == UnassignedName(z)
  {
    var rev := DigitLettersBackwards(z);
    name := CopyReversed(rev);
  }

  /** The first loop: the digit letters of z, least significant first. */
  method DigitLettersBackwards(z: nat) returns (rev: string)
    ensures Reversed(rev) == UnassignedName(z)
  {
    rev := "";
    var k := z;
    while k != 0
      invariant UnassignedName(z) == UnassignedName(k) + Reversed(rev)
      decreases k
    {
      rev := rev + [DigitLetters[k % 10]];
      assert Reversed(rev) == [DigitLetters[k % 10]] + Reversed(rev[..|rev| - 1]);
      k := k / 10;
    }
  }

  /** The second loop: the letters copied out from the last to the first. */
  method CopyReversed(rev: string) returns (name: string)
    ensures name == Reversed(rev)
  {
    name := "";
    var i := |rev| - 1;
    assert rev[..i + 1] == rev;
    while i >= 0
      invariant -1 <= i < |rev|
      invariant name + Reversed(rev[..i + 1]) == Reversed(rev)
    {
      assert rev[..i + 1] == rev[..i] + [rev[i]];
      name := name + [rev[i]];
      i := i - 1;
    }
  }

  /** s read backwards. */
  function Reversed(s: string): (r: string)
    ensures |r| == |s|
  {
    if |s| == 0 then "" else [s[|s| - 1]] + Reversed(s[..|s| - 1])
  }

  /** Libnucnet__Nuc__create_species_name: the element name followed by decimal A;
      the neutron is "n" (A = 1) or "nn" (A = 2); A = 0 gives no name.
      A neutron cluster with A > 2 is a fatal error. */
  function CreateSpeciesName(z: nat, a: nat): (r: Option<string>)
    requires !(z == 0 && a > 2)
  {
    if a == 0 then None
    else if z == 0 then Some(if a == 2 then "nn" else "n")
    else Some(ElementName(z) + DecimalString(a))
  }

  /** Within one element, different mass numbers give different names. */
  lemma SpeciesNameDeterminesMassNumber(z: nat, a1: nat, a2: nat)
    requires !(z == 0 && a1 > 2) && !(z == 0 && a2 > 2)
    requires CreateSpeciesName(z, a1) == CreateSpeciesName(z, a2)
    ensures a1 == a2
  {
    if a1 > 0 && a2 > 0 && z > 0 {
      var e := ElementName(z);
      assert e + DecimalString(a1) == e + DecimalString(a2);
      assert DecimalString(a1) == (e + DecimalString(a1))[|e|..];
      assert DecimalString(a2) == (e + DecimalString(a2))[|e|..];
      DecimalStringInjective(a1, a2);
    }
  }

  /** 119 is spelled u-u-e. */
  lemma UnassignedNameOf119()
    ensures UnassignedName(119) == "uue"
  {
  }

  /** The element name of Z: tabulated up to Z = 116, the placeholder name beyond. */
  function ElementName(z: nat): string
  {
    if z <= LastTabulatedZ then ElementSymbols[z] else UnassignedName(z)
  }

  // ---------------------------------------------------------------------------
  // Species.
  // ---------------------------------------------------------------------------

  /** The state flag value meaning "this species has no separate states". */
  const SingleState := 0

  /** The tabulated partition function: T9 values and log10 of the partition function. */
  datatype PartitionTable = PartitionTable(t9: seq<real>, log10Partf: seq<real>)

  /** A Libnucnet__Species. */
  datatype Species = Species(
    z: nat, a: nat, name: string, baseName: string, state: Option<string>,
    source: Option<string>, massExcess: real, spin: real, index: nat,
    partf: Option<PartitionTable>)

  /** The key of a species: the base name, followed by the state when the flag is not SingleState. */
  function SpeciesName(baseName: string, stateFlag: int, state: Option<string>): (name: string)
    ensures stateFlag == SingleState || state.None? ==> name == baseName
    ensures stateFlag != SingleState && state.Some? ==> name == baseName + state.value
  {
    if stateFlag != SingleState && state.Some? then baseName + state.value else baseName
  }

  // ---------------------------------------------------------------------------
  // Partition-function data.
  // ---------------------------------------------------------------------------

  /** The (T9, log10 partf) pairs of two equally long arrays. */
  function Zip(t9: seq<real>, lp: seq<real>): (ps: seq<(real, real)>)
    requires |t9| == |lp|
    ensures |ps| == |t9| && forall i | 0 <= i < |ps| :: ps[i] == (t9[i], lp[i])
  {
    seq(|t9|, i requires 0 <= i < |t9| => (t9[i], lp[i]))
  }

  /** The temperature of a (T9, log10 partf) pair. */
  function T9Of(p: (real, real)): real
  {
    p.0
  }

  /** Libnucnet__Species__updatePartitionFunctionData: with neither array the species
      is unchanged; otherwise its table becomes the pairs sorted by T9.  Arrays of
      different lengths (or of length 0, which GSL refuses to allocate) are fatal errors. */
  method UpdatePartitionFunctionData(sp: Species, t9: Option<seq<real>>, lp: Option<seq<real>>) returns (r: Species)
    requires t9.None? <==> lp.None?
    requires t9.Some? ==> |t9.value| == |lp.value| > 0
    ensures t9.None? ==> r == sp
    ensures t9.Some? ==>
      && r.partf.Some? && r == sp.(partf := r.partf)
      && |r.partf.value.t9| == |r.partf.value.log10Partf| == |t9.value|
      && SortedByKey(Zip(r.partf.value.t9, r.partf.value.log10Partf), T9Of)
      && multiset(Zip(r.partf.value.t9, r.partf.value.log10Partf)) == multiset(Zip(t9.value, lp.value))
  {
    if t9.None? {
      return sp;
    }
    var ps := SortByKey(Zip(t9.value, lp.value), T9Of);
    var ts := seq(|ps|, i requires 0 <= i < |ps| => ps[i].0);
    var ls := seq(|ps|, i requires 0 <= i < |ps| => ps[i].1);
    assert Zip(ts, ls) == ps;
    assert |ps| == |t9.value| by {
      assert |multiset(ps)| == |multiset(Zip(t9.value, lp.value))|;
    }
    r := sp.(partf := Some(PartitionTable(ts, ls)));
  }

  /** A table the partition function can read: equally long, non-empty arrays. */
  ghost predicate UsableTable(sp: Species)
  {
    sp.partf.Some? ==> |sp.partf.value.t9| == |sp.partf.value.log10Partf| > 0
  }

  /** The exponent Libnucnet__Species__computePartitionFunction raises 10 to: the end
      values outside the table, a straight line for a two-point table, and the
      spline (a parameter) otherwise. */
  function PartitionExponent(tab: PartitionTable, t9: real, spline: (seq<real>, seq<real>, real) -> real): real
    requires |tab.t9| == |tab.log10Partf| > 0
  {
    var t, l, n := tab.t9, tab.log10Partf, |tab.t9|;
    if t9 <= t[0] then l[0]
    else if t9 >= t[n - 1] then l[n - 1]
    else if n == 2 then l[0] + (t9 - t[0]) * (l[1] - l[0]) / (t[1] - t[0])
    else spline(t, l, t9)
  }

  /** Libnucnet__Species__computePartitionFunction: (2 spin + 1) without a table, and
      (2 spin + 1) 10^exponent with one.  A negative T9 is a fatal error. */
  function ComputePartitionFunction(sp: Species, t9: real, pow10: real -> real,
                                    spline: (seq<real>, seq<real>, real) -> real): (g: real)
    requires t9 >= 0.0 && UsableTable(sp)
    ensures sp.partf.None? ==> g == 2.0 * sp.spin + 1.0
  {
    if sp.partf.None? then 2.0 * sp.spin + 1.0
    else (2.0 * sp.spin + 1.0) * pow10(PartitionExponent(sp.partf.value, t9, spline))
  }

  /** Outside a sorted table the partition function is flat: below the first T9 it equals
      its value at the first T9, above the last T9 its value at the last T9. */
  lemma PartitionFunctionFlatOutside(sp: Species, t9: real, pow10: real -> real,
                                     spline: (seq<real>, seq<real>, real) -> real)
    requires t9 >= 0.0 && UsableTable(sp) && sp.partf.Some?
    requires sp.partf.value.t9[0] >= 0.0
    requires sp.partf.value.t9[0] < sp.partf.value.t9[|sp.partf.value.t9| - 1]
    ensures var t := sp.partf.value.t9;
      (t9 <= t[0] ==> ComputePartitionFunction(sp, t9, pow10, spline) == ComputePartitionFunction(sp, t[0], pow10, spline))
      && (t9 >= t[|t| - 1] ==> ComputePartitionFunction(sp, t9, pow10, spline) == ComputePartitionFunction(sp, t[|t| - 1], pow10, spline))
  {
  }

  // ---------------------------------------------------------------------------
  // Comparators.
  // ---------------------------------------------------------------------------

  /** Z first, then A, then the name in byte order. */
  predicate SpeciesLess(s1: Species, s2: Species)
  {
    s1.z < s2.z || (s1.z == s2.z && s1.a < s2.a) || (s1.z == s2.z && s1.a == s2.a && StrLess(s1.name, s2.name))
  }

  /** Libnucnet__Species__default_compare_function. */
  function DefaultCompare(s1: Species, s2: Species): (r: int)
    ensures r == -1 <==> SpeciesLess(s1, s2)
    ensures r == 1 <==> SpeciesLess(s2, s1)
    ensures r == 0 <==> s1.z == s2.z && s1.a == s2.a && s1.name == s2.name
  {
    StrLessTotal(s1.name, s2.name);
    if s1.z < s2.z then -1
    else if s1.z > s2.z then 1
    else if s1.a < s2.a then -1
    else if s1.a > s2.a then 1
    else Strcmp(s1.name, s2.name)
  }

  /** The default order is a strict total order on species of distinct names. */
  lemma SpeciesLessStrictTotal(s1: Species, s2: Species, s3: Species)
    ensures !SpeciesLess(s1, s1)
    ensures s1.name != s2.name ==> SpeciesLess(s1, s2) || SpeciesLess(s2, s1)
    ensures SpeciesLess(s1, s2) ==> !SpeciesLess(s2, s1)
    ensures SpeciesLess(s1, s2) && SpeciesLess(s2, s3) ==> SpeciesLess(s1, s3)
  {
    StrLessTotal(s1.name, s2.name);
    StrLessTotal(s1.name, s1.name);
    if SpeciesLess(s1, s2) && SpeciesLess(s2, s3) && s1.z == s3.z && s1.a == s3.a {
      StrLessTransitive(s1.name, s2.name, s3.name);
    }
  }

  /** Libnucnet__Species__index_compare_function: -1 for a smaller index, 1 otherwise
      (never 0). */
  function IndexCompare(s1: Species, s2: Species): (r: int)
    ensures r == -1 <==> s1.index < s2.index
    ensures r == 1 <==> s1.index >= s2.index
  {
    if s1.index < s2.index then -1 else 1
  }

  /** The orders a collection is listed in: by index (createSpeciesArray), by the
      default compare, or by a compare function the user set (sortSpecies). */
  datatype SpeciesOrder = ByIndex | ByDefaultCompare | ByCompare(cmp: (Species, Species) -> int)

  /** s1 comes first: the compare function returns a negative value, as qsort reads it. */
  predicate Precedes(ord: SpeciesOrder, s1: Species, s2: Species)
  {
    match ord
    case ByIndex => IndexCompare(s1, s2) == -1
    case ByDefaultCompare => DefaultCompare(s1, s2) == -1
    case ByCompare(cmp) => cmp(s1, s2) < 0
  }

  /** The order is irreflexive and transitive, which the two built-in compare functions
      are and qsort demands of a user's. */
  ghost predicate StrictOrdering(ord: SpeciesOrder)
  {
    ord.ByCompare? ==>
      && (forall s :: !(ord.cmp(s, s) < 0))
      && (forall s1, s2, s3 | ord.cmp(s1, s2) < 0 && ord.cmp(s2, s3) < 0 :: ord.cmp(s1, s3) < 0)
  }

  // ---------------------------------------------------------------------------
  // Listing a collection.
  // ---------------------------------------------------------------------------

  /** Every species is stored under its own name. */
  ghost predicate KeyedByName(m: map<string, Species>)
  {
    forall n | n in m :: m[n].name == n
  }

  /** Any two distinct stored species are ordered one way or the other. */
  ghost predicate Comparable(m: map<string, Species>, ord: SpeciesOrder)
  {
    forall x, y | x in m && y in m && x != y :: Precedes(ord, m[x], m[y]) || Precedes(ord, m[y], m[x])
  }

  /** names lists keys of m in strictly increasing order. */
  ghost predicate ListedInOrder(m: map<string, Species>, names: seq<string>, ord: SpeciesOrder)
  {
    && (forall i | 0 <= i < |names| :: names[i] in m)
    && (forall i, j | 0 <= i < j < |names| :: Precedes(ord, m[names[i]], m[names[j]]))
  }

  lemma PrecedesStrict(ord: SpeciesOrder, s1: Species, s2: Species, s3: Species)
    requires StrictOrdering(ord)
    ensures !Precedes(ord, s1, s1)
    ensures Precedes(ord, s1, s2) ==> !Precedes(ord, s2, s1)
    ensures Precedes(ord, s1, s2) && Precedes(ord, s2, s3) ==> Precedes(ord, s1, s3)
  {
    SpeciesLessStrictTotal(s1, s2, s3);
  }

  /** names with x placed before the first name it precedes. */
  function InsertName(m: map<string, Species>, names: seq<string>, x: string, ord: SpeciesOrder): (r: seq<string>)
    requires x in m && forall i | 0 <= i < |names| :: names[i] in m
    ensures |r| == |names| + 1 && multiset(r) == multiset(names) + multiset{x}
  {
    if |names| == 0 || Precedes(ord, m[x], m[names[0]]) then [x] + names
    else assert names == [names[0]] + names[1..]; [names[0]] + InsertName(m, names[1..], x, ord)
  }

  lemma {:induction false} InsertNameOrdered(m: map<string, Species>, names: seq<string>, x: string, ord: SpeciesOrder)
    requires x in m && ListedInOrder(m, names, ord) && Comparable(m, ord) && StrictOrdering(ord)
    requires forall i | 0 <= i < |names| :: names[i] != x
    ensures ListedInOrder(m, InsertName(m, names, x, ord), ord)
  {
    if |names| == 0 {
    } else if Precedes(ord, m[x], m[names[0]]) {
      forall j | 0 <= j < |names| ensures Precedes(ord, m[x], m[names[j]]) {
        PrecedesStrict(ord, m[x], m[names[0]], m[names[j]]);
      }
      ConsOrdered(m, x, names, ord);
    } else {
      var t := names[1..];
      InsertNameOrdered(m, t, x, ord);
      InsertNameMembers(m, t, x, ord);
      var u := InsertName(m, t, x, ord);
      assert Precedes(ord, m[names[0]], m[x]);
      forall k | 0 <= k < |u| ensures Precedes(ord, m[names[0]], m[u[k]]) {
        if u[k] != x {
          assert u[k] in u;
          var j :| 0 <= j < |t| && t[j] == u[k];
          assert names[j + 1] == u[k];
        }
      }
      ConsOrdered(m, names[0], u, ord);
    }
  }

  /** A name that precedes every name of an ordered listing can be put in front of it. */
  lemma ConsOrdered(m: map<string, Species>, h: string, u: seq<string>, ord: SpeciesOrder)
    requires h in m && ListedInOrder(m, u, ord)
    requires forall k | 0 <= k < |u| :: Precedes(ord, m[h], m[u[k]])
    ensures ListedInOrder(m, [h] + u, ord)
  {
    var r := [h] + u;
    forall i, j | 0 <= i < j < |r| ensures Precedes(ord, m[r[i]], m[r[j]]) {
      if i > 0 {
        assert r[i] == u[i - 1] && r[j] == u[j - 1];
      } else {
        assert r[j] == u[j - 1];
      }
    }
  }

  /** A strictly ordered listing repeats no name. */
  lemma ListedDistinct(m: map<string, Species>, names: seq<string>, ord: SpeciesOrder)
    requires ListedInOrder(m, names, ord) && StrictOrdering(ord)
    ensures Distinct(names)
  {
    forall i, j | 0 <= i < j < |names| ensures names[i] != names[j] {
      PrecedesStrict(ord, m[names[i]], m[names[j]], m[names[j]]);
    }
  }

  /** Libnucnet__Nuc__createSpeciesArray (ord = ByIndex) and the sorting step of
      Libnucnet__Nuc__sortSpecies (ord = the collection's compare function): the hash
      scan collects every species, and the sort puts them in order. */
  method ListSpecies(m: map<string, Species>, ord: SpeciesOrder) returns (names: seq<string>)
    requires Comparable(m, ord) && StrictOrdering(ord)
    ensures ListedInOrder(m, names, ord) && Distinct(names) && |names| == |m|
    ensures forall n :: n in m <==> n in names
  {
    names := [];
    var rest := m.Keys;
    while rest != {}
      invariant rest <= m.Keys && ListedInOrder(m, names, ord)
      invariant forall n :: n in m <==> n in names || n in rest
      invariant forall n | n in names :: n !in rest
      decreases |rest|
    {
      var x :| x in rest;
      InsertNameOrdered(m, names, x, ord);
      InsertNameMembers(m, names, x, ord);
      names := InsertName(m, names, x, ord);
      rest := rest - {x};
    }
    ListedAll(m, names, ord);
  }

  /** Inserting x adds x and nothing else. */
  lemma InsertNameMembers(m: map<string, Species>, names: seq<string>, x: string, ord: SpeciesOrder)
    requires x in m && forall i | 0 <= i < |names| :: names[i] in m
    ensures forall n :: n in InsertName(m, names, x, ord) <==> n in names || n == x
  {
    var r := InsertName(m, names, x, ord);
    assert forall n :: n in r <==> n in multiset(r);
    assert forall n :: n in names <==> n in multiset(names);
  }

  /** A strictly ordered listing of every species repeats none and has one entry per
      species. */
  lemma ListedAll(m: map<string, Species>, names: seq<string>, ord: SpeciesOrder)
    requires ListedInOrder(m, names, ord) && StrictOrdering(ord) && forall n :: n in m <==> n in names
    ensures Distinct(names) && |names| == |m|
  {
    ListedDistinct(m, names, ord);
    DistinctCardinality(names);
    assert (set n | n in names) == m.Keys;
  }

  /** The renumbering loop: the species listed at position i gets index i. */
  method Renumber(m: map<string, Species>, names: seq<string>) returns (r: map<string, Species>)
    requires Distinct(names) && forall n :: n in m <==> n in names
    ensures r.Keys == m.Keys
    ensures forall i | 0 <= i < |names| :: r[names[i]] == m[names[i]].(index := i)
  {
    r := m;
    var i := 0;
    while i < |names|
      invariant 0 <= i <= |names| && r.Keys == m.Keys
      invariant forall j | 0 <= j < i :: r[names[j]] == m[names[j]].(index := j)
      invariant forall j | i <= j < |names| :: r[names[j]] == m[names[j]]
    {
      r := r[names[i] := r[names[i]].(index := i)];
      i := i + 1;
    }
  }

  /** Two strictly ordered listings of the same names are the same listing. */
  lemma {:induction false} ListingUnique(m: map<string, Species>, a: seq<string>, b: seq<string>, ord: SpeciesOrder)
    requires ListedInOrder(m, a, ord) && ListedInOrder(m, b, ord) && StrictOrdering(ord)
    requires forall n :: n in a <==> n in b
    ensures a == b
    decreases |a|
  {
    ListedDistinct(m, a, ord);
    ListedDistinct(m, b, ord);
    DistinctCardinality(a);
    DistinctCardinality(b);
    assert (set n | n in a) == (set n | n in b);
    if |a| > 0 {
      ListingsStartAlike(m, a, b, ord);
      forall n ensures n in a[1..] <==> n in b[1..] {
        if n in a[1..] {
          var i :| 1 <= i < |a| && a[i] == n;
          assert n != a[0];
          assert n in b;
          var j :| 0 <= j < |b| && b[j] == n;
          assert j != 0;
          assert n == b[1..][j - 1];
        }
        if n in b[1..] {
          var j :| 1 <= j < |b| && b[j] == n;
          assert n != b[0];
          assert n in a;
          var i :| 0 <= i < |a| && a[i] == n;
          assert i != 0;
          assert n == a[1..][i - 1];
        }
      }
      ListingUnique(m, a[1..], b[1..], ord);
      assert a == [a[0]] + a[1..] && b == [b[0]] + b[1..];
    }
  }

  /** Two strictly ordered listings of the same names begin with the same name. */
  lemma ListingsStartAlike(m: map<string, Species>, a: seq<string>, b: seq<string>, ord: SpeciesOrder)
    requires ListedInOrder(m, a, ord) && ListedInOrder(m, b, ord) && StrictOrdering(ord)
    requires forall n :: n in a <==> n in b
    requires |a| > 0 && |b| > 0
    ensures a[0] == b[0]
  {
    assert a[0] in a && b[0] in b;
    var j :| 0 <= j < |b| && b[j] == a[0];
    var i :| 0 <= i < |a| && a[i] == b[0];
    PrecedesStrict(ord, m[a[0]], m[b[0]], m[b[0]]);
  }

  /** How many species of the collection the order puts before the species n. */
  ghost function Rank(m: map<string, Species>, ord: SpeciesOrder, n: string): nat
    requires n in m
  {
    |set x | x in m && Precedes(ord, m[x], m[n])|
  }

  /** In a strictly ordered listing of every species, the species at position i has
      rank i: the listing is determined by the order alone. */
  lemma ListedRank(m: map<string, Species>, names: seq<string>, ord: SpeciesOrder, i: nat)
    requires ListedInOrder(m, names, ord) && StrictOrdering(ord)
    requires forall n :: n in m <==> n in names
    requires i < |names|
    ensures Rank(m, ord, names[i]) == i
  {
    var before := set x | x in m && Precedes(ord, m[x], m[names[i]]);
    forall x | x in before ensures x in names[..i] {
      var j :| 0 <= j < |names| && names[j] == x;
      PrecedesStrict(ord, m[names[i]], m[names[j]], m[names[i]]);
      assert j < i;
    }
    forall x | x in names[..i] ensures x in before {
      var j :| 0 <= j < i && names[j] == x;
    }
    assert before == set x | x in names[..i];
    ListedDistinct(m, names, ord);
    assert Distinct(names[..i]);
    DistinctCardinality(names[..i]);
  }

  // ---------------------------------------------------------------------------
  // The collection.
  // ---------------------------------------------------------------------------

  /** The three nucleon-number kinds getLargestNucleonNumber accepts. */
  const AtomicNumber := "z"
  const MassNumber := "a"
  const NeutronNumber := "n"

  predicate IsNucleonType(kind: string)
  {
    kind == AtomicNumber || kind == MassNumber || kind == NeutronNumber
  }

  /** Z, A or A - Z of a species; A - Z is unsigned arithmetic and wraps modulo 2^32. */
  function NucleonNumber(kind: string, sp: Species): (k: nat)
    requires IsNucleonType(kind)
    ensures kind == AtomicNumber ==> k == sp.z
    ensures kind == MassNumber ==> k == sp.a
    ensures kind == NeutronNumber && sp.z <= sp.a < 0x1_0000_0000 ==> k == sp.a - sp.z
    ensures kind == NeutronNumber && sp.a < sp.z < 0x1_0000_0000 ==> k == 0x1_0000_0000 + sp.a - sp.z
  {
    if kind == AtomicNumber then sp.z
    else if kind == MassNumber then sp.a
    else (sp.a - sp.z) % 0x1_0000_0000
  }

  /** The indices in use. */
  ghost function Indices(m: map<string, Species>): set<nat>
  {
    set n | n in m :: m[n].index
  }

  /** The state a valid collection keeps: names are keys, and order lists the names so
      that order[i] has index i. */
  ghost predicate IndexedBy(m: map<string, Species>, order: seq<string>)
  {
    && KeyedByName(m) && |order| == |m| && Distinct(order)
    && (forall n :: n in m <==> n in order)
    && (forall i | 0 <= i < |order| :: order[i] in m && m[order[i]].index == i)
  }

  /** The index a species keeps when the one with index removed goes. */
  function Closed(index: nat, removed: nat): nat
  {
    if index <= removed then index else index - 1
  }

  /** order with the entry at k taken out. */
  function Without(order: seq<string>, k: nat): (w: seq<string>)
    requires k < |order|
    ensures |w| == |order| - 1
    ensures forall i | 0 <= i < |w| :: w[i] == if i < k then order[i] else order[i + 1]
  {
    order[..k] + order[k + 1..]
  }

  /** After a removal, the old order without the removed name holds the rest: those
      before the removed one keep their place, those after it are one place earlier. */
  lemma RemovalIndices(species: map<string, Species>, order: seq<string>, name: string)
    requires IndexedBy(species, order) && name in species
    ensures species[name].index < |order| && order[species[name].index] == name
    ensures var k := species[name].index;
            forall i | 0 <= i < |order| - 1 ::
              Without(order, k)[i] in species - {name}
              && species[Without(order, k)[i]].index == if i < k then i else i + 1
  {
    var k := species[name].index;
    var i0 :| 0 <= i0 < |order| && order[i0] == name;
    var w := Without(order, k);
    forall i | 0 <= i < |w| ensures w[i] in species - {name} && species[w[i]].index == if i < k then i else i + 1 {
      if i >= k {
        assert order[i + 1] != order[k];
      } else {
        assert order[i] != order[k];
      }
    }
  }

  /** ... so it lists the rest by index. */
  lemma RemovalOrdered(species: map<string, Species>, order: seq<string>, name: string)
    requires IndexedBy(species, order) && name in species
    ensures species[name].index < |order| && order[species[name].index] == name
    ensures ListedInOrder(species - {name}, Without(order, species[name].index), ByIndex)
  {
    RemovalIndices(species, order, name);
  }

  /** ... and it lists all of them. */
  lemma RemovalMembers(species: map<string, Species>, order: seq<string>, name: string)
    requires IndexedBy(species, order) && name in species && species[name].index < |order|
    requires order[species[name].index] == name
    ensures forall n :: n in species - {name} <==> n in Without(order, species[name].index)
  {
    var k := species[name].index;
    var w := Without(order, k);
    forall n | n in species - {name} ensures n in w {
      var i :| 0 <= i < |order| && order[i] == n;
      if i < k {
        assert w[i] == n;
      } else {
        assert i != k && w[i - 1] == n;
      }
    }
    forall n | n in w ensures n in species - {name} {
      var i :| 0 <= i < |w| && w[i] == n;
      if i >= k {
        assert order[i + 1] != order[k];
      }
    }
  }

  /** order with every name in gone taken out, the rest in the same order. */
  function Except(order: seq<string>, gone: set<string>): (w: seq<string>)
    ensures forall n :: n in w <==> n in order && n !in gone
  {
    if order == [] then [] else (if order[0] in gone then [] else [order[0]]) + Except(order[1..], gone)
  }

  /** Taking out names the order does not hold changes nothing. */
  lemma {:induction false} ExceptNone(order: seq<string>, gone: set<string>)
    requires forall i | 0 <= i < |order| :: order[i] !in gone
    ensures Except(order, gone) == order
  {
    if order != [] {
      ExceptNone(order[1..], gone);
      assert order == [order[0]] + order[1..];
    }
  }

  /** In an order without repeats, taking out the entry at k takes out its name. */
  lemma {:induction false} WithoutIsExcept(order: seq<string>, k: nat)
    requires k < |order| && Distinct(order)
    ensures Without(order, k) == Except(order, {order[k]})
  {
    if k == 0 {
      ExceptNone(order[1..], {order[0]});
    } else {
      WithoutIsExcept(order[1..], k - 1);
      assert Without(order, k) == [order[0]] + Without(order[1..], k - 1);
    }
  }

  /** Taking out two sets of names one after the other takes out their union. */
  lemma {:induction false} ExceptExcept(order: seq<string>, a: set<string>, b: set<string>)
    ensures Except(Except(order, a), b) == Except(order, a + b)
  {
    if order != [] {
      var x, tail := order[0], Except(order[1..], a);
      ExceptExcept(order[1..], a, b);
      if x in a {
        assert Except(order, a) == tail;
      } else {
        var w := [x] + tail;
        assert Except(order, a) == w;
        assert w[0] == x && w[1..] == tail;
        assert Except(w, b) == (if x in b then [] else [x]) + Except(tail, b);
      }
    }
  }

  /** Moving n from the names still to take out to those taken out adds exactly n. */
  lemma OneMoreOut(keys: set<string>, gone: set<string>, rest: set<string>, n: string)
    requires n in rest && rest <= gone
    ensures gone - (rest - {n}) == (gone - rest) + {n} && n !in gone - rest
    ensures |gone - (rest - {n})| == |gone - rest| + 1
    ensures keys - (gone - (rest - {n})) == (keys - (gone - rest)) - {n}
  {
  }

  /** The names updateSpecies removes before it adds sp: the species already under sp's
      name; failing that, for a species with a state, the one under its base name;
      failing that, every species with sp's base name. */
  function Displaced(species: map<string, Species>, sp: Species): (gone: set<string>)
    ensures gone <= species.Keys
    ensures sp.name in gone <==> sp.name in species
  {
    if sp.name in species then {sp.name}
    else if sp.state.Some? then (if sp.baseName in species then {sp.baseName} else {})
    else StatesOf(species, sp.baseName)
  }

  /** The names of the species whose base name is baseName: every state of that
      nuclide, as Libnucnet__Nuc__createSpeciesStateList lists them. */
  function StatesOf(species: map<string, Species>, baseName: string): (names: set<string>)
    ensures forall n :: n in names <==> n in species && species[n].baseName == baseName
  {
    set n | n in species && species[n].baseName == baseName
  }

  /** s, o and u are the species, order and update counter Libnucnet__Nuc__updateSpecies
      leaves from species0, order0 and update0 when sp is not already stored: the
      displaced species are gone, the rest keep their relative order with the indices
      closed up, sp is last, and the counter has advanced once per removal and once for
      the addition. */
  ghost predicate UpdatedTo(species0: map<string, Species>, order0: seq<string>, update0: nat, sp: Species,
                            s: map<string, Species>, o: seq<string>, u: nat)
  {
    var gone := Displaced(species0, sp);
    && u == update0 + |gone| + 1
    && o == Except(order0, gone) + [sp.name]
    && s.Keys == species0.Keys - gone + {sp.name}
    && sp.name in s && s[sp.name] == sp.(index := |s| - 1)
    && (forall n | n in s && n != sp.name :: n in species0 && s[n] == species0[n].(index := s[n].index))
  }

  /** Adding sp after the displaced species are gone completes updateSpecies. */
  lemma AddAfterDisplace(species0: map<string, Species>, order0: seq<string>, update0: nat, sp: Species,
                         mid: map<string, Species>, midOrder: seq<string>, midUpdate: nat)
    requires var gone := Displaced(species0, sp);
      && midUpdate == update0 + |gone| && midOrder == Except(order0, gone)
      && mid.Keys == species0.Keys - gone
      && (forall n | n in mid :: n in species0 && mid[n] == species0[n].(index := mid[n].index))
    requires sp.name !in mid
    ensures UpdatedTo(species0, order0, update0, sp, mid[sp.name := sp.(index := |mid|)], midOrder + [sp.name], midUpdate + 1)
  {
    var gone := Displaced(species0, sp);
    var s := mid[sp.name := sp.(index := |mid|)];
    assert s.Keys == species0.Keys - gone + {sp.name} by {
      assert s.Keys == mid.Keys + {sp.name};
    }
    assert s[sp.name] == sp.(index := |s| - 1) by {
      assert |s| == |mid| + 1;
    }
    forall n | n in s && n != sp.name
      ensures n in species0 && s[n] == species0[n].(index := s[n].index)
    {
      assert s[n] == mid[n];
    }
  }

  /** Distinct names of a valid collection have distinct indices. */
  lemma IndexedComparable(species: map<string, Species>, order: seq<string>, name: string)
    requires IndexedBy(species, order)
    ensures Comparable(species - {name}, ByIndex)
  {
    var m := species - {name};
    forall x, y | x in m && y in m && x != y ensures m[x].index != m[y].index {
      var i :| 0 <= i < |order| && order[i] == x;
      var j :| 0 <= j < |order| && order[j] == y;
    }
  }

  /** The body of Libnucnet__Nuc__removeSpecies after the hash removal: list the rest by
      index and renumber them. */
  method RemoveAndRenumber(species: map<string, Species>, ghost order: seq<string>, name: string)
    returns (r: map<string, Species>, ghost order': seq<string>)
    requires IndexedBy(species, order) && name in species
    ensures IndexedBy(r, order') && r.Keys == species.Keys - {name}
    ensures forall n | n in r :: r[n] == species[n].(index := Closed(species[n].index, species[name].index))
    ensures species[name].index < |order| && order' == Without(order, species[name].index)
  {
    var k := species[name].index;
    RemovalOrdered(species, order, name);
    RemovalMembers(species, order, name);
    IndexedComparable(species, order, name);
    var m := species - {name};
    order' := Without(order, k);
    var names := ListSpecies(m, ByIndex);
    ListingUnique(m, names, order', ByIndex);
    r := Renumber(m, names);
    RenumberedClosed(species, order, name, r);
    RenumberedIndexed(species, order, name, r);
  }

  /** Numbering the rest by their place in the old order without the removed name closes
      the gap: every index above the removed one drops by one. */
  lemma RenumberedClosed(species: map<string, Species>, order: seq<string>, name: string,
                         r: map<string, Species>)
    requires IndexedBy(species, order) && name in species
    requires species[name].index < |order|
    requires r.Keys == species.Keys - {name}
    requires var w := Without(order, species[name].index);
             forall i | 0 <= i < |w| :: r[w[i]] == species[w[i]].(index := i)
    ensures forall n | n in r :: r[n] == species[n].(index := Closed(species[n].index, species[name].index))
  {
    var k := species[name].index;
    var w := Without(order, k);
    RemovalIndices(species, order, name);
    RemovalMembers(species, order, name);
    forall n | n in r ensures r[n] == species[n].(index := Closed(species[n].index, k)) {
      var i :| 0 <= i < |w| && w[i] == n;
    }
  }

  /** ... and the renumbered collection is valid, listed by the old order without the
      removed name. */
  lemma RenumberedIndexed(species: map<string, Species>, order: seq<string>, name: string,
                          r: map<string, Species>)
    requires IndexedBy(species, order) && name in species
    requires species[name].index < |order|
    requires r.Keys == species.Keys - {name}
    requires var w := Without(order, species[name].index);
             forall i | 0 <= i < |w| :: r[w[i]] == species[w[i]].(index := i)
    requires forall n | n in r :: r[n].name == species[n].name
    ensures IndexedBy(r, Without(order, species[name].index))
  {
    var w := Without(order, species[name].index);
    RemovalOrdered(species, order, name);
    RemovalMembers(species, order, name);
    ListedDistinct(species - {name}, w, ByIndex);
    assert |r| == |r.Keys| == |species.Keys - {name}| == |species| - 1;
  }

  /** The order sortSpecies can sort by: the default compare, or a strict order that
      tells every two species of the collection apart. */
  ghost predicate SortableBy(species: map<string, Species>, ord: SpeciesOrder)
  {
    ord == ByDefaultCompare || (StrictOrdering(ord) && Comparable(species, ord))
  }

  /** after is before renumbered in the order ord: the same species with indices
      0..n-1, order listing them so that each comes before the next by ord, and each
      species numbered by how many species ord puts before it. */
  ghost predicate SortedBy(before: map<string, Species>, after: map<string, Species>, order: seq<string>,
                           ord: SpeciesOrder)
  {
    && IndexedBy(after, order) && after.Keys == before.Keys
    && (forall n | n in after :: after[n] == before[n].(index := after[n].index))
    && (forall i, j | 0 <= i < j < |order| :: Precedes(ord, before[order[i]], before[order[j]]))
    && (forall n | n in after :: after[n].index == Rank(before, ord, n))
  }

  /** The body of Libnucnet__Nuc__sortSpecies: list by the compare function and
      renumber. */
  method SortAndRenumber(species: map<string, Species>, ord: SpeciesOrder)
    returns (r: map<string, Species>, ghost order': seq<string>)
    requires KeyedByName(species) && SortableBy(species, ord)
    ensures SortedBy(species, r, order', ord)
  {
    if ord == ByDefaultCompare {
      forall x, y | x in species && y in species && x != y
        ensures Precedes(ord, species[x], species[y]) || Precedes(ord, species[y], species[x])
      {
        SpeciesLessStrictTotal(species[x], species[y], species[y]);
      }
    }
    var names := ListSpecies(species, ord);
    r := Renumber(species, names);
    forall n | n in r ensures r[n] == species[n].(index := r[n].index) && r[n].index == Rank(species, ord, n) {
      var i :| 0 <= i < |names| && names[i] == n;
      ListedRank(species, names, ord, i);
    }
    order' := names;
  }

  /** A Libnucnet__Nuc: the species hash keyed by name, and the update counter.  The ghost
      order lists the names by index. */
  class Nuc {
    var species: map<string, Species>
    var update: nat
    var compare: SpeciesOrder
    ghost var order: seq<string>

    /** Names are keys, and the indices are exactly 0..n-1, order[i] holding index i. */
    ghost predicate Valid()
      reads this`species, this`order
    {
      IndexedBy(species, order)
    }

    /** Libnucnet__Nuc__new: empty, with the update counter at 1 and the default
        compare function. */
    constructor()
      ensures Valid() && species == map[] && update == 1 && compare == ByDefaultCompare
    {
      species := map[];
      update := 1;
      compare := ByDefaultCompare;
      order := [];
    }

    /** Libnucnet__Nuc__setSpeciesCompareFunction: sortSpecies will sort by cmp. */
    method SetSpeciesCompareFunction(cmp: (Species, Species) -> int)
      modifies this`compare
      ensures compare == ByCompare(cmp)
    {
      compare := ByCompare(cmp);
    }

    /** Libnucnet__Nuc__clearSpeciesCompareFunction: back to the default compare. */
    method ClearSpeciesCompareFunction()
      modifies this`compare
      ensures compare == ByDefaultCompare
    {
      compare := ByDefaultCompare;
    }

    /** The indices of a valid collection are dense: every species has an index below the
        count, and every index below the count belongs to exactly one species. */
    lemma IndicesDense()
      requires Valid()
      ensures forall n | n in species :: species[n].index < |species|
      ensures forall k | 0 <= k < |species| :: k in Indices(species)
      ensures forall n1, n2 | n1 in species && n2 in species && n1 != n2 :: species[n1].index != species[n2].index
    {
      forall n | n in species ensures species[n].index < |species| && order[species[n].index] == n {
        var i :| 0 <= i < |order| && order[i] == n;
      }
      forall k | 0 <= k < |species| ensures k in Indices(species) {
        assert order[k] in species;
      }
    }

    /** Libnucnet__Nuc__getNumberOfSpecies. */
    function NumberOfSpecies(): (n: nat)
      reads this
      requires Valid()
      ensures n == |order|
    {
      |species|
    }

    /** Libnucnet__Nuc__getSpeciesByName: the species stored under the name, if any. */
    function GetSpeciesByName(name: string): (r: Option<Species>)
      reads this
      requires Valid()
      ensures r.Some? <==> name in species
      ensures r.Some? ==> r.value == species[name] && r.value.name == name && r.value.index < |species|
    {
      IndicesDense();
      if name in species then Some(species[name]) else None
    }

    /** Libnucnet__Nuc__getSpeciesByZA: the generated name, with the state appended when
        one is given; A = 0 finds nothing. */
    function GetSpeciesByZA(z: nat, a: nat, state: Option<string>): (r: Option<Species>)
      reads this
      requires Valid() && !(z == 0 && a > 2)
      ensures a == 0 ==> r.None?
      ensures r.Some? ==> CreateSpeciesName(z, a).Some?
      ensures r.Some? ==> r.value.name == CreateSpeciesName(z, a).value + (if state.Some? then state.value else "")
      ensures CreateSpeciesName(z, a).Some? && CreateSpeciesName(z, a).value + (if state.Some? then state.value else "") in species ==> r.Some?
    {
      match CreateSpeciesName(z, a)
      case None => None
      case Some(base) => GetSpeciesByName(base + (if state.Some? then state.value else ""))
    }

    /** Libnucnet__Nuc__addSpecies: 0 when the name is taken (nothing changes); otherwise
        the species is stored with the next index and the update counter advances. */
    method AddSpecies(sp: Species) returns (status: int)
      requires Valid()
      modifies this`species, this`update, this`order
      ensures Valid()
      ensures sp.name in old(species) ==>
        status == 0 && species == old(species) && update == old(update) && order == old(order)
      ensures sp.name !in old(species) ==>
        && status == 1 && update == old(update) + 1 && order == old(order) + [sp.name]
        && species == old(species)[sp.name := sp.(index := |old(species)|)]
    {
      if sp.name in species {
        return 0;
      }
      species := species[sp.name := sp.(index := |species|)];
      order := order + [sp.name];
      update := update + 1;
      status := 1;
    }

    /** Libnucnet__Nuc__removeSpecies: 0 for no species or an absent name.  Otherwise the
        species goes, the others keep their relative order with the indices closed up to
        0..n-1, and the update counter advances. */
    method RemoveSpecies(sp: Option<Species>) returns (status: int)
      requires Valid()
      modifies this`species, this`update, this`order
      ensures Valid()
      ensures sp.None? || sp.value.name !in old(species) ==>
        status == 0 && species == old(species) && update == old(update) && order == old(order)
      ensures sp.Some? && sp.value.name in old(species) ==>
        && status == 1 && update == old(update) + 1
        && species.Keys == old(species).Keys - {sp.value.name}
        && old(species)[sp.value.name].index < |old(order)|
        && order == Without(old(order), old(species)[sp.value.name].index)
        && (forall n | n in species ::
              species[n] == old(species)[n].(index := Closed(old(species)[n].index, old(species)[sp.value.name].index)))
    {
      if sp.None? || sp.value.name !in species {
        return 0;
      }
      var renumbered;
      renumbered, order := RemoveAndRenumber(species, order, sp.value.name);
      species := renumbered;
      update := update + 1;
      status := 1;
    }

    /** Part way through taking out the names of gone from the collection species0 (with
        order order0 and counter update0): those of gone - rest are out, the rest keep
        their relative order with the indices closed up, and the counter has advanced
        once for each. */
    ghost predicate TakenOut(species0: map<string, Species>, order0: seq<string>, update0: nat,
                             gone: set<string>, rest: set<string>)
      reads this`species, this`order, this`update
    {
      && Valid() && rest <= gone && rest <= species.Keys
      && species.Keys == species0.Keys - (gone - rest)
      && order == Except(order0, gone - rest) && update == update0 + |gone - rest|
      && (forall m | m in species :: species[m] == species0[m].(index := species[m].index))
    }

    /** Before any removal, nothing is out yet. */
    lemma StartTakingOut(gone: set<string>)
      requires Valid() && gone <= species.Keys
      ensures TakenOut(species, order, update, gone, gone)
    {
      ExceptNone(order, {});
      assert gone - gone == {};
    }

    /** With nothing left to take out, all of gone is out. */
    lemma DoneTakingOut(species0: map<string, Species>, order0: seq<string>, update0: nat, gone: set<string>)
      requires TakenOut(species0, order0, update0, gone, {})
      ensures Valid() && update == update0 + |gone| && order == Except(order0, gone)
      ensures species.Keys == species0.Keys - gone
      ensures forall n | n in species :: species[n] == species0[n].(index := species[n].index)
    {
      assert gone - {} == gone;
    }

    /** One removal of the loop in RemoveStates: taking out n of rest. */
    method RemoveOneOf(ghost species0: map<string, Species>, ghost order0: seq<string>, ghost update0: nat,
                       ghost gone: set<string>, ghost rest: set<string>, n: string)
      requires TakenOut(species0, order0, update0, gone, rest) && n in rest
      modifies this`species, this`update, this`order
      ensures TakenOut(species0, order0, update0, gone, rest - {n})
    {
      ghost var before, prior := order, species;
      ghost var k := species[n].index;
      var removed := RemoveSpecies(Some(species[n]));
      WithoutIsExcept(before, k);
      ExceptExcept(order0, gone - rest, {n});
      OneMoreOut(species0.Keys, gone, rest, n);
      forall m | m in species ensures species[m] == species0[m].(index := species[m].index) {
        assert species[m] == prior[m].(index := species[m].index);
      }
    }

    /** The third branch of Libnucnet__Nuc__updateSpecies: Libnucnet__Nuc__createSpeciesStateList
        lists the species with the base name and Libnucnet__Species__removeStates removes
        each.  All of them go, the rest keep their relative order, and the update counter
        advances once per removal. */
    method RemoveStates(baseName: string)
      requires Valid()
      modifies this`species, this`update, this`order
      ensures Valid()
      ensures var gone := StatesOf(old(species), baseName);
        && update == old(update) + |gone|
        && order == Except(old(order), gone)
        && species.Keys == old(species).Keys - gone
        && (forall n | n in species :: species[n] == old(species)[n].(index := species[n].index))
    {
      ghost var species0, order0, update0 := species, order, update;
      var states := StatesOf(species, baseName);
      ghost var gone := states;
      StartTakingOut(gone);
      TakeOutAll(species0, order0, update0, gone, states);
      DoneTakingOut(species0, order0, update0, gone);
    }

    /** The walk over the state list: each listed species is removed in turn. */
    method TakeOutAll(ghost species0: map<string, Species>, ghost order0: seq<string>, ghost update0: nat,
                      ghost gone: set<string>, states: set<string>)
      requires TakenOut(species0, order0, update0, gone, states)
      modifies this`species, this`update, this`order
      ensures TakenOut(species0, order0, update0, gone, {})
    {
      var rest := states;
      while rest != {}
        invariant TakenOut(species0, order0, update0, gone, rest)
        decreases |rest|
      {
        var n :| n in rest;
        RemoveOneOf(species0, order0, update0, gone, rest, n);
        rest := rest - {n};
      }
    }

    /** The removals of Libnucnet__Nuc__updateSpecies for a species not already stored:
        the displaced species go, the rest keep their relative order with the indices
        closed up, and the update counter advances once per removal. */
    method Displace(sp: Species)
      requires Valid() && !(sp.name in species && species[sp.name] == sp)
      modifies this`species, this`update, this`order
      ensures Valid()
      ensures var gone := Displaced(old(species), sp);
        && update == old(update) + |gone|
        && order == Except(old(order), gone)
        && species.Keys == old(species).Keys - gone
        && (forall n | n in species :: species[n] == old(species)[n].(index := species[n].index))
    {
      ghost var order0 := order;
      if sp.name in species {
        ghost var k := species[sp.name].index;
        var removed := RemoveSpecies(Some(species[sp.name]));
        WithoutIsExcept(order0, k);
      } else if sp.state.Some? {
        if sp.baseName in species {
          ghost var k := species[sp.baseName].index;
          var removed := RemoveSpecies(GetSpeciesByName(sp.baseName));
          WithoutIsExcept(order0, k);
        } else {
          var removed := RemoveSpecies(GetSpeciesByName(sp.baseName));
          ExceptNone(order0, {});
        }
      } else {
        RemoveStates(sp.baseName);
      }
    }

    /** Libnucnet__Nuc__updateSpecies: 0 and no change when sp itself is already stored.
        Otherwise the displaced species go (the one under sp's name; failing that, for a
        species with a state, the one under its base name; failing that, every state of
        its base name), the rest keep their relative order with the indices closed up,
        sp is stored last, and the update counter advances once per removal and once for
        the addition. */
    method UpdateSpecies(sp: Species) returns (status: int)
      requires Valid()
      modifies this`species, this`update, this`order
      ensures Valid()
      ensures status == 0 <==> sp.name in old(species) && old(species)[sp.name] == sp
      ensures status == 0 ==> species == old(species) && update == old(update) && order == old(order)
      ensures status != 0 ==>
        status == 1 && UpdatedTo(old(species), old(order), old(update), sp, species, order, update)
    {
      if sp.name in species && species[sp.name] == sp {
        return 0;
      }
      ghost var species0, order0, update0 := species, order, update;
      Displace(sp);
      ghost var mid, midOrder, midUpdate := species, order, update;
      status := AddSpecies(sp);
      AddAfterDisplace(species0, order0, update0, sp, mid, midOrder, midUpdate);
    }

    /** Libnucnet__Nuc__sortSpecies: the indices are reassigned 0..n-1 in the order of
        the collection's compare function, each species getting the number of species
        that order puts before it; nothing else changes, not even the update counter. */
    method SortSpecies()
      requires Valid() && SortableBy(species, compare)
      modifies this
      ensures Valid() && update == old(update) && compare == old(compare)
      ensures SortedBy(old(species), species, order, compare)
    {
      var renumbered, sorted := SortAndRenumber(species, compare);
      species, order := renumbered, sorted;
    }

    /** Libnucnet__Nuc__getLargestNucleonNumber: the largest Z, A or A - Z over the
        collection, 0 when it is empty.  An unknown kind is a fatal error as soon as a
        species is scanned. */
    method GetLargestNucleonNumber(kind: string) returns (largest: nat)
      requires IsNucleonType(kind) || species == map[]
      ensures forall n | n in species :: NucleonNumber(kind, species[n]) <= largest
      ensures largest == 0 || exists n | n in species :: NucleonNumber(kind, species[n]) == largest
    {
      largest := 0;
      var rest := species.Keys;
      while rest != {}
        invariant rest <= species.Keys
        invariant forall n | n in species && n !in rest :: NucleonNumber(kind, species[n]) <= largest
        invariant largest == 0 || exists n | n in species :: NucleonNumber(kind, species[n]) == largest
        decreases |rest|
      {
        var x :| x in rest;
        var k := NucleonNumber(kind, species[x]);
        if k > largest {
          largest := k;
        }
        rest := rest - {x};
      }
    }
  }
}
