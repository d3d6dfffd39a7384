// The equilibrium bookkeeping of libnuceq (vendor/libnuceq/0.7/src/Libnuceq.c): the
// Ye constraint, the registry of clusters with their constraints, the base log
// abundance of a species, the cluster function whose root the solver looks for,
// the root bracketing loop and the ordered iteration over species.
//
// exp, the user's prefactor and constraint callbacks, the function being bracketed
// and gsl_fcmp's relative comparison are parameters; the XPath selection that
// decides a cluster's members is a parameter too (the set of selected names).

module Nuceq {
  import opened Common
  import Nuc

  /** Exponents above this are capped before exp is taken (D_EQ_EXP_MAX). */
  const ExpMax: real := 690.0

  /** The names a cluster may not contain (EQ_NEUT and EQ_PROT). */
  const NeutronName := "n"
  const ProtonName := "h1"

  /** The bracketing loop widens the interval by this factor, at most MaxExpansions
      times. */
  const ExpansionFactor: real := 1.6
  const MaxExpansions: nat := 1000

  /** A Libnuceq__Species: the NSE factor, its correction and the abundance last
      computed for the species. */
  datatype EqSpecies = EqSpecies(nseFactor: real, correction: real, abundance: real)

  /** A cluster's chemical potential: not yet set, −∞ for a zero constraint, or a value. */
  datatype Mu = Unset | NegInf | Finite(value: real)

  /** A Libnuceq__Cluster, keyed by its XPath: its member species, its constraint and μ. */
  datatype Cluster = Cluster(members: set<string>, constraint: real, mu: Mu)

  // ---------------------------------------------------------------------------
  // Abundances.
  // ---------------------------------------------------------------------------

  /** Libnuceq__computeSpeciesBaseLogAbundance: Z·(μp − μn) + A·μn + NSE factor +
      correction, all in units of kT. */
  function BaseLogAbundance(sp: Nuc.Species, e: EqSpecies, mup: real, mun: real): real
  {
    (sp.z as real) * (mup - mun) + (sp.a as real) * mun + e.nseFactor + e.correction
  }

  /** Each proton of the species contributes μp and each neutron μn. */
  lemma BaseLogAbundanceByNucleons(sp: Nuc.Species, e: EqSpecies, mup: real, mun: real)
    requires sp.z <= sp.a
    ensures BaseLogAbundance(sp, e, mup, mun)
         == (sp.z as real) * mup + ((sp.a - sp.z) as real) * mun + e.nseFactor + e.correction
  {
    assert (sp.z as real) * (mup - mun) + (sp.a as real) * mun
        == (sp.z as real) * mup + ((sp.a as real) - (sp.z as real)) * mun;
  }

  /** exp(min(690, x)): the abundance a log abundance x gives. */
  function CappedAbundance(x: real, exp: real -> real): real
  {
    exp(MinReal(ExpMax, x))
  }

  /** Above the cap every log abundance gives the same abundance. */
  lemma CappedAbundanceSaturates(x: real, exp: real -> real)
    requires x >= ExpMax
    ensures CappedAbundance(x, exp) == exp(ExpMax)
  {
  }

  /** With a non-decreasing exp the capped abundance is non-decreasing. */
  lemma CappedAbundanceMonotone(x: real, y: real, exp: real -> real)
    requires forall a, b | a <= b :: exp(a) <= exp(b)
    requires x <= y
    ensures CappedAbundance(x, exp) <= CappedAbundance(y, exp)
  {
    assert MinReal(ExpMax, x) <= MinReal(ExpMax, y);
  }

  /** The base log abundance of every species of the collection. */
  function BaseLogs(nuc: map<string, Nuc.Species>, species: map<string, EqSpecies>, mup: real, mun: real)
    : (r: map<string, real>)
    requires species.Keys <= nuc.Keys
    ensures r.Keys == species.Keys
  {
    map n | n in species :: BaseLogAbundance(nuc[n], species[n], mup, mun)
  }

  /** The species scan of Libnuceq__computeAbundances. */
  method FillAbundances(species: map<string, EqSpecies>, base: map<string, real>, exp: real -> real)
    returns (r: map<string, EqSpecies>)
    requires base.Keys == species.Keys
    ensures r == map n | n in species :: species[n].(abundance := CappedAbundance(base[n], exp))
  {
    r := species;
    var rest := species.Keys;
    while rest != {}
      invariant rest <= species.Keys && r.Keys == species.Keys
      invariant forall n | n in species && n !in rest :: r[n] == species[n].(abundance := CappedAbundance(base[n], exp))
      invariant forall n | n in rest :: r[n] == species[n]
      decreases |rest|
    {
      var n :| n in rest;
      r := r[n := species[n].(abundance := CappedAbundance(base[n], exp))];
      rest := rest - {n};
    }
  }

  /** Libnuceq__set_cluster_abundances_to_zero, applied to every member: its abundance becomes 0 and
      nothing else changes. */
  function ZeroedMembers(species: map<string, EqSpecies>, members: set<string>): (r: map<string, EqSpecies>)
    ensures r.Keys == species.Keys
    ensures forall n | n in species :: r[n] == if n in members then species[n].(abundance := 0.0) else species[n]
  {
    map n | n in species :: if n in members then species[n].(abundance := 0.0) else species[n]
  }

  /** The root the solver returned for a cluster of non-zero constraint. */
  function RootOf(solved: map<string, real>, c: string): real
  {
    if c in solved then solved[c] else 0.0
  }

  /** The cluster's prefactor hook, if it has one. */
  function HookOf(prefactors: map<string, (string, real) -> real>, c: string): Option<(string, real) -> real>
  {
    if c in prefactors then Some(prefactors[c]) else None
  }

  /** Every cluster of the scan is registered and its members have base log abundances. */
  predicate Scannable(clusters: map<string, Cluster>, order: seq<string>, base: map<string, real>)
  {
    forall i | 0 <= i < |order| :: order[i] in clusters && clusters[order[i]].members <= base.Keys
  }

  /** What Libnuceq__compute_cluster_abundances does to the species for one cluster: a
      zero constraint sets every member's abundance to 0; otherwise the solver leaves
      each member with the abundance of the cluster function's last evaluation, which
      is at the root x it returns. */
  function ClusterEffect(species: map<string, EqSpecies>, cl: Cluster, base: map<string, real>, x: real,
                         exp: real -> real, prefactor: Option<(string, real) -> real>): (r: map<string, EqSpecies>)
    requires cl.members <= base.Keys
    ensures r.Keys == species.Keys
  {
    if cl.constraint == 0.0 then ZeroedMembers(species, cl.members)
    else WithMemberAbundances(species, cl.members, base, x, exp, prefactor)
  }

  /** The species after the clusters of order were handled in turn. */
  function AfterClusters(species: map<string, EqSpecies>, base: map<string, real>, clusters: map<string, Cluster>,
                         order: seq<string>, solved: map<string, real>, exp: real -> real,
                         prefactors: map<string, (string, real) -> real>): (r: map<string, EqSpecies>)
    requires Scannable(clusters, order, base)
    ensures r.Keys == species.Keys
  {
    if order == [] then species
    else
      var c := order[|order| - 1];
      ClusterEffect(AfterClusters(species, base, clusters, order[..|order| - 1], solved, exp, prefactors),
                    clusters[c], base, RootOf(solved, c), exp, HookOf(prefactors, c))
  }

  /** The last cluster of order that holds the species, if any. */
  function LastHolder(clusters: map<string, Cluster>, order: seq<string>, n: string): (r: Option<string>)
    requires forall i | 0 <= i < |order| :: order[i] in clusters
    ensures r.Some? ==> r.value in order && r.value in clusters && n in clusters[r.value].members
    ensures r.None? ==> forall i | 0 <= i < |order| :: n !in clusters[order[i]].members
  {
    if order == [] then None
    else if n in clusters[order[|order| - 1]].members then Some(order[|order| - 1])
    else LastHolder(clusters, order[..|order| - 1], n)
  }

  /** The abundance cluster c leaves its member n with. */
  function HeldAbundance(n: string, c: string, base: map<string, real>, clusters: map<string, Cluster>,
                         solved: map<string, real>, exp: real -> real, prefactors: map<string, (string, real) -> real>): real
    requires c in clusters && n in base
  {
    if clusters[c].constraint == 0.0 then 0.0
    else MemberAbundance(base[n], n, RootOf(solved, c), exp, HookOf(prefactors, c))
  }

  /** Species by species, the cluster scan is decided by the last cluster holding the
      species: a species in no cluster keeps its abundance. */
  lemma {:induction false} AfterClustersAt(species: map<string, EqSpecies>, base: map<string, real>,
                                           clusters: map<string, Cluster>, order: seq<string>, solved: map<string, real>,
                                           exp: real -> real, prefactors: map<string, (string, real) -> real>, n: string)
    requires Scannable(clusters, order, base) && n in species
    ensures var h := LastHolder(clusters, order, n);
      AfterClusters(species, base, clusters, order, solved, exp, prefactors)[n]
      == if h.None? then species[n]
         else species[n].(abundance := HeldAbundance(n, h.value, base, clusters, solved, exp, prefactors))
  {
    if order != [] {
      var c := order[|order| - 1];
      AfterClustersAt(species, base, clusters, order[..|order| - 1], solved, exp, prefactors, n);
    }
  }

  /** The abundance Libnuceq__computeAbundances leaves a species with: the capped
      exponential of its base log abundance, unless a cluster holds it; then the last
      cluster of the scan holding it decides. */
  function ComputedAbundance(n: string, base: map<string, real>, clusters: map<string, Cluster>, order: seq<string>,
                             solved: map<string, real>, exp: real -> real,
                             prefactors: map<string, (string, real) -> real>): real
    requires Scannable(clusters, order, base) && n in base
  {
    var h := LastHolder(clusters, order, n);
    if h.None? then CappedAbundance(base[n], exp) else HeldAbundance(n, h.value, base, clusters, solved, exp, prefactors)
  }

  /** After the species scan and the cluster scan, every species has its computed
      abundance and keeps everything else. */
  lemma ComputedEverywhere(species: map<string, EqSpecies>, base: map<string, real>, clusters: map<string, Cluster>,
                           order: seq<string>, solved: map<string, real>, exp: real -> real,
                           prefactors: map<string, (string, real) -> real>,
                           filled: map<string, EqSpecies>, r: map<string, EqSpecies>)
    requires base.Keys == species.Keys && Scannable(clusters, order, base)
    requires filled == map n | n in species :: species[n].(abundance := CappedAbundance(base[n], exp))
    requires r == AfterClusters(filled, base, clusters, order, solved, exp, prefactors)
    ensures r.Keys == species.Keys
    ensures forall n | n in r :: r[n] == species[n].(abundance := ComputedAbundance(n, base, clusters, order, solved, exp, prefactors))
  {
    forall n | n in species
      ensures r[n] == species[n].(abundance := ComputedAbundance(n, base, clusters, order, solved, exp, prefactors))
    {
      AfterClustersAt(filled, base, clusters, order, solved, exp, prefactors, n);
    }
  }

  /** The clusters after the scan: μ = −∞ for a zero constraint, otherwise the solver's
      root. */
  function SolvedMus(clusters: map<string, Cluster>, solved: map<string, real>): (r: map<string, Cluster>)
    ensures r.Keys == clusters.Keys
  {
    map c | c in clusters ::
      clusters[c].(mu := if clusters[c].constraint == 0.0 then NegInf else Finite(RootOf(solved, c)))
  }

  /** After the clusters of done were scanned: exactly those have their μ set. */
  ghost predicate MusSetAmong(clusters: map<string, Cluster>, solved: map<string, real>, done: seq<string>,
                              clusters': map<string, Cluster>)
  {
    && clusters'.Keys == clusters.Keys
    && forall c | c in clusters :: clusters'[c] == if c in done then SolvedMus(clusters, solved)[c] else clusters[c]
  }

  /** The state of the cluster scan after its first k clusters. */
  ghost predicate ScannedUpTo(clusters: map<string, Cluster>, species: map<string, EqSpecies>, base: map<string, real>,
                              order: seq<string>, solved: map<string, real>, exp: real -> real,
                              prefactors: map<string, (string, real) -> real>, k: nat,
                              clusters': map<string, Cluster>, species': map<string, EqSpecies>)
  {
    && k <= |order| && Scannable(clusters, order, base)
    && species' == AfterClusters(species, base, clusters, order[..k], solved, exp, prefactors)
    && MusSetAmong(clusters, solved, order[..k], clusters')
  }

  /** Handling the next cluster of the scan. */
  lemma ScanStep(clusters: map<string, Cluster>, species: map<string, EqSpecies>, base: map<string, real>,
                 order: seq<string>, solved: map<string, real>, exp: real -> real,
                 prefactors: map<string, (string, real) -> real>, k: nat,
                 clusters': map<string, Cluster>, species': map<string, EqSpecies>,
                 clusters'': map<string, Cluster>, species'': map<string, EqSpecies>)
    requires ScannedUpTo(clusters, species, base, order, solved, exp, prefactors, k, clusters', species') && k < |order|
    requires clusters'' == clusters'[order[k] := SolvedMus(clusters, solved)[order[k]]]
    requires species'' == ClusterEffect(species', clusters[order[k]], base, RootOf(solved, order[k]), exp,
                                        HookOf(prefactors, order[k]))
    ensures ScannedUpTo(clusters, species, base, order, solved, exp, prefactors, k + 1, clusters'', species'')
  {
    assert order[..k + 1][..k] == order[..k];
    assert forall d :: d in order[..k + 1] <==> d in order[..k] || d == order[k];
  }

  /** Once every cluster was scanned, every μ is set. */
  lemma ScannedAll(clusters: map<string, Cluster>, species: map<string, EqSpecies>, base: map<string, real>,
                   order: seq<string>, solved: map<string, real>, exp: real -> real,
                   prefactors: map<string, (string, real) -> real>,
                   clusters': map<string, Cluster>, species': map<string, EqSpecies>)
    requires ScannedUpTo(clusters, species, base, order, solved, exp, prefactors, |order|, clusters', species')
    requires forall c | c in clusters :: c in order
    ensures clusters' == SolvedMus(clusters, solved)
    ensures species' == AfterClusters(species, base, clusters, order, solved, exp, prefactors)
  {
    assert order[..|order|] == order;
  }

  /** Libnuceq__compute_cluster_abundances for the cluster c: a zero constraint sets μ to
      −∞ and every member's abundance to 0; otherwise μ is the root the solver found and
      each member keeps the abundance of the last evaluation, at that root. */
  method HandleCluster(c: string, clusters: map<string, Cluster>, clusters': map<string, Cluster>,
                       species: map<string, EqSpecies>, base: map<string, real>, solved: map<string, real>,
                       exp: real -> real, prefactors: map<string, (string, real) -> real>)
    returns (clusters'': map<string, Cluster>, species': map<string, EqSpecies>)
    requires c in clusters && clusters[c].members <= base.Keys
    ensures clusters'' == clusters'[c := SolvedMus(clusters, solved)[c]]
    ensures species' == ClusterEffect(species, clusters[c], base, RootOf(solved, c), exp, HookOf(prefactors, c))
  {
    var cl := clusters[c];
    if cl.constraint == 0.0 {
      clusters'' := clusters'[c := cl.(mu := NegInf)];
      species' := ZeroedMembers(species, cl.members);
    } else {
      var x := RootOf(solved, c);
      clusters'' := clusters'[c := cl.(mu := Finite(x))];
      species' := WithMemberAbundances(species, cl.members, base, x, exp, HookOf(prefactors, c));
    }
  }

  /** The cluster scan of Libnuceq__computeAbundances, in hash order: a cluster of zero
      constraint gets μ = −∞ and its members abundance 0; any other gets the root the
      solver found and its members the abundances at that root. */
  method ScanClusters(clusters: map<string, Cluster>, species: map<string, EqSpecies>, base: map<string, real>,
                      order: seq<string>, solved: map<string, real>, exp: real -> real,
                      prefactors: map<string, (string, real) -> real>)
    returns (clusters': map<string, Cluster>, species': map<string, EqSpecies>)
    requires ScansOnce(order, clusters.Keys)
    requires forall c | c in clusters :: clusters[c].members <= base.Keys
    ensures clusters' == SolvedMus(clusters, solved)
    ensures species' == AfterClusters(species, base, clusters, order, solved, exp, prefactors)
  {
    clusters', species' := clusters, species;
    var k := 0;
    while k < |order|
      invariant ScannedUpTo(clusters, species, base, order, solved, exp, prefactors, k, clusters', species')
    {
      var clusters'', species'' := HandleCluster(order[k], clusters, clusters', species', base, solved, exp, prefactors);
      ScanStep(clusters, species, base, order, solved, exp, prefactors, k, clusters', species', clusters'', species'');
      clusters', species' := clusters'', species'';
      k := k + 1;
    }
    ScannedAll(clusters, species, base, order, solved, exp, prefactors, clusters', species');
  }

  // ---------------------------------------------------------------------------
  // The cluster function whose zero fixes a cluster's μ.
  // ---------------------------------------------------------------------------

  /** The abundance a member gets when the cluster's μ is x: the capped exponential of
      its base log abundance plus the prefactor hook's value for the member at μ = x
      (the hook reads the μ just set), or plus x without one. */
  function MemberAbundance(base: real, name: string, x: real, exp: real -> real,
                           prefactor: Option<(string, real) -> real>): real
  {
    CappedAbundance(base + (if prefactor.Some? then prefactor.value(name, x) else x), exp)
  }

  /** What a member adds to the cluster function: the constraint hook's value for the
      member and its new abundance, or that abundance itself without a hook. */
  function MemberTerm(name: string, abundance: real, constraintFn: Option<(string, real) -> real>): real
  {
    if constraintFn.Some? then constraintFn.value(name, abundance) else abundance
  }

  /** The sum of the terms of the scanned members at μ = x. */
  function ClusterSum(scan: seq<string>, base: map<string, real>, x: real, exp: real -> real,
                      prefactor: Option<(string, real) -> real>, constraintFn: Option<(string, real) -> real>): real
    requires forall i | 0 <= i < |scan| :: scan[i] in base
    decreases |scan|
  {
    if scan == [] then 0.0
    else
      var n := scan[|scan| - 1];
      ClusterSum(scan[..|scan| - 1], base, x, exp, prefactor, constraintFn)
        + MemberTerm(n, MemberAbundance(base[n], n, x, exp, prefactor), constraintFn)
  }

  /** Without a constraint hook, with a non-decreasing exp and with no prefactor hook or
      one non-decreasing in μ, the cluster function is non-decreasing in μ, which is what
      lets the solver bracket its single crossing. */
  lemma {:induction false} ClusterSumMonotone(scan: seq<string>, base: map<string, real>, x: real, y: real,
                                              exp: real -> real, prefactor: Option<(string, real) -> real>)
    requires forall i | 0 <= i < |scan| :: scan[i] in base
    requires forall a, b | a <= b :: exp(a) <= exp(b)
    requires prefactor.Some? ==> forall n, a, b | a <= b :: prefactor.value(n, a) <= prefactor.value(n, b)
    requires x <= y
    ensures ClusterSum(scan, base, x, exp, prefactor, None) <= ClusterSum(scan, base, y, exp, prefactor, None)
    decreases |scan|
  {
    if scan != [] {
      var n := scan[|scan| - 1];
      ClusterSumMonotone(scan[..|scan| - 1], base, x, y, exp, prefactor);
      var px := if prefactor.Some? then prefactor.value(n, x) else x;
      var py := if prefactor.Some? then prefactor.value(n, y) else y;
      CappedAbundanceMonotone(base[n] + px, base[n] + py, exp);
    }
  }

  /** A prefactor hook that does not read μ makes the cluster function the same at
      every x. */
  lemma {:induction false} ClusterSumIgnoresMu(scan: seq<string>, base: map<string, real>, x: real, y: real,
                                               exp: real -> real, prefactor: (string, real) -> real,
                                               constraintFn: Option<(string, real) -> real>)
    requires forall i | 0 <= i < |scan| :: scan[i] in base
    requires forall n, a :: prefactor(n, a) == prefactor(n, 0.0)
    ensures ClusterSum(scan, base, x, exp, Some(prefactor), constraintFn)
         == ClusterSum(scan, base, y, exp, Some(prefactor), constraintFn)
    decreases |scan|
  {
    if scan != [] {
      var n := scan[|scan| - 1];
      ClusterSumIgnoresMu(scan[..|scan| - 1], base, x, y, exp, prefactor, constraintFn);
      assert prefactor(n, x) == prefactor(n, y) by {
        assert prefactor(n, x) == prefactor(n, 0.0);
        assert prefactor(n, y) == prefactor(n, 0.0);
      }
    }
  }

  /** The species table after the cluster function was evaluated at x: each member holds
      the abundance it got, every other species is untouched. */
  function WithMemberAbundances(species: map<string, EqSpecies>, members: set<string>, base: map<string, real>,
                                x: real, exp: real -> real, prefactor: Option<(string, real) -> real>)
    : (r: map<string, EqSpecies>)
    requires members <= base.Keys
    ensures r.Keys == species.Keys
  {
    map n | n in species ::
      if n in members then species[n].(abundance := MemberAbundance(base[n], n, x, exp, prefactor)) else species[n]
  }

  /** The member scan of Libnuceq__cluster_abundance_function: the residual starts at
      −constraint and each member adds its term, after its abundance was stored. */
  method EvaluateMembers(scan: seq<string>, base: map<string, real>, species: map<string, EqSpecies>,
                         constraint: real, x: real, exp: real -> real,
                         prefactor: Option<(string, real) -> real>, constraintFn: Option<(string, real) -> real>)
    returns (result: real, species': map<string, EqSpecies>)
    requires forall i | 0 <= i < |scan| :: scan[i] in base
    requires forall i | 0 <= i < |scan| :: scan[i] != NeutronName && scan[i] != ProtonName
    ensures result == -constraint + ClusterSum(scan, base, x, exp, prefactor, constraintFn)
    ensures species' == WithMemberAbundances(species, set i | 0 <= i < |scan| :: scan[i], base, x, exp, prefactor)
  {
    result := -constraint;
    species' := species;
    var k := 0;
    while k < |scan|
      invariant 0 <= k <= |scan|
      invariant result == -constraint + ClusterSum(scan[..k], base, x, exp, prefactor, constraintFn)
      invariant StoredSoFar(species, species', scan[..k], base, x, exp, prefactor)
    {
      var n := scan[k];
      var abundance := MemberAbundance(base[n], n, x, exp, prefactor);
      StoreStep(species, species', scan[..k], n, base, x, exp, prefactor);
      if n in species' {
        species' := species'[n := species'[n].(abundance := abundance)];
      }
      result := result + MemberTerm(n, abundance, constraintFn);
      assert scan[..k + 1] == scan[..k] + [n];
      k := k + 1;
    }
    assert scan[..k] == scan;
    StoredAll(species, species', scan, base, x, exp, prefactor);
  }

  /** The species after the members in done had their abundances stored. */
  ghost predicate StoredSoFar(species: map<string, EqSpecies>, species': map<string, EqSpecies>, done: seq<string>,
                              base: map<string, real>, x: real, exp: real -> real, prefactor: Option<(string, real) -> real>)
  {
    && species'.Keys == species.Keys
    && forall n | n in species ::
         species'[n] == if n in done && n in base then species[n].(abundance := MemberAbundance(base[n], n, x, exp, prefactor))
                        else species[n]
  }

  /** Storing one more member's abundance. */
  lemma StoreStep(species: map<string, EqSpecies>, species': map<string, EqSpecies>, done: seq<string>, n: string,
                  base: map<string, real>, x: real, exp: real -> real, prefactor: Option<(string, real) -> real>)
    requires StoredSoFar(species, species', done, base, x, exp, prefactor) && n in base
    ensures StoredSoFar(species, if n in species' then species'[n := species'[n].(abundance := MemberAbundance(base[n], n, x, exp, prefactor))] else species',
                        done + [n], base, x, exp, prefactor)
  {
    assert forall m :: m in done + [n] <==> m in done || m == n;
  }

  /** After the whole scan the species are WithMemberAbundances of the scanned set. */
  lemma StoredAll(species: map<string, EqSpecies>, species': map<string, EqSpecies>, scan: seq<string>,
                  base: map<string, real>, x: real, exp: real -> real, prefactor: Option<(string, real) -> real>)
    requires forall i | 0 <= i < |scan| :: scan[i] in base
    requires StoredSoFar(species, species', scan, base, x, exp, prefactor)
    ensures species' == WithMemberAbundances(species, set i | 0 <= i < |scan| :: scan[i], base, x, exp, prefactor)
  {
    var members := set i | 0 <= i < |scan| :: scan[i];
    assert forall n :: n in members <==> n in scan;
  }

  // ---------------------------------------------------------------------------
  // Bracketing a root.
  // ---------------------------------------------------------------------------

  /** An endpoint pushed away from the other endpoint by the expansion factor. */
  function Expand(x: real, other: real): real
  {
    x + ExpansionFactor * (x - other)
  }

  /** The outcome of Libnuceq__bracket_root_of_function: whether a sign change was
      found, and the final endpoints. */
  datatype Bracket = Bracket(found: bool, x1: real, x2: real)

  /** The bracketing loop with `left` passes to go, f1 and f2 being f at x1 and x2.
      Each pass stops on a sign change; otherwise it moves the endpoint whose value is
      smaller in magnitude, or both when close judges the two values equal (the second
      move then measured from the moved x1). */
  function Bracketing(f: real -> real, close: (real, real) -> bool, x1: real, x2: real, f1: real, f2: real,
                      left: nat): Bracket
    decreases left
  {
    if left == 0 then Bracket(false, x1, x2)
    else if f1 * f2 < 0.0 then Bracket(true, x1, x2)
    else if AbsReal(f1) < AbsReal(f2) then
      var y1 := Expand(x1, x2);
      Bracketing(f, close, y1, x2, f(y1), f2, left - 1)
    else if close(f1, f2) then
      var y1 := Expand(x1, x2);
      var y2 := Expand(x2, y1);
      Bracketing(f, close, y1, y2, f(y1), f(y2), left - 1)
    else
      var y2 := Expand(x2, x1);
      Bracketing(f, close, x1, y2, f1, f(y2), left - 1)
  }

  /** A reported bracket really brackets: f changes sign between its endpoints. */
  lemma {:induction false} BracketingFound(f: real -> real, close: (real, real) -> bool, x1: real, x2: real,
                                           f1: real, f2: real, left: nat)
    requires f1 == f(x1) && f2 == f(x2)
    ensures var b := Bracketing(f, close, x1, x2, f1, f2, left);
      b.found ==> f(b.x1) * f(b.x2) < 0.0
    decreases left
  {
    if left > 0 && !(f1 * f2 < 0.0) {
      if AbsReal(f1) < AbsReal(f2) {
        var y1 := Expand(x1, x2);
        BracketingFound(f, close, y1, x2, f(y1), f2, left - 1);
      } else if close(f1, f2) {
        var y1 := Expand(x1, x2);
        var y2 := Expand(x2, y1);
        BracketingFound(f, close, y1, y2, f(y1), f(y2), left - 1);
      } else {
        var y2 := Expand(x2, x1);
        BracketingFound(f, close, x1, y2, f1, f(y2), left - 1);
      }
    }
  }

  /** A sign change at the given endpoints is reported at once, endpoints untouched. */
  lemma BracketingImmediate(f: real -> real, close: (real, real) -> bool, x1: real, x2: real)
    requires f(x1) * f(x2) < 0.0
    ensures Bracketing(f, close, x1, x2, f(x1), f(x2), MaxExpansions) == Bracket(true, x1, x2)
  {
  }

  /** One pass without a sign change moves the endpoints as Bracketing says. */
  lemma BracketingPass(f: real -> real, close: (real, real) -> bool, y1: real, y2: real, f1: real, f2: real, left: nat)
    requires left > 0 && !(f1 * f2 < 0.0)
    ensures AbsReal(f1) < AbsReal(f2) ==>
      Bracketing(f, close, y1, y2, f1, f2, left)
      == Bracketing(f, close, Expand(y1, y2), y2, f(Expand(y1, y2)), f2, left - 1)
    ensures !(AbsReal(f1) < AbsReal(f2)) && close(f1, f2) ==>
      Bracketing(f, close, y1, y2, f1, f2, left)
      == Bracketing(f, close, Expand(y1, y2), Expand(y2, Expand(y1, y2)),
                    f(Expand(y1, y2)), f(Expand(y2, Expand(y1, y2))), left - 1)
    ensures !(AbsReal(f1) < AbsReal(f2)) && !close(f1, f2) ==>
      Bracketing(f, close, y1, y2, f1, f2, left)
      == Bracketing(f, close, y1, Expand(y2, y1), f1, f(Expand(y2, y1)), left - 1)
  {
  }

  /** Libnuceq__bracket_root_of_function: status 1 with a sign change between the
      returned endpoints, or 0 after MaxExpansions passes. */
  method BracketRoot(f: real -> real, close: (real, real) -> bool, x1: real, x2: real)
    returns (status: int, y1: real, y2: real)
    ensures var b := Bracketing(f, close, x1, x2, f(x1), f(x2), MaxExpansions);
      (status == 1 <==> b.found) && (status == 0 <==> !b.found) && y1 == b.x1 && y2 == b.x2
    ensures status == 1 ==> f(y1) * f(y2) < 0.0
  {
    BracketingFound(f, close, x1, x2, f(x1), f(x2), MaxExpansions);
    y1, y2 := x1, x2;
    var f1, f2 := f(y1), f(y2);
    var iter := 0;
    while iter < MaxExpansions
      invariant 0 <= iter <= MaxExpansions && f1 == f(y1) && f2 == f(y2)
      invariant Bracketing(f, close, y1, y2, f1, f2, MaxExpansions - iter)
             == Bracketing(f, close, x1, x2, f(x1), f(x2), MaxExpansions)
    {
      iter := iter + 1;
      if f1 * f2 < 0.0 {
        return 1, y1, y2;
      }
      BracketingPass(f, close, y1, y2, f1, f2, MaxExpansions - iter + 1);
      if AbsReal(f1) < AbsReal(f2) {
        y1 := Expand(y1, y2);
        f1 := f(y1);
      } else if close(f1, f2) {
        y1 := Expand(y1, y2);
        y2 := Expand(y2, y1);
        f1 := f(y1);
        f2 := f(y2);
      } else {
        y2 := Expand(y2, y1);
        f2 := f(y2);
      }
    }
    return 0, y1, y2;
  }

  // ---------------------------------------------------------------------------
  // Ordered iteration.
  // ---------------------------------------------------------------------------

  /** The species of the collection named in members. */
  function Restricted(nuc: map<string, Nuc.Species>, members: set<string>): (r: map<string, Nuc.Species>)
    ensures r.Keys == members * nuc.Keys
  {
    map n | n in members && n in nuc :: nuc[n]
  }

  /** The loop of Libnuceq__iterateSpecies and Libnuceq__Cluster__iterateSpecies: the
      species are listed in increasing index and visited until visit returns false.
      The result is what was visited: the lowest-index species, in order, every one
      accepted but possibly the last, and the last refused unless all were visited. */
  method VisitInOrder(m: map<string, Nuc.Species>, visit: string -> bool) returns (visited: seq<string>)
    requires Nuc.Comparable(m, Nuc.ByIndex)
    ensures Nuc.ListedInOrder(m, visited, Nuc.ByIndex) && Distinct(visited)
    ensures forall i | 0 <= i < |visited| - 1 :: visit(visited[i])
    ensures |visited| == |m| || (|visited| > 0 && !visit(visited[|visited| - 1]))
    ensures forall n, i | n in m && n !in visited && 0 <= i < |visited| :: m[visited[i]].index < m[n].index
  {
    var names := Nuc.ListSpecies(m, Nuc.ByIndex);
    var i := 0;
    while i < |names| && visit(names[i])
      invariant 0 <= i <= |names|
      invariant forall j | 0 <= j < i :: visit(names[j])
    {
      i := i + 1;
    }
    var count := if i < |names| then i + 1 else |names|;
    visited := names[..count];
    PrefixInOrder(m, names, count);
    PrefixBeforeRest(m, names, count);
  }

  /** A prefix of an index-ordered listing is one too. */
  lemma PrefixInOrder(m: map<string, Nuc.Species>, names: seq<string>, k: nat)
    requires Nuc.ListedInOrder(m, names, Nuc.ByIndex) && Distinct(names) && k <= |names|
    ensures Nuc.ListedInOrder(m, names[..k], Nuc.ByIndex) && Distinct(names[..k])
  {
  }

  /** Every species of a prefix of an index-ordered listing of all species comes before
      every species outside the prefix. */
  lemma PrefixBeforeRest(m: map<string, Nuc.Species>, names: seq<string>, k: nat)
    requires Nuc.ListedInOrder(m, names, Nuc.ByIndex) && k <= |names|
    requires forall n | n in m :: n in names
    ensures forall n, j | n in m && n !in names[..k] && 0 <= j < k :: m[names[j]].index < m[n].index
  {
    forall n, j | n in m && n !in names[..k] && 0 <= j < k
      ensures m[names[j]].index < m[n].index
    {
      var l :| 0 <= l < |names| && names[l] == n;
      assert Nuc.Precedes(Nuc.ByIndex, m[names[j]], m[names[l]]);
    }
  }

  // ---------------------------------------------------------------------------
  // The equilibrium.
  // ---------------------------------------------------------------------------

  /** The clusters copy_clusters creates from those given: same XPath and members,
      constraint 0, μ 0 and no hooks. */
  function CopiedClusters(clusters: map<string, Cluster>): (r: map<string, Cluster>)
    ensures r.Keys == clusters.Keys
  {
    map c | c in clusters :: Cluster(clusters[c].members, 0.0, Finite(0.0))
  }

  /** Copying keeps every cluster's members, and copying a copy changes nothing. */
  lemma CopiedClustersIdempotent(clusters: map<string, Cluster>)
    ensures forall c | c in clusters :: CopiedClusters(clusters)[c].members == clusters[c].members
    ensures CopiedClusters(CopiedClusters(clusters)) == CopiedClusters(clusters)
  {
    var once := CopiedClusters(clusters);
    assert forall c | c in once :: CopiedClusters(once)[c] == once[c];
  }

  /** A Libnuceq: the nuclear collection it was made for, one equilibrium species per
      nuclear species, the optional Ye constraint, the chemical potentials and the
      clusters keyed by XPath. */
  class Equil {
    var nuc: map<string, Nuc.Species>
    var species: map<string, EqSpecies>
    var t9: real
    var rho: real
    var ye: Option<real>
    var mupkT: real
    var munkT: real
    var clusters: map<string, Cluster>

    /** Every nuclear species has its equilibrium species and every cluster member is one. */
    ghost predicate Valid()
      reads this`nuc, this`species, this`clusters
    {
      species.Keys == nuc.Keys && forall c | c in clusters :: clusters[c].members <= species.Keys
    }

    /** Libnuceq__new: all factors and abundances 0, T9 and ρ 0, no Ye, no clusters. */
    constructor (nuc: map<string, Nuc.Species>)
      ensures Valid() && this.nuc == nuc
      ensures species == map n | n in nuc :: EqSpecies(0.0, 0.0, 0.0)
      ensures t9 == 0.0 && rho == 0.0 && ye == None && clusters == map[]
    {
      this.nuc := nuc;
      species := map n | n in nuc :: EqSpecies(0.0, 0.0, 0.0);
      t9, rho := 0.0, 0.0;
      ye := None;
      mupkT, munkT := 0.0, 0.0;
      clusters := map[];
    }

    /** Libnuceq__setYe: only 0 <= Ye <= 1 is accepted; it replaces any earlier value. */
    method SetYe(d: real)
      requires 0.0 <= d <= 1.0
      modifies this`ye
      ensures ye == Some(d)
    {
      ye := Some(d);
    }

    /** Libnuceq__clearYe: the Ye constraint is removed. */
    method ClearYe()
      modifies this`ye
      ensures ye == None
    {
      ye := None;
    }

    /** Libnuceq__newCluster: a cluster of the selected species under an unused XPath,
        with constraint 0 and no μ yet. */
    method NewCluster(xpath: string, selected: set<string>)
      requires Valid() && xpath !in clusters && selected <= nuc.Keys
      modifies this`clusters
      ensures Valid() && clusters == old(clusters)[xpath := Cluster(selected, 0.0, Unset)]
    {
      clusters := clusters[xpath := Cluster(selected, 0.0, Unset)];
    }

    /** Libnuceq__Cluster__updateConstraint: only the constraint changes. */
    method UpdateConstraint(xpath: string, constraint: real)
      requires Valid() && xpath in clusters
      modifies this`clusters
      ensures Valid() && clusters == old(clusters)[xpath := old(clusters[xpath]).(constraint := constraint)]
    {
      clusters := clusters[xpath := clusters[xpath].(constraint := constraint)];
    }

    /** Libnuceq__getCluster: the cluster under the XPath, if there is one. */
    method GetCluster(xpath: string) returns (r: Option<Cluster>)
      ensures r.Some? <==> xpath in clusters
      ensures r.Some? ==> r.value == clusters[xpath]
    {
      r := if xpath in clusters then Some(clusters[xpath]) else None;
    }

    /** Libnuceq__removeCluster: 1 when the cluster was there and is gone, 0 when absent. */
    method RemoveCluster(xpath: string) returns (status: int)
      requires Valid()
      modifies this`clusters
      ensures Valid() && clusters == old(clusters) - {xpath}
      ensures status == 1 <==> xpath in old(clusters)
      ensures status == 0 <==> xpath !in old(clusters)
    {
      status := if xpath in clusters then 1 else 0;
      clusters := clusters - {xpath};
    }

    /** Libnuceq__copy_clusters: the clusters are cleared first, then the source's
        clusters are copied in; so copying an equilibrium onto itself leaves none. */
    method CopyClusters(source: Equil)
      requires Valid() && source.Valid() && source.nuc == nuc
      modifies this`clusters
      ensures Valid()
      ensures clusters == CopiedClusters(if source == this then map[] else old(source.clusters))
    {
      clusters := map[];
      var from := source.clusters;
      var rest := from.Keys;
      while rest != {}
        invariant rest <= from.Keys && clusters.Keys == from.Keys - rest
        invariant forall c | c in clusters :: clusters[c] == CopiedClusters(from)[c]
        invariant forall c | c in clusters :: clusters[c].members <= species.Keys
        decreases |rest|
      {
        var c :| c in rest;
        clusters := clusters[c := Cluster(from[c].members, 0.0, Finite(0.0))];
        rest := rest - {c};
      }
    }

    /** Libnuceq__computeAbundances at the current μp and μn: every abundance becomes the
        capped exponential of its base log abundance; then the clusters are scanned in
        hash order.  A cluster of constraint 0 gets μ = −∞ and its members abundance 0;
        any other gets as μ the root solved[c] the solver found for its cluster function
        and its members the abundances at that root, with the cluster's prefactor hook
        when it has one.  A cluster holding n or h1 is fatal once its function is evaluated. */
    method ComputeAbundances(exp: real -> real, order: seq<string>, solved: map<string, real>,
                             prefactors: map<string, (string, real) -> real>)
      requires Valid() && ScansOnce(order, clusters.Keys)
      requires forall c | c in clusters && clusters[c].constraint != 0.0 ::
                 c in solved && NeutronName !in clusters[c].members && ProtonName !in clusters[c].members
      modifies this`species, this`clusters
      ensures Valid()
      ensures clusters == SolvedMus(old(clusters), solved)
      ensures clusters.Keys == old(clusters).Keys
      ensures forall c | c in clusters && old(clusters[c]).constraint != 0.0 :: clusters[c].mu == Finite(solved[c])
      ensures species.Keys == old(species).Keys
      ensures var base := BaseLogs(nuc, old(species), mupkT, munkT);
        forall n | n in species ::
          species[n] == old(species)[n].(abundance := ComputedAbundance(n, base, old(clusters), order, solved, exp, prefactors))
    {
      var base := BaseLogs(nuc, species, mupkT, munkT);
      var filled := FillAbundances(species, base, exp);
      var scanned;
      assert Scannable(clusters, order, base);
      clusters, scanned := ScanClusters(clusters, filled, base, order, solved, exp, prefactors);
      ComputedEverywhere(old(species), base, old(clusters), order, solved, exp, prefactors, filled, scanned);
      species := scanned;
    }

    /** Libnuceq__cluster_abundance_function at x, the members scanned in the given
        order: μ is set to x, each member's abundance is stored, and the result is
        −constraint plus the members' terms. A cluster may not hold n or h1. */
    method ClusterFunction(xpath: string, x: real, scan: seq<string>, exp: real -> real,
                           prefactor: Option<(string, real) -> real>, constraintFn: Option<(string, real) -> real>)
      returns (result: real)
      requires Valid() && xpath in clusters
      requires forall i | 0 <= i < |scan| :: scan[i] in clusters[xpath].members
      requires forall n | n in clusters[xpath].members :: n in scan
      requires NeutronName !in clusters[xpath].members && ProtonName !in clusters[xpath].members
      modifies this`species, this`clusters
      ensures Valid()
      ensures clusters == old(clusters)[xpath := old(clusters[xpath]).(mu := Finite(x))]
      ensures result == -old(clusters[xpath].constraint)
                        + ClusterSum(scan, BaseLogs(nuc, old(species), mupkT, munkT), x, exp, prefactor, constraintFn)
      ensures species == WithMemberAbundances(old(species), old(clusters[xpath].members),
                                              BaseLogs(nuc, old(species), mupkT, munkT), x, exp, prefactor)
    {
      var cluster := clusters[xpath];
      clusters := clusters[xpath := cluster.(mu := Finite(x))];
      var base := BaseLogs(nuc, species, mupkT, munkT);
      var updated;
      result, updated := EvaluateMembers(scan, base, species, cluster.constraint, x, exp, prefactor, constraintFn);
      assert (set i | 0 <= i < |scan| :: scan[i]) == cluster.members;
      species := updated;
    }

    /** Libnuceq__iterateSpecies. */
    method IterateSpecies(visit: string -> bool) returns (visited: seq<string>)
      requires Nuc.Comparable(nuc, Nuc.ByIndex)
      ensures Nuc.ListedInOrder(nuc, visited, Nuc.ByIndex) && Distinct(visited)
      ensures forall i | 0 <= i < |visited| - 1 :: visit(visited[i])
      ensures |visited| == |nuc| || (|visited| > 0 && !visit(visited[|visited| - 1]))
      ensures forall n, i | n in nuc && n !in visited && 0 <= i < |visited| :: nuc[visited[i]].index < nuc[n].index
    {
      visited := VisitInOrder(nuc, visit);
    }

    /** Libnuceq__Cluster__iterateSpecies: the same over the cluster's members. */
    method IterateClusterSpecies(xpath: string, visit: string -> bool) returns (visited: seq<string>)
      requires Valid() && xpath in clusters && Nuc.Comparable(nuc, Nuc.ByIndex)
      ensures var m := Restricted(nuc, clusters[xpath].members);
        Nuc.ListedInOrder(m, visited, Nuc.ByIndex) && Distinct(visited)
        && (forall i | 0 <= i < |visited| - 1 :: visit(visited[i]))
        && (|visited| == |m| || (|visited| > 0 && !visit(visited[|visited| - 1])))
        && (forall n, i | n in m && n !in visited && 0 <= i < |visited| :: m[visited[i]].index < m[n].index)
    {
      visited := VisitInOrder(Restricted(nuc, clusters[xpath].members), visit);
    }
  }
}
