// The multi-zone utilities of NucNet Tools (user/multi_zone_utilities.cpp): the time
// step of a set of zones, the check of their mass fractions, the rule that decides
// whether a calculation tracks zone masses, the packing of all zones' abundances into
// one vector and its unpacking, and the comparison of zones by their labels.
//
// A zone's abundances enter as the vector libnucnet hands out (one entry per species,
// by species index); its mass, when it has one, as a number; the mass numbers of the
// species as a vector by species index.  The loops the source runs in parallel are
// sequential here.

module MultiZone {
  import opened Common
  import opened Vectors
  import Libnucnet
  import NetZone

  // ---------------------------------------------------------------------------
  // The time step (get_new_timestep_from_zones).
  // ---------------------------------------------------------------------------

  /** get_new_timestep_from_zones: the smallest of (1 + regt)·dt and the step every zone
      computes from the old step; zone z's network has the species species[z], which
      its hash scan scans[z] visits once each. */
  method GetNewTimestepFromZones(zones: seq<Libnucnet.Zone>, species: seq<set<string>>, scans: seq<seq<string>>,
                                 dtOld: real, regt: real, regy: real, ymin: real) returns (dt: real)
    requires |species| == |zones| && |scans| == |zones|
    requires forall z | 0 <= z < |zones| :: ScansOnce(scans[z], species[z])
    ensures dt <= (1.0 + regt) * dtOld
    ensures forall z, x | 0 <= z < |zones| && x in species[z] && NetZone.LimitsZone(zones[z], x, ymin)
              :: dt <= NetZone.ZoneStepLimit(zones[z], x, dtOld, regy, ymin)
    ensures dt == (1.0 + regt) * dtOld
            || exists z, x | 0 <= z < |zones| && x in species[z] && NetZone.LimitsZone(zones[z], x, ymin)
                 :: dt == NetZone.ZoneStepLimit(zones[z], x, dtOld, regy, ymin)
  {
    dt := (1.0 + regt) * dtOld;
    var k := 0;
    while k < |zones|
      invariant 0 <= k <= |zones|
      invariant dt <= (1.0 + regt) * dtOld
      invariant forall z, x | 0 <= z < k && x in species[z] && NetZone.LimitsZone(zones[z], x, ymin)
                  :: dt <= NetZone.ZoneStepLimit(zones[z], x, dtOld, regy, ymin)
      invariant dt == (1.0 + regt) * dtOld
                || exists z, x | 0 <= z < k && x in species[z] && NetZone.LimitsZone(zones[z], x, ymin)
                     :: dt == NetZone.ZoneStepLimit(zones[z], x, dtOld, regy, ymin)
    {
      var check := NetZone.UpdateTimeStep(zones[k], species[k], scans[k], dtOld, regt, regy, ymin);
      if check < dt {
        dt := check;
      }
      k := k + 1;
    }
  }

  // ---------------------------------------------------------------------------
  // The mass-fraction check (check_multi_zone_mass_fractions).
  // ---------------------------------------------------------------------------

  /** How far a zone's mass fractions fall short of 1: 1 − ΣA·Y. */
  function Shortfall(a: seq<real>, y: seq<real>): real
    requires |a| == |y|
  {
    1.0 - Dot(a, y)
  }

  /** check_multi_zone_mass_fractions: 1 when no zone falls short of 1 by more than the
      threshold, 0 otherwise.  The source takes the largest shortfall, so it needs at
      least one zone. */
  method CheckMultiZoneMassFractions(ys: seq<seq<real>>, a: seq<real>, threshold: real) returns (ok: int)
    requires |ys| > 0 && forall i | 0 <= i < |ys| :: |ys[i]| == |a|
    ensures ok == 0 || ok == 1
    ensures ok == 0 <==> exists i | 0 <= i < |ys| :: Shortfall(a, ys[i]) > threshold
  {
    var dxsum := seq(|ys|, i requires 0 <= i < |ys| => Shortfall(a, ys[i]));
    assert forall j | 0 <= j < |ys| :: dxsum[j] == Shortfall(a, ys[j]);
    var largest := dxsum[0];
    var i := 1;
    while i < |dxsum|
      invariant 1 <= i <= |dxsum|
      invariant forall j | 0 <= j < i :: dxsum[j] <= largest
      invariant exists j | 0 <= j < i :: dxsum[j] == largest
    {
      if dxsum[i] > largest {
        largest := dxsum[i];
      }
      i := i + 1;
    }
    if largest > threshold {
      var j :| 0 <= j < |dxsum| && dxsum[j] == largest;
      assert Shortfall(a, ys[j]) > threshold;
      ok := 0;
    } else {
      ok := 1;
    }
  }

  // ---------------------------------------------------------------------------
  // Multi-mass calculations (multi_mass_calculation_check).
  // ---------------------------------------------------------------------------

  const MissingMassMessage := "Not all zones for multi-mass calculation have zone mass."

  /** Which zones have a zone mass. */
  function HasMass(masses: seq<Option<real>>): (r: seq<bool>)
    ensures |r| == |masses| && forall i | 0 <= i < |masses| :: r[i] == masses[i].Some?
  {
    seq(|masses|, i requires 0 <= i < |masses| => masses[i].Some?)
  }

  /** multi_mass_calculation_check as written: the zones are scanned in order; a zone with
      a mass sets the flag, a zone without one is an error once the flag is set. */
  function MultiMassAsWritten(hasMass: seq<bool>): Result<bool>
  {
    if |hasMass| == 0 then Success(false)
    else
      var prev := MultiMassAsWritten(hasMass[..|hasMass| - 1]);
      if prev.Failure? then prev
      else if hasMass[|hasMass| - 1] then Success(true)
      else if prev.value then Failure(MissingMassMessage)
      else Success(false)
  }

  /** As written, the check fails exactly when a zone without mass follows one with
      mass, and otherwise reports whether any zone has a mass. */
  lemma {:induction false} MultiMassAsWrittenMeaning(hasMass: seq<bool>)
    ensures MultiMassAsWritten(hasMass).Failure?
            <==> exists i, j | 0 <= i < j < |hasMass| :: hasMass[i] && !hasMass[j]
    ensures MultiMassAsWritten(hasMass).Success?
            ==> (MultiMassAsWritten(hasMass).value <==> exists i | 0 <= i < |hasMass| :: hasMass[i])
  {
    if |hasMass| > 0 {
      var k := |hasMass| - 1;
      var init := hasMass[..k];
      MultiMassAsWrittenMeaning(init);
      assert forall i | 0 <= i < k :: init[i] == hasMass[i];
      if exists i, j | 0 <= i < j < k :: init[i] && !init[j] {
        var i, j :| 0 <= i < j < k && init[i] && !init[j];
        assert hasMass[i] && !hasMass[j];
      }
    }
  }

  /** The check as written lets a set of zones through in which the first has no mass and
      the second has one: it reports a multi-mass calculation although a zone lacks its
      mass, whose mass the packing then reads. */
  lemma MultiMassAsWrittenAcceptsMissingMass()
    ensures MultiMassAsWritten([false, true]) == Success(true)
  {
    assert [false, true][..1] == [false];
    assert [false] [..0] == [];
  }

  /** The check as intended: a calculation tracks masses when every zone has one, does
      not when none has one, and any mixture is an error. */
  function MultiMassChecked(hasMass: seq<bool>): Result<bool>
  {
    if (exists i | 0 <= i < |hasMass| :: hasMass[i]) && (exists j | 0 <= j < |hasMass| :: !hasMass[j])
    then Failure(MissingMassMessage)
    else Success(exists i | 0 <= i < |hasMass| :: hasMass[i])
  }

  /** The intended check rejects every set of zones the written one rejects and agrees
      with it wherever it accepts; a multi-mass result means every zone has a mass. */
  lemma MultiMassCheckedRefines(hasMass: seq<bool>)
    ensures MultiMassAsWritten(hasMass).Failure? ==> MultiMassChecked(hasMass).Failure?
    ensures MultiMassChecked(hasMass).Success? ==> MultiMassAsWritten(hasMass) == MultiMassChecked(hasMass)
    ensures MultiMassChecked(hasMass) == Success(true) ==> forall i | 0 <= i < |hasMass| :: hasMass[i]
    ensures MultiMassChecked(hasMass) == Success(false) ==> forall i | 0 <= i < |hasMass| :: !hasMass[i]
  {
    MultiMassAsWrittenMeaning(hasMass);
  }

  /** Zones that pass the check are all with mass or all without. */
  lemma CheckedMassesUniform(masses: seq<Option<real>>)
    requires MultiMassChecked(HasMass(masses)).Success?
    ensures Uniform(masses, MultiMassChecked(HasMass(masses)).value)
  {
    MultiMassCheckedRefines(HasMass(masses));
  }

  /** multi_mass_calculation_check, with the mixture of zones with and without mass
      rejected whichever comes first. */
  method MultiMassCalculationCheck(masses: seq<Option<real>>) returns (r: Result<bool>)
    ensures r == MultiMassChecked(HasMass(masses))
  {
    var isMultiMass := false;
    var sawMassless := false;
    var i := 0;
    while i < |masses|
      invariant 0 <= i <= |masses|
      invariant isMultiMass <==> exists j | 0 <= j < i :: masses[j].Some?
      invariant sawMassless <==> exists j | 0 <= j < i :: masses[j].None?
      invariant !(isMultiMass && sawMassless)
    {
      if masses[i].Some? {
        if sawMassless {
          return Failure(MissingMassMessage);
        }
        isMultiMass := true;
      } else {
        if isMultiMass {
          return Failure(MissingMassMessage);
        }
        sawMassless := true;
      }
      i := i + 1;
    }
    r := Success(isMultiMass);
  }

  // ---------------------------------------------------------------------------
  // The full vector (create_full_vector, update_from_full_vector).
  // ---------------------------------------------------------------------------

  /** The length of a zone's block: one entry per species, and one more for the mass in
      a multi-mass calculation. */
  function Offset(n: nat, multiMass: bool): nat
  {
    if multiMass then n + 1 else n
  }

  /** Abundances scaled by the zone mass and then by the mass numbers: m·A·Y per species,
      the mass of each species in the zone. */
  function Packed(y: seq<real>, m: real, a: seq<real>): (r: seq<real>)
    requires |a| == |y|
    ensures |r| == |y|
  {
    seq(|y|, j requires 0 <= j < |y| => y[j] * m * a[j])
  }

  /** A zone's block: its abundances, or its mass followed by its scaled abundances. */
  function Block(y: seq<real>, mass: Option<real>, a: seq<real>): (r: seq<real>)
    requires |a| == |y|
    ensures |r| == Offset(|y|, mass.Some?)
  {
    match mass
    case None => y
    case Some(m) => [m] + Packed(y, m, a)
  }

  /** All zones have vectors of n entries. */
  predicate Sized(ys: seq<seq<real>>, n: nat)
  {
    forall i | 0 <= i < |ys| :: |ys[i]| == n
  }

  /** Every zone has a mass, or none has. */
  predicate Uniform(masses: seq<Option<real>>, multiMass: bool)
  {
    forall i | 0 <= i < |masses| :: masses[i].Some? == multiMass
  }

  /** The blocks of the first k zones, one after the other. */
  function Blocks(ys: seq<seq<real>>, masses: seq<Option<real>>, a: seq<real>, k: nat): seq<real>
    requires |masses| == |ys| && Sized(ys, |a|) && k <= |ys|
  {
    if k == 0 then [] else Blocks(ys, masses, a, k - 1) + Block(ys[k - 1], masses[k - 1], a)
  }

  /** The blocks of all the zones: the full vector. */
  function FullVector(ys: seq<seq<real>>, masses: seq<Option<real>>, a: seq<real>): seq<real>
    requires |masses| == |ys| && Sized(ys, |a|)
  {
    Blocks(ys, masses, a, |ys|)
  }

  /** (k + 1)·d = k·d + d. */
  lemma NextStart(k: nat, d: nat)
    ensures (k + 1) * d == k * d + d
  {
  }

  /** Where block i of a full vector whose blocks have length d starts: i·d, counted
      block by block. */
  function Start(i: nat, d: nat): nat
  {
    if i == 0 then 0 else Start(i - 1, d) + d
  }

  /** Counting blocks gives the product. */
  lemma {:induction false} StartIsProduct(i: nat, d: nat)
    ensures Start(i, d) == i * d
  {
    if i > 0 {
      StartIsProduct(i - 1, d);
      NextStart(i - 1, d);
    }
  }

  /** With every zone's block of the same length d, the blocks of k zones take k·d
      entries. */
  lemma {:induction false} BlocksLength(ys: seq<seq<real>>, masses: seq<Option<real>>, a: seq<real>, k: nat, multiMass: bool)
    requires |masses| == |ys| && Sized(ys, |a|) && Uniform(masses, multiMass) && k <= |ys|
    ensures |Blocks(ys, masses, a, k)| == Start(k, Offset(|a|, multiMass))
  {
    if k > 0 {
      BlocksLength(ys, masses, a, k - 1, multiMass);
    }
  }

  /** With every zone's block of the same length, the full vector has that length once
      per zone. */
  lemma FullVectorLength(ys: seq<seq<real>>, masses: seq<Option<real>>, a: seq<real>, multiMass: bool)
    requires |masses| == |ys| && Sized(ys, |a|) && Uniform(masses, multiMass)
    ensures |FullVector(ys, masses, a)| == |ys| * Offset(|a|, multiMass)
  {
    BlocksLength(ys, masses, a, |ys|, multiMass);
    StartIsProduct(|ys|, Offset(|a|, multiMass));
  }

  /** The blocks of zones m to k - 1, one after the other. */
  function BlocksBetween(ys: seq<seq<real>>, masses: seq<Option<real>>, a: seq<real>, m: nat, k: nat): seq<real>
    requires |masses| == |ys| && Sized(ys, |a|) && m <= k <= |ys|
    decreases k
  {
    if k == m then [] else BlocksBetween(ys, masses, a, m, k - 1) + Block(ys[k - 1], masses[k - 1], a)
  }

  /** The blocks of the first k zones are those of the first m followed by the rest. */
  lemma {:induction false} BlocksSplit(ys: seq<seq<real>>, masses: seq<Option<real>>, a: seq<real>, m: nat, k: nat)
    requires |masses| == |ys| && Sized(ys, |a|) && m <= k <= |ys|
    ensures Blocks(ys, masses, a, k) == Blocks(ys, masses, a, m) + BlocksBetween(ys, masses, a, m, k)
    decreases k
  {
    if m < k {
      BlocksSplit(ys, masses, a, m, k - 1);
      AppendAssociative(Blocks(ys, masses, a, m), BlocksBetween(ys, masses, a, m, k - 1), Block(ys[k - 1], masses[k - 1], a));
    }
  }

  /** Concatenation is associative; kept apart from BlocksSplit so that the step is
      proved without the blocks' definitions in view. */
  lemma AppendAssociative(p: seq<real>, q: seq<real>, r: seq<real>)
    ensures (p + q) + r == p + (q + r)
  {
  }

  /** The layout of the full vector: zone i's block follows the blocks of the zones
      before it. */
  lemma FullVectorBlock(ys: seq<seq<real>>, masses: seq<Option<real>>, a: seq<real>, i: nat)
    requires |masses| == |ys| && Sized(ys, |a|) && i < |ys|
    ensures var s := |Blocks(ys, masses, a, i)|;
            var b := Block(ys[i], masses[i], a);
            && s + |b| <= |FullVector(ys, masses, a)|
            && FullVector(ys, masses, a)[s..s + |b|] == b
  {
    BlocksSplit(ys, masses, a, i + 1, |ys|);
    var before, rest := Blocks(ys, masses, a, i), BlocksBetween(ys, masses, a, i + 1, |ys|);
    var b := Block(ys[i], masses[i], a);
    assert FullVector(ys, masses, a) == (before + b) + rest;
    assert ((before + b) + rest)[|before|..|before| + |b|] == b;
  }

  /** Zone i's block ends inside the full vector. */
  lemma BlockFits(ys: seq<seq<real>>, masses: seq<Option<real>>, a: seq<real>, i: nat)
    requires |masses| == |ys| && Sized(ys, |a|) && i < |ys|
    ensures |Blocks(ys, masses, a, i)| + |Block(ys[i], masses[i], a)| <= |FullVector(ys, masses, a)|
  {
    BlocksSplit(ys, masses, a, i + 1, |ys|);
  }

  /** Copies a block into the vector at start, leaving the rest as it was. */
  method CopyInto(v: array<real>, start: nat, block: seq<real>)
    requires start + |block| <= v.Length
    modifies v
    ensures v[..start] == old(v[..start])
    ensures v[start..start + |block|] == block
  {
    var j := 0;
    while j < |block|
      invariant 0 <= j <= |block|
      invariant v[..start] == old(v[..start])
      invariant v[start..start + j] == block[..j]
    {
      v[start + j] := block[j];
      j := j + 1;
    }
  }

  /** create_full_vector: one block per zone, in zone order; a mixture of zones with
      and without mass is an error.  The source reads the number of species from the
      first zone, so it needs at least one. */
  method CreateFullVector(ys: seq<seq<real>>, masses: seq<Option<real>>, a: seq<real>)
    returns (r: Result<seq<real>>)
    requires |ys| > 0 && |masses| == |ys| && Sized(ys, |a|)
    ensures r.Failure? <==> MultiMassChecked(HasMass(masses)).Failure?
    ensures r.Success? ==> r.value == FullVector(ys, masses, a)
  {
    var mode := MultiMassCalculationCheck(masses);
    if mode.Failure? {
      return Failure(mode.error);
    }
    CheckedMassesUniform(masses);
    var v := PackZones(ys, masses, a, mode.value);
    return Success(v);
  }

  /** A vector that begins with done followed by block at base begins with done + block. */
  lemma ExtendPrefix(v: seq<real>, base: nat, block: seq<real>, done: seq<real>)
    requires base + |block| <= |v| && v[..base] == done && v[base..base + |block|] == block
    ensures v[..base + |block|] == done + block
  {
    assert v[..base + |block|] == v[..base] + v[base..base + |block|];
  }

  /** The loop of create_full_vector: a vector of one block's length per zone, filled
      block by block. */
  method PackZones(ys: seq<seq<real>>, masses: seq<Option<real>>, a: seq<real>, multiMass: bool)
    returns (r: seq<real>)
    requires |masses| == |ys| && Sized(ys, |a|) && Uniform(masses, multiMass)
    ensures r == FullVector(ys, masses, a)
  {
    FullVectorLength(ys, masses, a, multiMass);
    var v := new real[|ys| * Offset(|a|, multiMass)];
    assert v.Length == |FullVector(ys, masses, a)|;
    var base := 0;
    for i := 0 to |ys|
      invariant base == |Blocks(ys, masses, a, i)| <= v.Length
      invariant v[..base] == Blocks(ys, masses, a, i)
    {
      base := FillBlock(v, base, ys, masses, a, i);
    }
    assert v[..] == v[..base];
    r := v[..];
  }

  /** One pass of the loop of create_full_vector: zone i's block is copied in after the
      blocks of the zones before it. */
  method FillBlock(v: array<real>, base: nat, ys: seq<seq<real>>, masses: seq<Option<real>>, a: seq<real>, i: nat)
    returns (next: nat)
    requires |masses| == |ys| && Sized(ys, |a|) && i < |ys| && v.Length == |FullVector(ys, masses, a)|
    requires base == |Blocks(ys, masses, a, i)| <= v.Length && v[..base] == Blocks(ys, masses, a, i)
    modifies v
    ensures next == |Blocks(ys, masses, a, i + 1)| <= v.Length
    ensures v[..next] == Blocks(ys, masses, a, i + 1)
  {
    var block := Block(ys[i], masses[i], a);
    BlockFits(ys, masses, a, i);
    ghost var before := v[..];
    CopyInto(v, base, block);
    PackStep(ys, masses, a, i, before, v[..], base);
    next := base + |block|;
  }

  /** Copying zone i's block after the blocks of the zones before it gives the blocks of
      the first i + 1 zones. */
  lemma PackStep(ys: seq<seq<real>>, masses: seq<Option<real>>, a: seq<real>, i: nat,
                 before: seq<real>, after: seq<real>, base: nat)
    requires |masses| == |ys| && Sized(ys, |a|) && i < |ys|
    requires base == |Blocks(ys, masses, a, i)| && base + |Block(ys[i], masses[i], a)| <= |before| == |after|
    requires before[..base] == Blocks(ys, masses, a, i) && after[..base] == before[..base]
    requires after[base..base + |Block(ys[i], masses[i], a)|] == Block(ys[i], masses[i], a)
    ensures base + |Block(ys[i], masses[i], a)| == |Blocks(ys, masses, a, i + 1)|
    ensures after[..base + |Block(ys[i], masses[i], a)|] == Blocks(ys, masses, a, i + 1)
  {
    ExtendPrefix(after, base, Block(ys[i], masses[i], a), Blocks(ys, masses, a, i));
  }

  const AbundancesKind := "abundances"
  const AbundanceChangesKind := "abundance changes"
  const NoSuchTypeMessage := "No such vector type."

  /** What unpacking gives back: a vector per zone (its new abundances or abundance
      changes, by the kind of the full vector), the zones' masses and mass changes. */
  datatype Unpacked = Unpacked(vectors: seq<seq<real>>, masses: seq<Option<real>>, massChanges: seq<Option<real>>)

  /** Block i of count blocks ends inside the full vector. */
  lemma BlockStart(i: nat, count: nat, d: nat)
    requires i < count
    ensures Start(i, d) + d <= count * d
  {
    StartIsProduct(i + 1, d);
    StartIsProduct(count, d);
    StartMonotone(i + 1, count, d);
  }

  /** Later blocks start later. */
  lemma {:induction false} StartMonotone(i: nat, j: nat, d: nat)
    requires i <= j
    ensures Start(i, d) <= Start(j, d)
    decreases j
  {
    if i < j {
      StartMonotone(i, j - 1, d);
    }
  }

  /** Block i of a full vector whose blocks have length d. */
  function ZoneBlock(v: seq<real>, i: nat, d: nat, count: nat): (b: seq<real>)
    requires i < count && |v| == count * d
    ensures |b| == d
  {
    BlockStart(i, count, d);
    v[Start(i, d)..Start(i, d) + d]
  }

  /** Entries of m·A·Y turned back into abundances: divided by the mass and then by the
      mass numbers; a zone of mass 0 gets zero abundances. */
  function Unscaled(b: seq<real>, m: real, a: seq<real>): (r: seq<real>)
    requires |a| == |b| && forall j | 0 <= j < |a| :: a[j] != 0.0
    ensures |r| == |b|
  {
    if m == 0.0 then Zeros(|b|)
    else seq(|b|, j requires 0 <= j < |b| => b[j] * (1.0 / m) / a[j])
  }

  /** The mass unpacking reads for zone i: the block's first entry for a full vector of
      abundances, the zone's own mass otherwise. */
  function UnpackedMass(b: seq<real>, kind: string, mass: Option<real>): real
    requires |b| > 0
  {
    if kind == AbundancesKind || mass.None? then b[0] else mass.value
  }

  /** A zone's new vector from its block. */
  function ZoneVector(b: seq<real>, kind: string, mass: Option<real>, a: seq<real>, multiMass: bool): (r: seq<real>)
    requires |b| == Offset(|a|, multiMass) && forall j | 0 <= j < |a| :: a[j] != 0.0
    ensures |r| == |a|
  {
    if multiMass then Unscaled(b[1..], UnpackedMass(b, kind, mass), a) else b
  }

  /** The full vector's length for the calculation the zones' masses call for. */
  predicate FitsZones(v: seq<real>, masses: seq<Option<real>>, a: seq<real>)
  {
    var mode := MultiMassChecked(HasMass(masses));
    mode.Success? ==> |v| == |masses| * Offset(|a|, mode.value)
  }

  /** The mass (or mass change) a multi-mass full vector holds for zone i. */
  function BlockMass(v: seq<real>, i: nat, d: nat, count: nat): Option<real>
    requires i < count && |v| == count * d && d > 0
  {
    Some(ZoneBlock(v, i, d, count)[0])
  }

  /** Zone i's entry of a per-zone sequence after unpacking: the block's leading entry
      when the full vector carries it, the zone's own value otherwise. */
  function NewZoneValue(v: seq<real>, fromBlock: bool, old_: seq<Option<real>>, i: nat, d: nat): Option<real>
    requires i < |old_| && |v| == |old_| * d && (fromBlock ==> d > 0)
  {
    if fromBlock then BlockMass(v, i, d, |old_|) else old_[i]
  }

  /** update_from_full_vector: every zone gets the vector its block holds; in a multi-mass
      calculation a full vector of abundances also sets the zones' masses and one of
      abundance changes their mass changes, and the abundances are divided by the mass
      and the mass numbers.  A mixture of zones with and without mass and an unknown kind
      of vector are errors. */
  function UpdatedFromFullVector(v: seq<real>, kind: string, masses: seq<Option<real>>,
                                 massChanges: seq<Option<real>>, a: seq<real>): Result<Unpacked>
    requires |masses| > 0 && |massChanges| == |masses| && FitsZones(v, masses, a)
    requires forall j | 0 <= j < |a| :: a[j] != 0.0
  {
    var mode := MultiMassChecked(HasMass(masses));
    if mode.Failure? then Failure(mode.error)
    else if kind != AbundancesKind && kind != AbundanceChangesKind then Failure(NoSuchTypeMessage)
    else Success(UnpackedBlocks(v, kind, masses, massChanges, a, mode.value))
  }

  /** The zones' new vectors, masses and mass changes, block by block. */
  function UnpackedBlocks(v: seq<real>, kind: string, masses: seq<Option<real>>,
                          massChanges: seq<Option<real>>, a: seq<real>, multiMass: bool): Unpacked
    requires |massChanges| == |masses| && |v| == |masses| * Offset(|a|, multiMass)
    requires forall j | 0 <= j < |a| :: a[j] != 0.0
  {
    var count, d := |masses|, Offset(|a|, multiMass);
    var setsMasses, setsChanges := multiMass && kind == AbundancesKind, multiMass && kind == AbundanceChangesKind;
    Unpacked(
      seq(count, i requires 0 <= i < count => ZoneVector(ZoneBlock(v, i, d, count), kind, masses[i], a, multiMass)),
      seq(count, i requires 0 <= i < count => NewZoneValue(v, setsMasses, masses, i, d)),
      seq(count, i requires 0 <= i < count => NewZoneValue(v, setsChanges, massChanges, i, d)))
  }

  /** m·A·Y divided by m and then by A is Y again. */
  lemma UnscalePacked(y: real, m: real, aj: real)
    requires m != 0.0 && aj != 0.0
    ensures y * m * aj * (1.0 / m) / aj == y
  {
    assert m * (1.0 / m) == 1.0;
    assert y * m * aj * (1.0 / m) == y * aj;
  }

  /** Unpacking a block packed with a non-zero mass gives the abundances back. */
  lemma UnscaledPacked(y: seq<real>, m: real, a: seq<real>)
    requires |a| == |y| && m != 0.0 && forall j | 0 <= j < |a| :: a[j] != 0.0
    ensures Unscaled(Packed(y, m, a), m, a) == y
  {
    var p := Packed(y, m, a);
    forall j | 0 <= j < |y| ensures Unscaled(p, m, a)[j] == y[j] {
      UnscalePacked(y[j], m, a[j]);
    }
  }

  /** Zone i's block of the full vector unpacks to the zone's abundances and mass. */
  lemma UnpackZoneAfterCreate(ys: seq<seq<real>>, masses: seq<Option<real>>, a: seq<real>, multiMass: bool, i: nat)
    requires |masses| == |ys| && Sized(ys, |a|) && Uniform(masses, multiMass) && i < |ys|
    requires forall j | 0 <= j < |a| :: a[j] != 0.0
    requires forall k | 0 <= k < |masses| && masses[k].Some? :: masses[k].value != 0.0
    requires |FullVector(ys, masses, a)| == |ys| * Offset(|a|, multiMass)
    ensures ZoneVector(ZoneBlock(FullVector(ys, masses, a), i, Offset(|a|, multiMass), |ys|),
                       AbundancesKind, masses[i], a, multiMass) == ys[i]
    ensures multiMass ==> Some(ZoneBlock(FullVector(ys, masses, a), i, Offset(|a|, multiMass), |ys|)[0]) == masses[i]
  {
    var b := ZoneBlock(FullVector(ys, masses, a), i, Offset(|a|, multiMass), |ys|);
    FullVectorBlock(ys, masses, a, i);
    BlocksLength(ys, masses, a, i, multiMass);
    assert b == Block(ys[i], masses[i], a);
    UnpackBlock(ys[i], masses[i], a, multiMass);
  }

  /** One zone's block unpacks to the zone's abundances and mass. */
  lemma UnpackBlock(y: seq<real>, mass: Option<real>, a: seq<real>, multiMass: bool)
    requires |y| == |a| && mass.Some? == multiMass && (mass.Some? ==> mass.value != 0.0)
    requires forall j | 0 <= j < |a| :: a[j] != 0.0
    ensures ZoneVector(Block(y, mass, a), AbundancesKind, mass, a, multiMass) == y
    ensures multiMass ==> Some(Block(y, mass, a)[0]) == mass
  {
    if multiMass {
      var b := Block(y, mass, a);
      assert b[0] == mass.value && b[1..] == Packed(y, mass.value, a);
      UnscaledPacked(y, mass.value, a);
    }
  }

  /** Packing the zones and unpacking the result as abundances restores every zone's
      abundances and masses when no zone has mass 0 (and leaves the mass changes). */
  lemma UpdateAfterCreate(ys: seq<seq<real>>, masses: seq<Option<real>>, massChanges: seq<Option<real>>, a: seq<real>)
    requires |ys| > 0 && |masses| == |ys| && |massChanges| == |ys| && Sized(ys, |a|)
    requires forall j | 0 <= j < |a| :: a[j] != 0.0
    requires MultiMassChecked(HasMass(masses)).Success?
    requires forall i | 0 <= i < |masses| && masses[i].Some? :: masses[i].value != 0.0
    ensures FitsZones(FullVector(ys, masses, a), masses, a)
    ensures UpdatedFromFullVector(FullVector(ys, masses, a), AbundancesKind, masses, massChanges, a)
            == Success(Unpacked(ys, masses, massChanges))
  {
    var multiMass := MultiMassChecked(HasMass(masses)).value;
    CheckedMassesUniform(masses);
    FullVectorLength(ys, masses, a, multiMass);
    var v := FullVector(ys, masses, a);
    var d := Offset(|a|, multiMass);
    forall k | 0 <= k < |ys|
      ensures ys[k] == ZoneVector(ZoneBlock(v, k, d, |ys|), AbundancesKind, masses[k], a, multiMass)
      ensures masses[k] == NewZoneValue(v, multiMass, masses, k, d)
    {
      UnpackZoneAfterCreate(ys, masses, a, multiMass, k);
    }
    UnpackedZoneByZone(v, AbundancesKind, masses, massChanges, a, Unpacked(ys, masses, massChanges));
  }

  /** A result that agrees with update_from_full_vector zone by zone is its result. */
  lemma UnpackedZoneByZone(v: seq<real>, kind: string, masses: seq<Option<real>>,
                           massChanges: seq<Option<real>>, a: seq<real>, u: Unpacked)
    requires |masses| > 0 && |massChanges| == |masses| && FitsZones(v, masses, a)
    requires forall j | 0 <= j < |a| :: a[j] != 0.0
    requires MultiMassChecked(HasMass(masses)).Success?
    requires kind == AbundancesKind || kind == AbundanceChangesKind
    requires |u.vectors| == |masses| && |u.masses| == |masses| && |u.massChanges| == |masses|
    requires var multiMass := MultiMassChecked(HasMass(masses)).value;
             var d := Offset(|a|, multiMass);
             forall k | 0 <= k < |masses| ::
               && u.vectors[k] == ZoneVector(ZoneBlock(v, k, d, |masses|), kind, masses[k], a, multiMass)
               && u.masses[k] == NewZoneValue(v, multiMass && kind == AbundancesKind, masses, k, d)
               && u.massChanges[k] == NewZoneValue(v, multiMass && kind == AbundanceChangesKind, massChanges, k, d)
    ensures UpdatedFromFullVector(v, kind, masses, massChanges, a) == Success(u)
  {
    UnpackedBlocksMatch(v, kind, masses, massChanges, a, MultiMassChecked(HasMass(masses)).value, u);
  }

  /** One zone of update_from_full_vector: its block is copied out, and in a multi-mass
      calculation the leading entry sets the zone's mass or mass change and the
      abundances are divided by the mass and the mass numbers. */
  method UnpackZone(v: seq<real>, base: nat, i: nat, count: nat, kind: string, mass: Option<real>,
                    massChange: Option<real>, a: seq<real>, multiMass: bool)
    returns (abunds: seq<real>, mass': Option<real>, massChange': Option<real>)
    requires i < count && |v| == count * Offset(|a|, multiMass) && base == Start(i, Offset(|a|, multiMass))
    requires kind == AbundancesKind || kind == AbundanceChangesKind
    requires forall j | 0 <= j < |a| :: a[j] != 0.0
    requires multiMass ==> mass.Some?
    ensures abunds == ZoneVector(ZoneBlock(v, i, Offset(|a|, multiMass), count), kind, mass, a, multiMass)
    ensures mass' == if multiMass && kind == AbundancesKind then BlockMass(v, i, Offset(|a|, multiMass), count) else mass
    ensures massChange' == if multiMass && kind == AbundanceChangesKind
                           then BlockMass(v, i, Offset(|a|, multiMass), count) else massChange
  {
    var d := Offset(|a|, multiMass);
    var delta := if multiMass then 1 else 0;
    BlockStart(i, count, d);
    var block := v[base..base + d];
    assert block == ZoneBlock(v, i, d, count);
    abunds, mass', massChange' := block[delta..], mass, massChange;
    if multiMass {
      if kind == AbundancesKind {
        mass' := Some(v[base]);
      } else {
        massChange' := Some(v[base]);
      }
      abunds := Unscaled(abunds, mass'.value, a);
    }
  }

  /** update_from_full_vector: the check of the zones' masses and of the kind of vector,
      then the zones unpacked in order. */
  method UpdateFromFullVector(v: seq<real>, kind: string, masses: seq<Option<real>>,
                              massChanges: seq<Option<real>>, a: seq<real>) returns (r: Result<Unpacked>)
    requires |masses| > 0 && |massChanges| == |masses| && FitsZones(v, masses, a)
    requires forall j | 0 <= j < |a| :: a[j] != 0.0
    ensures r == UpdatedFromFullVector(v, kind, masses, massChanges, a)
  {
    var mode := MultiMassCalculationCheck(masses);
    if mode.Failure? {
      return Failure(mode.error);
    }
    if kind != AbundancesKind && kind != AbundanceChangesKind {
      return Failure(NoSuchTypeMessage);
    }
    CheckedMassesUniform(masses);
    var u := UnpackZones(v, kind, masses, massChanges, a, mode.value);
    return Success(u);
  }

  /** The loop of update_from_full_vector over the zones, in order. */
  method UnpackZones(v: seq<real>, kind: string, masses: seq<Option<real>>,
                     massChanges: seq<Option<real>>, a: seq<real>, multiMass: bool) returns (u: Unpacked)
    requires |massChanges| == |masses| && |v| == |masses| * Offset(|a|, multiMass)
    requires forall j | 0 <= j < |a| :: a[j] != 0.0
    requires kind == AbundancesKind || kind == AbundanceChangesKind
    requires Uniform(masses, multiMass)
    ensures u == UnpackedBlocks(v, kind, masses, massChanges, a, multiMass)
  {
    var count, d := |masses|, Offset(|a|, multiMass);
    u := Unpacked([], [], []);
    var base := 0;
    for i := 0 to count
      invariant base == Start(i, d)
      invariant UnpackedUpTo(v, kind, masses, massChanges, a, multiMass, i, u)
    {
      var abunds, mass, massChange := UnpackZone(v, base, i, count, kind, masses[i], massChanges[i], a, multiMass);
      UnpackStep(v, kind, masses, massChanges, a, multiMass, i, u, abunds, mass, massChange);
      u := Unpacked(u.vectors + [abunds], u.masses + [mass], u.massChanges + [massChange]);
      base := base + d;
    }
    UnpackedBlocksMatch(v, kind, masses, massChanges, a, multiMass, u);
  }

  /** The first i zones are unpacked as UnpackedBlocks unpacks them. */
  ghost predicate UnpackedUpTo(v: seq<real>, kind: string, masses: seq<Option<real>>,
                               massChanges: seq<Option<real>>, a: seq<real>, multiMass: bool, i: nat, u: Unpacked)
    requires |massChanges| == |masses| && |v| == |masses| * Offset(|a|, multiMass) && i <= |masses|
    requires forall j | 0 <= j < |a| :: a[j] != 0.0
  {
    var count, d := |masses|, Offset(|a|, multiMass);
    && |u.vectors| == i && |u.masses| == i && |u.massChanges| == i
    && (forall k | 0 <= k < i :: u.vectors[k] == ZoneVector(ZoneBlock(v, k, d, count), kind, masses[k], a, multiMass))
    && (forall k | 0 <= k < i :: u.masses[k] == NewZoneValue(v, multiMass && kind == AbundancesKind, masses, k, d))
    && (forall k | 0 <= k < i :: u.massChanges[k] == NewZoneValue(v, multiMass && kind == AbundanceChangesKind, massChanges, k, d))
  }

  /** Unpacking zone i extends the unpacked zones by one. */
  lemma UnpackStep(v: seq<real>, kind: string, masses: seq<Option<real>>, massChanges: seq<Option<real>>,
                   a: seq<real>, multiMass: bool, i: nat, u: Unpacked,
                   abunds: seq<real>, mass: Option<real>, massChange: Option<real>)
    requires |massChanges| == |masses| && |v| == |masses| * Offset(|a|, multiMass) && i < |masses|
    requires forall j | 0 <= j < |a| :: a[j] != 0.0
    requires UnpackedUpTo(v, kind, masses, massChanges, a, multiMass, i, u)
    requires abunds == ZoneVector(ZoneBlock(v, i, Offset(|a|, multiMass), |masses|), kind, masses[i], a, multiMass)
    requires mass == NewZoneValue(v, multiMass && kind == AbundancesKind, masses, i, Offset(|a|, multiMass))
    requires massChange == NewZoneValue(v, multiMass && kind == AbundanceChangesKind, massChanges, i, Offset(|a|, multiMass))
    ensures UnpackedUpTo(v, kind, masses, massChanges, a, multiMass, i + 1,
                         Unpacked(u.vectors + [abunds], u.masses + [mass], u.massChanges + [massChange]))
  {
  }

  /** Zone-by-zone agreement with UnpackedBlocks is agreement with it. */
  lemma UnpackedBlocksMatch(v: seq<real>, kind: string, masses: seq<Option<real>>,
                            massChanges: seq<Option<real>>, a: seq<real>, multiMass: bool, u: Unpacked)
    requires |massChanges| == |masses| && |v| == |masses| * Offset(|a|, multiMass)
    requires forall j | 0 <= j < |a| :: a[j] != 0.0
    requires UnpackedUpTo(v, kind, masses, massChanges, a, multiMass, |masses|, u)
    ensures u == UnpackedBlocks(v, kind, masses, massChanges, a, multiMass)
  {
    var spec := UnpackedBlocks(v, kind, masses, massChanges, a, multiMass);
    assert u.vectors == spec.vectors;
    assert u.masses == spec.masses;
    assert u.massChanges == spec.massChanges;
  }

  // ---------------------------------------------------------------------------
  // Comparing zones (zone_compare_by_labels).
  // ---------------------------------------------------------------------------

  /** zone_compare_by_labels: the first labels compared as strings; when they are equal,
      the second labels compared as numbers, -1 when the first zone's reads smaller and 1
      otherwise (equal second labels included). */
  function ZoneCompareByLabels(z1: Libnucnet.Labels, z2: Libnucnet.Labels, atof: string -> real): int
  {
    var c := Strcmp(z1.0, z2.0);
    if c < 0 then -1
    else if c > 0 then 1
    else if atof(z1.1) < atof(z2.1) then -1
    else 1
  }

  /** It never reports equality; -1 means the first labels are in string order, or equal
      with the second labels in numeric order; for zones that differ in either key,
      swapping them flips the result. */
  lemma ZoneCompareByLabelsMeaning(z1: Libnucnet.Labels, z2: Libnucnet.Labels, atof: string -> real)
    ensures ZoneCompareByLabels(z1, z2, atof) == 1 || ZoneCompareByLabels(z1, z2, atof) == -1
    ensures ZoneCompareByLabels(z1, z2, atof) == -1
            <==> StrLess(z1.0, z2.0) || (z1.0 == z2.0 && atof(z1.1) < atof(z2.1))
    ensures z1.0 != z2.0 || atof(z1.1) != atof(z2.1)
            ==> ZoneCompareByLabels(z1, z2, atof) == -ZoneCompareByLabels(z2, z1, atof)
  {
    StrLessTotal(z1.0, z2.0);
  }

  /** "Before" is transitive: the comparison sorts zones consistently. */
  lemma ZoneCompareByLabelsTransitive(z1: Libnucnet.Labels, z2: Libnucnet.Labels, z3: Libnucnet.Labels,
                                      atof: string -> real)
    requires ZoneCompareByLabels(z1, z2, atof) == -1 && ZoneCompareByLabels(z2, z3, atof) == -1
    ensures ZoneCompareByLabels(z1, z3, atof) == -1
  {
    ZoneCompareByLabelsMeaning(z1, z2, atof);
    ZoneCompareByLabelsMeaning(z2, z3, atof);
    ZoneCompareByLabelsMeaning(z1, z3, atof);
    if StrLess(z1.0, z2.0) && StrLess(z2.0, z3.0) {
      StrLessTransitive(z1.0, z2.0, z3.0);
    }
  }
}
