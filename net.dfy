// The zone store and the network-level computations of libnucnet
// (vendor/libnucnet/0.28/src/Libnucnet.c).
//
// A zone is keyed by a triple of labels and holds the abundances, the
// abundance changes and the optional properties of one region.  The network
// checks reactions for conservation of baryon number, charge and the three
// lepton numbers, computes Q values, reverse rates and the flow vector of a
// zone, and proposes the next time step.

module Libnucnet {
  import opened Common
  import opened Reac
  import opened Vectors
  import Nuc

  // ---------------------------------------------------------------------------
  // Zone labels.
  // ---------------------------------------------------------------------------

  /** The label a missing label stands for. */
  const ZeroLabel := "0"

  type Labels = (string, string, string)

  /** A label as stored: the given string, or "0" when none is given. */
  function Defaulted(given: Option<string>): string
  {
    if given.Some? then given.value else ZeroLabel
  }

  function DefaultedLabels(label1: Option<string>, label2: Option<string>, label3: Option<string>): Labels
  {
    (Defaulted(label1), Defaulted(label2), Defaulted(label3))
  }

  // ---------------------------------------------------------------------------
  // Abundance tables: a species absent from the table has abundance 0, and a
  // zero is never stored.
  // ---------------------------------------------------------------------------

  /** The value of a species in a table, 0 when absent. */
  function Lookup(m: map<string, real>, name: string): real
  {
    if name in m then m[name] else 0.0
  }

  ghost predicate NoZeros(m: map<string, real>)
  {
    forall n | n in m :: m[n] != 0.0
  }

  /** The table after a value is stored for a species: zero removes the entry, anything
      else replaces it.  Reading back gives the value stored, every other species keeps
      its value, and a table without zeros stays without zeros. */
  function Stored(m: map<string, real>, name: string, y: real): (r: map<string, real>)
    ensures Lookup(r, name) == y
    ensures forall n | n != name :: Lookup(r, n) == Lookup(m, n)
    ensures NoZeros(m) ==> NoZeros(r)
    ensures name in r <==> y != 0.0
  {
    if y == 0.0 then m - {name} else m[name := y]
  }

  /** A Libnucnet__Zone: its labels, abundances, abundance changes and optional
      properties. */
  class Zone {
    var labels: Labels
    var abundances: map<string, real>
    var abundanceChanges: map<string, real>
    var properties: map<PropertyKey, string>

    /** No zero is stored in either table. */
    ghost predicate Valid()
      reads this`abundances, this`abundanceChanges
    {
      NoZeros(abundances) && NoZeros(abundanceChanges)
    }

    /** Libnucnet__Zone__new: missing labels become "0"; every table starts empty. */
    constructor(label1: Option<string>, label2: Option<string>, label3: Option<string>)
      ensures labels == DefaultedLabels(label1, label2, label3)
      ensures label1.None? ==> labels.0 == ZeroLabel
      ensures Valid() && abundances == map[] && abundanceChanges == map[] && properties == map[]
    {
      labels := DefaultedLabels(label1, label2, label3);
      abundances, abundanceChanges, properties := map[], map[], map[];
    }

    /** Libnucnet__Zone__getSpeciesAbundance: 0 for a species without an entry. */
    function GetSpeciesAbundance(name: string): real
      reads this`abundances
    {
      Lookup(abundances, name)
    }

    /** Libnucnet__Zone__getSpeciesAbundanceChange: 0 for a species without an entry. */
    function GetSpeciesAbundanceChange(name: string): real
      reads this`abundanceChanges
    {
      Lookup(abundanceChanges, name)
    }

    /** Libnucnet__Zone__updateSpeciesAbundance: a zero removes the entry, any other
        value is stored; reading back gives the value. */
    method UpdateSpeciesAbundance(name: string, y: real)
      requires Valid()
      modifies this`abundances
      ensures Valid() && abundances == Stored(old(abundances), name, y)
      ensures GetSpeciesAbundance(name) == y
    {
      if y != 0.0 {
        abundances := abundances[name := y];
      } else if name in abundances {
        abundances := abundances - {name};
      }
    }

    /** Libnucnet__Zone__updateSpeciesAbundanceChange: as for abundances. */
    method UpdateSpeciesAbundanceChange(name: string, dy: real)
      requires Valid()
      modifies this`abundanceChanges
      ensures Valid() && abundanceChanges == Stored(old(abundanceChanges), name, dy)
      ensures GetSpeciesAbundanceChange(name) == dy
    {
      if dy != 0.0 {
        abundanceChanges := abundanceChanges[name := dy];
      } else if name in abundanceChanges {
        abundanceChanges := abundanceChanges - {name};
      }
    }

    /** Libnucnet__Zone__updateProperty: a second tag without a first is a fatal error;
        otherwise the value is stored under (name, tag1, tag2), replacing any earlier
        one, and 1 is returned. */
    method UpdateProperty(name: string, tag1: Option<string>, tag2: Option<string>, value: string)
      returns (status: int)
      requires !(tag2.Some? && tag1.None?)
      modifies this`properties
      ensures status == 1 && properties == old(properties)[PropertyKey(name, tag1, tag2) := value]
      ensures GetProperty(name, tag1, tag2) == Some(value)
    {
      properties := properties[PropertyKey(name, tag1, tag2) := value];
      status := 1;
    }

    /** Libnucnet__Zone__getProperty: the value stored under the exact key, if any. */
    function GetProperty(name: string, tag1: Option<string>, tag2: Option<string>): (r: Option<string>)
      reads this`properties
      ensures r.Some? <==> PropertyKey(name, tag1, tag2) in properties
    {
      var k := PropertyKey(name, tag1, tag2);
      if k in properties then Some(properties[k]) else None
    }

    /** Libnucnet__Zone__removeProperty: 1 when a property was stored under the key (it
        is removed), 0 otherwise. */
    method RemoveProperty(name: string, tag1: Option<string>, tag2: Option<string>)
      returns (status: int)
      modifies this`properties
      ensures PropertyKey(name, tag1, tag2) in old(properties) ==> status == 1
      ensures PropertyKey(name, tag1, tag2) !in old(properties) ==> status == 0
      ensures properties == old(properties) - {PropertyKey(name, tag1, tag2)}
      ensures GetProperty(name, tag1, tag2).None?
    {
      var k := PropertyKey(name, tag1, tag2);
      if k in properties {
        properties := properties - {k};
        status := 1;
      } else {
        status := 0;
      }
    }
  }

  // ---------------------------------------------------------------------------
  // Relabelling, on the zone table.
  // ---------------------------------------------------------------------------

  /** Libnucnet__relabelZone as written, on the zone table: the clash test looks the
      new labels up as given, where a missing label matches no stored zone, but the
      zone is stored under the defaulted labels.  Result: status, table, labels. */
  function RelabelledAsWritten<Z>(zones: map<Labels, Z>, from: Labels,
                                  label1: Option<string>, label2: Option<string>, label3: Option<string>)
    : (r: (int, map<Labels, Z>, Labels))
    requires from in zones
    ensures r.0 == 1 ==> |r.1| == |zones|
  {
    if label1.Some? && label2.Some? && label3.Some? && (label1.value, label2.value, label3.value) in zones then
      (0, zones, from)
    else
      var to := DefaultedLabels(label1, label2, label3);
      var rest := zones - {from};
      if to in rest then (0, rest, to) else (1, rest[to := zones[from]], to)
  }

  /** With a missing label whose default is taken, the call reports failure, yet the
      zone has left the table and its labels have changed. */
  lemma RelabelAsWrittenLosesZone()
    ensures var zones := map[("0", "0", "0") := 1, ("1", "0", "0") := 2];
            var r := RelabelledAsWritten(zones, ("1", "0", "0"), Some("0"), None, None);
            r.0 == 0 && |r.1| == 1 && 2 !in r.1.Values && r.2 != ("1", "0", "0")
  {
    var zones := map[("0", "0", "0") := 1, ("1", "0", "0") := 2];
    var r := RelabelledAsWritten(zones, ("1", "0", "0"), Some("0"), None, None);
    assert r.1 == map[("0", "0", "0") := 1];
  }

  /** Libnucnet__relabelZone with the clash test on the labels the zone would get:
      either nothing changes and the status is 0, or the zone moves to its new labels,
      every other zone stays where it was and the status is 1. */
  function Relabelled<Z>(zones: map<Labels, Z>, from: Labels,
                         label1: Option<string>, label2: Option<string>, label3: Option<string>)
    : (r: (int, map<Labels, Z>, Labels))
    requires from in zones
    ensures r.2 == DefaultedLabels(label1, label2, label3) || r.2 == from
    ensures r.0 == 0 <==> DefaultedLabels(label1, label2, label3) in zones
    ensures r.0 == 0 ==> r.1 == zones && r.2 == from
    ensures r.0 == 1 ==> && r.2 == DefaultedLabels(label1, label2, label3)
                         && r.2 in r.1 && r.1[r.2] == zones[from] && from !in r.1
                         && |r.1| == |zones|
                         && forall l | l in zones && l != from :: l in r.1 && r.1[l] == zones[l]
  {
    var to := DefaultedLabels(label1, label2, label3);
    if to in zones then (0, zones, from)
    else
      var rest := zones - {from};
      assert |rest| == |zones| - 1;
      (1, rest[to := zones[from]], to)
  }

  /** The two agree whenever all three labels are given. */
  lemma RelabelledAgreesWhenLabelled<Z>(zones: map<Labels, Z>, from: Labels, l1: string, l2: string, l3: string)
    requires from in zones
    ensures RelabelledAsWritten(zones, from, Some(l1), Some(l2), Some(l3))
         == Relabelled(zones, from, Some(l1), Some(l2), Some(l3))
  {
  }

  /** A Libnucnet: the zones, keyed by their label triples. */
  class Nucnet {
    var zones: map<Labels, Zone>

    /** Every zone sits under its own labels. */
    ghost predicate Keyed()
      reads this`zones, set l | l in zones :: zones[l]
    {
      forall l | l in zones :: zones[l].labels == l
    }

    constructor()
      ensures zones == map[] && Keyed()
    {
      zones := map[];
    }

    /** Libnucnet__getZoneByLabels: a missing label matches no zone. */
    function GetZoneByLabels(label1: Option<string>, label2: Option<string>, label3: Option<string>)
      : (z: Option<Zone>)
      reads this`zones
      ensures z.Some? <==> && label1.Some? && label2.Some? && label3.Some?
                           && (label1.value, label2.value, label3.value) in zones
      ensures z.Some? ==> z.value == zones[(label1.value, label2.value, label3.value)]
    {
      if label1.Some? && label2.Some? && label3.Some? && (label1.value, label2.value, label3.value) in zones
      then Some(zones[(label1.value, label2.value, label3.value)])
      else None
    }

    /** Libnucnet__getNumberOfZones. */
    function NumberOfZones(): (n: nat)
      reads this`zones
      ensures n == |zones.Keys|
    {
      |zones|
    }

    /** Libnucnet__addZone: 0 when a zone with the same labels is stored (the new zone is
        discarded); otherwise the zone is stored under its labels and 1 is returned. */
    method AddZone(z: Zone) returns (status: int)
      modifies this`zones
      ensures z.labels in old(zones) ==> status == 0 && zones == old(zones)
      ensures z.labels !in old(zones) ==> status == 1 && zones == old(zones)[z.labels := z]
                                          && NumberOfZones() == old(NumberOfZones()) + 1
      ensures old(Keyed()) ==> Keyed()
    {
      if z.labels in zones {
        return 0;
      }
      zones := zones[z.labels := z];
      status := 1;
    }

    /** Libnucnet__removeZone: whatever is stored under the zone's labels is removed. */
    method RemoveZone(z: Zone)
      modifies this`zones
      ensures zones == old(zones) - {z.labels}
      ensures old(Keyed()) ==> Keyed()
    {
      zones := zones - {z.labels};
    }

    /** Libnucnet__relabelZone, with the clash test made on the defaulted labels (see
        RelabelledAsWritten for the code as written).  The zone must be one of this
        collection's zones. */
    method RelabelZone(z: Zone, label1: Option<string>, label2: Option<string>, label3: Option<string>)
      returns (status: int)
      requires z.labels in zones && zones[z.labels] == z
      modifies this`zones, z`labels
      ensures (status, zones, z.labels) == Relabelled(old(zones), old(z.labels), label1, label2, label3)
      ensures old(Keyed()) ==> Keyed()
    {
      var to := DefaultedLabels(label1, label2, label3);
      if to in zones {
        return 0;
      }
      zones := zones - {z.labels};
      z.labels := to;
      zones := zones[to := z];
      status := 1;
    }
  }
}
