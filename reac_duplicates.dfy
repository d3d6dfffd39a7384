/** Duplicate reactions in a reaction collection: Libnucnet__Reac__getDuplicateReactions
    and its hash callback (Libnucnet__Reac.c).  Two reactions are duplicates when their
    reactants and products, each sorted by name and run together, give the same key; a
    reaction and its reverse therefore count as duplicates. */
module ReacDuplicates {
  import opened Common
  import opened Reac

  // ---------------------------------------------------------------------------
  // Element names sorted by strcmp, as xmlListInsert keeps them.
  // ---------------------------------------------------------------------------

  /** Names in non-decreasing strcmp order. */
  ghost predicate NamesSorted(s: seq<string>)
  {
    forall i, j | 0 <= i < j < |s| :: StrLess(s[i], s[j]) || s[i] == s[j]
  }

  /** xmlListInsert on a list ordered by Libnucnet__Reaction__Element__data_compare: the
      new name goes before the first name that is not smaller. */
  function InsertName(s: seq<string>, x: string): (r: seq<string>)
    ensures multiset(r) == multiset(s) + multiset{x}
  {
    if s == [] || !StrLess(s[0], x) then [x] + s
    else
      assert s == [s[0]] + s[1..];
      [s[0]] + InsertName(s[1..], x)
  }

  lemma {:induction false} InsertNameSorted(s: seq<string>, x: string)
    requires NamesSorted(s)
    ensures NamesSorted(InsertName(s, x))
  {
    if s == [] || !StrLess(s[0], x) {
      forall j | 0 < j < |[x] + s|
        ensures StrLess(x, ([x] + s)[j]) || x == ([x] + s)[j]
      {
        var y := s[j - 1];
        StrLessTotal(s[0], x);
        assert StrLess(s[0], y) || s[0] == y;
        if StrLess(x, s[0]) && StrLess(s[0], y) {
          StrLessTransitive(x, s[0], y);
        }
      }
    } else {
      var t := InsertName(s[1..], x);
      InsertNameSorted(s[1..], x);
      forall j | 0 <= j < |t|
        ensures StrLess(s[0], t[j]) || s[0] == t[j]
      {
        assert t[j] in multiset(s[1..]) + multiset{x};
        if t[j] != x {
          var k :| 0 <= k < |s[1..]| && s[1..][k] == t[j];
          assert s[k + 1] == t[j];
        }
      }
    }
  }

  /** The names of a list built by inserting each name in turn (xmlListDup copies a list
      this way). */
  function SortNames(s: seq<string>): (r: seq<string>)
    ensures multiset(r) == multiset(s)
  {
    if s == [] then []
    else
      assert s == s[..|s| - 1] + [s[|s| - 1]];
      InsertName(SortNames(s[..|s| - 1]), s[|s| - 1])
  }

  lemma {:induction false} SortNamesSorted(s: seq<string>)
    ensures NamesSorted(SortNames(s))
  {
    if s != [] {
      SortNamesSorted(s[..|s| - 1]);
      InsertNameSorted(SortNames(s[..|s| - 1]), s[|s| - 1]);
    }
  }

  /** xmlListMerge: each name of the second list is inserted into the first. */
  function MergeNames(s: seq<string>, t: seq<string>): (r: seq<string>)
    ensures multiset(r) == multiset(s) + multiset(t)
    decreases |t|
  {
    if t == [] then s
    else
      assert t == [t[0]] + t[1..];
      MergeNames(InsertName(s, t[0]), t[1..])
  }

  lemma {:induction false} MergeNamesSorted(s: seq<string>, t: seq<string>)
    requires NamesSorted(s)
    ensures NamesSorted(MergeNames(s, t))
    decreases |t|
  {
    if t != [] {
      InsertNameSorted(s, t[0]);
      MergeNamesSorted(InsertName(s, t[0]), t[1..]);
    }
  }

  /** The first name of a sorted list is not larger than any name in it. */
  lemma SortedFirstLeast(s: seq<string>, y: string)
    requires NamesSorted(s) && y in s
    ensures StrLess(s[0], y) || s[0] == y
  {
    var k :| 0 <= k < |s| && s[k] == y;
    if k == 0 {
    }
  }

  /** Sorted lists holding the same names are the same list. */
  lemma {:induction false} SortedUnique(a: seq<string>, b: seq<string>)
    requires NamesSorted(a) && NamesSorted(b) && multiset(a) == multiset(b)
    ensures a == b
    decreases |a|
  {
    if a != [] {
      assert |b| == |multiset(b)| == |multiset(a)| == |a|;
      assert a[0] in multiset(b) && b[0] in multiset(a);
      SortedFirstLeast(a, b[0]);
      SortedFirstLeast(b, a[0]);
      StrLessTotal(a[0], b[0]);
      assert a[0] == b[0];
      assert a == [a[0]] + a[1..] && b == [b[0]] + b[1..];
      assert multiset(a) == multiset{a[0]} + multiset(a[1..]);
      assert multiset(b) == multiset{b[0]} + multiset(b[1..]);
      forall y
        ensures multiset(a[1..])[y] == multiset(b[1..])[y]
      {
        assert multiset(a)[y] == multiset{a[0]}[y] + multiset(a[1..])[y];
        assert multiset(b)[y] == multiset{b[0]}[y] + multiset(b[1..])[y];
      }
      assert multiset(a[1..]) == multiset(b[1..]);
      SortedUnique(a[1..], b[1..]);
    }
  }

  /** The merged copies of the nuclide list and the other list are all the names of the
      side, sorted. */
  lemma MergedSide(nuclides: seq<string>, others: seq<string>)
    ensures MergeNames(SortNames(nuclides), SortNames(others)) == SortNames(nuclides + others)
  {
    SortNamesSorted(nuclides);
    SortNamesSorted(nuclides + others);
    MergeNamesSorted(SortNames(nuclides), SortNames(others));
    SortedUnique(MergeNames(SortNames(nuclides), SortNames(others)), SortNames(nuclides + others));
  }

  // ---------------------------------------------------------------------------
  // The duplicate key.
  // ---------------------------------------------------------------------------

  /** The names run together with no separator (repeated xmlStrcat). */
  function Concat(names: seq<string>): string
  {
    if names == [] then "" else names[0] + Concat(names[1..])
  }

  /** The string of one side: its names sorted and run together. */
  function SideString(names: seq<string>): string
  {
    Concat(SortNames(names))
  }

  /** The callback refuses (fatally) a reaction whose two side strings are equal. */
  predicate KeyDefined(sd: Sides)
  {
    SideString(sd.reactants) != SideString(sd.products)
  }

  /** The key: the smaller side string (by strcmp) followed by the larger. */
  function DuplicateKey(sd: Sides): string
    requires KeyDefined(sd)
  {
    var r, p := SideString(sd.reactants), SideString(sd.products);
    if StrLess(r, p) then r + p else p + r
  }

  /** A reaction and its reverse have the same key. */
  lemma DuplicateKeyReverse(sd: Sides)
    requires KeyDefined(sd)
    ensures KeyDefined(Sides(sd.products, sd.reactants))
    ensures DuplicateKey(Sides(sd.products, sd.reactants)) == DuplicateKey(sd)
  {
    StrLessTotal(SideString(sd.reactants), SideString(sd.products));
  }

  /** The key depends on which names each side holds, not on the order they were added
      in. */
  lemma SideStringOrderFree(s: seq<string>, t: seq<string>)
    requires multiset(s) == multiset(t)
    ensures SideString(s) == SideString(t)
  {
    SortNamesSorted(s);
    SortNamesSorted(t);
    SortedUnique(SortNames(s), SortNames(t));
  }

  lemma DuplicateKeyOrderFree(sd: Sides, sd': Sides)
    requires multiset(sd.reactants) == multiset(sd'.reactants)
    requires multiset(sd.products) == multiset(sd'.products)
    ensures KeyDefined(sd) <==> KeyDefined(sd')
    ensures KeyDefined(sd) ==> DuplicateKey(sd) == DuplicateKey(sd')
  {
    SideStringOrderFree(sd.reactants, sd'.reactants);
    SideStringOrderFree(sd.products, sd'.products);
  }

  /** With no separator between names, reactions that hold different names can share a
      key: "a" -> "bc" and "ab" -> "c" both give "abc". */
  lemma DuplicateKeyIgnoresNameBoundaries()
    ensures KeyDefined(Sides(["a"], ["bc"])) && KeyDefined(Sides(["ab"], ["c"]))
    ensures DuplicateKey(Sides(["a"], ["bc"])) == DuplicateKey(Sides(["ab"], ["c"])) == "abc"
    ensures multiset(["a"]) != multiset(["ab"])
  {
    SideStringSingle("a");
    SideStringSingle("bc");
    SideStringSingle("ab");
    SideStringSingle("c");
    assert StrLess("a", "bc");
    assert StrLess("ab", "c");
    assert "a" + "bc" == "abc";
    assert "ab" + "c" == "abc";
    assert "a" !in multiset(["ab"]);
  }

  /** A side of one name has that name as its string. */
  lemma SideStringSingle(x: string)
    ensures SideString([x]) == x
  {
    assert [x][..0] == [];
    assert SortNames([x]) == [x];
    assert [x][1..] == [];
    assert Concat([x]) == x + Concat([]);
  }

  // ---------------------------------------------------------------------------
  // Building the key, step by step.
  // ---------------------------------------------------------------------------

  lemma ConcatStep(s: string, names: seq<string>, i: int)
    requires 0 <= i < |names|
    ensures (s + names[i]) + Concat(names[i + 1..]) == s + Concat(names[i..])
  {
    assert names[i..] == [names[i]] + names[i + 1..];
    assert Concat(names[i..]) == names[i] + Concat(names[i + 1..]);
    assert (s + names[i]) + Concat(names[i + 1..]) == s + (names[i] + Concat(names[i + 1..]));
  }

  /** The loop of the callback that pops names off the front of the merged list and
      appends each to the side string. */
  method JoinNames(names: seq<string>) returns (s: string)
    ensures s == Concat(names)
  {
    s := "";
    var i := 0;
    while i < |names|
      invariant 0 <= i <= |names|
      invariant s + Concat(names[i..]) == Concat(names)
    {
      ConcatStep(s, names, i);
      s := s + names[i];
      i := i + 1;
    }
    assert names[i..] == [];
  }

  /** The side string the callback builds from a side's nuclide names and its other
      names, each list sorted and then merged. */
  method SideStringOf(nuclides: seq<string>, others: seq<string>) returns (s: string)
    ensures s == SideString(nuclides + others)
  {
    var names := MergeNames(SortNames(nuclides), SortNames(others));
    MergedSide(nuclides, others);
    s := JoinNames(names);
  }

  /** The key of one reaction, as the callback builds it. */
  method ReactionKey(sd: Sides) returns (key: string)
    requires KeyDefined(sd)
    ensures key == DuplicateKey(sd)
  {
    var r := SideStringOf(sd.reactants, []);
    var p := SideStringOf(sd.products, []);
    assert sd.reactants + [] == sd.reactants && sd.products + [] == sd.products;
    var c := Strcmp(r, p);
    if c < 0 {
      key := r + p;
    } else {
      key := p + r;
    }
  }

  /** In a list without repetitions no element occurs before its own position. */
  lemma DistinctPrefix<T>(s: seq<T>, i: int)
    requires Distinct(s) && 0 <= i < |s|
    ensures s[i] !in s[..i]
  {
  }

  // ---------------------------------------------------------------------------
  // The scan.
  // ---------------------------------------------------------------------------

  /** The hash insertions of the callback, given each reaction's key: a reaction whose
      key is already in the hash becomes a duplicate of the reaction stored under it;
      otherwise it is stored.  Of every group of reactions sharing a key exactly one is left
      out of the result, and it is the parent of all the others. */
  method MarkDuplicates<R, K(==)>(keys: map<R, K>, scan: seq<R>) returns (duplicates: map<R, R>)
    requires Distinct(scan) && (forall j | 0 <= j < |scan| :: scan[j] in keys) && (forall x | x in keys :: x in scan)
    ensures forall x | x in duplicates :: x in keys
    ensures forall x | x in duplicates ::
      duplicates[x] in keys && duplicates[x] !in duplicates && keys[duplicates[x]] == keys[x]
    ensures forall x, y | x in keys && y in keys && x != y && x !in duplicates && y !in duplicates ::
      keys[x] != keys[y]
  {
    duplicates := map[];
    var seen: map<K, R> := map[];
    var i := 0;
    while i < |scan|
      invariant MarkedSoFar(keys, scan, i, seen, duplicates)
    {
      var x := scan[i];
      if keys[x] in seen {
        MarkRepeat(keys, scan, i, seen, duplicates);
        duplicates := duplicates[x := seen[keys[x]]];
      } else {
        MarkFirst(keys, scan, i, seen, duplicates);
        seen := seen[keys[x] := x];
      }
      i := i + 1;
    }
    MarkedAll(keys, scan, seen, duplicates);
  }

  /** The state of the scan after its first i reactions: `seen` holds the first reaction met
      with each key, and every later one with that key is marked as its duplicate. */
  ghost predicate MarkedSoFar<R, K>(keys: map<R, K>, scan: seq<R>, i: int, seen: map<K, R>, duplicates: map<R, R>)
  {
    && 0 <= i <= |scan|
    && (forall j | 0 <= j < |scan| :: scan[j] in keys)
    && (forall x | x in duplicates :: x in scan[..i])
    && (forall k | k in seen :: seen[k] in keys && seen[k] !in duplicates && seen[k] in scan[..i])
    && (forall k | k in seen :: keys[seen[k]] == k)
    && (forall x | x in duplicates :: x in keys && keys[x] in seen && duplicates[x] == seen[keys[x]])
    && (forall j | 0 <= j < i :: keys[scan[j]] in seen)
    && (forall j | 0 <= j < i :: scan[j] in duplicates || seen[keys[scan[j]]] == scan[j])
  }

  /** A reaction whose key was met before becomes a duplicate of the first one. */
  lemma MarkRepeat<R, K>(keys: map<R, K>, scan: seq<R>, i: int, seen: map<K, R>, duplicates: map<R, R>)
    requires Distinct(scan) && MarkedSoFar(keys, scan, i, seen, duplicates) && i < |scan|
    requires keys[scan[i]] in seen
    ensures MarkedSoFar(keys, scan, i + 1, seen, duplicates[scan[i] := seen[keys[scan[i]]]])
  {
    DistinctPrefix(scan, i);
    assert scan[..i + 1] == scan[..i] + [scan[i]];
  }

  /** A reaction whose key is new is stored under it. */
  lemma MarkFirst<R, K>(keys: map<R, K>, scan: seq<R>, i: int, seen: map<K, R>, duplicates: map<R, R>)
    requires Distinct(scan) && MarkedSoFar(keys, scan, i, seen, duplicates) && i < |scan|
    requires keys[scan[i]] !in seen
    ensures MarkedSoFar(keys, scan, i + 1, seen[keys[scan[i]] := scan[i]], duplicates)
  {
    DistinctPrefix(scan, i);
    assert scan[..i + 1] == scan[..i] + [scan[i]];
  }

  /** Once the whole scan is done, every reaction left unmarked is the one stored under its key. */
  lemma MarkedAll<R, K>(keys: map<R, K>, scan: seq<R>, seen: map<K, R>, duplicates: map<R, R>)
    requires MarkedSoFar(keys, scan, |scan|, seen, duplicates) && (forall x | x in keys :: x in scan)
    ensures forall x | x in duplicates ::
      duplicates[x] in keys && duplicates[x] !in duplicates && keys[duplicates[x]] == keys[x]
    ensures forall x, y | x in keys && y in keys && x != y && x !in duplicates && y !in duplicates ::
      keys[x] != keys[y]
  {
    forall x, y | x in keys && y in keys && x != y && x !in duplicates && y !in duplicates
      ensures keys[x] != keys[y]
    {
      var jx :| 0 <= jx < |scan| && scan[jx] == x;
      var jy :| 0 <= jy < |scan| && scan[jy] == y;
    }
  }

  /** Libnucnet__Reac__getDuplicateReactions over reactions keyed by their strings,
      visited in the hash's scan order.  Each reaction's key is the one ReactionKey builds
      (it computes DuplicateKey).  The result maps each reaction found to be a duplicate
      to the reaction it duplicates (its parent, a reaction that is not itself a
      duplicate).  No two reactions left out of the result share a key. */
  method GetDuplicateReactions<R(==)>(reactions: map<R, Sides>, scan: seq<R>)
    returns (duplicates: map<R, R>)
    requires forall x | x in reactions :: KeyDefined(reactions[x])
    requires Distinct(scan) && (forall j | 0 <= j < |scan| :: scan[j] in reactions) && (forall x | x in reactions :: x in scan)
    ensures forall x | x in duplicates :: x in reactions
    ensures forall x | x in duplicates ::
      duplicates[x] in reactions && duplicates[x] !in duplicates
      && DuplicateKey(reactions[duplicates[x]]) == DuplicateKey(reactions[x])
    ensures forall x, y | x in reactions && y in reactions && x != y && x !in duplicates && y !in duplicates ::
      DuplicateKey(reactions[x]) != DuplicateKey(reactions[y])
  {
    var keys := map x | x in reactions :: DuplicateKey(reactions[x]);
    duplicates := MarkDuplicates(keys, scan);
  }
}
