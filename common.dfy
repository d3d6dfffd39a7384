// Small value types shared by the models of the nuclear-network libraries.

module Common {

  /** An optional value: a C pointer that may be NULL, or an entry that may be missing. */
  datatype Option<T> = None | Some(value: T)

  /** The outcome of an operation that may fail with a message. */
  datatype Result<T> = Failure(error: string) | Success(value: T)
  {
    predicate IsFailure()
    {
      Failure?
    }
  }

  /** The absolute value of an integer. */
  function Abs(x: int): (r: nat)
    ensures r == x || r == -x
  {
    if x < 0 then -x else x
  }

  /** The absolute value of a real. */
  function AbsReal(x: real): (r: real)
    ensures r >= 0.0 && (r == x || r == -x)
  {
    if x < 0.0 then -x else x
  }

  /** The smaller of two reals. */
  function MinReal(x: real, y: real): (r: real)
    ensures r <= x && r <= y && (r == x || r == y)
  {
    if x <= y then x else y
  }

  /** The larger of two reals. */
  function MaxReal(x: real, y: real): (r: real)
    ensures r >= x && r >= y && (r == x || r == y)
  {
    if x >= y then x else y
  }

  // ---------------------------------------------------------------------------
  // Decimal numerals (printf "%d" of a non-negative number, and its reading).
  // ---------------------------------------------------------------------------

  /** The character of a decimal digit. */
  function DigitChar(d: nat): (c: char)
    requires d < 10
    ensures IsDigit(c) && c as int - '0' as int == d
  {
    ('0' as int + d) as char
  }

  /** The value of a decimal digit character. */
  function DigitValue(c: char): (d: nat)
    requires IsDigit(c)
    ensures d < 10
  {
    c as int - '0' as int
  }

  predicate IsDigit(c: char)
  {
    '0' as int <= c as int <= '9' as int
  }

  /** The decimal numeral of n, without leading zeros ("0" for zero). */
  function DecimalString(n: nat): (s: string)
    ensures |s| > 0 && forall i | 0 <= i < |s| :: IsDigit(s[i])
    ensures n > 0 ==> s[0] != '0'
  {
    if n < 10 then [DigitChar(n)] else DecimalString(n / 10) + [DigitChar(n % 10)]
  }

  /** The number a string of decimal digits denotes. */
  function DecimalValue(s: string): nat
    requires forall i | 0 <= i < |s| :: IsDigit(s[i])
  {
    if |s| == 0 then 0 else 10 * DecimalValue(s[..|s| - 1]) + DigitValue(s[|s| - 1])
  }

  /** Reading the numeral of n gives n back. */
  lemma {:induction false} DecimalRoundTrip(n: nat)
    ensures DecimalValue(DecimalString(n)) == n
  {
    if n >= 10 {
      var s := DecimalString(n);
      assert s[..|s| - 1] == DecimalString(n / 10);
      DecimalRoundTrip(n / 10);
    }
  }

  /** Numerals of different numbers differ. */
  lemma DecimalStringInjective(m: nat, n: nat)
    requires DecimalString(m) == DecimalString(n)
    ensures m == n
  {
    DecimalRoundTrip(m);
    DecimalRoundTrip(n);
  }

  // ---------------------------------------------------------------------------
  // String comparison (strcmp / xmlStrcmp, reduced to its sign).
  // ---------------------------------------------------------------------------

  /** a sorts strictly before b in byte-wise lexicographic order. */
  predicate StrLess(a: string, b: string)
  {
    if |a| == 0 then |b| > 0
    else if |b| == 0 then false
    else if a[0] != b[0] then a[0] < b[0]
    else StrLess(a[1..], b[1..])
  }

  /** The sign of strcmp(a, b). */
  function Strcmp(a: string, b: string): (r: int)
    ensures r == -1 <==> StrLess(a, b)
    ensures r == 0 <==> a == b
    ensures r == 1 <==> StrLess(b, a)
  {
    StrLessTotal(a, b);
    if a == b then 0 else if StrLess(a, b) then -1 else 1
  }

  /** Exactly one of a < b, a == b, b < a holds. */
  lemma {:induction false} StrLessTotal(a: string, b: string)
    ensures a == b || StrLess(a, b) || StrLess(b, a)
    ensures !(StrLess(a, b) && StrLess(b, a))
    ensures !StrLess(a, a)
  {
    if |a| > 0 && |b| > 0 {
      StrLessTotal(a[1..], b[1..]);
      if a[0] == b[0] && a[1..] == b[1..] {
        assert a == [a[0]] + a[1..] && b == [b[0]] + b[1..];
      }
      StrLessTotal(a[1..], a[1..]);
    } else if |a| > 0 {
      StrLessTotal(a[1..], a[1..]);
    }
  }

  lemma {:induction false} StrLessTransitive(a: string, b: string, c: string)
    requires StrLess(a, b) && StrLess(b, c)
    ensures StrLess(a, c)
  {
    if |a| > 0 && |b| > 0 && |c| > 0 && a[0] == b[0] && b[0] == c[0] {
      StrLessTransitive(a[1..], b[1..], c[1..]);
    }
  }

  /** sub occurs in s starting at index i. */
  predicate OccursAt(s: string, sub: string, i: int)
  {
    0 <= i && i + |sub| <= |s| && s[i..i + |sub|] == sub
  }

  /** The string contains sub as a contiguous part (strstr(s, sub) != NULL). */
  predicate Contains(s: string, sub: string)
  {
    exists i | 0 <= i <= |s| :: OccursAt(s, sub, i)
  }

  /** A sequence without repeated elements. */
  ghost predicate Distinct<T>(s: seq<T>)
  {
    forall i, j | 0 <= i < j < |s| :: s[i] != s[j]
  }

  /** The scan visits every key of a table exactly once (the order of a hash scan). */
  ghost predicate ScansOnce<T>(scan: seq<T>, keys: set<T>)
  {
    Distinct(scan) && (forall i | 0 <= i < |scan| :: scan[i] in keys) && (forall x | x in keys :: x in scan)
  }

  /** A repetition-free sequence has as many elements as its set. */
  lemma {:induction false} DistinctCardinality<T>(s: seq<T>)
    requires Distinct(s)
    ensures |set x | x in s| == |s|
  {
    if |s| > 0 {
      var t := s[..|s| - 1];
      assert Distinct(t);
      DistinctCardinality(t);
      assert (set x | x in s) == (set x | x in t) + {s[|s| - 1]};
      assert s[|s| - 1] !in t;
    }
  }

  /** How many entries of s equal x, counted in one pass (the counting loop of
      reaction_element_count; Libnucnet__Reac takes the same count by removing every copy
      of the name from a copy of the list). */
  method CountOccurrences<T(==)>(s: seq<T>, x: T) returns (k: nat)
    ensures k == multiset(s)[x]
  {
    k := 0;
    var i := 0;
    while i < |s|
      invariant 0 <= i <= |s| && k == multiset(s[..i])[x]
    {
      assert s[..i + 1] == s[..i] + [s[i]];
      if s[i] == x {
        k := k + 1;
      }
      i := i + 1;
    }
    assert s[..i] == s;
  }

  /** Dropping the element at j drops one occurrence of it from the multiset. */
  lemma MultisetRemove<T>(t: seq<T>, j: nat)
    requires j < |t|
    ensures multiset(t[..j] + t[j + 1..]) == multiset(t) - multiset{t[j]}
  {
    assert t == t[..j] + [t[j]] + t[j + 1..];
    assert multiset(t) == multiset(t[..j]) + multiset{t[j]} + multiset(t[j + 1..]);
  }

  /** Two lists with the same elements still have the same elements once the last
      element of one and a matching element of the other are taken away. */
  lemma MultisetRemoveMatching<T>(s: seq<T>, t: seq<T>, j: nat)
    requires multiset(s) == multiset(t) && s != [] && j < |t| && t[j] == s[|s| - 1]
    ensures multiset(s[..|s| - 1]) == multiset(t[..j] + t[j + 1..])
  {
    MultisetRemove(t, j);
    MultisetRemove(s, |s| - 1);
    assert s[..|s| - 1] + s[|s|..] == s[..|s| - 1];
  }

  // ---------------------------------------------------------------------------
  // Sorting records by a real key (gsl_sort_vector_index followed by a gather).
  // ---------------------------------------------------------------------------

  /** The keys never decrease along ps. */
  ghost predicate SortedByKey<T>(ps: seq<T>, key: T -> real)
  {
    forall i, j | 0 <= i < j < |ps| :: key(ps[i]) <= key(ps[j])
  }

  /** ps with x placed after every record of no larger key. */
  function InsertByKey<T>(ps: seq<T>, x: T, key: T -> real): (r: seq<T>)
    ensures |r| == |ps| + 1 && multiset(r) == multiset(ps) + multiset{x}
  {
    if |ps| == 0 || key(x) < key(ps[0]) then [x] + ps
    else assert ps == [ps[0]] + ps[1..]; [ps[0]] + InsertByKey(ps[1..], x, key)
  }

  lemma {:induction false} InsertByKeySorted<T>(ps: seq<T>, x: T, key: T -> real)
    requires SortedByKey(ps, key)
    ensures SortedByKey(InsertByKey(ps, x, key), key)
  {
    if |ps| > 0 && key(x) >= key(ps[0]) {
      var t := ps[1..];
      InsertByKeySorted(t, x, key);
      var u := InsertByKey(t, x, key);
      forall k | 0 <= k < |u| ensures key(ps[0]) <= key(u[k]) {
        assert u[k] in multiset(u);
        if u[k] != x {
          assert u[k] in t;
        }
      }
    }
  }

  /** The records of ps in order of key, each record kept whole. */
  method SortByKey<T>(ps: seq<T>, key: T -> real) returns (r: seq<T>)
    ensures SortedByKey(r, key) && multiset(r) == multiset(ps)
  {
    r := [];
    var i := 0;
    while i < |ps|
      invariant 0 <= i <= |ps|
      invariant SortedByKey(r, key) && multiset(r) == multiset(ps[..i])
    {
      InsertByKeySorted(r, ps[i], key);
      r := InsertByKey(r, ps[i], key);
      assert ps[..i + 1] == ps[..i] + [ps[i]];
      i := i + 1;
    }
    assert ps[..i] == ps;
  }
}
