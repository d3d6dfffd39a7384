// The exported layouts of a wn_matrix (vendor/wn_matrix/0.18/src/WnMatrix.c):
// the row-major sorted element list, single rows and columns, the coordinate
// (COO) and compressed-row (CSR) layouts, and the arrow layout.

module WnMatrixLayouts {
  import opened Common
  import opened WnMatrix

  // ---------------------------------------------------------------------------
  // Sorted elements.
  // ---------------------------------------------------------------------------

  /** One exported element: its position and its value. */
  datatype Element = Element(row: int, col: int, value: real)

  function Pos(x: Element): Position
  {
    (x.row, x.col)
  }

  /** x precedes y in row-major order. */
  predicate Before(x: Element, y: Element)
  {
    x.row < y.row || (x.row == y.row && x.col < y.col)
  }

  /** WnMatrix__data_compare: -1 when x comes first in row-major order, else 1;
      it never answers 0, not even for equal positions. */
  function DataCompare(x: Element, y: Element): (r: int)
    ensures r == -1 || r == 1
    ensures r == -1 <==> Before(x, y)
  {
    if x.row < y.row then -1
    else if x.row > y.row then 1
    else if x.col < y.col then -1
    else 1
  }

  /** For distinct positions the comparator is antisymmetric; for equal ones it says 1 both ways. */
  lemma DataCompareAntisymmetric(x: Element, y: Element)
    ensures Pos(x) != Pos(y) ==> DataCompare(x, y) == -DataCompare(y, x)
    ensures Pos(x) == Pos(y) ==> DataCompare(x, y) == 1 && DataCompare(y, x) == 1
  {
  }

  /** Strictly increasing row-major order (so no position occurs twice). */
  ghost predicate Sorted(s: seq<Element>)
  {
    forall i, j | 0 <= i < j < |s| :: Before(s[i], s[j])
  }

  /** The positions in a list of elements. */
  ghost function Positions(s: seq<Element>): set<Position>
  {
    set x | x in s :: Pos(x)
  }

  /** The row and column filters of WnMatrix__getSortedElements (None: no filter). */
  predicate Selects(p: Position, rowFilter: Option<int>, colFilter: Option<int>)
  {
    (rowFilter.None? || p.0 == rowFilter.value) && (colFilter.None? || p.1 == colFilter.value)
  }

  /** s lists exactly the selected elements of e, each with its stored value. */
  ghost predicate Lists(s: seq<Element>, e: Elements, rowFilter: Option<int>, colFilter: Option<int>)
  {
    (forall x | x in s :: Pos(x) in e && e[Pos(x)] == x.value && Selects(Pos(x), rowFilter, colFilter))
    && (forall p | p in e && Selects(p, rowFilter, colFilter) :: p in Positions(s))
  }

  /** s with x placed at its row-major position (the effect of sorting x into s). */
  function InsertSorted(s: seq<Element>, x: Element): (r: seq<Element>)
    ensures |r| == |s| + 1
    ensures multiset(r) == multiset(s) + multiset{x}
  {
    if |s| == 0 || Before(x, s[0]) then [x] + s
    else assert s == [s[0]] + s[1..]; [s[0]] + InsertSorted(s[1..], x)
  }

  lemma {:induction false} InsertSortedSorted(s: seq<Element>, x: Element)
    requires Sorted(s) && Pos(x) !in Positions(s)
    ensures Sorted(InsertSorted(s, x))
  {
    if |s| == 0 || Before(x, s[0]) {
      var r := InsertSorted(s, x);
      forall i, j | 0 <= i < j < |r| ensures Before(r[i], r[j]) {
        if i > 0 {
          assert r[i] == s[i - 1] && r[j] == s[j - 1];
        } else {
          assert r[j] == s[j - 1];
          assert j - 1 == 0 || Before(s[0], s[j - 1]);
        }
      }
    } else {
      var t := s[1..];
      assert Sorted(t) by {
        forall i, j | 0 <= i < j < |t| ensures Before(t[i], t[j]) {
          assert t[i] == s[i + 1] && t[j] == s[j + 1];
        }
      }
      assert Pos(x) !in Positions(t) by {
        forall y | y in t ensures Pos(y) != Pos(x) {
          assert y in s;
        }
      }
      InsertSortedSorted(t, x);
      var u := InsertSorted(t, x);
      var r := [s[0]] + u;
      assert Pos(x) != Pos(s[0]);
      assert Before(s[0], x);
      forall k | 0 <= k < |u| ensures Before(s[0], u[k]) {
        assert u[k] in multiset(u);
        assert u[k] in multiset(t) + multiset{x};
        if u[k] != x {
          assert u[k] in t;
          var m :| 0 <= m < |t| && t[m] == u[k];
          assert t[m] == s[m + 1];
        }
      }
      forall i, j | 0 <= i < j < |r| ensures Before(r[i], r[j]) {
        if i > 0 {
          assert r[i] == u[i - 1] && r[j] == u[j - 1];
        } else {
          assert r[j] == u[j - 1];
        }
      }
    }
  }

  /** In a sorted list the number of elements equals the number of positions. */
  lemma {:induction false} SortedPositionCount(s: seq<Element>)
    requires Sorted(s)
    ensures |Positions(s)| == |s|
  {
    if |s| > 0 {
      var t := s[1..];
      SortedTail(s);
      SortedPositionCount(t);
      PositionsCons(s);
      assert Pos(s[0]) !in Positions(t) by {
        forall y | y in t ensures Pos(y) != Pos(s[0]) {
          var m :| 0 <= m < |t| && t[m] == y;
          assert Before(s[0], s[m + 1]);
        }
      }
    }
  }

  lemma SortedTail(s: seq<Element>)
    requires Sorted(s) && |s| > 0
    ensures Sorted(s[1..])
  {
    var t := s[1..];
    forall i, j | 0 <= i < j < |t| ensures Before(t[i], t[j]) {
      assert t[i] == s[i + 1] && t[j] == s[j + 1];
    }
  }

  lemma PositionsCons(s: seq<Element>)
    requires |s| > 0
    ensures Positions(s) == Positions(s[1..]) + {Pos(s[0])}
  {
    assert s == [s[0]] + s[1..];
    forall q | q in Positions(s) ensures q in Positions(s[1..]) + {Pos(s[0])} {
      var y :| y in s && Pos(y) == q;
      var m :| 0 <= m < |s| && s[m] == y;
      if m > 0 {
        assert s[1..][m - 1] == y;
      }
    }
  }

  /** The selected keys of e. */
  ghost function SelectedKeys(e: Elements, rowFilter: Option<int>, colFilter: Option<int>): set<Position>
  {
    set p | p in e && Selects(p, rowFilter, colFilter)
  }

  /** A sorted listing has one element per selected key. */
  lemma ListingCount(s: seq<Element>, e: Elements, rowFilter: Option<int>, colFilter: Option<int>)
    requires Sorted(s) && Lists(s, e, rowFilter, colFilter)
    ensures |s| == |SelectedKeys(e, rowFilter, colFilter)|
  {
    assert Positions(s) == SelectedKeys(e, rowFilter, colFilter);
    SortedPositionCount(s);
  }

  /** WnMatrix__getSortedElements: the elements of e that pass the filters, in row-major order. */
  method GetSortedElements(e: Elements, rowFilter: Option<int>, colFilter: Option<int>) returns (s: seq<Element>)
    ensures Sorted(s) && Lists(s, e, rowFilter, colFilter)
  {
    s := [];
    var todo := e.Keys;
    ghost var done: set<Position> := {};
    while todo != {}
      invariant done + todo == e.Keys && done !! todo
      invariant Sorted(s)
      invariant forall x | x in s :: Pos(x) in done && e[Pos(x)] == x.value && Selects(Pos(x), rowFilter, colFilter)
      invariant forall p | p in done && Selects(p, rowFilter, colFilter) :: p in Positions(s)
      decreases todo
    {
      var p :| p in todo;
      if Selects(p, rowFilter, colFilter) {
        var x := Element(p.0, p.1, e[p]);
        InsertSortedSorted(s, x);
        var s' := InsertSorted(s, x);
        forall y | y in s' ensures y in s || y == x {
          assert y in multiset(s');
        }
        forall q | q in Positions(s) ensures q in Positions(s') {
          var y :| y in s && Pos(y) == q;
          assert y in multiset(s');
        }
        assert x in multiset(s');
        s := s';
      }
      todo := todo - {p};
      done := done + {p};
    }
  }

  // ---------------------------------------------------------------------------
  // Rows, columns and the coordinate layout.
  // ---------------------------------------------------------------------------

  /** A WnMatrix__Line: the indices (columns of a row, or rows of a column)
      and the values of its stored elements. */
  datatype Line = Line(count: nat, indices: seq<int>, values: seq<real>)

  /** WnMatrix__Coo: parallel row, column and value arrays in row-major order. */
  datatype Coo = Coo(count: nat, rowIndices: seq<int>, colIndices: seq<int>, values: seq<real>)

  /** WnMatrix__getRow: the stored elements of row k, by increasing column. */
  method GetRow(m: Matrix, k: int) returns (line: Line)
    requires m.Valid() && 1 <= k <= m.rows
    ensures line.count == |line.indices| == |line.values|
    ensures forall i | 0 <= i < line.count ::
      (k, line.indices[i]) in m.elems && m.elems[(k, line.indices[i])] == line.values[i]
    ensures forall i, j | 0 <= i < j < line.count :: line.indices[i] < line.indices[j]
    ensures forall p | p in m.elems && p.0 == k :: p.1 in line.indices
  {
    var s := GetSortedElements(m.elems, Some(k), None);
    var a1 := new int[|s|];
    var a2 := new real[|s|];
    var i := 0;
    while i < |s|
      invariant 0 <= i <= |s|
      invariant forall j | 0 <= j < i :: a1[j] == s[j].col && a2[j] == s[j].value
    {
      a1[i] := s[i].col;
      a2[i] := s[i].value;
      i := i + 1;
    }
    line := Line(|s|, a1[..], a2[..]);
    forall p | p in m.elems && p.0 == k ensures p.1 in line.indices {
      assert p in Positions(s);
      var x :| x in s && Pos(x) == p;
      var j :| 0 <= j < |s| && s[j] == x;
      assert line.indices[j] == p.1;
    }
  }

  /** WnMatrix__getColumn: the stored elements of column k, by increasing row. */
  method GetColumn(m: Matrix, k: int) returns (line: Line)
    requires m.Valid() && 1 <= k <= m.cols
    ensures line.count == |line.indices| == |line.values|
    ensures forall i | 0 <= i < line.count ::
      (line.indices[i], k) in m.elems && m.elems[(line.indices[i], k)] == line.values[i]
    ensures forall i, j | 0 <= i < j < line.count :: line.indices[i] < line.indices[j]
    ensures forall p | p in m.elems && p.1 == k :: p.0 in line.indices
  {
    var s := GetSortedElements(m.elems, None, Some(k));
    var a1 := new int[|s|];
    var a2 := new real[|s|];
    var i := 0;
    while i < |s|
      invariant 0 <= i <= |s|
      invariant forall j | 0 <= j < i :: a1[j] == s[j].row && a2[j] == s[j].value
    {
      a1[i] := s[i].row;
      a2[i] := s[i].value;
      i := i + 1;
    }
    line := Line(|s|, a1[..], a2[..]);
    forall p | p in m.elems && p.1 == k ensures p.0 in line.indices {
      assert p in Positions(s);
      var x :| x in s && Pos(x) == p;
      var j :| 0 <= j < |s| && s[j] == x;
      assert line.indices[j] == p.0;
    }
  }

  /** The copying loop of WnMatrix__getCoo: s spread over three parallel arrays. */
  method CopyToCoo(s: seq<Element>) returns (coo: Coo)
    ensures coo.count == |s|
    ensures |coo.rowIndices| == |coo.colIndices| == |coo.values| == |s|
    ensures forall i | 0 <= i < |s| ::
      coo.rowIndices[i] == s[i].row && coo.colIndices[i] == s[i].col && coo.values[i] == s[i].value
  {
    var n := |s|;
    var ar := new int[n];
    var ac := new int[n];
    var av := new real[n];
    var i := 0;
    while i < n
      invariant 0 <= i <= n
      invariant forall j | 0 <= j < i :: ar[j] == s[j].row && ac[j] == s[j].col && av[j] == s[j].value
    {
      ar[i] := s[i].row;
      ac[i] := s[i].col;
      av[i] := s[i].value;
      i := i + 1;
    }
    coo := Coo(n, ar[..], ac[..], av[..]);
  }

  /** WnMatrix__getCoo: every stored element exactly once, in row-major order. */
  method GetCoo(m: Matrix) returns (coo: Coo)
    requires m.Valid()
    ensures coo.count == |m.elems|
    ensures |coo.rowIndices| == |coo.colIndices| == |coo.values| == coo.count
    ensures forall i | 0 <= i < coo.count ::
      (coo.rowIndices[i], coo.colIndices[i]) in m.elems
      && m.elems[(coo.rowIndices[i], coo.colIndices[i])] == coo.values[i]
    ensures forall i, j | 0 <= i < j < coo.count ::
      coo.rowIndices[i] < coo.rowIndices[j]
      || (coo.rowIndices[i] == coo.rowIndices[j] && coo.colIndices[i] < coo.colIndices[j])
    ensures forall p | p in m.elems ::
      exists i | 0 <= i < coo.count :: coo.rowIndices[i] == p.0 && coo.colIndices[i] == p.1
  {
    var e := m.elems;
    var s := GetSortedElements(e, None, None);
    ListingCount(s, e, None, None);
    assert SelectedKeys(e, None, None) == e.Keys;
    coo := CopyToCoo(s);
    forall i | 0 <= i < |s|
      ensures (coo.rowIndices[i], coo.colIndices[i]) in e
      ensures e[(coo.rowIndices[i], coo.colIndices[i])] == coo.values[i]
    {
      assert s[i] in s;
    }
    forall i, j | 0 <= i < j < |s|
      ensures coo.rowIndices[i] < coo.rowIndices[j]
        || (coo.rowIndices[i] == coo.rowIndices[j] && coo.colIndices[i] < coo.colIndices[j])
    {
      assert Before(s[i], s[j]);
    }
    forall p | p in e
      ensures exists i | 0 <= i < coo.count :: coo.rowIndices[i] == p.0 && coo.colIndices[i] == p.1
    {
      assert p in Positions(s);
      var x :| x in s && Pos(x) == p;
      var j :| 0 <= j < |s| && s[j] == x;
      assert coo.rowIndices[j] == p.0 && coo.colIndices[j] == p.1;
    }
  }

  // ---------------------------------------------------------------------------
  // The compressed-row (CSR) layout.
  // ---------------------------------------------------------------------------

  /** The number of elements of s that lie in rows before row r. */
  function CountBelow(s: seq<Element>, r: int): (n: nat)
    ensures n <= |s|
  {
    if |s| == 0 then 0
    else CountBelow(s[..|s| - 1], r) + (if s[|s| - 1].row < r then 1 else 0)
  }

  /** When the first i elements lie before row r and the rest do not, i of them lie before r. */
  lemma {:induction false} CountBelowSplit(s: seq<Element>, r: int, i: nat)
    requires i <= |s|
    requires forall k | 0 <= k < i :: s[k].row < r
    requires forall k | i <= k < |s| :: s[k].row >= r
    ensures CountBelow(s, r) == i
  {
    if |s| > 0 {
      var t := s[..|s| - 1];
      if i == |s| {
        CountBelowSplit(t, r, i - 1);
      } else {
        CountBelowSplit(t, r, i);
      }
    }
  }

  /** The rows of a sorted list never decrease. */
  lemma SortedRows(s: seq<Element>, i: int, j: int)
    requires Sorted(s) && 0 <= i <= j < |s|
    ensures s[i].row <= s[j].row
  {
    if i < j {
      assert Before(s[i], s[j]);
    }
  }

  /** In a sorted list, the elements before index i (and none after) lie before any
      row r with s[i-1].row < r <= s[i].row. */
  lemma CountBelowAt(s: seq<Element>, i: nat, r: int)
    requires Sorted(s) && i <= |s|
    requires i > 0 ==> s[i - 1].row < r
    requires i < |s| ==> r <= s[i].row
    ensures CountBelow(s, r) == i
  {
    forall k | 0 <= k < i ensures s[k].row < r {
      SortedRows(s, k, i - 1);
    }
    forall k | i <= k < |s| ensures s[k].row >= r {
      SortedRows(s, i, k);
    }
    CountBelowSplit(s, r, i);
  }

  /** The elements of row r occupy the index range [CountBelow(s, r), CountBelow(s, r + 1)). */
  lemma CsrRowSlice(s: seq<Element>, r: int, k: int)
    requires Sorted(s) && 0 <= k < |s|
    ensures CountBelow(s, r) <= k < CountBelow(s, r + 1) <==> s[k].row == r
  {
    forall a | 0 <= a <= k ensures s[a].row <= s[k].row {
      SortedRows(s, a, k);
    }
    forall a | k <= a < |s| ensures s[k].row <= s[a].row {
      SortedRows(s, k, a);
    }
    CountBelowMonotone(s, r, k);
    CountBelowMonotone(s, r + 1, k);
  }

  /** In a sorted list, index k lies below CountBelow(s, r) exactly when s[k] lies before row r. */
  lemma CountBelowMonotone(s: seq<Element>, r: int, k: int)
    requires Sorted(s) && 0 <= k < |s|
    ensures k < CountBelow(s, r) <==> s[k].row < r
  {
    var i := FirstAtOrAfter(s, r);
    CountBelowAt(s, i, r);
    if k >= i {
      SortedRows(s, i, k);
    }
  }

  /** The index of the first element of s in row r or later (|s| when there is none). */
  function FirstAtOrAfter(s: seq<Element>, r: int): (i: nat)
    ensures i <= |s|
    ensures forall k | 0 <= k < i :: s[k].row < r
    ensures i < |s| ==> s[i].row >= r
  {
    if |s| == 0 || s[0].row >= r then 0 else 1 + FirstAtOrAfter(s[1..], r)
  }

  /** The rows of a sorted list that a rows-row matrix can hold. */
  ghost predicate RowsWithin(s: seq<Element>, rows: nat)
  {
    forall x | x in s :: 1 <= x.row <= rows
  }

  /** Entry j of the CSR row pointer as WnMatrix__getCsr leaves it: assigned up to the
      last non-empty row and at the end, unassigned (None) in between. */
  function CsrPointerAsWritten(s: seq<Element>, rows: nat, j: int): Option<int>
    requires |s| > 0
  {
    if j == rows then Some(|s|)
    else if j < s[|s| - 1].row then Some(CountBelow(s, j + 1))
    else None
  }

  /** Sets a[j] to v for lo <= j < hi. */
  method Fill<T>(a: array<T>, lo: int, hi: int, v: T)
    requires 0 <= lo <= hi <= a.Length
    modifies a
    ensures forall j | 0 <= j < a.Length :: a[j] == (if lo <= j < hi then v else old(a[j]))
  {
    var j := lo;
    while j < hi
      invariant lo <= j <= hi
      invariant forall k | 0 <= k < a.Length :: a[k] == (if lo <= k < j then v else old(a[k]))
    {
      a[j] := v;
      j := j + 1;
    }
  }

  /** The row-pointer loops of WnMatrix__getCsr, as written: unassigned entries are None. */
  method CsrRowPointersAsWritten(s: seq<Element>, rows: nat) returns (ptr: seq<Option<int>>)
    requires |s| > 0 && Sorted(s) && RowsWithin(s, rows)
    ensures |ptr| == rows + 1
    ensures forall j | 0 <= j <= rows :: ptr[j] == CsrPointerAsWritten(s, rows, j)
  {
    var a := new Option<int>[rows + 1](_ => None);
    assert s[0] in s && s[|s| - 1] in s;
    CountBelowAt(s, 0, s[0].row);
    forall r | 1 <= r <= s[0].row ensures CountBelow(s, r) == 0 {
      CountBelowAt(s, 0, r);
    }
    Fill(a, 0, s[0].row, Some(0));
    var current := 1;
    var i := 0;
    while i < |s|
      invariant 0 <= i <= |s|
      invariant current == (if i == 0 then 1 else s[i - 1].row)
      invariant forall j | 0 <= j <= rows ::
        a[j] == (if j < (if i == 0 then s[0].row else s[i - 1].row) then Some(CountBelow(s, j + 1)) else None)
    {
      assert s[i] in s;
      if s[i].row != current {
        if i > 0 {
          SortedRows(s, i - 1, i);
        }
        forall r | current < r <= s[i].row ensures CountBelow(s, r) == i {
          CountBelowAt(s, i, r);
        }
        Fill(a, current, s[i].row, Some(i));
        current := s[i].row;
      }
      i := i + 1;
    }
    a[rows] := Some(|s|);
    ptr := a[..];
  }

  /** The row pointer as CSR defines it: entry j is the number of elements in rows 1..j. */
  method CsrRowPointers(s: seq<Element>, rows: nat) returns (ptr: seq<int>)
    requires |s| > 0 && Sorted(s) && RowsWithin(s, rows)
    ensures |ptr| == rows + 1
    ensures forall j | 0 <= j <= rows :: ptr[j] == CountBelow(s, j + 1)
  {
    var a := new int[rows + 1];
    assert s[0] in s && s[|s| - 1] in s;
    forall r | 1 <= r <= s[0].row ensures CountBelow(s, r) == 0 {
      CountBelowAt(s, 0, r);
    }
    Fill(a, 0, s[0].row, 0);
    var current := 1;
    var i := 0;
    while i < |s|
      invariant 0 <= i <= |s|
      invariant current == (if i == 0 then 1 else s[i - 1].row)
      invariant forall j | 0 <= j < (if i == 0 then s[0].row else s[i - 1].row) :: a[j] == CountBelow(s, j + 1)
    {
      assert s[i] in s;
      if s[i].row != current {
        if i > 0 {
          SortedRows(s, i - 1, i);
        }
        forall r | current < r <= s[i].row ensures CountBelow(s, r) == i {
          CountBelowAt(s, i, r);
        }
        Fill(a, current, s[i].row, i);
        current := s[i].row;
      }
      i := i + 1;
    }
    // The rows after the last non-empty one all start (and end) at the element count.
    forall r | current < r <= rows + 1 ensures CountBelow(s, r) == |s| {
      CountBelowAt(s, |s|, r);
    }
    Fill(a, current, rows, |s|);
    a[rows] := |s|;
    ptr := a[..];
  }

  /** Where getCsr assigns a row-pointer entry, it holds the CSR value. */
  lemma CsrPointerAsWrittenAgrees(s: seq<Element>, rows: nat, j: int)
    requires |s| > 0 && Sorted(s) && RowsWithin(s, rows) && 0 <= j <= rows
    ensures CsrPointerAsWritten(s, rows, j).Some? ==> CsrPointerAsWritten(s, rows, j).value == CountBelow(s, j + 1)
  {
    if j == rows {
      assert s[|s| - 1] in s;
      CountBelowAt(s, |s|, rows + 1);
    }
  }

  /** A one-element matrix with an empty second row: getCsr leaves the pointer of
      row 2 unassigned, where CSR needs 1 (row 1 ends after one element). */
  lemma CsrTrailingRowUnassigned()
    ensures CsrPointerAsWritten([Element(1, 1, 1.0)], 2, 1).None?
    ensures CountBelow([Element(1, 1, 1.0)], 2) == 1
  {
    assert [Element(1, 1, 1.0)][..0] == [];
  }

  /** WnMatrix__Csr: the row pointer (rows + 1 entries), and the columns and values
      of the elements in row-major order. */
  datatype Csr = Csr(count: nat, rowCount: nat, rowPointers: seq<int>, cols: seq<int>, values: seq<real>)

  /** The row pointer of csr starts at 0, never decreases and ends at the element count. */
  ghost predicate CsrShaped(csr: Csr, e: Elements, rows: nat)
  {
    && csr.count == |e| && csr.rowCount == rows
    && |csr.rowPointers| == rows + 1 && |csr.cols| == |csr.values| == csr.count
    && csr.rowPointers[0] == 0 && csr.rowPointers[rows] == csr.count
    && (forall j | 0 <= j < rows :: csr.rowPointers[j] <= csr.rowPointers[j + 1])
  }

  /** Every index in row r's range holds a stored element of row r with its value. */
  ghost predicate CsrRowsStored(csr: Csr, e: Elements, rows: nat)
    requires CsrShaped(csr, e, rows)
  {
    forall r, k | 1 <= r <= rows && 0 <= k < csr.count && csr.rowPointers[r - 1] <= k < csr.rowPointers[r] ::
      (r, csr.cols[k]) in e && e[(r, csr.cols[k])] == csr.values[k]
  }

  /** Within a row's range the columns increase. */
  ghost predicate CsrRowsIncreasing(csr: Csr, e: Elements, rows: nat)
    requires CsrShaped(csr, e, rows)
  {
    forall r, k | 1 <= r <= rows && 0 <= k && k + 1 < csr.count && csr.rowPointers[r - 1] <= k && k + 1 < csr.rowPointers[r] ::
      csr.cols[k] < csr.cols[k + 1]
  }

  /** Every stored element appears in its row's range. */
  ghost predicate CsrRowsComplete(csr: Csr, e: Elements, rows: nat)
    requires CsrShaped(csr, e, rows)
  {
    forall p | p in e && 1 <= p.0 <= rows ::
      exists k | 0 <= k < csr.count && csr.rowPointers[p.0 - 1] <= k < csr.rowPointers[p.0] :: csr.cols[k] == p.1
  }

  /** csr lays out the hash e of a matrix with the given number of rows. */
  ghost predicate CsrRepresents(csr: Csr, e: Elements, rows: nat)
  {
    CsrShaped(csr, e, rows) && CsrRowsStored(csr, e, rows)
    && CsrRowsIncreasing(csr, e, rows) && CsrRowsComplete(csr, e, rows)
  }

  /** WnMatrix__getCsr, with every row pointer assigned (see CsrRowPointers). */
  method GetCsr(m: Matrix) returns (csr: Csr)
    requires m.Valid() && |m.elems| > 0
    ensures CsrRepresents(csr, m.elems, m.rows)
  {
    var e := m.elems;
    var rows := m.rows;
    var s := GetSortedElements(e, None, None);
    ListingCount(s, e, None, None);
    assert SelectedKeys(e, None, None) == e.Keys;
    assert RowsWithin(s, rows);
    var coo := CopyToCoo(s);
    var ptr := CsrRowPointers(s, rows);
    csr := Csr(|s|, rows, ptr, coo.colIndices, coo.values);
    CsrFromSorted(s, e, rows, csr);
  }

  /** The layout built from a sorted listing of e: pointers from CountBelow, columns and values copied. */
  ghost predicate CsrBuiltFrom(csr: Csr, s: seq<Element>, e: Elements, rows: nat)
  {
    && |s| > 0 && Sorted(s) && Lists(s, e, None, None) && RowsWithin(s, rows) && |s| == |e|
    && csr.count == |s| && csr.rowCount == rows
    && |csr.rowPointers| == rows + 1 && |csr.cols| == |csr.values| == |s|
    && (forall j | 0 <= j <= rows :: csr.rowPointers[j] == CountBelow(s, j + 1))
    && (forall i | 0 <= i < |s| :: csr.cols[i] == s[i].col && csr.values[i] == s[i].value)
  }

  /** The CSR layout built from the sorted listing represents the hash. */
  lemma CsrFromSorted(s: seq<Element>, e: Elements, rows: nat, csr: Csr)
    requires CsrBuiltFrom(csr, s, e, rows)
    ensures CsrRepresents(csr, e, rows)
  {
    CsrShapeFromSorted(s, e, rows, csr);
    CsrStoredFromSorted(s, e, rows, csr);
    CsrIncreasingFromSorted(s, e, rows, csr);
    CsrCompleteFromSorted(s, e, rows, csr);
  }

  lemma CsrShapeFromSorted(s: seq<Element>, e: Elements, rows: nat, csr: Csr)
    requires CsrBuiltFrom(csr, s, e, rows)
    ensures CsrShaped(csr, e, rows)
  {
    var ptr := csr.rowPointers;
    assert ptr[0] == 0 by {
      assert s[0] in s;
      CountBelowAt(s, 0, 1);
    }
    assert ptr[rows] == |s| by {
      assert s[|s| - 1] in s;
      CountBelowAt(s, |s|, rows + 1);
    }
    forall j | 0 <= j < rows ensures ptr[j] <= ptr[j + 1] {
      CountBelowMonotoneRows(s, j + 1);
    }
  }

  lemma CsrStoredFromSorted(s: seq<Element>, e: Elements, rows: nat, csr: Csr)
    requires CsrBuiltFrom(csr, s, e, rows) && CsrShaped(csr, e, rows)
    ensures CsrRowsStored(csr, e, rows)
  {
    var ptr := csr.rowPointers;
    forall r, k | 1 <= r <= rows && 0 <= k < |s| && ptr[r - 1] <= k < ptr[r]
      ensures (r, csr.cols[k]) in e && e[(r, csr.cols[k])] == csr.values[k]
    {
      CsrRowSlice(s, r, k);
      assert s[k] in s;
    }
  }

  lemma CsrIncreasingFromSorted(s: seq<Element>, e: Elements, rows: nat, csr: Csr)
    requires CsrBuiltFrom(csr, s, e, rows) && CsrShaped(csr, e, rows)
    ensures CsrRowsIncreasing(csr, e, rows)
  {
    var ptr := csr.rowPointers;
    forall r, k | 1 <= r <= rows && 0 <= k && k + 1 < |s| && ptr[r - 1] <= k && k + 1 < ptr[r]
      ensures csr.cols[k] < csr.cols[k + 1]
    {
      CsrRowSlice(s, r, k);
      CsrRowSlice(s, r, k + 1);
      assert Before(s[k], s[k + 1]);
    }
  }

  lemma CsrCompleteFromSorted(s: seq<Element>, e: Elements, rows: nat, csr: Csr)
    requires CsrBuiltFrom(csr, s, e, rows) && CsrShaped(csr, e, rows)
    ensures CsrRowsComplete(csr, e, rows)
  {
    var ptr := csr.rowPointers;
    forall p | p in e && 1 <= p.0 <= rows
      ensures exists k | 0 <= k < |s| && ptr[p.0 - 1] <= k < ptr[p.0] :: csr.cols[k] == p.1
    {
      assert p in Positions(s);
      var x :| x in s && Pos(x) == p;
      var k :| 0 <= k < |s| && s[k] == x;
      CsrRowSlice(s, p.0, k);
    }
  }

  /** Rows before r are also rows before r + 1. */
  lemma {:induction false} CountBelowMonotoneRows(s: seq<Element>, r: int)
    ensures CountBelow(s, r) <= CountBelow(s, r + 1)
  {
    if |s| > 0 {
      CountBelowMonotoneRows(s[..|s| - 1], r);
    }
  }

  // ---------------------------------------------------------------------------
  // The arrow layout.
  // ---------------------------------------------------------------------------

  /** WnMatrix__Arrow of a square matrix with the given number of rows: the last
      `wing` rows and columns form the wings, the leading len = rows - wing rows
      and columns the banded block.  Row i of `a` holds the band of row i + 1
      (a[i][band + c - r] for the element (r, c)); b holds the right wing by
      column, c the bottom wing by row, d the corner.  Parts are 0-based. */
  datatype Arrow = Arrow(rows: nat, wing: nat, band: nat,
                         a: seq<seq<real>>, b: seq<seq<real>>, c: seq<seq<real>>, d: seq<seq<real>>)
  {
    function Len(): int
    {
      rows - wing
    }

    function BandWidth(): nat
    {
      2 * band + 1
    }
  }

  /** n rows of m zeros (calloc'd storage). */
  function Zeros(n: nat, m: nat): (z: seq<seq<real>>)
    ensures |z| == n && forall i | 0 <= i < n :: |z[i]| == m && forall j | 0 <= j < m :: z[i][j] == 0.0
  {
    seq(n, _ => seq(m, _ => 0.0))
  }

  /** A seq-of-rows with n rows of length m. */
  ghost predicate Rect(x: seq<seq<real>>, n: int, m: int)
  {
    |x| == n && forall i | 0 <= i < |x| :: |x[i]| == m
  }

  /** The parts have the dimensions WnMatrix__getArrow allocates. */
  ghost predicate Shaped(ar: Arrow)
  {
    && ar.wing <= ar.rows
    && Rect(ar.a, ar.Len(), ar.BandWidth())
    && Rect(ar.b, ar.wing, ar.Len())
    && Rect(ar.c, ar.wing, ar.Len())
    && Rect(ar.d, ar.wing, ar.wing)
  }

  /** p lies in the banded block rather than in a wing. */
  predicate InMain(p: Position, rows: nat, wing: nat)
  {
    p.0 + wing <= rows && p.1 + wing <= rows
  }

  /** The value the arrow holds for position q of the matrix. */
  ghost function ArrowAt(ar: Arrow, q: Position): real
    requires Shaped(ar) && InGrid(q, ar.rows, ar.rows)
  {
    var len := ar.Len();
    if q.0 <= len && q.1 <= len then
      (if Abs(q.1 - q.0) <= ar.band then ar.a[q.0 - 1][q.1 - q.0 + ar.band] else 0.0)
    else if q.0 <= len then ar.b[q.1 - len - 1][q.0 - 1]
    else if q.1 <= len then ar.c[q.0 - len - 1][q.1 - 1]
    else ar.d[q.0 - len - 1][q.1 - len - 1]
  }

  /** The arrow after WnMatrix__arrow_assign_callback stores v for the element at p. */
  function ArrowAssigned(ar: Arrow, p: Position, v: real): (r: Arrow)
    requires Shaped(ar) && InGrid(p, ar.rows, ar.rows)
    requires InMain(p, ar.rows, ar.wing) ==> Abs(p.1 - p.0) <= ar.band
    ensures Shaped(r) && r.rows == ar.rows && r.wing == ar.wing && r.band == ar.band
  {
    var len := ar.Len();
    if p.0 <= len && p.1 <= len then
      var i, j := p.0 - 1, p.1 - p.0 + ar.band;
      ar.(a := ar.a[i := ar.a[i][j := v]])
    else if p.0 <= len then
      var i, j := p.1 - len - 1, p.0 - 1;
      ar.(b := ar.b[i := ar.b[i][j := v]])
    else if p.1 <= len then
      var i, j := p.0 - len - 1, p.1 - 1;
      ar.(c := ar.c[i := ar.c[i][j := v]])
    else
      var i, j := p.0 - len - 1, p.1 - len - 1;
      ar.(d := ar.d[i := ar.d[i][j := v]])
  }

  /** Storing v for p changes what the arrow holds at p and nowhere else. */
  lemma ArrowAssignedAt(ar: Arrow, p: Position, v: real, q: Position)
    requires Shaped(ar) && InGrid(p, ar.rows, ar.rows) && InGrid(q, ar.rows, ar.rows)
    requires InMain(p, ar.rows, ar.wing) ==> Abs(p.1 - p.0) <= ar.band
    ensures ArrowAt(ArrowAssigned(ar, p, v), q) == if q == p then v else ArrowAt(ar, q)
  {
  }

  /** A freshly allocated arrow holds zero everywhere. */
  lemma ArrowZeroAt(ar: Arrow, q: Position)
    requires Shaped(ar) && InGrid(q, ar.rows, ar.rows)
    requires ar.a == Zeros(ar.Len(), ar.BandWidth()) && ar.b == Zeros(ar.wing, ar.Len())
    requires ar.c == Zeros(ar.wing, ar.Len()) && ar.d == Zeros(ar.wing, ar.wing)
    ensures ArrowAt(ar, q) == 0.0
  {
  }

  /** The band scan of WnMatrix__getArrow (WnMatrix__get_arrow_width_callback over
      every stored element): the largest |col - row| in the banded block. */
  method ScanArrowBand(e: Elements, rows: nat, wing: nat) returns (band: nat)
    ensures forall p | p in e && InMain(p, rows, wing) :: Abs(p.1 - p.0) <= band
    ensures band == 0 || exists p | p in e && InMain(p, rows, wing) :: Abs(p.1 - p.0) == band
  {
    band := 0;
    var todo := e.Keys;
    ghost var done: set<Position> := {};
    while todo != {}
      invariant done + todo == e.Keys && done !! todo
      invariant forall p | p in done && InMain(p, rows, wing) :: Abs(p.1 - p.0) <= band
      invariant band == 0 || exists p | p in e && InMain(p, rows, wing) :: Abs(p.1 - p.0) == band
      decreases todo
    {
      var p :| p in todo;
      if InMain(p, rows, wing) && Abs(p.1 - p.0) > band {
        band := Abs(p.1 - p.0);
      }
      todo := todo - {p};
      done := done + {p};
    }
  }

  /** The arrow holds e's value at every position already scanned, and 0 elsewhere. */
  ghost predicate ArrowSoFar(ar: Arrow, e: Elements, done: set<Position>)
    requires Shaped(ar)
  {
    forall q | InGrid(q, ar.rows, ar.rows) :: ArrowAt(ar, q) == (if q in done then Get(e, q) else 0.0)
  }

  /** The assignment scan of WnMatrix__getArrow (WnMatrix__arrow_assign_callback over
      every stored element) into freshly allocated, zeroed parts. */
  method ScanArrowAssign(e: Elements, rows: nat, wing: nat, band: nat) returns (ar: Arrow)
    requires WellFormed(rows, rows, e) && wing < rows
    requires forall p | p in e && InMain(p, rows, wing) :: Abs(p.1 - p.0) <= band
    ensures Shaped(ar) && ar.rows == rows && ar.wing == wing && ar.band == band
    ensures forall q | InGrid(q, rows, rows) :: ArrowAt(ar, q) == Get(e, q)
  {
    var len := rows - wing;
    ar := Arrow(rows, wing, band, Zeros(len, 2 * band + 1), Zeros(wing, len), Zeros(wing, len), Zeros(wing, wing));
    forall q | InGrid(q, rows, rows) ensures ArrowAt(ar, q) == 0.0 {
      ArrowZeroAt(ar, q);
    }
    var todo := e.Keys;
    ghost var done: set<Position> := {};
    while todo != {}
      invariant done + todo == e.Keys && done !! todo
      invariant Shaped(ar) && ar.rows == rows && ar.wing == wing && ar.band == band
      invariant ArrowSoFar(ar, e, done)
      decreases todo
    {
      var p :| p in todo;
      ghost var before := ar;
      ar := ArrowAssigned(ar, p, e[p]);
      forall q | InGrid(q, rows, rows)
        ensures ArrowAt(ar, q) == (if q in done + {p} then Get(e, q) else 0.0)
      {
        ArrowAssignedAt(before, p, e[p], q);
      }
      todo := todo - {p};
      done := done + {p};
    }
  }

  /** WnMatrix__getArrow: the arrow layout of a square matrix; the band is the
      largest |col - row| of an element of the banded block, and the arrow holds
      the matrix's value at every position. */
  method GetArrow(m: Matrix, wing: nat) returns (ar: Arrow)
    requires m.Valid() && wing < m.rows && m.rows == m.cols
    ensures Shaped(ar) && ar.rows == m.rows && ar.wing == wing
    ensures ar.BandWidth() == 2 * ar.band + 1
    ensures forall p | p in m.elems && InMain(p, m.rows, wing) :: Abs(p.1 - p.0) <= ar.band
    ensures ar.band == 0 || exists p | p in m.elems && InMain(p, m.rows, wing) :: Abs(p.1 - p.0) == ar.band
    ensures forall q | InGrid(q, m.rows, m.rows) :: ArrowAt(ar, q) == Get(m.elems, q)
  {
    var band := ScanArrowBand(m.elems, m.rows, wing);
    ar := ScanArrowAssign(m.elems, m.rows, wing, band);
  }

  /** The non-zero values an arrow holds, as a hash of its rows x rows matrix. */
  ghost function ArrowElements(ar: Arrow): Elements
    requires Shaped(ar)
  {
    map q | q in Grid(ar.rows, ar.rows) && ArrowAt(ar, q) != 0.0 :: ArrowAt(ar, q)
  }

  /** Round trip: converting the arrow of a matrix back gives the matrix's non-zero elements. */
  lemma ArrowRoundTrip(ar: Arrow, e: Elements)
    requires Shaped(ar)
    requires forall q | InGrid(q, ar.rows, ar.rows) :: ArrowAt(ar, q) == Get(e, q)
    ensures ArrowElements(ar) == NonZero(e, ar.rows, ar.rows)
  {
    var x, y := ArrowElements(ar), NonZero(e, ar.rows, ar.rows);
    forall q ensures (q in x <==> q in y) && (q in x ==> x[q] == y[q]) {
      if InGrid(q, ar.rows, ar.rows) {
        assert ArrowAt(ar, q) == Get(e, q);
      }
    }
  }

  /** What the first loop of WnMatrix__Arrow__getWnMatrix has stored once it has
      visited the band entries before a[i][j]: the arrow's value at the visited
      positions of the banded block, the initial hash elsewhere. */
  ghost function BandSoFar(ar: Arrow, acc0: Elements, q: Position, i: int, j: int): real
    requires Shaped(ar) && InGrid(q, ar.rows, ar.rows)
  {
    if InMain(q, ar.rows, ar.wing) && (q.0 - 1 < i || (q.0 - 1 == i && q.1 - q.0 + ar.band < j))
    then ArrowAt(ar, q) else Get(acc0, q)
  }

  lemma BandStep(ar: Arrow, acc0: Elements, acc: Elements, i: nat, j: nat)
    requires Shaped(ar) && i < ar.Len() && j < ar.BandWidth()
    requires Tabulates(acc, ar.rows, ar.rows)
    requires forall q | InGrid(q, ar.rows, ar.rows) && InMain(q, ar.rows, ar.wing) :: Get(acc0, q) == 0.0
    requires forall q | InGrid(q, ar.rows, ar.rows) :: Get(acc, q) == BandSoFar(ar, acc0, q, i, j)
    ensures var acc' := if ar.band <= i + j < ar.Len() + ar.band
                        then Assigned(acc, (i + 1, i + j - ar.band + 1), ar.a[i][j]) else acc;
      Tabulates(acc', ar.rows, ar.rows)
      && forall q | InGrid(q, ar.rows, ar.rows) :: Get(acc', q) == BandSoFar(ar, acc0, q, i, j + 1)
  {
    if ar.band <= i + j < ar.Len() + ar.band {
      var t := (i + 1, i + j - ar.band + 1);
      assert InGrid(t, ar.rows, ar.rows);
      AssignedTabulates(acc, ar.rows, ar.rows, t, ar.a[i][j]);
      AssignedValues(acc, t, ar.a[i][j]);
    }
  }

  lemma BandNextRow(ar: Arrow, acc0: Elements, q: Position, i: nat)
    requires Shaped(ar) && InGrid(q, ar.rows, ar.rows)
    requires InMain(q, ar.rows, ar.wing) ==> Get(acc0, q) == 0.0
    ensures BandSoFar(ar, acc0, q, i, ar.BandWidth()) == BandSoFar(ar, acc0, q, i + 1, 0)
  {
  }

  /** The first loop of WnMatrix__Arrow__getWnMatrix: assignElement of every band entry
      a[i][j] whose column i + j - band + 1 lies in the banded block. */
  method LoopArrowBand(ar: Arrow, acc0: Elements) returns (acc: Elements)
    requires Shaped(ar) && Tabulates(acc0, ar.rows, ar.rows)
    requires forall q | InGrid(q, ar.rows, ar.rows) && InMain(q, ar.rows, ar.wing) :: Get(acc0, q) == 0.0
    ensures Tabulates(acc, ar.rows, ar.rows)
    ensures forall q | InGrid(q, ar.rows, ar.rows) ::
      Get(acc, q) == if InMain(q, ar.rows, ar.wing) then ArrowAt(ar, q) else Get(acc0, q)
  {
    acc := acc0;
    var i := 0;
    while i < ar.Len()
      invariant 0 <= i <= ar.Len() && Tabulates(acc, ar.rows, ar.rows)
      invariant forall q | InGrid(q, ar.rows, ar.rows) :: Get(acc, q) == BandSoFar(ar, acc0, q, i, 0)
    {
      var j := 0;
      while j < ar.BandWidth()
        invariant 0 <= j <= ar.BandWidth() && Tabulates(acc, ar.rows, ar.rows)
        invariant forall q | InGrid(q, ar.rows, ar.rows) :: Get(acc, q) == BandSoFar(ar, acc0, q, i, j)
      {
        BandStep(ar, acc0, acc, i, j);
        if ar.band <= i + j < ar.Len() + ar.band {
          acc := Assigned(acc, (i + 1, i + j - ar.band + 1), ar.a[i][j]);
        }
        j := j + 1;
      }
      forall q | InGrid(q, ar.rows, ar.rows) ensures Get(acc, q) == BandSoFar(ar, acc0, q, i + 1, 0) {
        BandNextRow(ar, acc0, q, i);
      }
      i := i + 1;
    }
  }

  /** The three wing parts of an arrow: right wing b, bottom wing c, corner d. */
  datatype Wing = RightWing | BottomWing | Corner

  /** The matrix position of entry [i][j] of a wing part (len = rows - wing). */
  function WingPosition(w: Wing, len: int, i: int, j: int): Position
  {
    match w
    case RightWing => (j + 1, len + i + 1)
    case BottomWing => (len + i + 1, j + 1)
    case Corner => (len + i + 1, len + j + 1)
  }

  /** The entry [i][j] of a wing part that holds position q. */
  function WingIndex(w: Wing, len: int, q: Position): (int, int)
  {
    match w
    case RightWing => (q.1 - len - 1, q.0 - 1)
    case BottomWing => (q.0 - len - 1, q.1 - 1)
    case Corner => (q.0 - len - 1, q.1 - len - 1)
  }

  /** q lies in the given wing part. */
  predicate InWing(w: Wing, len: int, q: Position)
  {
    match w
    case RightWing => q.0 <= len < q.1
    case BottomWing => q.1 <= len < q.0
    case Corner => len < q.0 && len < q.1
  }

  /** The entries of a wing part, and the length of its rows. */
  function WingPart(ar: Arrow, w: Wing): seq<seq<real>>
  {
    match w
    case RightWing => ar.b
    case BottomWing => ar.c
    case Corner => ar.d
  }

  function WingRowLength(ar: Arrow, w: Wing): int
  {
    if w == Corner then ar.wing else ar.Len()
  }

  /** Entry [i][j] of a wing part sits at a position of that wing, and is what the arrow holds there. */
  lemma WingEntry(ar: Arrow, w: Wing, i: int, j: int)
    requires Shaped(ar) && 0 <= i < ar.wing && 0 <= j < WingRowLength(ar, w)
    ensures InGrid(WingPosition(w, ar.Len(), i, j), ar.rows, ar.rows)
    ensures InWing(w, ar.Len(), WingPosition(w, ar.Len(), i, j))
    ensures WingIndex(w, ar.Len(), WingPosition(w, ar.Len(), i, j)) == (i, j)
    ensures ArrowAt(ar, WingPosition(w, ar.Len(), i, j)) == WingPart(ar, w)[i][j]
  {
  }

  /** A position of a wing has its entry inside that wing part. */
  lemma WingIndexInRange(ar: Arrow, w: Wing, q: Position)
    requires Shaped(ar) && InGrid(q, ar.rows, ar.rows) && InWing(w, ar.Len(), q)
    ensures 0 <= WingIndex(w, ar.Len(), q).0 < ar.wing
    ensures 0 <= WingIndex(w, ar.Len(), q).1 < WingRowLength(ar, w)
    ensures WingPosition(w, ar.Len(), WingIndex(w, ar.Len(), q).0, WingIndex(w, ar.Len(), q).1) == q
  {
  }

  /** What a wing loop of WnMatrix__Arrow__getWnMatrix has stored once it has visited
      the entries before [i][j]. */
  ghost function WingSoFar(ar: Arrow, w: Wing, acc0: Elements, q: Position, i: int, j: int): real
    requires Shaped(ar) && InGrid(q, ar.rows, ar.rows)
  {
    var x := WingIndex(w, ar.Len(), q);
    if InWing(w, ar.Len(), q) && (x.0 < i || (x.0 == i && x.1 < j))
    then ArrowAt(ar, q) else Get(acc0, q)
  }

  lemma WingStep(ar: Arrow, w: Wing, acc0: Elements, acc: Elements, i: nat, j: nat)
    requires Shaped(ar) && i < ar.wing && j < WingRowLength(ar, w)
    requires Tabulates(acc, ar.rows, ar.rows)
    requires forall q | InGrid(q, ar.rows, ar.rows) && InWing(w, ar.Len(), q) :: Get(acc0, q) == 0.0
    requires forall q | InGrid(q, ar.rows, ar.rows) :: Get(acc, q) == WingSoFar(ar, w, acc0, q, i, j)
    ensures var acc' := Assigned(acc, WingPosition(w, ar.Len(), i, j), WingPart(ar, w)[i][j]);
      Tabulates(acc', ar.rows, ar.rows)
      && forall q | InGrid(q, ar.rows, ar.rows) :: Get(acc', q) == WingSoFar(ar, w, acc0, q, i, j + 1)
  {
    var t := WingPosition(w, ar.Len(), i, j);
    WingEntry(ar, w, i, j);
    AssignedTabulates(acc, ar.rows, ar.rows, t, WingPart(ar, w)[i][j]);
    AssignedValues(acc, t, WingPart(ar, w)[i][j]);
    forall q | InGrid(q, ar.rows, ar.rows) && InWing(w, ar.Len(), q) && WingIndex(w, ar.Len(), q) == (i, j)
      ensures q == t
    {
      WingIndexInRange(ar, w, q);
    }
  }

  lemma WingNextRow(ar: Arrow, w: Wing, acc0: Elements, q: Position, i: nat)
    requires Shaped(ar) && InGrid(q, ar.rows, ar.rows)
    ensures WingSoFar(ar, w, acc0, q, i, WingRowLength(ar, w)) == WingSoFar(ar, w, acc0, q, i + 1, 0)
  {
    if InWing(w, ar.Len(), q) {
      WingIndexInRange(ar, w, q);
    }
  }

  /** A wing loop of WnMatrix__Arrow__getWnMatrix: assignElement of every entry of one wing part. */
  method LoopArrowWing(ar: Arrow, w: Wing, acc0: Elements) returns (acc: Elements)
    requires Shaped(ar) && Tabulates(acc0, ar.rows, ar.rows)
    requires forall q | InGrid(q, ar.rows, ar.rows) && InWing(w, ar.Len(), q) :: Get(acc0, q) == 0.0
    ensures Tabulates(acc, ar.rows, ar.rows)
    ensures forall q | InGrid(q, ar.rows, ar.rows) ::
      Get(acc, q) == if InWing(w, ar.Len(), q) then ArrowAt(ar, q) else Get(acc0, q)
  {
    acc := acc0;
    var part := WingPart(ar, w);
    var len := ar.Len();
    var i := 0;
    while i < ar.wing
      invariant 0 <= i <= ar.wing && Tabulates(acc, ar.rows, ar.rows)
      invariant forall q | InGrid(q, ar.rows, ar.rows) :: Get(acc, q) == WingSoFar(ar, w, acc0, q, i, 0)
    {
      var j := 0;
      while j < WingRowLength(ar, w)
        invariant 0 <= j <= WingRowLength(ar, w) && Tabulates(acc, ar.rows, ar.rows)
        invariant forall q | InGrid(q, ar.rows, ar.rows) :: Get(acc, q) == WingSoFar(ar, w, acc0, q, i, j)
      {
        WingStep(ar, w, acc0, acc, i, j);
        acc := Assigned(acc, WingPosition(w, len, i, j), part[i][j]);
        j := j + 1;
      }
      forall q | InGrid(q, ar.rows, ar.rows) ensures Get(acc, q) == WingSoFar(ar, w, acc0, q, i + 1, 0) {
        WingNextRow(ar, w, acc0, q, i);
      }
      i := i + 1;
    }
    forall q | InGrid(q, ar.rows, ar.rows) && InWing(w, ar.Len(), q)
      ensures WingIndex(w, ar.Len(), q).0 < ar.wing
    {
      WingIndexInRange(ar, w, q);
    }
  }

  /** The loops of WnMatrix__Arrow__getWnMatrix: the hash of the matrix an arrow describes. */
  method LoopArrowToElements(ar: Arrow) returns (acc: Elements)
    requires Shaped(ar)
    ensures acc == ArrowElements(ar)
  {
    var len := ar.Len();
    acc := LoopArrowBand(ar, map[]);
    acc := LoopArrowWing(ar, RightWing, acc);
    acc := LoopArrowWing(ar, BottomWing, acc);
    acc := LoopArrowWing(ar, Corner, acc);
    forall q | InGrid(q, ar.rows, ar.rows) ensures Get(acc, q) == ArrowAt(ar, q) {
    }
    SameValuesSameHash(acc, ArrowElements(ar));
  }

  /** WnMatrix__Arrow__getWnMatrix: a new rows x rows matrix holding the arrow's non-zero values. */
  method ArrowGetMatrix(ar: Arrow) returns (m: Matrix)
    requires Shaped(ar)
    ensures fresh(m) && m.Valid() && m.rows == ar.rows && m.cols == ar.rows
    ensures m.elems == ArrowElements(ar)
  {
    var e := LoopArrowToElements(ar);
    m := new Matrix(ar.rows, ar.rows);
    m.elems := e;
  }
}
