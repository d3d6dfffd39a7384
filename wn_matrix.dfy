// The sparse matrix of wn_matrix (vendor/wn_matrix/0.18/src/WnMatrix.c).
//
// A matrix is a number of rows, a number of columns and a hash of stored
// elements keyed by their 1-based (row, column) position.  Stored values are
// normally non-zero, but an additive assignment can cancel a stored value to
// zero, and such a zero stays stored until an operation rebuilds the hash.

module WnMatrix {

  /** A (row, column) position; valid positions count both from 1. */
  type Position = (int, int)

  /** The element hash: stored value by position. */
  type Elements = map<Position, real>

  /** The value at a position: the stored value, or 0 where nothing is stored. */
  function Get(e: Elements, p: Position): real
  {
    if p in e then e[p] else 0.0
  }

  /** The positions (r0 + i, c0 + j) for 0 <= i < nr and 0 <= j < nc. */
  function Box(r0: int, c0: int, nr: nat, nc: nat): (b: set<Position>)
    ensures forall p :: p in b <==> r0 <= p.0 < r0 + nr && c0 <= p.1 < c0 + nc
  {
    if nr == 0 then {} else Box(r0, c0, nr - 1, nc) + Stripe(r0 + nr - 1, c0, nc)
  }

  /** The positions (r, c0 + j) for 0 <= j < nc. */
  function Stripe(r: int, c0: int, nc: nat): (s: set<Position>)
    ensures forall p :: p in s <==> p.0 == r && c0 <= p.1 < c0 + nc
  {
    if nc == 0 then {} else Stripe(r, c0, nc - 1) + {(r, c0 + nc - 1)}
  }

  /** All valid positions of a rows x cols matrix. */
  function Grid(rows: nat, cols: nat): (g: set<Position>)
    ensures forall p :: p in g <==> 1 <= p.0 <= rows && 1 <= p.1 <= cols
  {
    Box(1, 1, rows, cols)
  }

  /** The diagonal positions (i, i) for 1 <= i <= n. */
  function Diagonal(n: nat): (d: set<Position>)
    ensures forall p :: p in d <==> p.0 == p.1 && 1 <= p.0 <= n
  {
    if n == 0 then {} else Diagonal(n - 1) + {(n, n)}
  }

  /** q is a valid position of a rows x cols matrix. */
  predicate InGrid(q: Position, rows: nat, cols: nat)
  {
    1 <= q.0 <= rows && 1 <= q.1 <= cols
  }

  /** Every stored element lies inside a rows x cols matrix. */
  ghost predicate WellFormed(rows: nat, cols: nat, e: Elements)
  {
    forall p | p in e :: 1 <= p.0 <= rows && 1 <= p.1 <= cols
  }

  /** No stored element holds zero (true of every hash that a rebuild produced). */
  ghost predicate NoStoredZeros(e: Elements)
  {
    forall p | p in e :: e[p] != 0.0
  }

  /** The hash after assignElement(p, v): a zero value is ignored; otherwise
      v is added to a stored value or stored as a new element. */
  function Assigned(e: Elements, p: Position, v: real): (r: Elements)
    ensures Get(r, p) == Get(e, p) + v
    ensures v == 0.0 ==> r == e
  {
    if v == 0.0 then e else if p in e then e[p := e[p] + v] else e[p := v]
  }

  /** The hash after updateElement(p, v): a zero value is ignored (and leaves
      any stored element in place); otherwise v replaces the stored value. */
  function Updated(e: Elements, p: Position, v: real): (r: Elements)
    ensures v != 0.0 ==> p in r && r[p] == v
    ensures v == 0.0 ==> r == e
    ensures forall q | q != p :: q in r <==> q in e
    ensures forall q | q != p && q in r :: r[q] == e[q]
  {
    if v == 0.0 then e else e[p := v]
  }

  /** The hash after scaleMatrix(d): every stored value, zero or not, is multiplied by d. */
  function Scaled(e: Elements, d: real): (r: Elements)
    ensures r.Keys == e.Keys
  {
    map p | p in e :: e[p] * d
  }

  /** The hash after addValueToDiagonals(v) on a matrix with n rows. */
  function DiagonalAdded(e: Elements, n: nat, v: real): Elements
  {
    if v == 0.0 then e
    else map p | p in e.Keys + Diagonal(n) :: Get(e, p) + (if p in Diagonal(n) then v else 0.0)
  }

  /** The value that insertMatrix adds at p when block b is inserted with its
      (1, 1) element at (r0, c0). */
  function BlockValue(b: Elements, r0: int, c0: int, p: Position): real
  {
    Get(b, BlockSource(p, r0, c0))
  }

  /** The block position that insertMatrix places at p. */
  function BlockSource(p: Position, r0: int, c0: int): Position
  {
    (p.0 - r0 + 1, p.1 - c0 + 1)
  }

  /** The hash after insertMatrix(b, r0, c0), b having nr x nc elements. */
  function BlockAdded(e: Elements, b: Elements, r0: int, c0: int, nr: nat, nc: nat): Elements
  {
    map p | p in e.Keys + Box(r0, c0, nr, nc) && (p in e || BlockValue(b, r0, c0, p) != 0.0)
      :: Get(e, p) + BlockValue(b, r0, c0, p)
  }

  /** The non-zero elements of the window of nr x nc positions whose corner is
      (r0, c0), re-indexed from (1, 1): the hash extractMatrix builds. */
  function Window(e: Elements, r0: int, c0: int, nr: nat, nc: nat): Elements
  {
    map q | q in Grid(nr, nc) && Get(e, WindowSource(q, r0, c0)) != 0.0 :: Get(e, WindowSource(q, r0, c0))
  }

  /** The position of e that extractMatrix places at q of the window. */
  function WindowSource(q: Position, r0: int, c0: int): Position
  {
    (q.0 + r0 - 1, q.1 + c0 - 1)
  }

  /** The non-zero elements of a rows x cols hash with every (r, c) moved to
      (c, r): the hash getTranspose builds. */
  function Transposed(e: Elements, rows: nat, cols: nat): Elements
  {
    map q | q in Grid(cols, rows) && Get(e, (q.1, q.0)) != 0.0 :: Get(e, (q.1, q.0))
  }

  /** The non-zero elements of a rows x cols hash. */
  function NonZero(e: Elements, rows: nat, cols: nat): Elements
  {
    map q | q in Grid(rows, cols) && Get(e, q) != 0.0 :: Get(e, q)
  }

  /** Where the element at q after removing row k came from. */
  function RowSource(q: Position, k: int): Position
  {
    (if q.0 < k then q.0 else q.0 + 1, q.1)
  }

  /** Where removeRow(k) moves the element at p (p not in row k). */
  function RowTarget(p: Position, k: int): Position
  {
    (if p.0 < k then p.0 else p.0 - 1, p.1)
  }

  /** The hash removeRow(k) builds for a matrix of rows + 1 rows. */
  function RowRemoved(e: Elements, rows: nat, cols: nat, k: int): Elements
  {
    map q | q in Grid(rows, cols) && Get(e, RowSource(q, k)) != 0.0 :: Get(e, RowSource(q, k))
  }

  function ColumnSource(q: Position, k: int): Position
  {
    (q.0, if q.1 < k then q.1 else q.1 + 1)
  }

  function ColumnTarget(p: Position, k: int): Position
  {
    (p.0, if p.1 < k then p.1 else p.1 - 1)
  }

  /** The hash removeColumn(k) builds for a matrix of cols + 1 columns. */
  function ColumnRemoved(e: Elements, rows: nat, cols: nat, k: int): Elements
  {
    map q | q in Grid(rows, cols) && Get(e, ColumnSource(q, k)) != 0.0 :: Get(e, ColumnSource(q, k))
  }

  /** Where insertRow(k, _) moves the element at p. */
  function RowShift(p: Position, k: int): Position
  {
    (if p.0 < k then p.0 else p.0 + 1, p.1)
  }

  /** Where the element at q (q not in row k) after insertRow(k, _) came from. */
  function RowShiftSource(q: Position, k: int): Position
  {
    (if q.0 < k then q.0 else q.0 - 1, q.1)
  }

  /** The value at q after insertRow(k, v) has stored the entries v[..|v|]. */
  function RowInsertedAt(e: Elements, k: int, v: seq<real>, q: Position): real
  {
    if q.0 == k then (if 1 <= q.1 <= |v| then v[q.1 - 1] else 0.0)
    else if q.0 < k then Get(e, q)
    else Get(e, (q.0 - 1, q.1))
  }

  /** The hash insertRow(k, v) leaves in a matrix that had `rows` rows. */
  function RowInserted(e: Elements, rows: nat, cols: nat, k: int, v: seq<real>): Elements
  {
    map q | q in Grid(rows + 1, cols) && RowInsertedAt(e, k, v, q) != 0.0 :: RowInsertedAt(e, k, v, q)
  }

  function ColumnShift(p: Position, k: int): Position
  {
    (p.0, if p.1 < k then p.1 else p.1 + 1)
  }

  function ColumnShiftSource(q: Position, k: int): Position
  {
    (q.0, if q.1 < k then q.1 else q.1 - 1)
  }

  function ColumnInsertedAt(e: Elements, k: int, v: seq<real>, q: Position): real
  {
    if q.1 == k then (if 1 <= q.0 <= |v| then v[q.0 - 1] else 0.0)
    else if q.1 < k then Get(e, q)
    else Get(e, (q.0, q.1 - 1))
  }

  /** The hash insertColumn(k, v) leaves in a matrix that had `cols` columns. */
  function ColumnInserted(e: Elements, rows: nat, cols: nat, k: int, v: seq<real>): Elements
  {
    map q | q in Grid(rows, cols + 1) && ColumnInsertedAt(e, k, v, q) != 0.0 :: ColumnInsertedAt(e, k, v, q)
  }


  // ---------------------------------------------------------------------------
  // The hash scans.  A scan visits the stored elements one at a time, in an
  // order the model leaves open; `done` is the set already visited.  Each
  // "SoFar" predicate states the values the rebuilt hash holds after a scan of
  // `done`, and the "Step" lemma shows that visiting one more element keeps it.
  // ---------------------------------------------------------------------------

  lemma AssignedElsewhere(e: Elements, p: Position, v: real, q: Position)
    requires q != p
    ensures Get(Assigned(e, p, v), q) == Get(e, q)
    ensures q in Assigned(e, p, v) <==> q in e
  {
  }

  /** A rebuilt hash: inside the new dimensions and without stored zeros. */
  ghost predicate Tabulates(acc: Elements, rows: nat, cols: nat)
  {
    WellFormed(rows, cols, acc) && NoStoredZeros(acc)
  }

  lemma AssignedTabulates(acc: Elements, rows: nat, cols: nat, t: Position, v: real)
    requires Tabulates(acc, rows, cols) && InGrid(t, rows, cols) && Get(acc, t) == 0.0
    ensures Tabulates(Assigned(acc, t, v), rows, cols)
  {
  }

  ghost predicate RowRemovedSoFar(acc: Elements, e: Elements, rows: nat, cols: nat, k: int, done: set<Position>)
  {
    Tabulates(acc, rows, cols) &&
    forall q | InGrid(q, rows, cols) ::
      Get(acc, q) == if RowSource(q, k) in done then Get(e, RowSource(q, k)) else 0.0
  }

  lemma RowRemovedScanStep(acc: Elements, e: Elements, rows: nat, cols: nat, k: int, done: set<Position>, p: Position)
    requires WellFormed(rows + 1, cols, e) && 1 <= k <= rows + 1
    requires p in e && p !in done
    requires RowRemovedSoFar(acc, e, rows, cols, k, done)
    ensures RowRemovedSoFar(if p.0 == k then acc else Assigned(acc, RowTarget(p, k), e[p]), e, rows, cols, k, done + {p})
  {
    if p.0 != k {
      var t := RowTarget(p, k);
      var a := Assigned(acc, t, e[p]);
      assert InGrid(t, rows, cols) && RowSource(t, k) == p;
      AssignedTabulates(acc, rows, cols, t, e[p]);
      forall q | InGrid(q, rows, cols)
        ensures Get(a, q) == if RowSource(q, k) in done + {p} then Get(e, RowSource(q, k)) else 0.0
      {
        if q != t {
          assert RowSource(q, k) != p;
          AssignedElsewhere(acc, t, e[p], q);
        }
      }
    } else {
      forall q | InGrid(q, rows, cols) ensures RowSource(q, k) != p {}
    }
  }

  lemma RowRemovedScanned(acc: Elements, e: Elements, rows: nat, cols: nat, k: int)
    requires RowRemovedSoFar(acc, e, rows, cols, k, e.Keys)
    ensures acc == RowRemoved(e, rows, cols, k)
  {
    var b := RowRemoved(e, rows, cols, k);
    forall q ensures (q in acc <==> q in b) && (q in acc ==> acc[q] == b[q]) {
      if InGrid(q, rows, cols) {
        assert Get(acc, q) == Get(e, RowSource(q, k));
      }
    }
  }

  ghost predicate ColumnRemovedSoFar(acc: Elements, e: Elements, rows: nat, cols: nat, k: int, done: set<Position>)
  {
    Tabulates(acc, rows, cols) &&
    forall q | InGrid(q, rows, cols) ::
      Get(acc, q) == if ColumnSource(q, k) in done then Get(e, ColumnSource(q, k)) else 0.0
  }

  lemma ColumnRemovedScanStep(acc: Elements, e: Elements, rows: nat, cols: nat, k: int, done: set<Position>, p: Position)
    requires WellFormed(rows, cols + 1, e) && 1 <= k <= cols + 1
    requires p in e && p !in done
    requires ColumnRemovedSoFar(acc, e, rows, cols, k, done)
    ensures ColumnRemovedSoFar(if p.1 == k then acc else Assigned(acc, ColumnTarget(p, k), e[p]), e, rows, cols, k, done + {p})
  {
    if p.1 != k {
      var t := ColumnTarget(p, k);
      var a := Assigned(acc, t, e[p]);
      assert InGrid(t, rows, cols) && ColumnSource(t, k) == p;
      AssignedTabulates(acc, rows, cols, t, e[p]);
      forall q | InGrid(q, rows, cols)
        ensures Get(a, q) == if ColumnSource(q, k) in done + {p} then Get(e, ColumnSource(q, k)) else 0.0
      {
        if q != t {
          assert ColumnSource(q, k) != p;
          AssignedElsewhere(acc, t, e[p], q);
        }
      }
    } else {
      forall q | InGrid(q, rows, cols) ensures ColumnSource(q, k) != p {}
    }
  }

  lemma ColumnRemovedScanned(acc: Elements, e: Elements, rows: nat, cols: nat, k: int)
    requires ColumnRemovedSoFar(acc, e, rows, cols, k, e.Keys)
    ensures acc == ColumnRemoved(e, rows, cols, k)
  {
    var b := ColumnRemoved(e, rows, cols, k);
    forall q ensures (q in acc <==> q in b) && (q in acc ==> acc[q] == b[q]) {
      if InGrid(q, rows, cols) {
        assert Get(acc, q) == Get(e, ColumnSource(q, k));
      }
    }
  }

  /** The value at q of the shifted hash insertRow(k, _) builds, once `done` is visited. */
  ghost function RowShiftedValue(e: Elements, k: int, done: set<Position>, q: Position): real
  {
    if q.0 != k && RowShiftSource(q, k) in done then Get(e, RowShiftSource(q, k)) else 0.0
  }

  ghost predicate RowShiftedSoFar(acc: Elements, e: Elements, rows: nat, cols: nat, k: int, done: set<Position>)
  {
    Tabulates(acc, rows + 1, cols) &&
    forall q | InGrid(q, rows + 1, cols) :: Get(acc, q) == RowShiftedValue(e, k, done, q)
  }

  lemma RowShiftedScanStep(acc: Elements, e: Elements, rows: nat, cols: nat, k: int, done: set<Position>, p: Position)
    requires WellFormed(rows, cols, e) && 1 <= k <= rows + 1
    requires p in e && p !in done
    requires RowShiftedSoFar(acc, e, rows, cols, k, done)
    ensures RowShiftedSoFar(Assigned(acc, RowShift(p, k), e[p]), e, rows, cols, k, done + {p})
  {
    var t := RowShift(p, k);
    var a := Assigned(acc, t, e[p]);
    assert InGrid(t, rows + 1, cols) && t.0 != k && RowShiftSource(t, k) == p;
    assert Get(acc, t) == 0.0;
    AssignedTabulates(acc, rows + 1, cols, t, e[p]);
    forall q | InGrid(q, rows + 1, cols) ensures Get(a, q) == RowShiftedValue(e, k, done + {p}, q) {
      if q == t {
        assert RowShiftedValue(e, k, done + {p}, q) == e[p];
      } else {
        if q.0 != k {
          assert RowShift(RowShiftSource(q, k), k) == q;
        }
        assert RowShiftedValue(e, k, done + {p}, q) == RowShiftedValue(e, k, done, q);
        AssignedElsewhere(acc, t, e[p], q);
      }
    }
  }

  /** The hash after storing the first |u| entries of the inserted row. */
  ghost predicate RowInsertedSoFar(acc: Elements, e: Elements, rows: nat, cols: nat, k: int, u: seq<real>)
  {
    Tabulates(acc, rows + 1, cols) &&
    forall q | InGrid(q, rows + 1, cols) :: Get(acc, q) == RowInsertedAt(e, k, u, q)
  }

  lemma RowShiftedScanned(acc: Elements, e: Elements, rows: nat, cols: nat, k: int)
    requires RowShiftedSoFar(acc, e, rows, cols, k, e.Keys)
    ensures RowInsertedSoFar(acc, e, rows, cols, k, [])
  {
  }

  lemma RowInsertedEntryStep(acc: Elements, e: Elements, rows: nat, cols: nat, k: int, v: seq<real>, i: nat)
    requires 1 <= k <= rows + 1 && i < cols && i < |v|
    requires RowInsertedSoFar(acc, e, rows, cols, k, v[..i])
    ensures RowInsertedSoFar(Assigned(acc, (k, i + 1), v[i]), e, rows, cols, k, v[..i + 1])
  {
    var a := Assigned(acc, (k, i + 1), v[i]);
    assert RowInsertedAt(e, k, v[..i], (k, i + 1)) == 0.0;
    AssignedTabulates(acc, rows + 1, cols, (k, i + 1), v[i]);
    forall q | InGrid(q, rows + 1, cols) ensures Get(a, q) == RowInsertedAt(e, k, v[..i + 1], q) {
      if q != (k, i + 1) {
        AssignedElsewhere(acc, (k, i + 1), v[i], q);
        if q.0 == k && 1 <= q.1 <= i {
          assert v[..i + 1][q.1 - 1] == v[..i][q.1 - 1];
        }
      }
    }
  }

  lemma RowInsertedScanned(acc: Elements, e: Elements, rows: nat, cols: nat, k: int, v: seq<real>)
    requires RowInsertedSoFar(acc, e, rows, cols, k, v)
    ensures acc == RowInserted(e, rows, cols, k, v) && WellFormed(rows + 1, cols, acc)
  {
    var b := RowInserted(e, rows, cols, k, v);
    forall q ensures (q in acc <==> q in b) && (q in acc ==> acc[q] == b[q]) {
      if InGrid(q, rows + 1, cols) {
        assert Get(acc, q) == RowInsertedAt(e, k, v, q);
      }
    }
  }

  ghost function ColumnShiftedValue(e: Elements, k: int, done: set<Position>, q: Position): real
  {
    if q.1 != k && ColumnShiftSource(q, k) in done then Get(e, ColumnShiftSource(q, k)) else 0.0
  }

  ghost predicate ColumnShiftedSoFar(acc: Elements, e: Elements, rows: nat, cols: nat, k: int, done: set<Position>)
  {
    Tabulates(acc, rows, cols + 1) &&
    forall q | InGrid(q, rows, cols + 1) :: Get(acc, q) == ColumnShiftedValue(e, k, done, q)
  }

  lemma ColumnShiftedScanStep(acc: Elements, e: Elements, rows: nat, cols: nat, k: int, done: set<Position>, p: Position)
    requires WellFormed(rows, cols, e) && 1 <= k <= cols + 1
    requires p in e && p !in done
    requires ColumnShiftedSoFar(acc, e, rows, cols, k, done)
    ensures ColumnShiftedSoFar(Assigned(acc, ColumnShift(p, k), e[p]), e, rows, cols, k, done + {p})
  {
    var t := ColumnShift(p, k);
    var a := Assigned(acc, t, e[p]);
    assert InGrid(t, rows, cols + 1) && t.1 != k && ColumnShiftSource(t, k) == p;
    assert Get(acc, t) == 0.0;
    AssignedTabulates(acc, rows, cols + 1, t, e[p]);
    forall q | InGrid(q, rows, cols + 1) ensures Get(a, q) == ColumnShiftedValue(e, k, done + {p}, q) {
      if q == t {
        assert ColumnShiftedValue(e, k, done + {p}, q) == e[p];
      } else {
        if q.1 != k {
          assert ColumnShift(ColumnShiftSource(q, k), k) == q;
        }
        assert ColumnShiftedValue(e, k, done + {p}, q) == ColumnShiftedValue(e, k, done, q);
        AssignedElsewhere(acc, t, e[p], q);
      }
    }
  }

  ghost predicate ColumnInsertedSoFar(acc: Elements, e: Elements, rows: nat, cols: nat, k: int, u: seq<real>)
  {
    Tabulates(acc, rows, cols + 1) &&
    forall q | InGrid(q, rows, cols + 1) :: Get(acc, q) == ColumnInsertedAt(e, k, u, q)
  }

  lemma ColumnShiftedScanned(acc: Elements, e: Elements, rows: nat, cols: nat, k: int)
    requires ColumnShiftedSoFar(acc, e, rows, cols, k, e.Keys)
    ensures ColumnInsertedSoFar(acc, e, rows, cols, k, [])
  {
  }

  lemma ColumnInsertedEntryStep(acc: Elements, e: Elements, rows: nat, cols: nat, k: int, v: seq<real>, i: nat)
    requires 1 <= k <= cols + 1 && i < rows && i < |v|
    requires ColumnInsertedSoFar(acc, e, rows, cols, k, v[..i])
    ensures ColumnInsertedSoFar(Assigned(acc, (i + 1, k), v[i]), e, rows, cols, k, v[..i + 1])
  {
    var a := Assigned(acc, (i + 1, k), v[i]);
    assert ColumnInsertedAt(e, k, v[..i], (i + 1, k)) == 0.0;
    AssignedTabulates(acc, rows, cols + 1, (i + 1, k), v[i]);
    forall q | InGrid(q, rows, cols + 1) ensures Get(a, q) == ColumnInsertedAt(e, k, v[..i + 1], q) {
      if q != (i + 1, k) {
        AssignedElsewhere(acc, (i + 1, k), v[i], q);
        if q.1 == k && 1 <= q.0 <= i {
          assert v[..i + 1][q.0 - 1] == v[..i][q.0 - 1];
        }
      }
    }
  }

  lemma ColumnInsertedScanned(acc: Elements, e: Elements, rows: nat, cols: nat, k: int, v: seq<real>)
    requires ColumnInsertedSoFar(acc, e, rows, cols, k, v)
    ensures acc == ColumnInserted(e, rows, cols, k, v) && WellFormed(rows, cols + 1, acc)
  {
    var b := ColumnInserted(e, rows, cols, k, v);
    forall q ensures (q in acc <==> q in b) && (q in acc ==> acc[q] == b[q]) {
      if InGrid(q, rows, cols + 1) {
        assert Get(acc, q) == ColumnInsertedAt(e, k, v, q);
      }
    }
  }

  ghost predicate TransposedSoFar(acc: Elements, e: Elements, rows: nat, cols: nat, done: set<Position>)
  {
    Tabulates(acc, cols, rows) &&
    forall q | InGrid(q, cols, rows) :: Get(acc, q) == if (q.1, q.0) in done then Get(e, (q.1, q.0)) else 0.0
  }

  lemma TransposedScanStep(acc: Elements, e: Elements, rows: nat, cols: nat, done: set<Position>, p: Position)
    requires WellFormed(rows, cols, e)
    requires p in e && p !in done
    requires TransposedSoFar(acc, e, rows, cols, done)
    ensures TransposedSoFar(Assigned(acc, (p.1, p.0), e[p]), e, rows, cols, done + {p})
  {
    var t := (p.1, p.0);
    var a := Assigned(acc, t, e[p]);
    assert InGrid(t, cols, rows);
    AssignedTabulates(acc, cols, rows, t, e[p]);
    forall q | InGrid(q, cols, rows)
      ensures Get(a, q) == if (q.1, q.0) in done + {p} then Get(e, (q.1, q.0)) else 0.0
    {
      if q != t {
        AssignedElsewhere(acc, t, e[p], q);
      }
    }
  }

  lemma TransposedScanned(acc: Elements, e: Elements, rows: nat, cols: nat)
    requires TransposedSoFar(acc, e, rows, cols, e.Keys)
    ensures acc == Transposed(e, rows, cols)
  {
    var b := Transposed(e, rows, cols);
    forall q ensures (q in acc <==> q in b) && (q in acc ==> acc[q] == b[q]) {
      if InGrid(q, cols, rows) {
        assert Get(acc, q) == Get(e, (q.1, q.0));
      }
    }
  }

  ghost predicate WindowSoFar(acc: Elements, e: Elements, r0: int, c0: int, nr: nat, nc: nat, done: set<Position>)
  {
    Tabulates(acc, nr, nc) &&
    forall q | InGrid(q, nr, nc) ::
      Get(acc, q) == if WindowSource(q, r0, c0) in done then Get(e, WindowSource(q, r0, c0)) else 0.0
  }

  lemma WindowScanStep(acc: Elements, e: Elements, r0: int, c0: int, nr: nat, nc: nat, done: set<Position>, p: Position)
    requires p in e && p !in done
    requires WindowSoFar(acc, e, r0, c0, nr, nc, done)
    ensures var t := BlockSource(p, r0, c0);
      WindowSoFar(if InGrid(t, nr, nc) then Assigned(acc, t, e[p]) else acc, e, r0, c0, nr, nc, done + {p})
  {
    var t := BlockSource(p, r0, c0);
    assert WindowSource(t, r0, c0) == p;
    if InGrid(t, nr, nc) {
      var a := Assigned(acc, t, e[p]);
      AssignedTabulates(acc, nr, nc, t, e[p]);
      forall q | InGrid(q, nr, nc)
        ensures Get(a, q) == if WindowSource(q, r0, c0) in done + {p} then Get(e, WindowSource(q, r0, c0)) else 0.0
      {
        if q != t {
          AssignedElsewhere(acc, t, e[p], q);
        }
      }
    } else {
      forall q | InGrid(q, nr, nc) ensures WindowSource(q, r0, c0) != p {}
    }
  }

  lemma WindowScanned(acc: Elements, e: Elements, r0: int, c0: int, nr: nat, nc: nat)
    requires WindowSoFar(acc, e, r0, c0, nr, nc, e.Keys)
    ensures acc == Window(e, r0, c0, nr, nc)
  {
    var b := Window(e, r0, c0, nr, nc);
    forall q ensures (q in acc <==> q in b) && (q in acc ==> acc[q] == b[q]) {
      if InGrid(q, nr, nc) {
        assert Get(acc, q) == Get(e, WindowSource(q, r0, c0));
      }
    }
  }

  /** insertMatrix adds into a hash that may hold stored zeros, so its scan
      tracks the key set as well as the values. */
  ghost predicate BlockAddedSoFar(cur: Elements, e: Elements, b: Elements, r0: int, c0: int, done: set<Position>)
  {
    (forall q :: q in cur <==> q in e || (BlockSource(q, r0, c0) in done && Get(b, BlockSource(q, r0, c0)) != 0.0)) &&
    (forall q | q in cur :: cur[q] == Get(e, q) + if BlockSource(q, r0, c0) in done then Get(b, BlockSource(q, r0, c0)) else 0.0)
  }

  lemma BlockAddedScanStep(cur: Elements, e: Elements, b: Elements, r0: int, c0: int, done: set<Position>, p: Position)
    requires p in b && p !in done
    requires BlockAddedSoFar(cur, e, b, r0, c0, done)
    ensures BlockAddedSoFar(Assigned(cur, (p.0 + r0 - 1, p.1 + c0 - 1), b[p]), e, b, r0, c0, done + {p})
  {
    var t := (p.0 + r0 - 1, p.1 + c0 - 1);
    var a := Assigned(cur, t, b[p]);
    assert BlockSource(t, r0, c0) == p;
    forall q ensures q in a <==> q in e || (BlockSource(q, r0, c0) in done + {p} && Get(b, BlockSource(q, r0, c0)) != 0.0) {
      if q != t {
        AssignedElsewhere(cur, t, b[p], q);
      }
    }
    forall q | q in a
      ensures a[q] == Get(e, q) + if BlockSource(q, r0, c0) in done + {p} then Get(b, BlockSource(q, r0, c0)) else 0.0
    {
      if q != t {
        AssignedElsewhere(cur, t, b[p], q);
      }
    }
  }

  lemma BlockAddedScanned(cur: Elements, e: Elements, b: Elements, r0: int, c0: int, nr: nat, nc: nat)
    requires WellFormed(nr, nc, b)
    requires BlockAddedSoFar(cur, e, b, r0, c0, b.Keys)
    ensures cur == BlockAdded(e, b, r0, c0, nr, nc)
  {
    var x := BlockAdded(e, b, r0, c0, nr, nc);
    forall q ensures (q in cur <==> q in x) && (q in cur ==> cur[q] == x[q]) {
      if BlockValue(b, r0, c0, q) != 0.0 {
        assert BlockSource(q, r0, c0) in b;
        assert q in Box(r0, c0, nr, nc);
      }
    }
  }

  lemma DiagonalAddedStep(e: Elements, n: nat, v: real)
    ensures DiagonalAdded(e, n + 1, v) == Assigned(DiagonalAdded(e, n, v), (n + 1, n + 1), v)
  {
    if v != 0.0 {
      var a := DiagonalAdded(e, n + 1, v);
      var b := Assigned(DiagonalAdded(e, n, v), (n + 1, n + 1), v);
      forall q ensures (q in a <==> q in b) && (q in a ==> a[q] == b[q]) {
      }
    }
  }

  /** When the block fits, insertMatrix stores nothing outside the target matrix. */
  lemma BlockAddedInside(e: Elements, b: Elements, r0: int, c0: int, nr: nat, nc: nat, rows: nat, cols: nat)
    requires WellFormed(rows, cols, e) && 1 <= r0 && 1 <= c0 && r0 + nr - 1 <= rows && c0 + nc - 1 <= cols
    ensures WellFormed(rows, cols, BlockAdded(e, b, r0, c0, nr, nc))
  {
  }

  // ---------------------------------------------------------------------------
  // The scans themselves: each walks the element hash once, as xmlHashScanFull
  // does with the callback that WnMatrix.c passes to it.
  // ---------------------------------------------------------------------------

  /** On a matrix with at least as many columns as rows the diagonal lies inside it. */
  lemma DiagonalAddedInside(e: Elements, rows: nat, cols: nat, v: real)
    requires WellFormed(rows, cols, e) && rows <= cols
    ensures WellFormed(rows, cols, DiagonalAdded(e, rows, v))
  {
  }

  lemma DiagonalAddedNone(e: Elements, v: real)
    ensures DiagonalAdded(e, 0, v) == e
  {
    if v != 0.0 {
      var a := DiagonalAdded(e, 0, v);
      forall q ensures (q in a <==> q in e) && (q in a ==> a[q] == e[q]) {
      }
    }
  }

  /** The scan of scaleMatrix: every stored value multiplied by d. */
  method ScanScaling(e: Elements, d: real) returns (acc: Elements)
    ensures acc == Scaled(e, d)
  {
    acc := e;
    var todo := e.Keys;
    ghost var done: set<Position> := {};
    while todo != {}
      invariant todo <= e.Keys && done == e.Keys - todo
      invariant acc.Keys == e.Keys
      invariant forall p | p in acc :: acc[p] == if p in done then e[p] * d else e[p]
      decreases |todo|
    {
      var p :| p in todo;
      acc := acc[p := acc[p] * d];
      todo := todo - {p};
      done := done + {p};
    }
    var sc := Scaled(e, d);
    forall p ensures (p in acc <==> p in sc) && (p in acc ==> acc[p] == sc[p]) {
    }
  }

  /** The loop of addValueToDiagonals: v assigned at (i, i) for i = 1..n. */
  method LoopAddingToDiagonal(e: Elements, n: nat, v: real) returns (acc: Elements)
    ensures acc == DiagonalAdded(e, n, v)
  {
    acc := e;
    var i := 1;
    DiagonalAddedNone(e, v);
    while i <= n
      invariant 1 <= i <= n + 1
      invariant acc == DiagonalAdded(e, i - 1, v)
    {
      DiagonalAddedStep(e, i - 1, v);
      acc := Assigned(acc, (i, i), v);
      i := i + 1;
    }
  }

  /** The scan of insertMatrix: every element of block b added at its shifted position. */
  method ScanAddingBlock(e: Elements, b: Elements, r0: int, c0: int, nr: nat, nc: nat) returns (acc: Elements)
    requires WellFormed(nr, nc, b)
    ensures acc == BlockAdded(e, b, r0, c0, nr, nc)
  {
    acc := e;
    var todo := b.Keys;
    ghost var done: set<Position> := {};
    while todo != {}
      invariant todo <= b.Keys && done == b.Keys - todo
      invariant BlockAddedSoFar(acc, e, b, r0, c0, done)
      decreases |todo|
    {
      var p :| p in todo;
      BlockAddedScanStep(acc, e, b, r0, c0, done, p);
      acc := Assigned(acc, (p.0 + r0 - 1, p.1 + c0 - 1), b[p]);
      todo := todo - {p};
      done := done + {p};
    }
    BlockAddedScanned(acc, e, b, r0, c0, nr, nc);
  }

  /** The scan of extractMatrix. */
  method ScanExtracting(e: Elements, r0: int, c0: int, nr: nat, nc: nat) returns (acc: Elements)
    ensures acc == Window(e, r0, c0, nr, nc) && WellFormed(nr, nc, acc)
  {
    acc := map[];
    var todo := e.Keys;
    ghost var done: set<Position> := {};
    while todo != {}
      invariant todo <= e.Keys && done == e.Keys - todo
      invariant WindowSoFar(acc, e, r0, c0, nr, nc, done)
      decreases |todo|
    {
      var p :| p in todo;
      WindowScanStep(acc, e, r0, c0, nr, nc, done, p);
      var r2 := p.0 - r0 + 1;
      var c2 := p.1 - c0 + 1;
      if 1 <= r2 <= nr && 1 <= c2 <= nc {
        acc := Assigned(acc, (r2, c2), e[p]);
      }
      todo := todo - {p};
      done := done + {p};
    }
    WindowScanned(acc, e, r0, c0, nr, nc);
  }

  /** The scan of getTranspose. */
  method ScanTransposing(e: Elements, rows: nat, cols: nat) returns (acc: Elements)
    requires WellFormed(rows, cols, e)
    ensures acc == Transposed(e, rows, cols) && WellFormed(cols, rows, acc)
  {
    acc := map[];
    var todo := e.Keys;
    ghost var done: set<Position> := {};
    while todo != {}
      invariant todo <= e.Keys && done == e.Keys - todo
      invariant TransposedSoFar(acc, e, rows, cols, done)
      decreases |todo|
    {
      var p :| p in todo;
      TransposedScanStep(acc, e, rows, cols, done, p);
      acc := Assigned(acc, (p.1, p.0), e[p]);
      todo := todo - {p};
      done := done + {p};
    }
    TransposedScanned(acc, e, rows, cols);
  }

  /** The scan of removeRow, for a matrix of rows + 1 rows. */
  method ScanRemovingRow(e: Elements, rows: nat, cols: nat, k: int) returns (acc: Elements)
    requires WellFormed(rows + 1, cols, e) && 1 <= k <= rows + 1
    ensures acc == RowRemoved(e, rows, cols, k) && WellFormed(rows, cols, acc)
  {
    acc := map[];
    var todo := e.Keys;
    ghost var done: set<Position> := {};
    while todo != {}
      invariant todo <= e.Keys && done == e.Keys - todo
      invariant RowRemovedSoFar(acc, e, rows, cols, k, done)
      decreases |todo|
    {
      var p :| p in todo;
      RowRemovedScanStep(acc, e, rows, cols, k, done, p);
      if p.0 != k {
        acc := Assigned(acc, RowTarget(p, k), e[p]);
      }
      todo := todo - {p};
      done := done + {p};
    }
    RowRemovedScanned(acc, e, rows, cols, k);
  }

  /** The scan of removeColumn, for a matrix of cols + 1 columns. */
  method ScanRemovingColumn(e: Elements, rows: nat, cols: nat, k: int) returns (acc: Elements)
    requires WellFormed(rows, cols + 1, e) && 1 <= k <= cols + 1
    ensures acc == ColumnRemoved(e, rows, cols, k) && WellFormed(rows, cols, acc)
  {
    acc := map[];
    var todo := e.Keys;
    ghost var done: set<Position> := {};
    while todo != {}
      invariant todo <= e.Keys && done == e.Keys - todo
      invariant ColumnRemovedSoFar(acc, e, rows, cols, k, done)
      decreases |todo|
    {
      var p :| p in todo;
      ColumnRemovedScanStep(acc, e, rows, cols, k, done, p);
      if p.1 != k {
        acc := Assigned(acc, ColumnTarget(p, k), e[p]);
      }
      todo := todo - {p};
      done := done + {p};
    }
    ColumnRemovedScanned(acc, e, rows, cols, k);
  }

  /** The scan of insertRow: every element moved to its shifted row. */
  method ScanShiftingRows(e: Elements, rows: nat, cols: nat, k: int) returns (acc: Elements)
    requires WellFormed(rows, cols, e) && 1 <= k <= rows + 1
    ensures RowInsertedSoFar(acc, e, rows, cols, k, [])
  {
    acc := map[];
    var todo := e.Keys;
    ghost var done: set<Position> := {};
    while todo != {}
      invariant todo <= e.Keys && done == e.Keys - todo
      invariant RowShiftedSoFar(acc, e, rows, cols, k, done)
      decreases |todo|
    {
      var p :| p in todo;
      RowShiftedScanStep(acc, e, rows, cols, k, done, p);
      acc := Assigned(acc, RowShift(p, k), e[p]);
      todo := todo - {p};
      done := done + {p};
    }
    RowShiftedScanned(acc, e, rows, cols, k);
  }

  /** The loop of insertRow that stores the new row's non-zero entries. */
  method LoopStoringRow(shifted: Elements, e: Elements, rows: nat, cols: nat, k: int, v: seq<real>) returns (acc: Elements)
    requires 1 <= k <= rows + 1 && |v| == cols
    requires RowInsertedSoFar(shifted, e, rows, cols, k, [])
    ensures acc == RowInserted(e, rows, cols, k, v) && WellFormed(rows + 1, cols, acc)
  {
    acc := shifted;
    var i := 1;
    assert v[..0] == [];
    while i <= cols
      invariant 1 <= i <= cols + 1
      invariant RowInsertedSoFar(acc, e, rows, cols, k, v[..i - 1])
    {
      RowInsertedEntryStep(acc, e, rows, cols, k, v, i - 1);
      acc := Assigned(acc, (k, i), v[i - 1]);
      i := i + 1;
    }
    assert v[..cols] == v;
    RowInsertedScanned(acc, e, rows, cols, k, v);
  }

  /** The scan of insertColumn: every element moved to its shifted column. */
  method ScanShiftingColumns(e: Elements, rows: nat, cols: nat, k: int) returns (acc: Elements)
    requires WellFormed(rows, cols, e) && 1 <= k <= cols + 1
    ensures ColumnInsertedSoFar(acc, e, rows, cols, k, [])
  {
    acc := map[];
    var todo := e.Keys;
    ghost var done: set<Position> := {};
    while todo != {}
      invariant todo <= e.Keys && done == e.Keys - todo
      invariant ColumnShiftedSoFar(acc, e, rows, cols, k, done)
      decreases |todo|
    {
      var p :| p in todo;
      ColumnShiftedScanStep(acc, e, rows, cols, k, done, p);
      acc := Assigned(acc, ColumnShift(p, k), e[p]);
      todo := todo - {p};
      done := done + {p};
    }
    ColumnShiftedScanned(acc, e, rows, cols, k);
  }

  /** The loop of insertColumn that stores the new column's non-zero entries. */
  method LoopStoringColumn(shifted: Elements, e: Elements, rows: nat, cols: nat, k: int, v: seq<real>) returns (acc: Elements)
    requires 1 <= k <= cols + 1 && |v| == rows
    requires ColumnInsertedSoFar(shifted, e, rows, cols, k, [])
    ensures acc == ColumnInserted(e, rows, cols, k, v) && WellFormed(rows, cols + 1, acc)
  {
    acc := shifted;
    var i := 1;
    assert v[..0] == [];
    while i <= rows
      invariant 1 <= i <= rows + 1
      invariant ColumnInsertedSoFar(acc, e, rows, cols, k, v[..i - 1])
    {
      ColumnInsertedEntryStep(acc, e, rows, cols, k, v, i - 1);
      acc := Assigned(acc, (i, k), v[i - 1]);
      i := i + 1;
    }
    assert v[..rows] == v;
    ColumnInsertedScanned(acc, e, rows, cols, k, v);
  }

  // ---------------------------------------------------------------------------
  // What the operations promise, stated over the hashes.
  // ---------------------------------------------------------------------------

  /** After assignElement the value at p has grown by v and every other value is unchanged. */
  lemma AssignedValues(e: Elements, p: Position, v: real)
    ensures forall q :: Get(Assigned(e, p, v), q) == Get(e, q) + (if q == p then v else 0.0)
  {
  }

  /** After scaleMatrix every value, stored or not, is d times the old one. */
  lemma ScaledValues(e: Elements, d: real)
    ensures forall q :: Get(Scaled(e, d), q) == d * Get(e, q)
  {
  }

  /** addValueToDiagonals adds v on the first n diagonal positions and changes no other value. */
  lemma DiagonalAddedValues(e: Elements, n: nat, v: real)
    ensures forall q :: Get(DiagonalAdded(e, n, v), q) == Get(e, q) + (if q.0 == q.1 && 1 <= q.0 <= n then v else 0.0)
  {
  }

  /** insertMatrix adds the block value inside the block's window and leaves every
      element outside it, stored or not, as it was. */
  lemma BlockAddedValues(e: Elements, b: Elements, r0: int, c0: int, nr: nat, nc: nat, q: Position)
    requires WellFormed(nr, nc, b)
    ensures Get(BlockAdded(e, b, r0, c0, nr, nc), q) == Get(e, q) + BlockValue(b, r0, c0, q)
    ensures q !in Box(r0, c0, nr, nc) ==> (q in BlockAdded(e, b, r0, c0, nr, nc) <==> q in e)
  {
    if BlockValue(b, r0, c0, q) != 0.0 {
      assert BlockSource(q, r0, c0) in b;
    }
  }

  lemma NonZeroGet(e: Elements, rows: nat, cols: nat, q: Position)
    ensures Get(NonZero(e, rows, cols), q) == if InGrid(q, rows, cols) then Get(e, q) else 0.0
  {
  }

  lemma WindowGet(e: Elements, r0: int, c0: int, nr: nat, nc: nat, q: Position)
    ensures Get(Window(e, r0, c0, nr, nc), q) == if InGrid(q, nr, nc) then Get(e, WindowSource(q, r0, c0)) else 0.0
  {
  }

  lemma TransposedGet(e: Elements, rows: nat, cols: nat, q: Position)
    ensures Get(Transposed(e, rows, cols), q) == if InGrid(q, cols, rows) then Get(e, (q.1, q.0)) else 0.0
  {
  }

  lemma RowRemovedGet(e: Elements, rows: nat, cols: nat, k: int, q: Position)
    ensures Get(RowRemoved(e, rows, cols, k), q) == if InGrid(q, rows, cols) then Get(e, RowSource(q, k)) else 0.0
  {
  }

  lemma ColumnRemovedGet(e: Elements, rows: nat, cols: nat, k: int, q: Position)
    ensures Get(ColumnRemoved(e, rows, cols, k), q) == if InGrid(q, rows, cols) then Get(e, ColumnSource(q, k)) else 0.0
  {
  }

  lemma RowInsertedGet(e: Elements, rows: nat, cols: nat, k: int, v: seq<real>, q: Position)
    ensures Get(RowInserted(e, rows, cols, k, v), q) == if InGrid(q, rows + 1, cols) then RowInsertedAt(e, k, v, q) else 0.0
  {
  }

  lemma ColumnInsertedGet(e: Elements, rows: nat, cols: nat, k: int, v: seq<real>, q: Position)
    ensures Get(ColumnInserted(e, rows, cols, k, v), q) == if InGrid(q, rows, cols + 1) then ColumnInsertedAt(e, k, v, q) else 0.0
  {
  }

  lemma NonZeroNoZeros(e: Elements, rows: nat, cols: nat)
    ensures NoStoredZeros(NonZero(e, rows, cols))
  {
  }

  lemma RowRemovedNoZeros(e: Elements, rows: nat, cols: nat, k: int)
    ensures NoStoredZeros(RowRemoved(e, rows, cols, k))
  {
  }

  lemma ColumnRemovedNoZeros(e: Elements, rows: nat, cols: nat, k: int)
    ensures NoStoredZeros(ColumnRemoved(e, rows, cols, k))
  {
  }

  /** Two comprehensions that keep exactly the non-zero values are equal when their values agree. */
  lemma {:induction false} SameValuesSameHash(a: Elements, b: Elements)
    requires NoStoredZeros(a) && NoStoredZeros(b)
    requires forall q :: Get(a, q) == Get(b, q)
    ensures a == b
  {
    forall q ensures (q in a <==> q in b) && (q in a ==> a[q] == b[q]) {
      assert Get(a, q) == Get(b, q);
    }
  }

  /** Inserting a block into an empty matrix and extracting the same window gives back
      the block's non-zero elements. */
  lemma ExtractInsertedBlock(b: Elements, r0: int, c0: int, nr: nat, nc: nat)
    requires WellFormed(nr, nc, b)
    ensures Window(BlockAdded(map[], b, r0, c0, nr, nc), r0, c0, nr, nc) == NonZero(b, nr, nc)
  {
    var x := BlockAdded(map[], b, r0, c0, nr, nc);
    var w := Window(x, r0, c0, nr, nc);
    var z := NonZero(b, nr, nc);
    forall q ensures Get(w, q) == Get(z, q) {
      var s := WindowSource(q, r0, c0);
      assert BlockSource(s, r0, c0) == q;
      BlockAddedValues(map[], b, r0, c0, nr, nc, s);
      WindowGet(x, r0, c0, nr, nc, q);
      NonZeroGet(b, nr, nc, q);
    }
    SameValuesSameHash(w, z);
  }

  /** Transposing twice gives back the non-zero elements. */
  lemma TransposeTwice(e: Elements, rows: nat, cols: nat)
    ensures Transposed(Transposed(e, rows, cols), cols, rows) == NonZero(e, rows, cols)
  {
    var t := Transposed(e, rows, cols);
    var a := Transposed(t, cols, rows);
    var z := NonZero(e, rows, cols);
    forall q ensures Get(a, q) == Get(z, q) {
      TransposedGet(t, cols, rows, q);
      TransposedGet(e, rows, cols, (q.1, q.0));
      NonZeroGet(e, rows, cols, q);
    }
    SameValuesSameHash(a, z);
  }

  lemma RowInsertedKept(e: Elements, rows: nat, cols: nat, k: int, v: seq<real>, q: Position)
    requires 1 <= k <= rows + 1 && InGrid(q, rows, cols)
    ensures Get(RowInserted(e, rows, cols, k, v), RowSource(q, k)) == Get(e, q)
  {
    var src := RowSource(q, k);
    RowInsertedGet(e, rows, cols, k, v, src);
    assert InGrid(src, rows + 1, cols) && src.0 != k;
  }

  /** Removing the row just inserted at k gives back the non-zero elements. */
  lemma RemoveInsertedRow(e: Elements, rows: nat, cols: nat, k: int, v: seq<real>)
    requires 1 <= k <= rows + 1
    ensures RowRemoved(RowInserted(e, rows, cols, k, v), rows, cols, k) == NonZero(e, rows, cols)
  {
    var x := RowInserted(e, rows, cols, k, v);
    var a := RowRemoved(x, rows, cols, k);
    var z := NonZero(e, rows, cols);
    forall q ensures Get(a, q) == Get(z, q) {
      RowRemovedGet(x, rows, cols, k, q);
      NonZeroGet(e, rows, cols, q);
      if InGrid(q, rows, cols) {
        RowInsertedKept(e, rows, cols, k, v, q);
      }
    }
    RowRemovedNoZeros(x, rows, cols, k);
    NonZeroNoZeros(e, rows, cols);
    SameValuesSameHash(a, z);
  }

  /** Removing the column just inserted at k gives back the non-zero elements. */
  lemma RemoveInsertedColumn(e: Elements, rows: nat, cols: nat, k: int, v: seq<real>)
    requires 1 <= k <= cols + 1
    ensures ColumnRemoved(ColumnInserted(e, rows, cols, k, v), rows, cols, k) == NonZero(e, rows, cols)
  {
    var x := ColumnInserted(e, rows, cols, k, v);
    var a := ColumnRemoved(x, rows, cols, k);
    var z := NonZero(e, rows, cols);
    forall q ensures Get(a, q) == Get(z, q) {
      ColumnRemovedGet(x, rows, cols, k, q);
      ColumnInsertedGet(e, rows, cols, k, v, ColumnSource(q, k));
      NonZeroGet(e, rows, cols, q);
    }
    ColumnRemovedNoZeros(x, rows, cols, k);
    NonZeroNoZeros(e, rows, cols);
    SameValuesSameHash(a, z);
  }

  /** The inserted row holds v, and every other row is an old row moved past k. */
  lemma RowInsertedValues(e: Elements, rows: nat, cols: nat, k: int, v: seq<real>, q: Position)
    requires 1 <= k <= rows + 1 && |v| == cols && InGrid(q, rows + 1, cols)
    ensures q.0 == k ==> Get(RowInserted(e, rows, cols, k, v), q) == v[q.1 - 1]
    ensures q.0 != k ==> Get(RowInserted(e, rows, cols, k, v), q) == Get(e, RowShiftSource(q, k))
  {
    RowInsertedGet(e, rows, cols, k, v, q);
  }

  /** The removed row's elements are gone and every other element has moved to its target. */
  lemma RowRemovedValues(e: Elements, rows: nat, cols: nat, k: int, p: Position)
    requires 1 <= k <= rows + 1 && InGrid(p, rows + 1, cols) && p.0 != k
    ensures Get(RowRemoved(e, rows, cols, k), RowTarget(p, k)) == Get(e, p)
  {
    assert RowSource(RowTarget(p, k), k) == p;
    RowRemovedGet(e, rows, cols, k, RowTarget(p, k));
  }

  // ---------------------------------------------------------------------------
  // The matrix object.
  // ---------------------------------------------------------------------------

  /** A WnMatrix: its dimensions and its element hash. */
  class Matrix {
    var rows: nat
    var cols: nat
    var elems: Elements

    ghost predicate Valid()
      reads this
    {
      WellFormed(rows, cols, elems)
    }

    /** WnMatrix__new: an empty rows x cols matrix. */
    constructor (rows: nat, cols: nat)
      ensures Valid()
      ensures this.rows == rows && this.cols == cols && elems == map[]
    {
      this.rows := rows;
      this.cols := cols;
      elems := map[];
    }

    /** WnMatrix__getElement: the value at (r, c), 0 where nothing is stored. */
    function GetElement(r: int, c: int): (v: real)
      reads this
      requires 1 <= r <= rows && 1 <= c <= cols
      ensures (r, c) !in elems ==> v == 0.0
      ensures (r, c) in elems ==> v == elems[(r, c)]
    {
      Get(elems, (r, c))
    }

    /** WnMatrix__getNumberOfElements: the number of stored elements, zeros included. */
    function NumberOfElements(): (n: nat)
      reads this
      ensures n == |elems.Keys|
    {
      |elems|
    }

    /** WnMatrix__assignElement. */
    method AssignElement(r: int, c: int, v: real)
      requires Valid() && 1 <= r <= rows && 1 <= c <= cols
      modifies this
      ensures Valid() && rows == old(rows) && cols == old(cols)
      ensures elems == Assigned(old(elems), (r, c), v)
    {
      elems := Assigned(elems, (r, c), v);
    }

    /** WnMatrix__updateElement; it always reports success (0). */
    method UpdateElement(r: int, c: int, v: real) returns (status: int)
      requires Valid() && 1 <= r <= rows && 1 <= c <= cols
      modifies this
      ensures Valid() && rows == old(rows) && cols == old(cols)
      ensures elems == Updated(old(elems), (r, c), v)
      ensures status == 0
    {
      elems := Updated(elems, (r, c), v);
      status := 0;
    }

    /** WnMatrix__removeElement: 0 when an element was removed, -1 when none was stored. */
    method RemoveElement(r: int, c: int) returns (status: int)
      requires Valid()
      modifies this
      ensures Valid() && rows == old(rows) && cols == old(cols)
      ensures elems == old(elems) - {(r, c)}
      ensures status == (if (r, c) in old(elems) then 0 else -1)
    {
      if (r, c) in elems {
        elems := elems - {(r, c)};
        status := 0;
      } else {
        status := -1;
      }
    }

    /** WnMatrix__clear. */
    method Clear()
      requires Valid()
      modifies this
      ensures Valid() && rows == old(rows) && cols == old(cols) && elems == map[]
    {
      elems := map[];
    }

    /** WnMatrix__scaleMatrix: multiplies every stored value in place. */
    method Scale(d: real)
      requires Valid()
      modifies this
      ensures Valid() && rows == old(rows) && cols == old(cols)
      ensures elems == Scaled(old(elems), d)
    {
      elems := ScanScaling(elems, d);
    }

    /** WnMatrix__addValueToDiagonals: assigns v at (i, i) for every row i. */
    method AddValueToDiagonals(v: real)
      requires Valid() && rows <= cols
      modifies this
      ensures Valid() && rows == old(rows) && cols == old(cols)
      ensures elems == DiagonalAdded(old(elems), rows, v)
    {
      DiagonalAddedInside(elems, rows, cols, v);
      elems := LoopAddingToDiagonal(elems, rows, v);
    }

    /** WnMatrix__getDiagonalElements: the values at (i, i) for every row i. */
    method GetDiagonalElements() returns (d: seq<real>)
      requires Valid() && rows <= cols
      ensures |d| == rows
      ensures forall i | 0 <= i < rows :: d[i] == Get(elems, (i + 1, i + 1))
    {
      d := [];
      var i := 0;
      while i < rows
        invariant 0 <= i <= rows && |d| == i
        invariant forall j | 0 <= j < i :: d[j] == Get(elems, (j + 1, j + 1))
      {
        d := d + [GetElement(i + 1, i + 1)];
        i := i + 1;
      }
    }

    /** WnMatrix__insertMatrix: adds block b with its (1, 1) element at (r0, c0). */
    method InsertMatrix(b: Matrix, r0: int, c0: int)
      requires Valid() && b.Valid() && b != this
      requires 1 <= r0 <= rows && 1 <= c0 <= cols
      requires r0 + b.rows - 1 <= rows && c0 + b.cols - 1 <= cols
      modifies this
      ensures Valid() && rows == old(rows) && cols == old(cols)
      ensures elems == BlockAdded(old(elems), b.elems, r0, c0, b.rows, b.cols)
    {
      var acc := ScanAddingBlock(elems, b.elems, r0, c0, b.rows, b.cols);
      BlockAddedInside(elems, b.elems, r0, c0, b.rows, b.cols, rows, cols);
      elems := acc;
    }

    /** WnMatrix__extractMatrix: the nr x nc window whose corner is (r0, c0). */
    method ExtractMatrix(r0: int, c0: int, nr: nat, nc: nat) returns (w: Matrix)
      requires Valid()
      requires 1 <= r0 <= rows && 1 <= c0 <= cols
      requires 1 <= nr && r0 + nr - 1 <= rows && 1 <= nc && c0 + nc - 1 <= cols
      ensures fresh(w) && w.Valid() && w.rows == nr && w.cols == nc
      ensures w.elems == Window(elems, r0, c0, nr, nc)
    {
      var acc := ScanExtracting(elems, r0, c0, nr, nc);
      w := new Matrix(nr, nc);
      w.elems := acc;
    }

    /** WnMatrix__getTranspose. */
    method GetTranspose() returns (t: Matrix)
      requires Valid()
      ensures fresh(t) && t.Valid() && t.rows == cols && t.cols == rows
      ensures t.elems == Transposed(elems, rows, cols)
    {
      var acc := ScanTransposing(elems, rows, cols);
      t := new Matrix(cols, rows);
      t.elems := acc;
    }

    /** WnMatrix__getCopy: an exact copy of the hash, stored zeros included. */
    method GetCopy() returns (m: Matrix)
      requires Valid()
      ensures fresh(m) && m.Valid()
      ensures m.rows == rows && m.cols == cols && m.elems == elems
    {
      m := new Matrix(rows, cols);
      m.elems := elems;
    }

    /** WnMatrix__removeRow: drops row k and moves the rows below it up by one. */
    method RemoveRow(k: int)
      requires Valid() && 1 <= k <= rows
      modifies this
      ensures Valid() && rows == old(rows) - 1 && cols == old(cols)
      ensures elems == RowRemoved(old(elems), rows, cols, k)
    {
      var newRows: nat := rows - 1;
      elems := ScanRemovingRow(elems, newRows, cols, k);
      rows := newRows;
    }

    /** WnMatrix__removeColumn: drops column k and moves the columns right of it left by one. */
    method RemoveColumn(k: int)
      requires Valid() && 1 <= k <= cols
      modifies this
      ensures Valid() && rows == old(rows) && cols == old(cols) - 1
      ensures elems == ColumnRemoved(old(elems), rows, cols, k)
    {
      elems := ScanRemovingColumn(elems, rows, cols - 1, k);
      cols := cols - 1;
    }

    /** WnMatrix__insertRow: moves rows k.. down by one and stores the non-zero entries of v in row k. */
    method InsertRow(k: int, v: seq<real>)
      requires Valid() && 1 <= k <= rows + 1 && |v| == cols
      modifies this
      ensures Valid() && rows == old(rows) + 1 && cols == old(cols)
      ensures elems == RowInserted(old(elems), old(rows), cols, k, v)
    {
      var shifted := ScanShiftingRows(elems, rows, cols, k);
      elems := LoopStoringRow(shifted, elems, rows, cols, k, v);
      rows := rows + 1;
    }

    /** WnMatrix__insertColumn: moves columns k.. right by one and stores the non-zero entries of v in column k. */
    method InsertColumn(k: int, v: seq<real>)
      requires Valid() && 1 <= k <= cols + 1 && |v| == rows
      modifies this
      ensures Valid() && rows == old(rows) && cols == old(cols) + 1
      ensures elems == ColumnInserted(old(elems), rows, old(cols), k, v)
    {
      var shifted := ScanShiftingColumns(elems, rows, cols, k);
      elems := LoopStoringColumn(shifted, elems, rows, cols, k, v);
      cols := cols + 1;
    }
  }
}
