/**
 * calculateTransitiveClosure over arrays, proved against the value-level
 * description of its output. The closure table starts as a copy of the
 * matrix; phase 1 lists its cells equal to 1; then, round after round, the
 * table is copied into `previous` and the triple loop over u, v, w sets and
 * lists the cells it reaches, until a round sets nothing. Instead of writing
 * "u -> w" lines, the operations return the pairs in the order they would
 * be printed.
 */
module Closure {
  import opened Graph
  import opened MatrixStore
  import opened ClosureSpec

  /** Array a holds table t, cell by cell. */
  ghost predicate Mirrors(a: array2<int>, t: Table)
    reads a
  {
    a.Length0 == a.Length1 == |t| && IsMatrix(t, |t|) &&
    forall i, j :: 0 <= i < |t| && 0 <= j < |t| ==> a[i, j] == t[i][j]
  }

  lemma MirrorsSnapshot(a: array2<int>)
    requires a.Length0 == a.Length1
    ensures Mirrors(a, Snapshot(a))
  {
  }

  /** Phase 1: the cells of the table equal to 1, row by row. */
  method EmitDirect(t: array2<int>) returns (out: seq<Pair>)
    requires t.Length0 == t.Length1
    ensures out == DirectEdges(Snapshot(t))
  {
    ghost var g := Snapshot(t);
    out := [];
    for u := 0 to t.Length0
      invariant out == Ones(g, u)
    {
      for w := 0 to t.Length1
        invariant out == Ones(g, u) + RowOnes(g, u, w)
      {
        if t[u, w] == 1 {
          out := out + [Pair(u, w)];
        }
      }
    }
  }

  /** Trying v for cell (u, w): the loop's test picks out exactly the first
      hit, and after it the cell holds what trying v + 1 leaves there. */
  lemma CellStep(g: Table, p: Table, u: nat, v: nat, w: nat)
    requires Square(g, p) && u < |g| && v < |g| && w < |g| && p[u][v] != 0
    ensures (g[v][w] != 0 && CellAfter(g, p, u, v, w) == 0 && u != w) <==> FirstHit(g, p, u, v, w)
    ensures CellAfter(g, p, u, v + 1, w) == if FirstHit(g, p, u, v, w) then 1 else CellAfter(g, p, u, v, w)
  {
  }

  /** A pivot v with a zero snapshot cell (u, v) lists nothing in row u. */
  lemma {:induction false} SkipEmits(g: Table, p: Table, u: nat, v: nat, count: nat)
    requires Square(g, p) && u < |g| && v < |g| && p[u][v] == 0
    ensures CellEmits(g, p, u, v, count) == []
  {
    if count > 0 {
      SkipEmits(g, p, u, v, count - 1);
    }
  }

  /** ... and changes no cell of it. */
  lemma SkipCells(g: Table, p: Table, u: nat, v: nat, w: nat)
    requires Square(g, p) && u < |g| && v < |g| && w < |g| && p[u][v] == 0
    ensures CellAfter(g, p, u, v + 1, w) == CellAfter(g, p, u, v, w)
  {
  }

  /** Before any pivot is tried, a cell holds its snapshot value. */
  lemma RowStart(g: Table, p: Table, u: nat, w: nat)
    requires Square(g, p) && u < |g| && w < |g|
    ensures CellAfter(g, p, u, 0, w) == p[u][w]
  {
  }

  /**
   * The innermost loop, over w, for row u and a pivot v with previous[u][v]
   * non-zero: set (u, w) when the matrix has v -> w, the table's cell is
   * still zero and u != w; each cell set is listed and raises `repeat`.
   * Row u goes from the cells left by pivots below v to those left by
   * pivots up to v; other rows are untouched.
   */
  method ThroughPivot(m: array2<int>, previous: array2<int>, tc: array2<int>, u: nat, v: nat,
                      repeat: bool, ghost g: Table, ghost p: Table)
    returns (emitted: seq<Pair>, repeat': bool)
    requires m.Length0 == m.Length1 == tc.Length0 == tc.Length1 == previous.Length0 == previous.Length1
    requires tc != m && tc != previous
    requires Mirrors(m, g) && Mirrors(previous, p) && Square(g, p)
    requires u < |g| && v < |g| && previous[u, v] != 0
    requires forall b :: 0 <= b < |g| ==> tc[u, b] == CellAfter(g, p, u, v, b)
    modifies tc
    ensures emitted == CellEmits(g, p, u, v, |g|)
    ensures repeat' <==> repeat || emitted != []
    ensures forall b :: 0 <= b < |g| ==> tc[u, b] == CellAfter(g, p, u, v + 1, b)
    ensures forall a, b :: 0 <= a < |g| && 0 <= b < |g| && a != u ==> tc[a, b] == old(tc[a, b])
  {
    emitted := [];
    repeat' := repeat;
    for w := 0 to m.Length0
      invariant emitted == CellEmits(g, p, u, v, w)
      invariant repeat' <==> repeat || emitted != []
      invariant forall b :: 0 <= b < |g| ==>
        tc[u, b] == if b < w then CellAfter(g, p, u, v + 1, b) else CellAfter(g, p, u, v, b)
      invariant forall a, b :: 0 <= a < |g| && 0 <= b < |g| && a != u ==> tc[a, b] == old(tc[a, b])
    {
      CellStep(g, p, u, v, w);
      if m[v, w] != 0 && tc[u, w] == 0 && u != w {
        tc[u, w] := 1;
        repeat' := true;
        emitted := emitted + [Pair(u, w)];
      }
    }
  }

  /**
   * The loops over v and w for one row u: row u goes from its snapshot
   * values to its values in the next table, listing what it sets.
   */
  method ExpandRow(m: array2<int>, previous: array2<int>, tc: array2<int>, u: nat,
                   repeat: bool, ghost g: Table, ghost p: Table)
    returns (emitted: seq<Pair>, repeat': bool)
    requires m.Length0 == m.Length1 == tc.Length0 == tc.Length1 == previous.Length0 == previous.Length1
    requires tc != m && tc != previous
    requires Mirrors(m, g) && Mirrors(previous, p) && Square(g, p) && u < |g|
    requires forall b :: 0 <= b < |g| ==> tc[u, b] == p[u][b]
    modifies tc
    ensures emitted == RowEmits(g, p, u, |g|)
    ensures repeat' <==> repeat || emitted != []
    ensures forall b :: 0 <= b < |g| ==> tc[u, b] == CellAfter(g, p, u, |g|, b)
    ensures forall a, b :: 0 <= a < |g| && 0 <= b < |g| && a != u ==> tc[a, b] == old(tc[a, b])
  {
    emitted := [];
    repeat' := repeat;
    forall b | 0 <= b < |g|
      ensures tc[u, b] == CellAfter(g, p, u, 0, b)
    {
      RowStart(g, p, u, b);
    }
    for v := 0 to m.Length0
      invariant emitted == RowEmits(g, p, u, v)
      invariant repeat' <==> repeat || emitted != []
      invariant forall b :: 0 <= b < |g| ==> tc[u, b] == CellAfter(g, p, u, v, b)
      invariant forall a, b :: 0 <= a < |g| && 0 <= b < |g| && a != u ==> tc[a, b] == old(tc[a, b])
    {
      if previous[u, v] != 0 {
        var more;
        more, repeat' := ThroughPivot(m, previous, tc, u, v, repeat', g, p);
        emitted := emitted + more;
      } else {
        SkipEmits(g, p, u, v, |g|);
        forall b | 0 <= b < |g|
          ensures CellAfter(g, p, u, v + 1, b) == CellAfter(g, p, u, v, b)
        {
          SkipCells(g, p, u, v, b);
        }
      }
    }
  }

  /** Row u's output follows that of the rows above it. */
  lemma RoundStep(g: Table, p: Table, u: nat)
    ensures RoundEmits(g, p, u + 1) == RoundEmits(g, p, u) + RowEmits(g, p, u, |g|)
  {
  }

  /**
   * The loops over u, v and w of one round, on the snapshot `previous` of
   * the table: every row goes from its snapshot values to its values in the
   * next table, and `emitted` lists the cells set, in the order set.
   */
  method ExpandRows(m: array2<int>, previous: array2<int>, tc: array2<int>, ghost g: Table, ghost p: Table)
    returns (emitted: seq<Pair>, repeat: bool)
    requires m.Length0 == m.Length1
    requires previous.Length0 == previous.Length1 == tc.Length0 == tc.Length1 == m.Length0
    requires tc != previous && tc != m
    requires Mirrors(m, g) && Mirrors(previous, p) && Square(g, p)
    requires forall a, b :: 0 <= a < |g| && 0 <= b < |g| ==> tc[a, b] == p[a][b]
    modifies tc
    ensures forall a, b :: 0 <= a < |g| && 0 <= b < |g| ==> tc[a, b] == CellAfter(g, p, a, |g|, b)
    ensures emitted == Round(g, p)
    ensures repeat <==> emitted != []
  {
    var n := m.Length0;
    repeat := false;
    emitted := [];
    for u := 0 to n
      invariant emitted == RoundEmits(g, p, u)
      invariant repeat <==> emitted != []
      invariant forall a, b :: 0 <= a < u && 0 <= b < n ==> tc[a, b] == CellAfter(g, p, a, n, b)
      invariant forall a, b :: u <= a < n && 0 <= b < n ==> tc[a, b] == p[a][b]
    {
      var more;
      more, repeat := ExpandRow(m, previous, tc, u, repeat, g, p);
      RoundStep(g, p, u);
      emitted := emitted + more;
    }
  }

  /**
   * One pass of the `while (repeat)` loop: lower the flag, copy the table
   * into `previous`, then run the loops over u, v and w. The table ends as
   * the round's next table, `emitted` holds the pairs printed, and
   * `repeat` is raised exactly when something was printed.
   */
  method ExpandRound(m: array2<int>, previous: array2<int>, tc: array2<int>, ghost g: Table, ghost p: Table)
    returns (emitted: seq<Pair>, repeat: bool)
    requires m.Length0 == m.Length1
    requires previous.Length0 == previous.Length1 == tc.Length0 == tc.Length1 == m.Length0
    requires previous != tc && previous != m && tc != m
    requires g == Snapshot(m) && p == Snapshot(tc)
    modifies previous, tc
    ensures Snapshot(tc) == NextTable(g, p)
    ensures Snapshot(previous) == p
    ensures emitted == Round(g, p)
    ensures repeat <==> emitted != []
  {
    CopyTable(tc, previous);
    MirrorsSnapshot(m);
    MirrorsSnapshot(previous);
    emitted, repeat := ExpandRows(m, previous, tc, g, p);
    SnapshotIs(tc, NextTable(g, p));
  }

  /**
   * calculateTransitiveClosure: returns the pairs in the order they are
   * printed, and, as a ghost, the closure table at the end. The matrix is
   * only read.
   */
  method CalculateTransitiveClosure(m: array2<int>) returns (out: seq<Pair>, ghost closure: Table)
    requires m.Length0 == m.Length1
    ensures out == ClosureOutput(Snapshot(m))
    ensures closure == FinalTable(Snapshot(m), Snapshot(m))
  {
    var n := m.Length0;
    ghost var g := Snapshot(m);
    var tc := CreateMatrix(n);
    CopyTable(m, tc);
    out := EmitDirect(tc);
    var previous := CreateMatrix(n);
    var repeat := true;
    while repeat
      invariant fresh(tc) && fresh(previous) && tc != previous
      invariant tc.Length0 == tc.Length1 == previous.Length0 == previous.Length1 == n
      invariant Snapshot(m) == g && Square(g, Snapshot(tc))
      invariant repeat ==> out + Expansion(g, Snapshot(tc)) == ClosureOutput(g)
      invariant repeat ==> FinalTable(g, Snapshot(tc)) == FinalTable(g, g)
      invariant !repeat ==> out == ClosureOutput(g) && Snapshot(tc) == FinalTable(g, g)
      decreases repeat, ZeroCells(Snapshot(tc))
    {
      ghost var p := Snapshot(tc);
      ghost var earlier := out;
      var emitted;
      emitted, repeat := ExpandRound(m, previous, tc, g, p);
      out := out + emitted;
      if repeat {
        RoundShrinks(g, p);
        assert earlier + Expansion(g, p) == earlier + (emitted + Expansion(g, Snapshot(tc)));
      } else {
        QuietRound(g, p);
      }
    }
    closure := Snapshot(tc);
  }
}
