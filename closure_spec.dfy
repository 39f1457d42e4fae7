/**
 * What calculateTransitiveClosure prints, as values. Phase 1 lists the cells
 * of the adjacency matrix that equal 1, row by row. Each later round takes a
 * snapshot `p` of the closure table and, for u, v, w ascending, sets and
 * lists (u, w) when p[u][v] is non-zero, the matrix has the edge v -> w,
 * cell (u, w) is still zero and u != w. Rounds repeat until one lists nothing.
 *
 * Within a round, a cell (u, w) is set by the FIRST v whose snapshot cell
 * p[u][v] and matrix edge v -> w both hold: after that the cell is non-zero.
 * `FirstHit` says exactly that, which lets a round's output be written as a
 * function of the snapshot alone.
 */
module ClosureSpec {
  import opened Graph

  /** One printed "u -> w" line. */
  datatype Pair = Pair(src: int, dst: int)

  /** The matrix and the table built from it are both N×N. */
  ghost predicate Square(g: Table, p: Table)
  {
    IsMatrix(g, |g|) && IsMatrix(p, |g|)
  }

  // ------------------------------------------------------- lists of pairs

  /** Row-major order on cells. */
  ghost predicate Before(x: Pair, y: Pair)
  {
    x.src < y.src || (x.src == y.src && x.dst < y.dst)
  }

  ghost predicate InRowMajorOrder(s: seq<Pair>)
  {
    forall i, j :: 0 <= i < j < |s| ==> Before(s[i], s[j])
  }

  lemma OrderedConcat(a: seq<Pair>, b: seq<Pair>)
    requires InRowMajorOrder(a) && InRowMajorOrder(b)
    requires forall x, y :: x in a && y in b ==> Before(x, y)
    ensures InRowMajorOrder(a + b)
  {
    var c := a + b;
    forall i, j | 0 <= i < j < |c|
      ensures Before(c[i], c[j])
    {
      if j < |a| {
        assert c[i] == a[i] && c[j] == a[j];
      } else if i >= |a| {
        assert c[i] == b[i - |a|] && c[j] == b[j - |a|];
      } else {
        assert c[i] in a && c[j] in b;
      }
    }
  }

  /** The lists rows(0), .., rows(count-1), one after the other. */
  ghost function Stitch(rows: nat -> seq<Pair>, count: nat): seq<Pair>
  {
    if count == 0 then [] else Stitch(rows, count - 1) + rows(count - 1)
  }

  lemma {:induction false} StitchHas(rows: nat -> seq<Pair>, count: nat, u: nat, x: Pair)
    requires u < count && x in rows(u)
    ensures x in Stitch(rows, count)
  {
    if u < count - 1 {
      StitchHas(rows, count - 1, u, x);
    }
  }

  lemma {:induction false} StitchFrom(rows: nat -> seq<Pair>, count: nat, x: Pair) returns (u: nat)
    requires x in Stitch(rows, count)
    ensures u < count && x in rows(u)
  {
    if x in Stitch(rows, count - 1) {
      u := StitchFrom(rows, count - 1, x);
    } else {
      u := count - 1;
    }
  }

  /** Lists without repetitions, each holding only pairs of its own row, stitch
      into a list without repetitions. */
  lemma {:induction false} StitchDistinct(rows: nat -> seq<Pair>, count: nat)
    requires forall u: nat :: u < count ==> Distinct(rows(u))
    requires forall u: nat, x :: u < count && x in rows(u) ==> x.src == u
    ensures Distinct(Stitch(rows, count))
  {
    if count > 0 {
      var before, last := Stitch(rows, count - 1), rows(count - 1);
      StitchDistinct(rows, count - 1);
      forall x | x in before
        ensures x !in last
      {
        var u := StitchFrom(rows, count - 1, x);
        assert x.src == u;
      }
      DistinctConcat(before, last);
    }
  }

  /** Ordered lists, each holding only pairs of its own row, stitch into an
      ordered list. */
  lemma {:induction false} StitchOrdered(rows: nat -> seq<Pair>, count: nat)
    requires forall u: nat :: u < count ==> InRowMajorOrder(rows(u))
    requires forall u: nat, x :: u < count && x in rows(u) ==> x.src == u
    ensures InRowMajorOrder(Stitch(rows, count))
  {
    if count > 0 {
      var before, last := Stitch(rows, count - 1), rows(count - 1);
      StitchOrdered(rows, count - 1);
      forall x, y | x in before && y in last
        ensures Before(x, y)
      {
        var u := StitchFrom(rows, count - 1, x);
        assert x.src == u && y.src == count - 1;
      }
      OrderedConcat(before, last);
    }
  }

  // ---------------------------------------------------------------- phase 1

  /** The cells of row u among columns 0 .. count-1 that equal 1, in column order. */
  ghost function RowOnes(g: Table, u: nat, count: nat): seq<Pair>
    requires IsMatrix(g, |g|) && u < |g| && count <= |g|
  {
    if count == 0 then []
    else RowOnes(g, u, count - 1) + (if g[u][count - 1] == 1 then [Pair(u, count - 1)] else [])
  }

  /** Row u's ones, for every row u of the matrix. */
  ghost function OnesOf(g: Table): nat -> seq<Pair>
    requires IsMatrix(g, |g|)
  {
    (u: nat) => if u < |g| then RowOnes(g, u, |g|) else []
  }

  /** The cells of rows 0 .. count-1 that equal 1, in row-major order. */
  ghost function Ones(g: Table, count: nat): seq<Pair>
    requires IsMatrix(g, |g|)
  {
    Stitch(OnesOf(g), count)
  }

  /** Phase 1: the direct edges as printed, every cell equal to 1, row by row. */
  ghost function DirectEdges(g: Table): seq<Pair>
    requires IsMatrix(g, |g|)
  {
    Ones(g, |g|)
  }

  lemma {:induction false} RowOnesMembers(g: Table, u: nat, count: nat)
    requires IsMatrix(g, |g|) && u < |g| && count <= |g|
    ensures forall x :: x in RowOnes(g, u, count) <==> x.src == u && 0 <= x.dst < count && g[u][x.dst] == 1
  {
    if count > 0 {
      RowOnesMembers(g, u, count - 1);
    }
  }

  lemma {:induction false} RowOnesFacts(g: Table, u: nat, count: nat)
    requires IsMatrix(g, |g|) && u < |g| && count <= |g|
    ensures forall x :: x in RowOnes(g, u, count) <==> x.src == u && 0 <= x.dst < count && g[u][x.dst] == 1
    ensures InRowMajorOrder(RowOnes(g, u, count))
  {
    RowOnesMembers(g, u, count);
    if count > 0 {
      var before := RowOnes(g, u, count - 1);
      var last := if g[u][count - 1] == 1 then [Pair(u, count - 1)] else [];
      RowOnesFacts(g, u, count - 1);
      forall x, y | x in before && y in last
        ensures Before(x, y)
      {
      }
      OrderedConcat(before, last);
    }
  }

  lemma OnesFacts(g: Table, count: nat)
    requires IsMatrix(g, |g|)
    ensures forall x :: x in Ones(g, count) <==>
      0 <= x.src < count && x.src < |g| && 0 <= x.dst < |g| && g[x.src][x.dst] == 1
    ensures InRowMajorOrder(Ones(g, count))
  {
    var rows := OnesOf(g);
    forall u: nat | u < count
      ensures InRowMajorOrder(rows(u))
      ensures forall x :: x in rows(u) <==> u < |g| && x.src == u && 0 <= x.dst < |g| && g[u][x.dst] == 1
    {
      if u < |g| {
        RowOnesFacts(g, u, |g|);
      }
    }
    forall x
      ensures x in Ones(g, count) <==>
        0 <= x.src < count && x.src < |g| && 0 <= x.dst < |g| && g[x.src][x.dst] == 1
    {
      if x in Stitch(rows, count) {
        var u := StitchFrom(rows, count, x);
      }
      if 0 <= x.src < count && x in rows(x.src) {
        StitchHas(rows, count, x.src, x);
      }
    }
    StitchOrdered(rows, count);
  }

  /** Phase 1 lists exactly the cells equal to 1, in row-major order, each once. */
  lemma DirectEdgesExact(g: Table)
    requires IsMatrix(g, |g|)
    ensures forall x :: x in DirectEdges(g) <==>
      0 <= x.src < |g| && 0 <= x.dst < |g| && g[x.src][x.dst] == 1
    ensures InRowMajorOrder(DirectEdges(g))
    ensures Distinct(DirectEdges(g))
  {
    OnesFacts(g, |g|);
  }

  // ---------------------------------------------------------- one round

  /** The snapshot cell (u, v) is set and the matrix has the edge v -> w. */
  ghost predicate Hit(g: Table, p: Table, u: int, v: int, w: int)
  {
    0 <= u < |p| && 0 <= v < |p[u]| && p[u][v] != 0 && Edge(g, v, w)
  }

  /** Some v among 0 .. count-1 hits (u, w). */
  ghost predicate HitBelow(g: Table, p: Table, u: int, count: nat, w: int)
  {
    count > 0 && (HitBelow(g, p, u, count - 1, w) || Hit(g, p, u, count - 1, w))
  }

  /** Cell (u, w) may still be set: it is zero and off the diagonal. */
  ghost predicate Open(p: Table, u: int, w: int)
  {
    0 <= u < |p| && 0 <= w < |p[u]| && p[u][w] == 0 && u != w
  }

  /** v is the first intermediate node that sets the open cell (u, w). */
  ghost predicate FirstHit(g: Table, p: Table, u: int, v: nat, w: int)
  {
    Hit(g, p, u, v, w) && Open(p, u, w) && !HitBelow(g, p, u, v, w)
  }

  /** Cell (u, w) of the round's table once v = 0 .. count-1 have been tried. */
  ghost function CellAfter(g: Table, p: Table, u: nat, count: nat, w: nat): int
    requires Square(g, p) && u < |g| && w < |g|
  {
    if Open(p, u, w) && HitBelow(g, p, u, count, w) then 1 else p[u][w]
  }

  /** The table at the end of a round that starts from snapshot p. */
  ghost function NextTable(g: Table, p: Table): (q: Table)
    requires Square(g, p)
    ensures IsMatrix(q, |g|)
    ensures forall u, w :: 0 <= u < |g| && 0 <= w < |g| ==> q[u][w] == CellAfter(g, p, u, |g|, w)
  {
    seq(|g|, u requires 0 <= u < |g| =>
      seq(|g|, w requires 0 <= w < |g| => CellAfter(g, p, u, |g|, w)))
  }

  /** What the round lists for fixed u and v, over w = 0 .. count-1. */
  ghost function CellEmits(g: Table, p: Table, u: nat, v: nat, count: nat): seq<Pair>
  {
    if count == 0 then []
    else CellEmits(g, p, u, v, count - 1) + (if FirstHit(g, p, u, v, count - 1) then [Pair(u, count - 1)] else [])
  }

  /** What the round lists for row u, over v = 0 .. count-1. */
  ghost function RowEmits(g: Table, p: Table, u: nat, count: nat): seq<Pair>
  {
    if count == 0 then [] else RowEmits(g, p, u, count - 1) + CellEmits(g, p, u, count - 1, |g|)
  }

  /** Row u's list of a round on snapshot p, for every u. */
  ghost function RowsOf(g: Table, p: Table): nat -> seq<Pair>
  {
    (u: nat) => RowEmits(g, p, u, |g|)
  }

  /** What the round lists for rows u = 0 .. count-1. */
  ghost function RoundEmits(g: Table, p: Table, count: nat): seq<Pair>
  {
    Stitch(RowsOf(g, p), count)
  }

  /** The whole output of one round on snapshot p. */
  ghost function Round(g: Table, p: Table): seq<Pair>
  {
    RoundEmits(g, p, |g|)
  }

  lemma {:induction false} HitBelowFrom(g: Table, p: Table, u: int, v: nat, count: nat, w: int)
    requires Hit(g, p, u, v, w) && v < count
    ensures HitBelow(g, p, u, count, w)
  {
    if v < count - 1 {
      HitBelowFrom(g, p, u, v, count - 1, w);
    }
  }

  /** Some v hits (u, w): the first such v has no hit below it. */
  lemma {:induction false} FirstHitOf(g: Table, p: Table, u: int, count: nat, w: int) returns (v: nat)
    requires HitBelow(g, p, u, count, w)
    ensures v < count && Hit(g, p, u, v, w) && !HitBelow(g, p, u, v, w)
  {
    if HitBelow(g, p, u, count - 1, w) {
      v := FirstHitOf(g, p, u, count - 1, w);
    } else {
      v := count - 1;
    }
  }

  lemma {:induction false} CellEmitsFacts(g: Table, p: Table, u: nat, v: nat, count: nat)
    ensures forall x :: x in CellEmits(g, p, u, v, count) <==>
      x.src == u && 0 <= x.dst < count && FirstHit(g, p, u, v, x.dst)
    ensures Distinct(CellEmits(g, p, u, v, count))
  {
    if count > 0 {
      CellEmitsFacts(g, p, u, v, count - 1);
      var tail := if FirstHit(g, p, u, v, count - 1) then [Pair(u, count - 1)] else [];
      DistinctConcat(CellEmits(g, p, u, v, count - 1), tail);
    }
  }

  /** Row u of a round lists each open cell (u, w) that some v < count hits, once. */
  lemma {:induction false} RowEmitsFacts(g: Table, p: Table, u: nat, count: nat)
    requires Square(g, p) && u < |g|
    ensures forall x :: x in RowEmits(g, p, u, count) <==>
      x.src == u && 0 <= x.dst < |g| && Open(p, u, x.dst) && HitBelow(g, p, u, count, x.dst)
    ensures Distinct(RowEmits(g, p, u, count))
  {
    if count > 0 {
      RowEmitsFacts(g, p, u, count - 1);
      CellEmitsFacts(g, p, u, count - 1, |g|);
      DistinctConcat(RowEmits(g, p, u, count - 1), CellEmits(g, p, u, count - 1, |g|));
    }
  }

  /** Rows 0 .. count-1 of a round list each open cell (u, w) that some v hits, once. */
  lemma RoundEmitsFacts(g: Table, p: Table, count: nat)
    requires Square(g, p) && count <= |g|
    ensures forall x :: x in RoundEmits(g, p, count) <==>
      0 <= x.src < count && 0 <= x.dst < |g| && Open(p, x.src, x.dst) && HitBelow(g, p, x.src, |g|, x.dst)
    ensures Distinct(RoundEmits(g, p, count))
  {
    var rows := RowsOf(g, p);
    forall u: nat | u < count
      ensures Distinct(rows(u))
      ensures forall x :: x in rows(u) <==>
        x.src == u && 0 <= x.dst < |g| && Open(p, u, x.dst) && HitBelow(g, p, u, |g|, x.dst)
    {
      RowEmitsFacts(g, p, u, |g|);
    }
    forall x
      ensures x in RoundEmits(g, p, count) <==>
        0 <= x.src < count && 0 <= x.dst < |g| && Open(p, x.src, x.dst) && HitBelow(g, p, x.src, |g|, x.dst)
    {
      if x in Stitch(rows, count) {
        var u := StitchFrom(rows, count, x);
      }
      if 0 <= x.src < count && x in rows(x.src) {
        StitchHas(rows, count, x.src, x);
      }
    }
    StitchDistinct(rows, count);
  }

  /** Pairs listed with their rows never decreasing. */
  ghost predicate BySource(s: seq<Pair>)
  {
    forall i, j :: 0 <= i < j < |s| ==> s[i].src <= s[j].src
  }

  /** Lists holding only pairs of their own row stitch into a list by row. */
  lemma {:induction false} StitchBySource(rows: nat -> seq<Pair>, count: nat)
    requires forall u: nat, x :: u < count && x in rows(u) ==> x.src == u
    ensures BySource(Stitch(rows, count))
  {
    if count > 0 {
      var before, last := Stitch(rows, count - 1), rows(count - 1);
      StitchBySource(rows, count - 1);
      var c := before + last;
      forall i, j | 0 <= i < j < |c|
        ensures c[i].src <= c[j].src
      {
        if j < |before| {
          assert c[i] == before[i] && c[j] == before[j];
        } else {
          assert c[j] in last;
          if i < |before| {
            var u := StitchFrom(rows, count - 1, before[i]);
            assert c[i] == before[i];
          } else {
            assert c[i] in last;
          }
        }
      }
    }
  }

  /** Stitching more lists only adds to the end. */
  lemma {:induction false} StitchPrefix(rows: nat -> seq<Pair>, a: nat, b: nat)
    requires a <= b
    ensures |Stitch(rows, a)| <= |Stitch(rows, b)|
    ensures Stitch(rows, b)[..|Stitch(rows, a)|] == Stitch(rows, a)
  {
    if a < b {
      StitchPrefix(rows, a, b - 1);
      assert Stitch(rows, b) == Stitch(rows, b - 1) + rows(b - 1);
    }
  }

  /** A pivot's w loop lists its cells in ascending column order. */
  lemma {:induction false} CellEmitsOrdered(g: Table, p: Table, u: nat, v: nat, count: nat)
    ensures InRowMajorOrder(CellEmits(g, p, u, v, count))
  {
    if count > 0 {
      var before := CellEmits(g, p, u, v, count - 1);
      var last := if FirstHit(g, p, u, v, count - 1) then [Pair(u, count - 1)] else [];
      CellEmitsOrdered(g, p, u, v, count - 1);
      CellEmitsFacts(g, p, u, v, count - 1);
      forall x, y | x in before && y in last
        ensures Before(x, y)
      {
      }
      OrderedConcat(before, last);
    }
  }

  /**
   * The order of a round's output: rows in ascending order, and within a
   * row the pivots v in ascending order, each listing its cells by column.
   */
  lemma RoundOrder(g: Table, p: Table)
    requires Square(g, p)
    ensures BySource(Round(g, p))
    ensures forall u, v :: 0 <= u < |g| && 0 <= v < |g| ==> InRowMajorOrder(CellEmits(g, p, u, v, |g|))
  {
    var rows := RowsOf(g, p);
    forall u: nat, x | u < |g| && x in rows(u)
      ensures x.src == u
    {
      RowEmitsFacts(g, p, u, |g|);
    }
    StitchBySource(rows, |g|);
    forall u, v | 0 <= u < |g| && 0 <= v < |g|
      ensures InRowMajorOrder(CellEmits(g, p, u, v, |g|))
    {
      CellEmitsOrdered(g, p, u, v, |g|);
    }
  }

  /** Row u's output is one block of the round's output, after the blocks of rows 0 .. u-1. */
  lemma RoundRow(g: Table, p: Table, u: nat)
    requires u < |g|
    ensures |RoundEmits(g, p, u)| <= |RoundEmits(g, p, u + 1)| <= |Round(g, p)|
    ensures Round(g, p)[..|RoundEmits(g, p, u)|] == RoundEmits(g, p, u)
    ensures Round(g, p)[|RoundEmits(g, p, u)|..|RoundEmits(g, p, u + 1)|] == RowEmits(g, p, u, |g|)
  {
    var rows := RowsOf(g, p);
    StitchPrefix(rows, u, |g|);
    StitchPrefix(rows, u + 1, |g|);
    var upto := RoundEmits(g, p, u + 1);
    assert upto == RoundEmits(g, p, u) + RowEmits(g, p, u, |g|);
    assert Round(g, p)[..|upto|] == upto;
  }

  /**
   * A round lists exactly the cells it changes, each once: the cells the
   * snapshot has at zero and the round's table has at non-zero. Every other
   * cell keeps its value; a changed cell is off the diagonal and becomes 1.
   */
  lemma RoundExact(g: Table, p: Table)
    requires Square(g, p)
    ensures forall x :: x in Round(g, p) <==>
      0 <= x.src < |g| && 0 <= x.dst < |g| && p[x.src][x.dst] == 0 && NextTable(g, p)[x.src][x.dst] != 0
    ensures forall u, w :: 0 <= u < |g| && 0 <= w < |g| ==>
      NextTable(g, p)[u][w] == p[u][w] || (Open(p, u, w) && NextTable(g, p)[u][w] == 1)
    ensures Distinct(Round(g, p))
  {
    RoundEmitsFacts(g, p, |g|);
  }

  /** A round that lists nothing leaves the table as it was. */
  lemma QuietRound(g: Table, p: Table)
    requires Square(g, p) && Round(g, p) == []
    ensures NextTable(g, p) == p
  {
    RoundExact(g, p);
    var q := NextTable(g, p);
    forall u | 0 <= u < |g|
      ensures q[u] == p[u]
    {
      forall w | 0 <= w < |g|
        ensures q[u][w] == p[u][w]
      {
        assert Pair(u, w) !in Round(g, p);
      }
    }
  }

  /** The zero cells of a table: the measure that every round shrinks. */
  ghost function ZeroCells(p: Table): set<Pair>
  {
    set u, w | 0 <= u < |p| && 0 <= w < |p[u]| && p[u][w] == 0 :: Pair(u, w)
  }

  /** A round that lists something turns at least one zero cell into 1 and
      turns no non-zero cell into zero. */
  lemma RoundShrinks(g: Table, p: Table)
    requires Square(g, p) && Round(g, p) != []
    ensures ZeroCells(NextTable(g, p)) < ZeroCells(p)
  {
    RoundExact(g, p);
    var q := NextTable(g, p);
    var x := Round(g, p)[0];
    assert x in Round(g, p);
    assert x in ZeroCells(p) && x !in ZeroCells(q);
  }

  // ---------------------------------------------------------- all rounds

  /** Phase 2: the rounds' outputs, one after the other, until a round lists nothing. */
  ghost function Expansion(g: Table, p: Table): seq<Pair>
    requires Square(g, p)
    decreases ZeroCells(p)
  {
    if Round(g, p) == [] then []
    else
      RoundShrinks(g, p);
      Round(g, p) + Expansion(g, NextTable(g, p))
  }

  /** The closure table when the rounds stop. */
  ghost function FinalTable(g: Table, p: Table): (t: Table)
    requires Square(g, p)
    ensures IsMatrix(t, |g|)
    decreases ZeroCells(p)
  {
    if Round(g, p) == [] then p
    else
      RoundShrinks(g, p);
      FinalTable(g, NextTable(g, p))
  }

  /** Every line calculateTransitiveClosure prints, in order. */
  ghost function ClosureOutput(g: Table): seq<Pair>
    requires IsMatrix(g, |g|)
  {
    DirectEdges(g) + Expansion(g, g)
  }

  /** The final table keeps every cell of p, except open cells that became 1. */
  lemma {:induction false} FinalGrows(g: Table, p: Table)
    requires Square(g, p)
    ensures forall u, w :: 0 <= u < |g| && 0 <= w < |g| ==>
      FinalTable(g, p)[u][w] == p[u][w] || (Open(p, u, w) && FinalTable(g, p)[u][w] == 1)
    decreases ZeroCells(p)
  {
    if Round(g, p) != [] {
      RoundShrinks(g, p);
      RoundExact(g, p);
      FinalGrows(g, NextTable(g, p));
    }
  }

  /** Phase 2 lists exactly the cells that were zero in p and are set at the end, each once. */
  lemma {:induction false} ExpansionExact(g: Table, p: Table)
    requires Square(g, p)
    ensures forall x :: x in Expansion(g, p) <==>
      0 <= x.src < |g| && 0 <= x.dst < |g| && p[x.src][x.dst] == 0 && FinalTable(g, p)[x.src][x.dst] != 0
    ensures Distinct(Expansion(g, p))
    decreases ZeroCells(p)
  {
    if Round(g, p) != [] {
      RoundShrinks(g, p);
      RoundExact(g, p);
      var q := NextTable(g, p);
      ExpansionExact(g, q);
      FinalGrows(g, q);
      DistinctConcat(Round(g, p), Expansion(g, q));
    }
  }

  /** When the rounds stop, the table is closed under following an edge off the diagonal. */
  lemma {:induction false} FinalClosed(g: Table, p: Table)
    requires Square(g, p)
    ensures ClosedUnderEdges(g, FinalTable(g, p))
    decreases ZeroCells(p)
  {
    if Round(g, p) != [] {
      RoundShrinks(g, p);
      FinalClosed(g, NextTable(g, p));
    } else {
      RoundEmitsFacts(g, p, |g|);
      forall a, v, b | 0 <= a < |g| && Edge(g, v, b) && p[a][v] != 0 && a != b
        ensures p[a][b] != 0
      {
        HitBelowFrom(g, p, a, v, |g|, b);
        assert Pair(a, b) !in Round(g, p);
      }
    }
  }

  /** Every set cell of t is a pair joined by one or more edges. */
  ghost predicate Sound(g: Table, t: Table)
    requires IsMatrix(t, |g|)
  {
    forall u, w :: 0 <= u < |g| && 0 <= w < |g| && t[u][w] != 0 ==> ReachablePlus(g, u, w)
  }

  lemma RoundSound(g: Table, p: Table)
    requires Square(g, p) && Sound(g, p)
    ensures Sound(g, NextTable(g, p))
  {
    var q := NextTable(g, p);
    forall u, w | 0 <= u < |g| && 0 <= w < |g| && q[u][w] != 0
      ensures ReachablePlus(g, u, w)
    {
      if Open(p, u, w) && HitBelow(g, p, u, |g|, w) {
        var v := FirstHitOf(g, p, u, |g|, w);
        ReachablePlusThenEdge(g, u, v, w);
      }
    }
  }

  lemma {:induction false} FinalSound(g: Table, p: Table)
    requires Square(g, p) && Sound(g, p)
    ensures Sound(g, FinalTable(g, p))
    decreases ZeroCells(p)
  {
    if Round(g, p) != [] {
      RoundShrinks(g, p);
      RoundSound(g, p);
      FinalSound(g, NextTable(g, p));
    }
  }

  /**
   * The table the rounds reach from the matrix itself: cell (u, w) is set
   * exactly when the matrix cell is, or when u != w and w is reachable from
   * u by one or more edges. The diagonal keeps the matrix's own cells.
   */
  lemma FinalTableExact(g: Table)
    requires IsMatrix(g, |g|)
    ensures forall u, w :: 0 <= u < |g| && 0 <= w < |g| ==>
      (FinalTable(g, g)[u][w] != 0 <==> g[u][w] != 0 || (u != w && ReachablePlus(g, u, w)))
    ensures forall u :: 0 <= u < |g| ==> FinalTable(g, g)[u][u] == g[u][u]
  {
    var t := FinalTable(g, g);
    FinalGrows(g, g);
    FinalClosed(g, g);
    forall u, w | 0 <= u < |g| && 0 <= w < |g| && g[u][w] != 0
      ensures ReachablePlus(g, u, w)
    {
      EdgeIsReachablePlus(g, u, w);
    }
    FinalSound(g, g);
    assert HoldsEdges(g, t);
    forall u, w | 0 <= u < |g| && 0 <= w < |g| && u != w && ReachablePlus(g, u, w)
      ensures t[u][w] != 0
    {
      ClosedCoversReachable(g, t, u, w);
    }
  }

  /**
   * The closure's output. A pair is printed exactly when its matrix cell is 1
   * (phase 1), or its cell is 0, u != w and w is reachable from u (phase 2).
   * No pair is printed twice; phase 1 comes first, in row-major order.
   */
  lemma ClosureOutputExact(g: Table)
    requires IsMatrix(g, |g|)
    ensures forall x :: x in ClosureOutput(g) <==>
      && 0 <= x.src < |g| && 0 <= x.dst < |g|
      && (g[x.src][x.dst] == 1 || (g[x.src][x.dst] == 0 && x.src != x.dst && ReachablePlus(g, x.src, x.dst)))
    ensures Distinct(ClosureOutput(g))
    ensures ClosureOutput(g)[..|DirectEdges(g)|] == DirectEdges(g)
  {
    DirectEdgesExact(g);
    ExpansionExact(g, g);
    FinalTableExact(g);
    DistinctConcat(DirectEdges(g), Expansion(g, g));
  }
}
