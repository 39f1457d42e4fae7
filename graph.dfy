/**
 * Directed graphs given as dense adjacency tables, and the notions of walk,
 * route and reachability that the path search and the transitive closure are
 * proved against. A node is an index in [0, N); a cell counts as an edge when
 * it is non-zero, the way a C truth test reads an `int`.
 */
module Graph {

  /** An N×N table of C ints, row by row. */
  type Table = seq<seq<int>>

  ghost predicate IsMatrix(t: Table, n: nat)
  {
    |t| == n && forall i :: 0 <= i < n ==> |t[i]| == n
  }

  /** There is a direct edge a -> b. */
  ghost predicate Edge(g: Table, a: int, b: int)
  {
    0 <= a < |g| && 0 <= b < |g| && b < |g[a]| && g[a][b] != 0
  }

  /** A non-empty sequence of nodes, each joined to the next by an edge. */
  ghost predicate Walk(g: Table, p: seq<int>)
  {
    && |p| > 0
    && (forall k :: 0 <= k < |p| ==> 0 <= p[k] < |g|)
    && (forall k :: 0 <= k < |p| - 1 ==> Edge(g, p[k], p[k + 1]))
  }

  /** A walk from s to d. */
  ghost predicate Route(g: Table, p: seq<int>, s: int, d: int)
  {
    Walk(g, p) && p[0] == s && p[|p| - 1] == d
  }

  ghost predicate Distinct<T>(s: seq<T>)
  {
    forall i, j :: 0 <= i < j < |s| ==> s[i] != s[j]
  }

  /** A route that visits no node twice. */
  ghost predicate SimpleRoute(g: Table, p: seq<int>, s: int, d: int)
  {
    Route(g, p, s, d) && Distinct(p)
  }

  /** d can be reached from s by zero or more edges. */
  ghost predicate Reachable(g: Table, s: int, d: int)
  {
    exists p :: Route(g, p, s, d)
  }

  /** d can be reached from s by one or more edges. */
  ghost predicate ReachablePlus(g: Table, s: int, d: int)
  {
    exists p :: Route(g, p, s, d) && |p| >= 2
  }

  /** The nodes 0 .. n-1. */
  ghost function Nodes(n: nat): set<int>
  {
    if n == 0 then {} else Nodes(n - 1) + {n - 1}
  }

  lemma {:induction false} NodesCount(n: nat)
    ensures |Nodes(n)| == n
    ensures forall x :: x in Nodes(n) <==> 0 <= x < n
  {
    if n > 0 {
      NodesCount(n - 1);
    }
  }

  /** A sequence without repetitions drawn from u is no longer than u is large. */
  lemma {:induction false} DistinctWithin<T>(s: seq<T>, u: set<T>)
    requires Distinct(s)
    requires forall k :: 0 <= k < |s| ==> s[k] in u
    ensures |s| <= |u|
  {
    if |s| > 0 {
      var rest := s[1..];
      forall k | 0 <= k < |rest|
        ensures rest[k] in u - {s[0]}
      {
        assert rest[k] == s[k + 1];
      }
      assert Distinct(rest) by {
        forall i, j | 0 <= i < j < |rest|
          ensures rest[i] != rest[j]
        {
          assert rest[i] == s[i + 1] && rest[j] == s[j + 1];
        }
      }
      DistinctWithin(rest, u - {s[0]});
    }
  }

  lemma DistinctConcat<T>(a: seq<T>, b: seq<T>)
    requires Distinct(a) && Distinct(b)
    requires forall x :: x in a ==> x !in b
    ensures Distinct(a + b)
  {
    var c := a + b;
    forall i, j | 0 <= i < j < |c|
      ensures c[i] != c[j]
    {
      if i < |a| && j >= |a| {
        assert c[i] in a && c[j] == b[j - |a|];
      } else if i >= |a| {
        assert c[i] == b[i - |a|] && c[j] == b[j - |a|];
      }
    }
  }

  /** A simple route never holds more nodes than the graph has. */
  lemma SimpleRouteFits(g: Table, p: seq<int>, s: int, d: int)
    requires SimpleRoute(g, p, s, d)
    ensures |p| <= |g|
  {
    NodesCount(|g|);
    DistinctWithin(p, Nodes(|g|));
  }

  /** Cutting out the stretch between two visits of the same node leaves a
      route between the same ends. */
  lemma CutCycle(g: Table, p: seq<int>, s: int, d: int, i: int, j: int)
    requires Route(g, p, s, d) && 0 <= i < j < |p| && p[i] == p[j]
    ensures Route(g, p[..i] + p[j..], s, d)
  {
    var q := p[..i] + p[j..];
    assert forall k :: 0 <= k < i ==> q[k] == p[k];
    assert forall k :: i <= k < |q| ==> q[k] == p[k - i + j];
    forall k | 0 <= k < |q| - 1
      ensures Edge(g, q[k], q[k + 1])
    {
      if k < i - 1 {
        assert Edge(g, p[k], p[k + 1]);
      } else if k == i - 1 {
        assert Edge(g, p[i - 1], p[i]);
      } else {
        assert Edge(g, p[k - i + j], p[k - i + j + 1]);
      }
    }
  }

  /** Cutting the cycles out of a route leaves a simple route between the same ends. */
  lemma {:induction false} ShortenToSimple(g: Table, p: seq<int>, s: int, d: int) returns (q: seq<int>)
    requires Route(g, p, s, d)
    ensures SimpleRoute(g, q, s, d) && |q| <= |p|
    decreases |p|
  {
    if Distinct(p) {
      q := p;
    } else {
      var i, j :| 0 <= i < j < |p| && p[i] == p[j];
      CutCycle(g, p, s, d, i, j);
      q := ShortenToSimple(g, p[..i] + p[j..], s, d);
    }
  }

  /** Reachability by walks and by simple routes coincide. */
  lemma ReachableBySimpleRoute(g: Table, s: int, d: int)
    ensures Reachable(g, s, d) <==> exists q :: SimpleRoute(g, q, s, d)
  {
    if Reachable(g, s, d) {
      var p :| Route(g, p, s, d);
      var q := ShortenToSimple(g, p, s, d);
    }
  }

  lemma EdgeIsReachablePlus(g: Table, a: int, b: int)
    requires Edge(g, a, b)
    ensures ReachablePlus(g, a, b)
  {
    assert Route(g, [a, b], a, b);
  }

  /** One more edge at the end of a walk of one or more edges. */
  lemma ReachablePlusThenEdge(g: Table, a: int, b: int, c: int)
    requires ReachablePlus(g, a, b) && Edge(g, b, c)
    ensures ReachablePlus(g, a, c)
  {
    var p :| Route(g, p, a, b) && |p| >= 2;
    var q := p + [c];
    forall k | 0 <= k < |q| - 1
      ensures Edge(g, q[k], q[k + 1])
    {
      if k < |p| - 1 {
        assert q[k] == p[k] && q[k + 1] == p[k + 1];
      }
    }
    assert Route(g, q, a, c);
  }

  /** t holds every edge of g. */
  ghost predicate HoldsEdges(g: Table, t: Table)
    requires IsMatrix(t, |g|)
  {
    forall a, b :: Edge(g, a, b) ==> t[a][b] != 0
  }

  /** t is closed under following one more edge of g, except onto the diagonal. */
  ghost predicate ClosedUnderEdges(g: Table, t: Table)
    requires IsMatrix(t, |g|)
  {
    forall a, v, b :: 0 <= a < |g| && Edge(g, v, b) && t[a][v] != 0 && a != b ==> t[a][b] != 0
  }

  /** A table that holds the edges and is closed under following them holds
      every off-diagonal pair joined by a walk of one or more edges. */
  lemma {:induction false} WalkCovered(g: Table, t: Table, p: seq<int>)
    requires IsMatrix(t, |g|) && HoldsEdges(g, t) && ClosedUnderEdges(g, t)
    requires Walk(g, p) && |p| >= 2 && p[0] != p[|p| - 1]
    ensures t[p[0]][p[|p| - 1]] != 0
  {
    var q := p[..|p| - 1];
    var x := q[|q| - 1];
    assert Edge(g, p[|p| - 2], p[|p| - 1]);
    if |q| >= 2 && x != p[0] {
      assert Walk(g, q) by {
        forall k | 0 <= k < |q| - 1
          ensures Edge(g, q[k], q[k + 1])
        {
          assert Edge(g, p[k], p[k + 1]);
        }
      }
      WalkCovered(g, t, q);
    }
  }

  lemma ClosedCoversReachable(g: Table, t: Table, u: int, w: int)
    requires IsMatrix(t, |g|) && HoldsEdges(g, t) && ClosedUnderEdges(g, t)
    requires ReachablePlus(g, u, w) && u != w
    ensures 0 <= u < |g| && 0 <= w < |g| && t[u][w] != 0
  {
    var p :| Route(g, p, u, w) && |p| >= 2;
    WalkCovered(g, t, p);
  }
}
