/**
 * The path search: findPath's depth-first search with backtracking over the
 * adjacency matrix, and the top-level search that gives it a cleared
 * `visited` array and an N-slot `path` buffer. Instead of printing the path
 * it has found, the search returns it.
 */
module PathSearch {
  import opened Graph
  import opened MatrixStore

  /** Every node of p is a node of the graph that marks leaves unmarked. */
  ghost predicate Avoids(p: seq<int>, marks: seq<bool>)
  {
    forall k :: 0 <= k < |p| ==> 0 <= p[k] < |marks| && !marks[p[k]]
  }

  /** A simple route from s to d through unmarked nodes only. */
  ghost predicate FreeRoute(g: Table, p: seq<int>, s: int, d: int, marks: seq<bool>)
  {
    SimpleRoute(g, p, s, d) && Avoids(p, marks)
  }

  ghost predicate ReachableAvoiding(g: Table, s: int, d: int, marks: seq<bool>)
  {
    exists p :: FreeRoute(g, p, s, d, marks)
  }

  /** Lexicographic order on node sequences. */
  ghost predicate LexLeq(a: seq<int>, b: seq<int>)
  {
    |a| == 0 || (|b| > 0 && (a[0] < b[0] || (a[0] == b[0] && LexLeq(a[1..], b[1..]))))
  }

  /** r is the lexicographically least free route from s to d: the one that
      trying neighbours in ascending order meets first. */
  ghost predicate FirstFreeRoute(g: Table, r: seq<int>, s: int, d: int, marks: seq<bool>)
  {
    FreeRoute(g, r, s, d, marks) && forall q :: FreeRoute(g, q, s, d, marks) ==> LexLeq(r, q)
  }

  /** What findPath keeps between `visited` and the filled part of `path`:
      the prefix holds distinct nodes, and exactly those are marked. */
  ghost predicate Trail(marks: seq<bool>, prefix: seq<int>)
  {
    && Distinct(prefix)
    && (forall k :: 0 <= k < |prefix| ==> 0 <= prefix[k] < |marks|)
    && (forall x :: 0 <= x < |marks| ==> (marks[x] <==> x in prefix))
  }

  /** While an unmarked node is left, the prefix has room for it in an N-slot buffer. */
  lemma TrailRoom(marks: seq<bool>, prefix: seq<int>, s: int)
    requires Trail(marks, prefix) && 0 <= s < |marks| && !marks[s]
    ensures |prefix| < |marks|
  {
    NodesCount(|marks|);
    DistinctWithin(prefix, Nodes(|marks|) - {s});
  }

  /** Marking s and appending it keeps the trail. */
  lemma TrailExtend(marks: seq<bool>, prefix: seq<int>, s: int)
    requires Trail(marks, prefix) && 0 <= s < |marks| && !marks[s]
    ensures Trail(marks[s := true], prefix + [s])
  {
    var p := prefix + [s];
    forall i, j | 0 <= i < j < |p|
      ensures p[i] != p[j]
    {
      if j == |prefix| {
        assert p[i] in prefix;
      }
    }
  }

  /** A free route that does not stop at s leaves it along an edge, and the
      rest of it is free once s is marked. */
  lemma StepOff(g: Table, q: seq<int>, s: int, d: int, marks: seq<bool>)
    requires FreeRoute(g, q, s, d, marks) && s != d
    ensures |q| >= 2 && Edge(g, s, q[1])
    ensures FreeRoute(g, q[1..], q[1], d, marks[s := true])
  {
    var rest := q[1..];
    assert Edge(g, q[0], q[1]);
    forall k | 0 <= k < |rest| - 1
      ensures Edge(g, rest[k], rest[k + 1])
    {
      assert Edge(g, q[k + 1], q[k + 2]);
    }
    forall k | 0 <= k < |rest|
      ensures 0 <= rest[k] < |marks| && !marks[s := true][rest[k]]
    {
      assert rest[k] == q[k + 1] && q[0] != q[k + 1];
    }
  }

  /** The single node s is the first free route from s to itself. */
  lemma FirstFreeRouteHere(g: Table, s: int, marks: seq<bool>)
    requires 0 <= s < |g| && |marks| == |g| && !marks[s]
    ensures FirstFreeRoute(g, [s], s, s, marks)
  {
    forall q | FreeRoute(g, q, s, s, marks)
      ensures LexLeq([s], q)
    {
      assert LexLeq([s][1..], q[1..]);
    }
  }

  /** Putting s in front of the first free route from i, its least neighbour
      from which d can still be reached, gives the first free route from s. */
  lemma FirstFreeRouteThrough(g: Table, s: int, i: int, r: seq<int>, d: int, marks: seq<bool>, marked: seq<bool>)
    requires 0 <= s < |marks| && !marks[s] && marked == marks[s := true] && s != d
    requires Edge(g, s, i) && FirstFreeRoute(g, r, i, d, marked)
    requires forall j :: 0 <= j < i && 0 <= j < |marked| && !marked[j] && Edge(g, s, j) ==>
      !ReachableAvoiding(g, j, d, marked)
    ensures FirstFreeRoute(g, [s] + r, s, d, marks)
  {
    var p := [s] + r;
    forall k | 0 <= k < |p| - 1
      ensures Edge(g, p[k], p[k + 1])
    {
      if k > 0 {
        assert Edge(g, r[k - 1], r[k]);
      }
    }
    forall a, b | 0 <= a < b < |p|
      ensures p[a] != p[b]
    {
      if a == 0 {
        assert !marked[r[b - 1]];
      } else {
        assert p[a] == r[a - 1] && p[b] == r[b - 1];
      }
    }
    forall k | 0 <= k < |p|
      ensures 0 <= p[k] < |marks| && !marks[p[k]]
    {
      if k > 0 {
        assert !marked[r[k - 1]];
      }
    }
    assert FreeRoute(g, p, s, d, marks);
    forall q | FreeRoute(g, q, s, d, marks)
      ensures LexLeq(p, q)
    {
      StepOff(g, q, s, d, marks);
      var j := q[1];
      assert !marked[j];
      assert ReachableAvoiding(g, j, d, marked);
      if j == i {
        assert LexLeq(r, q[1..]);
      }
      assert p[1..] == r;
    }
  }

  /** When d cannot be reached, avoiding s as well, from any unmarked
      neighbour of s, it cannot be reached from s. */
  lemma NoFreeRoute(g: Table, s: int, d: int, marks: seq<bool>, marked: seq<bool>)
    requires 0 <= s < |marks| && !marks[s] && marked == marks[s := true] && s != d
    requires forall j :: 0 <= j < |marked| && !marked[j] && Edge(g, s, j) ==>
      !ReachableAvoiding(g, j, d, marked)
    ensures !ReachableAvoiding(g, s, d, marks)
  {
    if ReachableAvoiding(g, s, d, marks) {
      var q :| FreeRoute(g, q, s, d, marks);
      StepOff(g, q, s, d, marks);
      assert ReachableAvoiding(g, q[1], d, marked);
    }
  }

  /** A route that starts with prefix + [s] splits there. */
  lemma SplitAfter(r: seq<int>, prefix: seq<int>, s: int)
    requires |prefix| < |r| && r[..|prefix| + 1] == prefix + [s]
    ensures r[..|prefix|] == prefix
    ensures r[|prefix|..] == [s] + r[|prefix| + 1..]
  {
    assert r[..|prefix|] == r[..|prefix| + 1][..|prefix|];
  }

  /**
   * findPath. Marks `source`, writes it at `path[pathIndex]`, and succeeds at
   * `destination`; otherwise tries the neighbours of `source` and, when none
   * leads on, unmarks `source` again. `marks` and `prefix` name the state of
   * `visited` and of the filled part of `path` on entry; on success `route`
   * is the filled part of `path`.
   */
  method FindPath(m: array2<int>, source: int, destination: int, visited: array<bool>,
                  path: array<int>, pathIndex: nat, ghost g: Table, ghost marks: seq<bool>, ghost prefix: seq<int>)
    returns (found: bool, route: seq<int>)
    requires m.Length0 == m.Length1 == visited.Length == path.Length && g == Snapshot(m)
    requires 0 <= source < visited.Length
    requires pathIndex <= path.Length && marks == visited[..] && prefix == path[..pathIndex]
    requires !marks[source] && Trail(marks, prefix)
    modifies visited, path
    decreases path.Length - pathIndex, 1
    ensures found <==> ReachableAvoiding(g, source, destination, marks)
    ensures found ==>
      && pathIndex < |route| <= path.Length
      && route == path[..|route|]
      && route[..pathIndex] == prefix
      && FirstFreeRoute(g, route[pathIndex..], source, destination, marks)
    ensures found ==> Trail(visited[..], route)
    ensures source == destination ==> found && |route| == pathIndex + 1
    ensures !found ==> route == [] && visited[..] == marks && path[..pathIndex] == prefix
  {
    TrailRoom(marks, prefix, source);
    visited[source] := true;
    path[pathIndex] := source;
    var next := pathIndex + 1;
    assert path[..next] == prefix + [source];
    assert visited[..] == marks[source := true];

    if source == destination {
      FirstFreeRouteHere(g, source, marks);
      TrailExtend(marks, prefix, source);
      found, route := true, path[..next];
      assert route[pathIndex..] == [source];
      return;
    }

    found, route := TryNeighbours(m, source, destination, visited, path, next, g, marks, prefix);
    if !found {
      visited[source] := false;
      assert visited[..] == marks;
    }
  }

  /**
   * The loop of findPath: with `source` marked and written at `path[next - 1]`,
   * calls findPath on every unmarked neighbour of `source` in ascending order
   * and stops at the first that reaches `destination`.
   */
  method TryNeighbours(m: array2<int>, source: int, destination: int, visited: array<bool>,
                       path: array<int>, next: nat, ghost g: Table, ghost marks: seq<bool>, ghost prefix: seq<int>)
    returns (found: bool, route: seq<int>)
    requires m.Length0 == m.Length1 == visited.Length == path.Length && g == Snapshot(m)
    requires 0 <= source < visited.Length && source != destination
    requires |marks| == visited.Length && !marks[source] && Trail(marks, prefix)
    requires next == |prefix| + 1 <= path.Length
    requires visited[..] == marks[source := true] && path[..next] == prefix + [source]
    modifies visited, path
    decreases path.Length - |prefix|, 0
    ensures found <==> ReachableAvoiding(g, source, destination, marks)
    ensures found ==>
      && next < |route| <= path.Length
      && route == path[..|route|]
      && route[..|prefix|] == prefix
      && FirstFreeRoute(g, route[|prefix|..], source, destination, marks)
    ensures found ==> Trail(visited[..], route)
    ensures !found ==> route == [] && visited[..] == marks[source := true] && path[..next] == prefix + [source]
  {
    ghost var marked := visited[..];
    TrailExtend(marks, prefix, source);
    var i := 0;
    while i < path.Length
      invariant 0 <= i <= path.Length
      invariant visited[..] == marked
      invariant path[..next] == prefix + [source]
      invariant forall j :: 0 <= j < i && !marked[j] && Edge(g, source, j) ==>
        !ReachableAvoiding(g, j, destination, marked)
    {
      if !visited[i] && m[source, i] != 0 {
        var ok, r := FindPath(m, i, destination, visited, path, next, g, marked, prefix + [source]);
        if ok {
          SplitAfter(r, prefix, source);
          FirstFreeRouteThrough(g, source, i, r[next..], destination, marks, marked);
          return true, r;
        }
      }
      i := i + 1;
    }
    NoFreeRoute(g, source, destination, marks, marked);
    return false, [];
  }

  /** With nothing marked, a free route is just a simple route. */
  lemma NothingMarked(g: Table, s: int, d: int, marks: seq<bool>)
    requires |marks| == |g| && forall x :: 0 <= x < |marks| ==> !marks[x]
    ensures forall q :: SimpleRoute(g, q, s, d) <==> FreeRoute(g, q, s, d, marks)
    ensures ReachableAvoiding(g, s, d, marks) <==> Reachable(g, s, d)
  {
    ReachableBySimpleRoute(g, s, d);
  }

  /**
   * The search behind the "-r source,destination" option: a cleared
   * `visited` array, an N-slot `path` buffer, and findPath from slot 0.
   * It succeeds exactly when the destination is reachable, and then
   * returns the first simple route in ascending neighbour order.
   */
  method SearchRoute(m: array2<int>, source: int, destination: int) returns (found: bool, route: seq<int>)
    requires m.Length0 == m.Length1
    requires 0 <= source < m.Length0
    ensures found <==> Reachable(Snapshot(m), source, destination)
    ensures found ==> SimpleRoute(Snapshot(m), route, source, destination) && |route| <= m.Length0
    ensures found ==> forall q :: SimpleRoute(Snapshot(m), q, source, destination) ==> LexLeq(route, q)
    ensures source == destination ==> found && route == [source]
    ensures !found ==> route == []
    ensures !(0 <= destination < m.Length0) ==> !found
  {
    var n := m.Length0;
    var visited := new bool[n](_ => false);
    var path := new int[n];
    ghost var marks := visited[..];
    NothingMarked(Snapshot(m), source, destination, marks);
    found, route := FindPath(m, source, destination, visited, path, 0, Snapshot(m), marks, []);
    assert route[0..] == route;
  }
}
