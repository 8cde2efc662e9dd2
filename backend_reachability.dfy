/** Breadth-first reachability in the maze (class Graph in maze_algorithm.py). */
module MazeAlgorithm {
  import opened Common
  import opened ModelExceptions
  import opened MazeCards
  import opened Mazes

  /** The location one step from l towards d. */
  function Step(l: BoardLocation, d: Direction): BoardLocation {
    l.Add(d.RowDelta(), d.ColumnDelta())
  }

  /**
   * The two locations are connected directly: b is inside, one step from a towards some d,
   * a's card has an out path towards d and b's card one back towards a.
   */
  predicate Adjacent(g: Grid, a: BoardLocation, b: BoardLocation)
    requires IsGrid(g)
  {
    IsInside(a) && IsInside(b) &&
    exists d :: Step(a, d) == b && HasOutPath(At(g, a), d) && HasOutPath(At(g, b), d.Mirror())
  }

  /** The neighbours found by trying the directions of ds in order, as the generator `_neighbors` does. */
  function NeighborsToward(g: Grid, l: BoardLocation, ds: seq<Direction>): seq<BoardLocation>
    requires IsGrid(g) && IsInside(l)
  {
    if ds == [] then []
    else
      var n := Step(l, ds[0]);
      var rest := NeighborsToward(g, l, ds[1..]);
      if IsInside(n) && HasOutPath(At(g, n), ds[0].Mirror()) then [n] + rest else rest
  }

  lemma {:induction false} NeighborsTowardMembers(g: Grid, l: BoardLocation, ds: seq<Direction>)
    requires IsGrid(g) && IsInside(l)
    ensures forall y :: y in NeighborsToward(g, l, ds) <==>
              exists d :: d in ds && Step(l, d) == y && IsInside(y) && HasOutPath(At(g, y), d.Mirror())
  {
    if ds != [] {
      NeighborsTowardMembers(g, l, ds[1..]);
      assert forall e :: e in ds <==> e == ds[0] || e in ds[1..];
    }
  }

  /** Graph._neighbors: the neighbours through the out paths of l's card, in the order N, E, S, W. */
  function Neighbors(g: Grid, l: BoardLocation): seq<BoardLocation>
    requires IsGrid(g) && IsInside(l)
  {
    NeighborsToward(g, l, OutPaths(At(g, l)))
  }

  /** `_neighbors` yields exactly the adjacent locations: inside, through an out path, with the door answered. */
  lemma NeighborsAreAdjacent(g: Grid, l: BoardLocation)
    requires IsGrid(g) && IsInside(l)
    ensures forall y :: y in Neighbors(g, l) <==> Adjacent(g, l, y)
  {
    NeighborsTowardMembers(g, l, OutPaths(At(g, l)));
  }

  lemma NeighborIsAdjacent(g: Grid, l: BoardLocation, i: int)
    requires IsGrid(g) && IsInside(l) && 0 <= i < |Neighbors(g, l)|
    ensures Adjacent(g, l, Neighbors(g, l)[i])
  {
    NeighborsAreAdjacent(g, l);
    assert Neighbors(g, l)[i] in Neighbors(g, l);
  }

  /** Doors have to agree at both ends, so the neighbour relation is symmetric. */
  lemma AdjacentSymmetric(g: Grid, a: BoardLocation, b: BoardLocation)
    requires IsGrid(g) && Adjacent(g, a, b)
    ensures Adjacent(g, b, a)
  {
    var d :| Step(a, d) == b && HasOutPath(At(g, a), d) && HasOutPath(At(g, b), d.Mirror());
    assert d.Mirror().Mirror() == d;
    assert Step(b, d.Mirror()) == a;
  }

  /** A chain of locations, each adjacent to the next. */
  ghost predicate IsPath(g: Grid, p: seq<BoardLocation>)
    requires IsGrid(g)
  {
    |p| > 0 && forall i :: 0 <= i < |p| - 1 ==> Adjacent(g, p[i], p[i + 1])
  }

  /** t is reachable from s: some chain of neighbours leads from s to t. */
  ghost predicate Reachable(g: Grid, s: BoardLocation, t: BoardLocation)
    requires IsGrid(g)
  {
    exists p :: IsPath(g, p) && p[0] == s && p[|p| - 1] == t && IsInside(s)
  }

  function Reversed(p: seq<BoardLocation>): (r: seq<BoardLocation>)
    ensures |r| == |p| && forall i :: 0 <= i < |p| ==> r[i] == p[|p| - 1 - i]
  {
    if p == [] then [] else Reversed(p[1..]) + [p[0]]
  }

  /** Reachability is symmetric, so is_reachable(a, b) == is_reachable(b, a) for locations inside the maze. */
  lemma ReachableSymmetric(g: Grid, s: BoardLocation, t: BoardLocation)
    requires IsGrid(g) && Reachable(g, s, t)
    ensures Reachable(g, t, s)
  {
    var p :| IsPath(g, p) && p[0] == s && p[|p| - 1] == t && IsInside(s);
    var q := Reversed(p);
    forall i | 0 <= i < |q| - 1
      ensures Adjacent(g, q[i], q[i + 1])
    {
      AdjacentSymmetric(g, p[|p| - 2 - i], p[|p| - 1 - i]);
    }
    assert IsPath(g, q);
    assert IsInside(t) by {
      if |p| > 1 {
        assert Adjacent(g, p[|p| - 2], p[|p| - 1]);
      }
    }
  }

  /** One more step extends a chain. */
  lemma ReachableStep(g: Grid, s: BoardLocation, x: BoardLocation, y: BoardLocation)
    requires IsGrid(g) && Reachable(g, s, x) && Adjacent(g, x, y)
    ensures Reachable(g, s, y)
  {
    var p :| IsPath(g, p) && p[0] == s && p[|p| - 1] == x && IsInside(s);
    PathExtend(g, p, y);
  }

  lemma PathExtend(g: Grid, p: seq<BoardLocation>, y: BoardLocation)
    requires IsGrid(g) && IsPath(g, p) && Adjacent(g, p[|p| - 1], y)
    ensures IsPath(g, p + [y]) && (p + [y])[0] == p[0] && (p + [y])[|p|] == y
  {
    var q := p + [y];
    forall i | 0 <= i < |q| - 1
      ensures Adjacent(g, q[i], q[i + 1])
    {
      if i < |p| - 1 {
        assert q[i] == p[i] && q[i + 1] == p[i + 1];
      }
    }
  }

  /** Every location reachable from s. */
  ghost function ReachSet(g: Grid, s: BoardLocation): (r: set<BoardLocation>)
    requires IsGrid(g)
    ensures forall l :: l in r <==> Reachable(g, s, l)
  {
    ReachableInside(g, s);
    set l | l in InsideLocations() && Reachable(g, s, l)
  }

  lemma ReachableInside(g: Grid, s: BoardLocation)
    requires IsGrid(g)
    ensures forall l :: Reachable(g, s, l) ==> IsInside(l)
  {
    forall l | Reachable(g, s, l)
      ensures IsInside(l)
    {
      var p :| IsPath(g, p) && p[0] == s && p[|p| - 1] == l && IsInside(s);
      if |p| > 1 {
        assert Adjacent(g, p[|p| - 2], p[|p| - 1]);
      }
    }
  }

  /** The reachable locations hold the source, when it is inside, and every neighbour of their members. */
  lemma ReachSetClosed(g: Grid, s: BoardLocation)
    requires IsGrid(g)
    ensures IsInside(s) ==> s in ReachSet(g, s)
    ensures forall x, y :: x in ReachSet(g, s) && Adjacent(g, x, y) ==> y in ReachSet(g, s)
  {
    if IsInside(s) {
      assert IsPath(g, [s]);
    }
    forall x, y | x in ReachSet(g, s) && Adjacent(g, x, y)
      ensures y in ReachSet(g, s)
    {
      ReachableStep(g, s, x, y);
    }
  }

  /** A set that holds s and every neighbour of its members holds every location reachable from s. */
  lemma {:induction false} ClosedHoldsReachable(g: Grid, s: BoardLocation, reached: set<BoardLocation>,
                                                p: seq<BoardLocation>)
    requires IsGrid(g) && s in reached
    requires forall x, y :: x in reached && Adjacent(g, x, y) ==> y in reached
    requires IsPath(g, p) && p[0] == s
    ensures p[|p| - 1] in reached
    decreases |p|
  {
    if |p| > 1 {
      var front := p[..|p| - 1];
      assert IsPath(g, front) by {
        forall i | 0 <= i < |front| - 1
          ensures Adjacent(g, front[i], front[i + 1])
        {
          assert front[i] == p[i] && front[i + 1] == p[i + 1];
        }
      }
      ClosedHoldsReachable(g, s, reached, front);
      assert Adjacent(g, p[|p| - 2], p[|p| - 1]);
    }
  }

  /** Every reached location that has left the queue has all its neighbours reached. */
  ghost predicate ClosedOutside(g: Grid, reached: set<BoardLocation>, queue: seq<BoardLocation>)
    requires IsGrid(g)
  {
    forall x, y :: x in reached && x !in queue && Adjacent(g, x, y) ==> y in reached
  }

  /**
   * One round of the search loop: the head of the queue is taken off and its unreached neighbours
   * are appended. Closure outside the queue is kept, and the reach set left to explore shrinks or
   * the queue does.
   */
  lemma SearchStep(g: Grid, all: set<BoardLocation>, reached: set<BoardLocation>, queue: seq<BoardLocation>,
                   reached': set<BoardLocation>, added: seq<BoardLocation>)
    requires IsGrid(g) && |queue| > 0 && reached <= all && reached' <= all && InsideSet(all)
    requires ClosedOutside(g, reached, queue)
    requires forall x :: x in reached' <==> x in reached || x in added
    requires forall k :: 0 <= k < |added| ==> added[k] !in reached
    requires forall y :: Adjacent(g, queue[0], y) ==> y in reached'
    ensures ClosedOutside(g, reached', queue[1..] + added)
    ensures InsideLocations() - reached' < InsideLocations() - reached || (reached' == reached && added == [])
  {
    forall x, y | x in reached' && x !in queue[1..] + added && Adjacent(g, x, y)
      ensures y in reached'
    {
      if x != queue[0] {
        assert x in reached && x !in queue;
      }
    }
    if added != [] {
      assert added[0] in InsideLocations() - reached && added[0] !in InsideLocations() - reached';
    } else {
      assert reached' == reached;
    }
  }

  predicate InsideSet(s: set<BoardLocation>) {
    forall l :: l in s ==> IsInside(l)
  }

  /** A set of reachable locations that holds s and is closed under adjacency is the whole reach set. */
  lemma ClosedIsReachSet(g: Grid, s: BoardLocation, reached: set<BoardLocation>)
    requires IsGrid(g) && s in reached && reached <= ReachSet(g, s)
    requires forall x, y :: x in reached && Adjacent(g, x, y) ==> y in reached
    ensures reached == ReachSet(g, s)
  {
    forall l | Reachable(g, s, l)
      ensures l in reached
    {
      var p :| IsPath(g, p) && p[0] == s && p[|p| - 1] == l && IsInside(s);
      ClosedHoldsReachable(g, s, reached, p);
    }
  }

  /** Graph: read-only reachability queries on a maze. */
  class Graph {
    const maze: Maze

    constructor (maze: Maze)
      ensures this.maze == maze
    {
      this.maze := maze;
    }

    /**
     * Graph.reachable_locations: a breadth-first search from `source`. Reading the card at an
     * outside source raises InvalidLocation; otherwise the result is exactly the set of locations
     * reachable from the source, which includes the source and is closed under `_neighbors`.
     */
    method ReachableLocations(source: BoardLocation) returns (r: Result<set<BoardLocation>, ModelError>)
      requires maze.Valid()
      ensures r.Failure? <==> !IsInside(source)
      ensures r.Failure? ==> r.error == InvalidLocation
      ensures r.Success? ==> source in r.value
      ensures r.Success? ==> forall l :: l in r.value <==> Reachable(maze.Cards(), source, l)
      ensures r.Success? ==> forall x, y :: x in r.value && Adjacent(maze.Cards(), x, y) ==> y in r.value
    {
      var g := maze.Cards();
      if !IsInside(source) {
        // the first call of _neighbors reads maze[source]
        return Failure(InvalidLocation);
      }
      ghost var all := ReachSet(g, source);
      ReachSetClosed(g, source);
      ReachableInside(g, source);
      var reached := Explore(g, all, source);
      ClosedIsReachSet(g, source, reached);
      return Success(reached);
    }

    /**
     * The loop of reachable_locations: `reached` starts as {source} and the queue as [source]; each
     * round takes the head of the queue and visits its neighbours.
     */
    method Explore(g: Grid, ghost all: set<BoardLocation>, source: BoardLocation) returns (reached: set<BoardLocation>)
      requires IsGrid(g) && IsInside(source) && source in all && InsideSet(all)
      requires forall x, y :: x in all && Adjacent(g, x, y) ==> y in all
      ensures source in reached && reached <= all
      ensures forall x, y :: x in reached && Adjacent(g, x, y) ==> y in reached
    {
      reached := {source};
      var queue: seq<BoardLocation> := [source];
      while queue != []
        invariant source in reached && reached <= all
        invariant forall k :: 0 <= k < |queue| ==> queue[k] in reached
        invariant ClosedOutside(g, reached, queue)
        decreases InsideLocations() - reached, |queue|
      {
        var current := queue[0];
        ghost var before, waiting := reached, queue[1..];
        queue := queue[1..];
        var neighbors := AdjacentLocations(g, current);
        ghost var added;
        reached, queue, added := VisitNeighbors(g, all, current, neighbors, reached, queue);
        SearchStep(g, all, before, [current] + waiting, reached, added);
      }
    }

    /**
     * The inner loop of reachable_locations: every neighbour of `current` not reached yet is
     * marked as reached and appended to the queue.
     */
    method VisitNeighbors(g: Grid, ghost all: set<BoardLocation>, current: BoardLocation,
                          neighbors: seq<BoardLocation>, reached: set<BoardLocation>, queue: seq<BoardLocation>)
      returns (reached': set<BoardLocation>, queue': seq<BoardLocation>, ghost added: seq<BoardLocation>)
      requires IsGrid(g) && IsInside(current) && current in reached && reached <= all
      requires forall y :: y in neighbors <==> Adjacent(g, current, y)
      requires forall x, y :: x in all && Adjacent(g, x, y) ==> y in all
      ensures reached' <= all
      ensures queue' == queue + added && forall x :: x in reached' <==> x in reached || x in added
      ensures forall k :: 0 <= k < |added| ==> added[k] !in reached
      ensures forall y :: Adjacent(g, current, y) ==> y in reached'
    {
      reached', queue' := reached, queue;
      added := [];
      for i := 0 to |neighbors|
        invariant reached' <= all
        invariant queue' == queue + added && forall x :: x in reached' <==> x in reached || x in added
        invariant forall k :: 0 <= k < |added| ==> added[k] !in reached
        invariant forall j :: 0 <= j < i ==> neighbors[j] in reached'
      {
        var neighbor := neighbors[i];
        if neighbor !in reached' {
          assert neighbor in neighbors;
          reached' := reached' + {neighbor};
          queue' := queue' + [neighbor];
          added := added + [neighbor];
        }
      }
      forall y | Adjacent(g, current, y)
        ensures y in reached'
      {
        var j :| 0 <= j < |neighbors| && neighbors[j] == y;
      }
    }

    /** The locations `_neighbors` yields for l, in order. */
    method AdjacentLocations(g: Grid, l: BoardLocation) returns (r: seq<BoardLocation>)
      requires IsGrid(g) && IsInside(l)
      ensures forall y :: y in r <==> Adjacent(g, l, y)
    {
      NeighborsAreAdjacent(g, l);
      return Neighbors(g, l);
    }

    /** Graph.is_reachable: membership of the target in the locations reachable from the source. */
    method IsReachable(source: BoardLocation, target: BoardLocation) returns (r: Result<bool, ModelError>)
      requires maze.Valid()
      ensures r.Failure? <==> !IsInside(source)
      ensures r.Failure? ==> r.error == InvalidLocation
      ensures r.Success? ==> (r.value <==> Reachable(maze.Cards(), source, target))
      ensures r.Success? && target == source ==> r.value
    {
      var reachable := ReachableLocations(source);
      if reachable.Failure? {
        return Failure(reachable.error);
      }
      return Success(target in reachable.value);
    }
  }
}
