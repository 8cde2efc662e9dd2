/**
 * The exhaustive breadth-first search of algolibs/solvers/exhsearch.cpp over sequences of shifts.
 * Every game state records the shift that led to it and the locations the player can reach after
 * it, each with the index of its source among the parent's reached locations. The states live
 * in an arena, a sequence in creation order: a state refers to its parent by index, the root is
 * state 0, and the queue holds indices.
 */
module ExhSearch {
  import opened Common
  import opened GraphBasics
  import opened SolverMazeGraph

  /** reachable::ReachableNode: a reached location and the index of the source it was reached from. */
  datatype ReachableNode = ReachableNode(parentSourceIndex: nat, reachedLocation: Location)

  /** GameStateNode: the parent (None for the root), the shift that led here and the reached locations. */
  datatype GameStateNode = GameStateNode(parent: Option<nat>, shift: ShiftAction, reachedNodes: seq<ReachableNode>)

  /**
   * What does not change during a search: the extent and shift locations of the graph, and
   * reachable::multiSourceReachableLocations.
   */
  datatype Search = Search(extent: nat, shiftLocations: seq<Location>,
                           multiSourceReachable: (Grid, seq<Location>) -> seq<ReachableNode>) {
    /**
     * Every shift location can be shifted, and from sources inside the grid the multi-source
     * search reaches locations inside the grid, each tagged with the index of one of the sources.
     */
    ghost predicate Valid() {
      && extent >= 1
      && (forall i :: 0 <= i < |shiftLocations| ==> ShiftDefined(shiftLocations[i], extent))
      && (forall g, sources {:trigger multiSourceReachable(g, sources)} ::
            IsGrid(g, extent) && (forall k :: 0 <= k < |sources| ==> IsInside(sources[k], extent)) ==>
              forall r :: r in multiSourceReachable(g, sources) ==>
                r.parentSourceIndex < |sources| && IsInside(r.reachedLocation, extent))
    }

    /** The instance fits the graph: its matrix has the extent and the player stands inside. */
    predicate ValidInstance(instance: SolverInstance) {
      IsGrid(instance.grid, extent) && IsInside(instance.playerLocation, extent)
    }
  }

  /**
   * determineRotations, in quarter turns: {0, 1} for a straight node (North and South, or East and
   * West), all four rotations otherwise.
   */
  function DetermineRotations(node: Node): (rotations: seq<int>)
    ensures forall k :: 0 <= k < |rotations| ==> rotations[k] == k
    ensures |rotations| == 2 <==>
              node.outPaths == North.Bit() | South.Bit() || node.outPaths == East.Bit() | West.Bit()
    ensures |rotations| == 2 || |rotations| == 4
  {
    var northSouth := CombineOutPaths(North.Bit(), South.Bit());
    var eastWest := CombineOutPaths(East.Bit(), West.Bit());
    if node.outPaths == northSouth || node.outPaths == eastWest then [0, 1]
    else [0, 1, 2, 3]
  }

  /** The rotations determineRotations leaves out look like ones it keeps: none of the four is missed. */
  lemma RotationsCoverAll(node: Node, rotation: int)
    requires 0 <= rotation <= 3
    ensures exists k :: 0 <= k < |DetermineRotations(node)| &&
              RotateOutPaths(node.outPaths, DetermineRotations(node)[k]) == RotateOutPaths(node.outPaths, rotation)
  {
    var rotations := DetermineRotations(node);
    if |rotations| == 2 && rotation >= 2 {
      assert RotateOutPaths(node.outPaths, rotation - 2) == RotateOutPaths(node.outPaths, rotation);
      assert rotations[rotation - 2] == rotation - 2;
    } else {
      assert rotations[rotation] == rotation;
    }
  }

  /** The state at the root of the search: the previous shift, not rotated, and the player's location as its only reached node. */
  function Root(instance: SolverInstance): (r: GameStateNode)
    ensures r.parent.None?
    ensures r.shift.location == instance.previousShiftLocation && r.shift.rotation == 0
    ensures |r.reachedNodes| == 1 && r.reachedNodes[0].reachedLocation == instance.playerLocation
    ensures r.reachedNodes[0].parentSourceIndex == 0
  {
    GameStateNode(None, ShiftAction(instance.previousShiftLocation, 0), [ReachableNode(0, instance.playerLocation)])
  }

  /**
   * State i is a child state: its parent was created before it, its shift is one of the graph's
   * shift locations away from the opposite of the parent's shift, with a quarter-turn rotation,
   * and each reached node names one of the parent's reached nodes as its source.
   */
  ghost predicate Linked(search: Search, states: seq<GameStateNode>, i: nat)
    requires i < |states|
  {
    && states[i].parent.Some?
    && states[i].parent.value < i
    && states[i].shift.location in search.shiftLocations
    && ShiftDefined(states[i].shift.location, search.extent)
    && states[i].shift.location != OpposingShiftLocation(states[states[i].parent.value].shift.location, search.extent)
    && 0 <= states[i].shift.rotation <= 3
    && forall r :: r in states[i].reachedNodes ==> r.parentSourceIndex < |states[states[i].parent.value].reachedNodes|
  }

  /** Every reached location of the state lies inside the grid. */
  predicate ReachedInside(search: Search, state: GameStateNode) {
    forall r :: r in state.reachedNodes ==> IsInside(r.reachedLocation, search.extent)
  }

  /** The shape of the arena: the root first, a linked child state at every later index, all reached locations inside. */
  ghost predicate Arena(search: Search, instance: SolverInstance, states: seq<GameStateNode>) {
    && |states| > 0
    && states[0] == Root(instance)
    && (forall i :: 0 < i < |states| ==> Linked(search, states, i))
    && (forall i :: 0 <= i < |states| ==> ReachedInside(search, states[i]))
  }

  /**
   * What createNewState stores for child state i: multiSourceReachableLocations in the state's
   * graph, from the parent's reached locations moved by the state's shift.
   */
  ghost function ChildReached(search: Search, instance: SolverInstance, states: seq<GameStateNode>, i: nat): seq<ReachableNode>
    requires search.Valid() && search.ValidInstance(instance) && Arena(search, instance, states) && 0 < i < |states|
  {
    assert Linked(search, states, i);
    var parent := states[states[i].parent.value];
    search.multiSourceReachable(GraphOfState(search, instance, states, i).0,
                                TranslatedLocations(parent.reachedNodes, states[i].shift.location, search.extent))
  }

  /** The arena of a search: well shaped, and every child state holds exactly the nodes createNewState computes for it. */
  ghost predicate StatesValid(search: Search, instance: SolverInstance, states: seq<GameStateNode>) {
    && search.Valid() && search.ValidInstance(instance)
    && Arena(search, instance, states)
    && forall i {:trigger ChildReached(search, instance, states, i)} ::
         0 < i < |states| ==> states[i].reachedNodes == ChildReached(search, instance, states, i)
  }

  /** The second arena starts with the first. */
  predicate Extends(states: seq<GameStateNode>, more: seq<GameStateNode>) {
    |states| <= |more| && forall i :: 0 <= i < |states| ==> more[i] == states[i]
  }

  /** The shifts from the root to state i in the order they were made; the root's shift is not one of them. */
  function PathShifts(search: Search, instance: SolverInstance, states: seq<GameStateNode>, i: nat): (shifts: seq<ShiftAction>)
    requires Arena(search, instance, states) && i < |states|
    ensures forall shift :: shift in shifts ==> shift.location in search.shiftLocations && ShiftDefined(shift.location, search.extent)
    ensures |shifts| == 0 <==> i == 0
    decreases i
  {
    if states[i].parent.None? then
      assert i > 0 ==> Linked(search, states, i);
      []
    else
      assert Linked(search, states, i);
      PathShifts(search, instance, states, states[i].parent.value) + [states[i].shift]
  }

  /** The graph after carrying out the shifts one after the other, each with MazeGraph::shift. */
  function ApplyShifts(search: Search, graph: (Grid, Node), shifts: seq<ShiftAction>): (r: (Grid, Node))
    requires search.extent >= 1 && IsGrid(graph.0, search.extent)
    requires forall shift :: shift in shifts ==> ShiftDefined(shift.location, search.extent)
    ensures IsGrid(r.0, search.extent)
    decreases |shifts|
  {
    if shifts == [] then graph
    else
      var before := ApplyShifts(search, graph, shifts[..|shifts| - 1]);
      var last := shifts[|shifts| - 1];
      GraphShift(before.0, before.1, search.extent, last.location, last.rotation)
  }

  /** The graph of state i: the instance's graph for the root, the parent's graph shifted by the state's shift otherwise. */
  function GraphOfState(search: Search, instance: SolverInstance, states: seq<GameStateNode>, i: nat): (r: (Grid, Node))
    requires search.Valid() && search.ValidInstance(instance) && Arena(search, instance, states) && i < |states|
    ensures IsGrid(r.0, search.extent)
    decreases i
  {
    if states[i].parent.None? then (instance.grid, instance.leftover)
    else
      assert Linked(search, states, i);
      var parentGraph := GraphOfState(search, instance, states, states[i].parent.value);
      GraphShift(parentGraph.0, parentGraph.1, search.extent, states[i].shift.location, states[i].shift.rotation)
  }

  /** The graph of a state is the instance's graph with the shifts on the path to it replayed in order. */
  lemma {:induction false} GraphOfStateReplays(search: Search, instance: SolverInstance, states: seq<GameStateNode>, i: nat)
    requires search.Valid() && search.ValidInstance(instance) && Arena(search, instance, states) && i < |states|
    ensures GraphOfState(search, instance, states, i) ==
              ApplyShifts(search, (instance.grid, instance.leftover), PathShifts(search, instance, states, i))
    decreases i
  {
    if states[i].parent.Some? {
      assert Linked(search, states, i);
      var p := states[i].parent.value;
      GraphOfStateReplays(search, instance, states, p);
      var shifts := PathShifts(search, instance, states, i);
      assert shifts[..|shifts| - 1] == PathShifts(search, instance, states, p);
    }
  }

  /** A longer arena that starts with this one has the same paths and graphs for the states they share. */
  lemma {:induction false} ExtendsAgrees(search: Search, instance: SolverInstance, states: seq<GameStateNode>,
                                         more: seq<GameStateNode>, i: nat)
    requires search.Valid() && search.ValidInstance(instance)
    requires Arena(search, instance, states) && Arena(search, instance, more) && Extends(states, more)
    requires i < |states|
    ensures PathShifts(search, instance, more, i) == PathShifts(search, instance, states, i)
    ensures GraphOfState(search, instance, more, i) == GraphOfState(search, instance, states, i)
    decreases i
  {
    assert more[i] == states[i];
    if states[i].parent.Some? {
      assert Linked(search, states, i);
      ExtendsAgrees(search, instance, states, more, states[i].parent.value);
    }
  }

  /** Depth of a state: the number of shifts from the root. */
  function Depth(search: Search, instance: SolverInstance, states: seq<GameStateNode>, i: nat): nat
    requires Arena(search, instance, states) && i < |states|
  {
    |PathShifts(search, instance, states, i)|
  }

  /** Every shift avoids the location opposing the shift before it; the first avoids the one opposing `previous`. */
  predicate AvoidsOpposing(previous: Location, shifts: seq<ShiftAction>, extent: nat) {
    && (|shifts| > 0 ==> shifts[0].location != OpposingShiftLocation(previous, extent))
    && forall k :: 0 < k < |shifts| ==> shifts[k].location != OpposingShiftLocation(shifts[k - 1].location, extent)
  }

  /** The path to every state avoids opposing shifts, starting from the shift that led to the instance. */
  lemma {:induction false} PathAvoidsOpposing(search: Search, instance: SolverInstance, states: seq<GameStateNode>, i: nat)
    requires Arena(search, instance, states) && i < |states|
    ensures AvoidsOpposing(instance.previousShiftLocation, PathShifts(search, instance, states, i), search.extent)
    decreases i
  {
    if states[i].parent.Some? {
      assert Linked(search, states, i);
      var p := states[i].parent.value;
      PathAvoidsOpposing(search, instance, states, p);
      var before := PathShifts(search, instance, states, p);
      var shifts := PathShifts(search, instance, states, i);
      assert shifts == before + [states[i].shift];
      if p == 0 {
        assert before == [] && states[p] == Root(instance);
      } else {
        assert Linked(search, states, p);
        assert before[|before| - 1] == states[p].shift;
      }
      forall k | 0 < k < |shifts|
        ensures shifts[k].location != OpposingShiftLocation(shifts[k - 1].location, search.extent)
      {
        if k < |before| {
          assert shifts[k] == before[k] && shifts[k - 1] == before[k - 1];
        } else {
          assert shifts[k - 1] == before[|before| - 1];
        }
      }
    }
  }

  /** The actions that lead to reached node `index` of state i: one per shift on the path, root first. */
  function ActionsTo(search: Search, instance: SolverInstance, states: seq<GameStateNode>, i: nat, index: nat): (actions: seq<PlayerAction>)
    requires Arena(search, instance, states) && i < |states| && index < |states[i].reachedNodes|
    ensures i > 0 ==>
              |actions| > 0 && actions[|actions| - 1] == PlayerAction(states[i].shift, states[i].reachedNodes[index].reachedLocation)
    ensures |actions| == |PathShifts(search, instance, states, i)|
    ensures forall k :: 0 <= k < |actions| ==>
              actions[k].shift.location in search.shiftLocations && ShiftDefined(actions[k].shift.location, search.extent)
    decreases i
  {
    if states[i].parent.None? then
      assert i > 0 ==> Linked(search, states, i);
      []
    else
      assert Linked(search, states, i);
      assert states[i].reachedNodes[index] in states[i].reachedNodes;
      var node := states[i].reachedNodes[index];
      ActionsTo(search, instance, states, states[i].parent.value, node.parentSourceIndex) + [PlayerAction(states[i].shift, node.reachedLocation)]
  }

  /** The shifts of a sequence of actions. */
  function ShiftsOf(actions: seq<PlayerAction>): (shifts: seq<ShiftAction>)
    ensures |shifts| == |actions| && forall k :: 0 <= k < |actions| ==> shifts[k] == actions[k].shift
  {
    seq(|actions|, k requires 0 <= k < |actions| => actions[k].shift)
  }

  /** The actions to a reached node carry exactly the shifts of the path to its state. */
  lemma {:induction false} ActionsFollowPath(search: Search, instance: SolverInstance, states: seq<GameStateNode>, i: nat, index: nat)
    requires Arena(search, instance, states) && i < |states| && index < |states[i].reachedNodes|
    ensures ShiftsOf(ActionsTo(search, instance, states, i, index)) == PathShifts(search, instance, states, i)
    decreases i
  {
    if states[i].parent.Some? {
      assert Linked(search, states, i);
      assert states[i].reachedNodes[index] in states[i].reachedNodes;
      ActionsFollowPath(search, instance, states, states[i].parent.value, states[i].reachedNodes[index].parentSourceIndex);
    }
  }

  /**
   * The reached nodes after the shifts, replayed from the root: the player's location alone
   * before any shift, and after each shift the nodes multiSourceReachableLocations reaches in
   * the shifted graph from the previous reached locations moved by that shift.
   */
  ghost function ReachedAfter(search: Search, instance: SolverInstance, shifts: seq<ShiftAction>): seq<ReachableNode>
    requires search.Valid() && search.ValidInstance(instance)
    requires forall shift :: shift in shifts ==> ShiftDefined(shift.location, search.extent)
    decreases |shifts|
  {
    if shifts == [] then Root(instance).reachedNodes
    else
      var last := shifts[|shifts| - 1];
      var before := ReachedAfter(search, instance, shifts[..|shifts| - 1]);
      search.multiSourceReachable(ApplyShifts(search, (instance.grid, instance.leftover), shifts).0,
                                  TranslatedLocations(before, last.location, search.extent))
  }

  /**
   * The moves chain through the reached nodes: indices[k + 1] picks the node, among those reached
   * after the first k + 1 shifts, that move k goes to, and that node was reached from the source
   * indices[k] picks one shift earlier; indices[0] picks the player's location.
   */
  ghost predicate MovesChain(search: Search, instance: SolverInstance, actions: seq<PlayerAction>, indices: seq<nat>)
    requires search.Valid() && search.ValidInstance(instance)
    requires forall k :: 0 <= k < |actions| ==> ShiftDefined(actions[k].shift.location, search.extent)
  {
    && |indices| == |actions| + 1
    && indices[0] == 0
    && forall k :: 0 <= k < |actions| ==> MoveReached(search, instance, actions, indices, k)
  }

  /** Move k goes to the node indices[k + 1] picks after the first k + 1 shifts, reached from source indices[k]. */
  ghost predicate MoveReached(search: Search, instance: SolverInstance, actions: seq<PlayerAction>, indices: seq<nat>, k: nat)
    requires search.Valid() && search.ValidInstance(instance)
    requires forall k :: 0 <= k < |actions| ==> ShiftDefined(actions[k].shift.location, search.extent)
    requires k < |actions| && |indices| == |actions| + 1
  {
    var reached := ReachedAfter(search, instance, ShiftsOf(actions)[..k + 1]);
    && indices[k + 1] < |reached|
    && reached[indices[k + 1]].parentSourceIndex == indices[k]
    && reached[indices[k + 1]].reachedLocation == actions[k].moveLocation
  }

  /** A move that chains in a sequence of actions still chains once one more action is appended. */
  lemma MoveReachedSnoc(search: Search, instance: SolverInstance, actions: seq<PlayerAction>, indices: seq<nat>,
                        action: PlayerAction, index: nat, k: nat)
    requires search.Valid() && search.ValidInstance(instance)
    requires forall k :: 0 <= k < |actions| ==> ShiftDefined(actions[k].shift.location, search.extent)
    requires ShiftDefined(action.shift.location, search.extent)
    requires k < |actions| && |indices| == |actions| + 1
    requires MoveReached(search, instance, actions, indices, k)
    ensures MoveReached(search, instance, actions + [action], indices + [index], k)
  {
    var more := actions + [action];
    assert ShiftsOf(more)[..k + 1] == ShiftsOf(actions)[..k + 1];
    assert (indices + [index])[k + 1] == indices[k + 1] && (indices + [index])[k] == indices[k] && more[k] == actions[k];
  }

  /**
   * A solution: at least one action, every shift at a shift location of the graph and away from
   * the location opposing the shift before it (the first from the one opposing the previous
   * shift), every move to a location reached after its shift from where the previous move ended
   * (the first from the player's location), and the last move ends on the objective in the graph
   * all shifts lead to.
   */
  ghost predicate Solves(search: Search, instance: SolverInstance, actions: seq<PlayerAction>)
    requires search.Valid() && search.ValidInstance(instance)
  {
    && |actions| > 0
    && (forall k :: 0 <= k < |actions| ==>
          actions[k].shift.location in search.shiftLocations && ShiftDefined(actions[k].shift.location, search.extent))
    && (exists indices :: MovesChain(search, instance, actions, indices))
    && AvoidsOpposing(instance.previousShiftLocation, ShiftsOf(actions), search.extent)
    && var graph := ApplyShifts(search, (instance.grid, instance.leftover), ShiftsOf(actions));
       var target := actions[|actions| - 1].moveLocation;
       IsInside(target, search.extent) && At(graph.0, search.extent, target).nodeId == instance.objectiveId
  }

  /** A reached node of a child state that lies on the objective in the state's graph yields a solution. */
  lemma FoundSolves(search: Search, instance: SolverInstance, states: seq<GameStateNode>, i: nat, index: nat)
    requires search.Valid() && search.ValidInstance(instance) && StatesValid(search, instance, states)
    requires 0 < i < |states| && index < |states[i].reachedNodes|
    requires IsInside(states[i].reachedNodes[index].reachedLocation, search.extent)
    requires At(GraphOfState(search, instance, states, i).0, search.extent, states[i].reachedNodes[index].reachedLocation).nodeId ==
             instance.objectiveId
    ensures Solves(search, instance, ActionsTo(search, instance, states, i, index))
  {
    var actions := ActionsTo(search, instance, states, i, index);
    var shifts := PathShifts(search, instance, states, i);
    ActionsFollowPath(search, instance, states, i, index);
    assert ShiftsOf(actions) == shifts;
    GraphOfStateReplays(search, instance, states, i);
    PathAvoidsOpposing(search, instance, states, i);
    forall k | 0 <= k < |actions|
      ensures actions[k].shift.location in search.shiftLocations && ShiftDefined(actions[k].shift.location, search.extent)
    {
      assert actions[k].shift == shifts[k];
    }
    assert actions[|actions| - 1].moveLocation == states[i].reachedNodes[index].reachedLocation;
    ChainHolds(search, instance, states, i, index);
    assert MovesChain(search, instance, actions, ChainIndices(search, instance, states, i, index));
  }

  /** Every state holds the nodes reached after the shifts on the path to it. */
  lemma {:induction false} StateReached(search: Search, instance: SolverInstance, states: seq<GameStateNode>, i: nat)
    requires StatesValid(search, instance, states) && i < |states|
    ensures states[i].reachedNodes == ReachedAfter(search, instance, PathShifts(search, instance, states, i))
    decreases i
  {
    if states[i].parent.Some? {
      assert Linked(search, states, i);
      var p := states[i].parent.value;
      StateReached(search, instance, states, p);
      GraphOfStateReplays(search, instance, states, i);
      var shifts := PathShifts(search, instance, states, i);
      assert shifts[..|shifts| - 1] == PathShifts(search, instance, states, p);
      assert states[i].reachedNodes == ChildReached(search, instance, states, i);
    } else {
      assert i > 0 ==> Linked(search, states, i);
    }
  }

  /**
   * The reached-node indices from the root to reached node `index` of state i, following the
   * source indices: the root's player location first, `index` last.
   */
  ghost function ChainIndices(search: Search, instance: SolverInstance, states: seq<GameStateNode>, i: nat, index: nat): (indices: seq<nat>)
    requires Arena(search, instance, states) && i < |states| && index < |states[i].reachedNodes|
    ensures |indices| == |PathShifts(search, instance, states, i)| + 1
    ensures indices[0] == 0 && indices[|indices| - 1] == index
    decreases i
  {
    if states[i].parent.None? then
      assert i > 0 ==> Linked(search, states, i);
      [index]
    else
      assert Linked(search, states, i);
      assert states[i].reachedNodes[index] in states[i].reachedNodes;
      ChainIndices(search, instance, states, states[i].parent.value, states[i].reachedNodes[index].parentSourceIndex) + [index]
  }

  /** The actions to a reached node chain through the reached nodes along the source indices. */
  lemma {:induction false} ChainHolds(search: Search, instance: SolverInstance, states: seq<GameStateNode>, i: nat, index: nat)
    requires StatesValid(search, instance, states) && i < |states| && index < |states[i].reachedNodes|
    ensures MovesChain(search, instance, ActionsTo(search, instance, states, i, index), ChainIndices(search, instance, states, i, index))
    decreases i
  {
    if states[i].parent.Some? {
      assert Linked(search, states, i);
      var p := states[i].parent.value;
      var node := states[i].reachedNodes[index];
      assert node in states[i].reachedNodes;
      ChainHolds(search, instance, states, p, node.parentSourceIndex);
      LastMoveReached(search, instance, states, i, index);
      ChainSnoc(search, instance, ActionsTo(search, instance, states, p, node.parentSourceIndex),
                ChainIndices(search, instance, states, p, node.parentSourceIndex),
                PlayerAction(states[i].shift, node.reachedLocation), index);
    } else {
      assert i > 0 ==> Linked(search, states, i);
    }
  }

  /** The last action to a reached node of a child state goes to that node, reached from its source in the parent. */
  lemma LastMoveReached(search: Search, instance: SolverInstance, states: seq<GameStateNode>, i: nat, index: nat)
    requires StatesValid(search, instance, states) && 0 < i < |states| && index < |states[i].reachedNodes|
    ensures var actions := ActionsTo(search, instance, states, i, index);
            MoveReached(search, instance, actions, ChainIndices(search, instance, states, i, index), |actions| - 1)
  {
    assert Linked(search, states, i);
    var actions := ActionsTo(search, instance, states, i, index);
    var node := states[i].reachedNodes[index];
    assert node in states[i].reachedNodes;
    var beforeIndices := ChainIndices(search, instance, states, states[i].parent.value, node.parentSourceIndex);
    assert ChainIndices(search, instance, states, i, index) == beforeIndices + [index];
    ActionsFollowPath(search, instance, states, i, index);
    StateReached(search, instance, states, i);
    assert ShiftsOf(actions)[..|actions|] == ShiftsOf(actions);
  }

  /** A chain of moves followed by one more move that chains is a chain one longer. */
  lemma ChainSnoc(search: Search, instance: SolverInstance, actions: seq<PlayerAction>, indices: seq<nat>,
                  action: PlayerAction, index: nat)
    requires search.Valid() && search.ValidInstance(instance)
    requires forall k :: 0 <= k < |actions| ==> ShiftDefined(actions[k].shift.location, search.extent)
    requires ShiftDefined(action.shift.location, search.extent)
    requires MovesChain(search, instance, actions, indices)
    requires MoveReached(search, instance, actions + [action], indices + [index], |actions|)
    ensures MovesChain(search, instance, actions + [action], indices + [index])
  {
    forall k | 0 <= k < |actions|
      ensures MoveReached(search, instance, actions + [action], indices + [index], k)
    {
      MoveReachedSnoc(search, instance, actions, indices, action, index, k);
    }
  }

  /** The reached locations after the shift at shiftLocation, in the same order. */
  function TranslatedLocations(reached: seq<ReachableNode>, shiftLocation: Location, extent: nat): (r: seq<Location>)
    requires extent > 0
  {
    seq(|reached|, k requires 0 <= k < |reached| => TranslateLocationByShift(reached[k].reachedLocation, shiftLocation, extent))
  }

  /** After a shift every reached location that was inside is still inside. */
  lemma TranslatedInside(grid: Grid, reached: seq<ReachableNode>, shiftLocation: Location, extent: nat)
    requires IsGrid(grid, extent) && ShiftDefined(shiftLocation, extent)
    requires forall r :: r in reached ==> IsInside(r.reachedLocation, extent)
    ensures forall k :: 0 <= k < |reached| ==> IsInside(TranslatedLocations(reached, shiftLocation, extent)[k], extent)
  {
    forall k | 0 <= k < |reached|
      ensures IsInside(TranslatedLocations(reached, shiftLocation, extent)[k], extent)
    {
      assert reached[k] in reached;
      TranslateShifted(grid, extent, shiftLocation, Node(0, 0, 0), reached[k].reachedLocation);
    }
  }

  /** determineReachedLocations: each reached location moved by translateLocationByShift, count and order kept. */
  method DetermineReachedLocations(state: GameStateNode, extent: nat, shiftLocation: Location) returns (locations: seq<Location>)
    requires extent > 0
    ensures |locations| == |state.reachedNodes|
    ensures forall k :: 0 <= k < |locations| ==>
              locations[k] == TranslateLocationByShift(state.reachedNodes[k].reachedLocation, shiftLocation, extent)
  {
    locations := [];
    var k := 0;
    while k < |state.reachedNodes|
      invariant k <= |state.reachedNodes| && |locations| == k
      invariant forall j :: 0 <= j < k ==>
                  locations[j] == TranslateLocationByShift(state.reachedNodes[j].reachedLocation, shiftLocation, extent)
    {
      locations := locations + [TranslateLocationByShift(state.reachedNodes[k].reachedLocation, shiftLocation, extent)];
      k := k + 1;
    }
  }

  /** createNewState: a child of state `current` whose reached nodes are those reachable from the translated locations. */
  method CreateNewState(search: Search, shiftedGrid: Grid, shift: ShiftAction, current: nat, currentState: GameStateNode)
    returns (newState: GameStateNode)
    requires search.extent > 0
    ensures newState == GameStateNode(Some(current), shift,
              search.multiSourceReachable(shiftedGrid, TranslatedLocations(currentState.reachedNodes, shift.location, search.extent)))
  {
    var locations := DetermineReachedLocations(currentState, search.extent, shift.location);
    assert locations == TranslatedLocations(currentState.reachedNodes, shift.location, search.extent);
    newState := GameStateNode(Some(current), shift, search.multiSourceReachable(shiftedGrid, locations));
  }

  /** The shifts in reverse order. */
  function Reversed(shifts: seq<ShiftAction>): (r: seq<ShiftAction>)
    ensures |r| == |shifts| && forall shift :: shift in r <==> shift in shifts
  {
    if shifts == [] then [] else Reversed(shifts[1..]) + [shifts[0]]
  }

  /** Reversing a sequence with one more shift at its end puts that shift first. */
  lemma {:induction false} ReversedSnoc(shifts: seq<ShiftAction>, shift: ShiftAction)
    ensures Reversed(shifts + [shift]) == [shift] + Reversed(shifts)
  {
    if shifts != [] {
      assert (shifts + [shift])[1..] == shifts[1..] + [shift];
      ReversedSnoc(shifts[1..], shift);
    }
  }

  /** createGraphFromState: the base graph with the shifts of the state's non-root ancestors replayed from the root down. */
  method CreateGraphFromState(search: Search, instance: SolverInstance, states: seq<GameStateNode>, current: nat)
    returns (graph: (Grid, Node))
    requires search.Valid() && search.ValidInstance(instance) && StatesValid(search, instance, states) && current < |states|
    ensures graph == GraphOfState(search, instance, states, current)
  {
    var shifts: seq<ShiftAction> := [];
    var cur: nat := current;
    while states[cur].parent.Some?
      invariant cur < |states|
      invariant PathShifts(search, instance, states, current) == PathShifts(search, instance, states, cur) + Reversed(shifts)
      decreases cur
    {
      assert Linked(search, states, cur);
      ReversedSnoc(shifts, states[cur].shift);
      shifts := shifts + [states[cur].shift];
      cur := states[cur].parent.value;
    }
    assert PathShifts(search, instance, states, cur) == [];
    assert Reversed(shifts) == PathShifts(search, instance, states, current);
    graph := (instance.grid, instance.leftover);
    var k := |shifts|;
    while k > 0
      invariant 0 <= k <= |shifts| && IsGrid(graph.0, search.extent)
      invariant graph == ApplyShifts(search, (instance.grid, instance.leftover), Reversed(shifts[k..]))
    {
      k := k - 1;
      assert shifts[k..][1..] == shifts[k + 1..];
      graph := GraphShift(graph.0, graph.1, search.extent, shifts[k].location, shifts[k].rotation);
    }
    assert shifts[0..] == shifts;
    assert graph == ApplyShifts(search, (instance.grid, instance.leftover), PathShifts(search, instance, states, current));
    GraphOfStateReplays(search, instance, states, current);
  }

  /** std::reverse on the collected actions. */
  method Reverse(s: seq<PlayerAction>) returns (r: seq<PlayerAction>)
    ensures |r| == |s| && forall k :: 0 <= k < |s| ==> r[k] == s[|s| - 1 - k]
  {
    r := [];
    var k := |s|;
    while k > 0
      invariant 0 <= k <= |s| && |r| == |s| - k
      invariant forall j :: 0 <= j < |r| ==> r[j] == s[|s| - 1 - j]
    {
      k := k - 1;
      r := r + [s[k]];
    }
  }

  /** reconstructActions: follows the parent and source-index chain up to the root and puts the actions root first. */
  method ReconstructActions(search: Search, instance: SolverInstance, states: seq<GameStateNode>, newState: nat, reachableIndex: nat)
    returns (actions: seq<PlayerAction>)
    requires Arena(search, instance, states) && newState < |states| && reachableIndex < |states[newState].reachedNodes|
    ensures actions == ActionsTo(search, instance, states, newState, reachableIndex)
  {
    var cur: nat := newState;
    var index: nat := reachableIndex;
    var collected: seq<PlayerAction> := [];
    ghost var later: seq<PlayerAction> := [];
    while states[cur].parent.Some?
      invariant cur < |states| && index < |states[cur].reachedNodes| && |later| == |collected|
      invariant forall k :: 0 <= k < |collected| ==> later[k] == collected[|collected| - 1 - k]
      invariant ActionsTo(search, instance, states, newState, reachableIndex) == ActionsTo(search, instance, states, cur, index) + later
      decreases cur
    {
      assert Linked(search, states, cur);
      assert states[cur].reachedNodes[index] in states[cur].reachedNodes;
      var action := PlayerAction(states[cur].shift, states[cur].reachedNodes[index].reachedLocation);
      collected := collected + [action];
      later := [action] + later;
      index := states[cur].reachedNodes[index].parentSourceIndex;
      cur := states[cur].parent.value;
    }
    actions := Reverse(collected);
    assert actions == later;
  }

  /** The find_if of findBestActions: the first reached node from `from` on whose location holds the objective. */
  function FindObjective(grid: Grid, extent: nat, reached: seq<ReachableNode>, objectiveId: int, from: nat): (r: Option<nat>)
    requires IsGrid(grid, extent) && forall n :: n in reached ==> IsInside(n.reachedLocation, extent)
    ensures r.Some? ==> from <= r.value < |reached| && At(grid, extent, reached[r.value].reachedLocation).nodeId == objectiveId
    ensures forall k :: from <= k < |reached| && (r.None? || k < r.value) ==>
              At(grid, extent, reached[k].reachedLocation).nodeId != objectiveId
    decreases |reached| - from
  {
    if from >= |reached| then None
    else
      assert reached[from] in reached;
      if At(grid, extent, reached[from].reachedLocation).nodeId == objectiveId then Some(from)
      else FindObjective(grid, extent, reached, objectiveId, from + 1)
  }

  /** The states from index `from` on were made, in creation order, with exactly the given shifts. */
  predicate MadeShifts(states: seq<GameStateNode>, from: nat, shifts: seq<ShiftAction>) {
    |states| == from + |shifts| && forall k :: 0 <= k < |shifts| ==> states[from + k].shift == shifts[k]
  }

  /** The shifts at one location, one per rotation, in the order of the rotations. */
  function RotationShifts(location: Location, rotations: seq<int>): (shifts: seq<ShiftAction>)
    ensures |shifts| == |rotations| && forall k :: 0 <= k < |shifts| ==> shifts[k] == ShiftAction(location, rotations[k])
  {
    seq(|rotations|, k requires 0 <= k < |rotations| => ShiftAction(location, rotations[k]))
  }

  /**
   * The shifts findBestActions tries from a state, over the first j shift locations: every
   * location except the invalid one, each with every rotation, location by location.
   */
  function ChildShifts(locations: seq<Location>, j: nat, invalid: Location, rotations: seq<int>): seq<ShiftAction>
    requires j <= |locations|
  {
    if j == 0 then []
    else ChildShifts(locations, j - 1, invalid, rotations) +
         (if locations[j - 1] == invalid then [] else RotationShifts(locations[j - 1], rotations))
  }

  /**
   * The states from index `from` on were made, in creation order, with the first shifts of the
   * given ones, at least one of them.
   */
  predicate MadeShiftsPrefix(states: seq<GameStateNode>, from: nat, shifts: seq<ShiftAction>) {
    from < |states| <= from + |shifts| && forall k :: 0 <= k < |states| - from ==> states[from + k].shift == shifts[k]
  }

  /** The shifts tried over the first j shift locations begin the shifts tried over the first n. */
  lemma {:induction false} ChildShiftsPrefix(locations: seq<Location>, j: nat, n: nat, invalid: Location, rotations: seq<int>)
    requires j <= n <= |locations|
    ensures |ChildShifts(locations, j, invalid, rotations)| <= |ChildShifts(locations, n, invalid, rotations)|
    ensures ChildShifts(locations, j, invalid, rotations) ==
            ChildShifts(locations, n, invalid, rotations)[..|ChildShifts(locations, j, invalid, rotations)|]
    decreases n
  {
    if j < n {
      ChildShiftsPrefix(locations, j, n - 1, invalid, rotations);
    }
  }

  /** A prefix of some shifts is a prefix of any longer shifts that begin with them. */
  lemma MadeShiftsPrefixLonger(states: seq<GameStateNode>, from: nat, shifts: seq<ShiftAction>, longer: seq<ShiftAction>)
    requires MadeShiftsPrefix(states, from, shifts) && |shifts| <= |longer| && shifts == longer[..|shifts|]
    ensures MadeShiftsPrefix(states, from, longer)
  {
    forall k | 0 <= k < |states| - from
      ensures states[from + k].shift == longer[k]
    {
      assert shifts[k] == longer[k];
    }
  }

  /** All of some shifts followed by a prefix of others make a prefix of the two together. */
  lemma MadeShiftsPrefixSplit(states: seq<GameStateNode>, middle: seq<GameStateNode>, more: seq<GameStateNode>,
                              earlier: seq<ShiftAction>, later: seq<ShiftAction>)
    requires Extends(states, middle) && Extends(middle, more)
    requires MadeShifts(middle, |states|, earlier) && MadeShiftsPrefix(more, |middle|, later)
    ensures MadeShiftsPrefix(more, |states|, earlier + later)
  {
    forall k | 0 <= k < |more| - |states|
      ensures more[|states| + k].shift == (earlier + later)[k]
    {
      if k < |earlier| {
        assert more[|states| + k] == middle[|states| + k];
      } else {
        assert more[|middle| + (k - |earlier|)].shift == later[k - |earlier|];
      }
    }
  }

  /** The shifts made since an arena began are those made before an intermediate one followed by those made since. */
  lemma MadeShiftsSplit(states: seq<GameStateNode>, middle: seq<GameStateNode>, more: seq<GameStateNode>,
                        earlier: seq<ShiftAction>, later: seq<ShiftAction>)
    requires Extends(states, middle) && Extends(middle, more)
    requires MadeShifts(middle, |states|, earlier) && MadeShifts(more, |middle|, later)
    ensures Extends(states, more) && MadeShifts(more, |states|, earlier + later)
  {
    forall k | 0 <= k < |earlier|
      ensures more[|states| + k].shift == earlier[k]
    {
      assert more[|states| + k] == middle[|states| + k];
    }
  }

  /**
   * A new child of state `current`, made as createNewState makes it from the current state's
   * graph shifted by the child's shift, keeps the arena valid.
   */
  lemma AddChild(search: Search, instance: SolverInstance, states: seq<GameStateNode>, current: nat,
                 shift: ShiftAction, shiftedGrid: Grid)
    requires StatesValid(search, instance, states) && current < |states|
    requires shift.location in search.shiftLocations && ShiftDefined(shift.location, search.extent)
    requires shift.location != OpposingShiftLocation(states[current].shift.location, search.extent)
    requires 0 <= shift.rotation <= 3
    requires var graph := GraphOfState(search, instance, states, current);
             shiftedGrid == GraphShift(graph.0, graph.1, search.extent, shift.location, shift.rotation).0
    ensures var child := GameStateNode(Some(current), shift,
              search.multiSourceReachable(shiftedGrid, TranslatedLocations(states[current].reachedNodes, shift.location, search.extent)));
            StatesValid(search, instance, states + [child]) && Extends(states, states + [child])
  {
    var sources := TranslatedLocations(states[current].reachedNodes, shift.location, search.extent);
    var child := GameStateNode(Some(current), shift, search.multiSourceReachable(shiftedGrid, sources));
    var more := states + [child];
    AddChildShaped(search, instance, states, current, child, shiftedGrid);
    forall i | 0 < i < |more|
      ensures more[i].reachedNodes == ChildReached(search, instance, more, i)
    {
      assert Linked(search, more, i);
      if i < |states| {
        EarlierChildReached(search, instance, states, more, i);
      } else {
        ExtendsAgrees(search, instance, states, more, current);
      }
    }
  }

  /** A child state of an arena holds in a longer arena the nodes it held in the first. */
  lemma EarlierChildReached(search: Search, instance: SolverInstance, states: seq<GameStateNode>, more: seq<GameStateNode>, i: nat)
    requires StatesValid(search, instance, states) && Arena(search, instance, more) && Extends(states, more)
    requires 0 < i < |states|
    ensures more[i].reachedNodes == ChildReached(search, instance, more, i)
  {
    assert states[i].reachedNodes == ChildReached(search, instance, states, i);
    assert Linked(search, states, i);
    ExtendsAgrees(search, instance, states, more, i);
    assert more[i] == states[i] && more[states[i].parent.value] == states[states[i].parent.value];
  }

  /** A linked child whose reached locations lie inside keeps the arena well shaped. */
  lemma AddChildShaped(search: Search, instance: SolverInstance, states: seq<GameStateNode>, current: nat,
                        child: GameStateNode, shiftedGrid: Grid)
    requires StatesValid(search, instance, states) && current < |states|
    requires child.parent == Some(current)
    requires child.shift.location in search.shiftLocations && ShiftDefined(child.shift.location, search.extent)
    requires child.shift.location != OpposingShiftLocation(states[current].shift.location, search.extent)
    requires 0 <= child.shift.rotation <= 3 && IsGrid(shiftedGrid, search.extent)
    requires child.reachedNodes ==
             search.multiSourceReachable(shiftedGrid, TranslatedLocations(states[current].reachedNodes, child.shift.location, search.extent))
    ensures Arena(search, instance, states + [child]) && Extends(states, states + [child])
  {
    var more := states + [child];
    assert ReachedInside(search, states[current]);
    TranslatedInside(shiftedGrid, states[current].reachedNodes, child.shift.location, search.extent);
    assert ReachedInside(search, child);
    assert Linked(search, more, |states|);
    forall i | 0 < i < |more|
      ensures Linked(search, more, i)
    {
      if i < |states| {
        assert Linked(search, states, i);
        assert more[i] == states[i] && more[states[i].parent.value] == states[states[i].parent.value];
      }
    }
    forall i | 0 <= i < |more|
      ensures ReachedInside(search, more[i])
    {
      if i < |states| {
        assert more[i] == states[i];
      }
    }
  }

  /** The last state created has reached node `index` on the objective, in the graph of that state. */
  ghost predicate ReachesObjective(search: Search, instance: SolverInstance, states: seq<GameStateNode>, index: nat)
    requires StatesValid(search, instance, states)
  {
    && |states| > 1
    && index < |states[|states| - 1].reachedNodes|
    && var location := states[|states| - 1].reachedNodes[index].reachedLocation;
       IsInside(location, search.extent) &&
       At(GraphOfState(search, instance, states, |states| - 1).0, search.extent, location).nodeId == instance.objectiveId
  }

  /** The last state created has reached node `index` on the objective, and no reached node before it is on the objective. */
  ghost predicate FirstOnObjective(search: Search, instance: SolverInstance, states: seq<GameStateNode>, index: nat)
    requires StatesValid(search, instance, states)
  {
    && ReachesObjective(search, instance, states, index)
    && var reached := states[|states| - 1].reachedNodes;
       var grid := GraphOfState(search, instance, states, |states| - 1).0;
       forall k :: 0 <= k < index ==> At(grid, search.extent, reached[k].reachedLocation).nodeId != instance.objectiveId
  }

  /** No node reached in state i is on the objective, in the graph of that state. */
  ghost predicate Misses(search: Search, instance: SolverInstance, states: seq<GameStateNode>, i: nat)
    requires StatesValid(search, instance, states) && i < |states|
  {
    assert ReachedInside(search, states[i]);
    forall n :: n in states[i].reachedNodes ==>
      At(GraphOfState(search, instance, states, i).0, search.extent, n.reachedLocation).nodeId != instance.objectiveId
  }

  /** None of the states from..to-1 has a reached node on the objective. */
  ghost predicate NoneReach(search: Search, instance: SolverInstance, states: seq<GameStateNode>, from: nat, to: nat)
    requires StatesValid(search, instance, states) && to <= |states|
  {
    forall i {:trigger Misses(search, instance, states, i)} :: from <= i < to ==> Misses(search, instance, states, i)
  }

  /** States that missed the objective in an arena miss it in a longer arena. */
  lemma NoneReachExtends(search: Search, instance: SolverInstance, states: seq<GameStateNode>, more: seq<GameStateNode>,
                         from: nat, to: nat)
    requires StatesValid(search, instance, states) && StatesValid(search, instance, more) && Extends(states, more)
    requires to <= |states| && NoneReach(search, instance, states, from, to)
    ensures NoneReach(search, instance, more, from, to)
  {
    forall i | from <= i < to
      ensures Misses(search, instance, more, i)
    {
      assert Misses(search, instance, states, i);
      ExtendsAgrees(search, instance, states, more, i);
      assert more[i] == states[i];
    }
  }

  /** After one more state, the states that missed before still miss, and so does the new one if it misses. */
  lemma NoneReachSnoc(search: Search, instance: SolverInstance, states: seq<GameStateNode>, more: seq<GameStateNode>,
                      from: nat, missed: bool)
    requires StatesValid(search, instance, states) && StatesValid(search, instance, more) && Extends(states, more)
    requires from <= |states| && |more| == |states| + 1 && NoneReach(search, instance, states, from, |states|)
    requires missed ==> Misses(search, instance, more, |states|)
    ensures NoneReach(search, instance, more, from, if missed then |more| else |states|)
  {
    NoneReachExtends(search, instance, states, more, from, |states|);
  }

  /** Two adjacent ranges of missing states make one. */
  lemma NoneReachJoin(search: Search, instance: SolverInstance, states: seq<GameStateNode>, from: nat, middle: nat, to: nat)
    requires StatesValid(search, instance, states) && from <= middle <= to <= |states|
    requires NoneReach(search, instance, states, from, middle) && NoneReach(search, instance, states, middle, to)
    ensures NoneReach(search, instance, states, from, to)
  {
    forall i | from <= i < to
      ensures Misses(search, instance, states, i)
    {
    }
  }

  /**
   * The body of the rotation loop of findBestActions: shiftedGraph, createNewState and the
   * find_if for the objective among the new state's reached nodes.
   */
  method AddChildState(search: Search, instance: SolverInstance, states: seq<GameStateNode>, current: nat,
                       graph: (Grid, Node), shift: ShiftAction)
    returns (found: Option<nat>, newStates: seq<GameStateNode>)
    requires search.Valid() && search.ValidInstance(instance) && StatesValid(search, instance, states) && current < |states|
    requires graph == GraphOfState(search, instance, states, current)
    requires shift.location in search.shiftLocations && ShiftDefined(shift.location, search.extent)
    requires shift.location != OpposingShiftLocation(states[current].shift.location, search.extent)
    requires 0 <= shift.rotation <= 3
    ensures StatesValid(search, instance, newStates) && Extends(states, newStates) && |newStates| == |states| + 1
    ensures newStates[|states|].parent == Some(current) && newStates[|states|].shift == shift
    ensures GraphOfState(search, instance, newStates, |states|) == GraphShift(graph.0, graph.1, search.extent, shift.location, shift.rotation)
    ensures newStates[|states|].reachedNodes ==
              search.multiSourceReachable(GraphOfState(search, instance, newStates, |states|).0,
                                          TranslatedLocations(states[current].reachedNodes, shift.location, search.extent))
    ensures found.Some? ==> FirstOnObjective(search, instance, newStates, found.value)
    ensures found.None? ==> Misses(search, instance, newStates, |states|)
  {
    var shifted := GraphShift(graph.0, graph.1, search.extent, shift.location, shift.rotation);
    var state := CreateNewState(search, shifted.0, shift, current, states[current]);
    AddChild(search, instance, states, current, shift, shifted.0);
    newStates := states + [state];
    ExtendsAgrees(search, instance, states, newStates, current);
    assert Linked(search, newStates, |states|);
    assert ReachedInside(search, newStates[|states|]);
    found := FindObjective(shifted.0, search.extent, state.reachedNodes, instance.objectiveId, 0);
    if found.Some? {
      assert state.reachedNodes[found.value] in state.reachedNodes;
    }
  }

  /**
   * The loop over the rotations of findBestActions at one shift location: adds one child of
   * state `current` per rotation and stops at the first child that reaches the objective, with
   * the actions to it.
   */
  method TryRotations(search: Search, instance: SolverInstance, states: seq<GameStateNode>, current: nat,
                      graph: (Grid, Node), location: Location)
    returns (found: Option<nat>, newStates: seq<GameStateNode>, added: seq<nat>)
    requires search.Valid() && search.ValidInstance(instance) && StatesValid(search, instance, states) && current < |states|
    requires graph == GraphOfState(search, instance, states, current)
    requires location in search.shiftLocations && ShiftDefined(location, search.extent)
    requires location != OpposingShiftLocation(states[current].shift.location, search.extent)
    ensures StatesValid(search, instance, newStates) && Extends(states, newStates)
    ensures forall k :: |states| <= k < |newStates| ==> newStates[k].parent == Some(current)
    ensures found.Some? ==> FirstOnObjective(search, instance, newStates, found.value)
    ensures found.Some? ==> MadeShiftsPrefix(newStates, |states|, RotationShifts(location, DetermineRotations(graph.1)))
    ensures found.Some? ==> NoneReach(search, instance, newStates, |states|, |newStates| - 1)
    ensures found.None? ==> MadeShifts(newStates, |states|, RotationShifts(location, DetermineRotations(graph.1)))
    ensures found.None? ==> NoneReach(search, instance, newStates, |states|, |newStates|)
    ensures found.None? ==> |added| == |newStates| - |states| && forall k :: 0 <= k < |added| ==> added[k] == |states| + k
  {
    var rotations := DetermineRotations(graph.1);
    newStates := states;
    added := [];
    found := None;
    var r := 0;
    while r < |rotations|
      invariant r <= |rotations| && |newStates| == |states| + r && |added| == r && found.None?
      invariant StatesValid(search, instance, newStates) && Extends(states, newStates)
      invariant forall k :: |states| <= k < |newStates| ==>
                  newStates[k].parent == Some(current) && newStates[k].shift == ShiftAction(location, rotations[k - |states|])
      invariant forall k :: 0 <= k < r ==> added[k] == |states| + k
      invariant NoneReach(search, instance, newStates, |states|, |newStates|)
    {
      ghost var before := newStates;
      found, newStates, added := RotationStep(search, instance, states, current, graph, location, rotations[r], newStates, added);
      if found.Some? {
        assert |newStates| - 1 == |before|;
        return;
      }
      r := r + 1;
    }
  }

  /** One round of the loop over the rotations: the child for rotation r, pushed unless it reaches the objective. */
  method RotationStep(search: Search, instance: SolverInstance, states: seq<GameStateNode>, current: nat,
                      graph: (Grid, Node), location: Location, rotation: int, newStates: seq<GameStateNode>, added: seq<nat>)
    returns (found: Option<nat>, nextStates: seq<GameStateNode>, nextAdded: seq<nat>)
    requires search.Valid() && search.ValidInstance(instance) && StatesValid(search, instance, states) && current < |states|
    requires graph == GraphOfState(search, instance, states, current)
    requires location in search.shiftLocations && ShiftDefined(location, search.extent)
    requires location != OpposingShiftLocation(states[current].shift.location, search.extent)
    requires 0 <= rotation <= 3 && |added| == |newStates| - |states|
    requires StatesValid(search, instance, newStates) && Extends(states, newStates)
    requires forall k :: 0 <= k < |added| ==> added[k] == |states| + k
    requires NoneReach(search, instance, newStates, |states|, |newStates|)
    ensures StatesValid(search, instance, nextStates) && Extends(states, nextStates) && |nextStates| == |newStates| + 1
    ensures forall k :: 0 <= k < |newStates| ==> nextStates[k] == newStates[k]
    ensures nextStates[|newStates|].parent == Some(current)
    ensures nextStates[|newStates|].shift == ShiftAction(location, rotation)
    ensures found.Some? ==> FirstOnObjective(search, instance, nextStates, found.value)
    ensures NoneReach(search, instance, nextStates, |states|, if found.Some? then |newStates| else |nextStates|)
    ensures found.None? ==> |nextAdded| == |nextStates| - |states| && forall k :: 0 <= k < |nextAdded| ==> nextAdded[k] == |states| + k
  {
    ExtendsAgrees(search, instance, states, newStates, current);
    found, nextStates := AddChildState(search, instance, newStates, current, graph, ShiftAction(location, rotation));
    NoneReachSnoc(search, instance, newStates, nextStates, |states|, found.None?);
    var index: nat := |newStates|;
    nextAdded := added + [index];
  }

  /**
   * The expansion of one state in findBestActions: its graph is rebuilt, and every shift
   * location other than the one opposing the state's shift is tried with each rotation, until a
   * child reaches the objective.
   */
  method Expand(search: Search, instance: SolverInstance, states: seq<GameStateNode>, current: nat)
    returns (found: Option<nat>, newStates: seq<GameStateNode>, added: seq<nat>)
    requires search.Valid() && search.ValidInstance(instance) && StatesValid(search, instance, states) && current < |states|
    ensures StatesValid(search, instance, newStates) && Extends(states, newStates)
    ensures forall k :: |states| <= k < |newStates| ==> newStates[k].parent == Some(current)
    ensures found.Some? ==> FirstOnObjective(search, instance, newStates, found.value)
    ensures found.Some? ==>
              MadeShiftsPrefix(newStates, |states|, ChildShifts(search.shiftLocations, |search.shiftLocations|,
                                OpposingShiftLocation(states[current].shift.location, search.extent),
                                DetermineRotations(GraphOfState(search, instance, states, current).1)))
    ensures found.Some? ==> NoneReach(search, instance, newStates, |states|, |newStates| - 1)
    ensures found.None? ==>
              MadeShifts(newStates, |states|, ChildShifts(search.shiftLocations, |search.shiftLocations|,
                          OpposingShiftLocation(states[current].shift.location, search.extent),
                          DetermineRotations(GraphOfState(search, instance, states, current).1)))
    ensures found.None? ==> NoneReach(search, instance, newStates, |states|, |newStates|)
    ensures found.None? ==> |added| == |newStates| - |states| && forall k :: 0 <= k < |added| ==> added[k] == |states| + k
  {
    var graph := CreateGraphFromState(search, instance, states, current);
    found, newStates, added := TryShiftLocations(search, instance, states, current, graph);
  }

  /** The loop of Expand over the shift locations, from the graph of state `current`. */
  method TryShiftLocations(search: Search, instance: SolverInstance, states: seq<GameStateNode>, current: nat, graph: (Grid, Node))
    returns (found: Option<nat>, newStates: seq<GameStateNode>, added: seq<nat>)
    requires search.Valid() && search.ValidInstance(instance) && StatesValid(search, instance, states) && current < |states|
    requires graph == GraphOfState(search, instance, states, current)
    ensures StatesValid(search, instance, newStates) && Extends(states, newStates)
    ensures forall k :: |states| <= k < |newStates| ==> newStates[k].parent == Some(current)
    ensures found.Some? ==> FirstOnObjective(search, instance, newStates, found.value)
    ensures found.Some? ==>
              MadeShiftsPrefix(newStates, |states|, ChildShifts(search.shiftLocations, |search.shiftLocations|,
                                OpposingShiftLocation(states[current].shift.location, search.extent), DetermineRotations(graph.1)))
    ensures found.Some? ==> NoneReach(search, instance, newStates, |states|, |newStates| - 1)
    ensures found.None? ==>
              MadeShifts(newStates, |states|, ChildShifts(search.shiftLocations, |search.shiftLocations|,
                          OpposingShiftLocation(states[current].shift.location, search.extent), DetermineRotations(graph.1)))
    ensures found.None? ==> NoneReach(search, instance, newStates, |states|, |newStates|)
    ensures found.None? ==> |added| == |newStates| - |states| && forall k :: 0 <= k < |added| ==> added[k] == |states| + k
  {
    var invalid := OpposingShiftLocation(states[current].shift.location, search.extent);
    newStates := states;
    added := [];
    found := None;
    var j := 0;
    while j < |search.shiftLocations|
      invariant j <= |search.shiftLocations| && found.None?
      invariant StatesValid(search, instance, newStates) && Extends(states, newStates)
      invariant forall k :: |states| <= k < |newStates| ==> newStates[k].parent == Some(current)
      invariant MadeShifts(newStates, |states|, ChildShifts(search.shiftLocations, j, invalid, DetermineRotations(graph.1)))
      invariant |added| == |newStates| - |states| && forall k :: 0 <= k < |added| ==> added[k] == |states| + k
      invariant NoneReach(search, instance, newStates, |states|, |newStates|)
    {
      found, newStates, added := ShiftLocationStep(search, instance, states, current, graph, j, newStates, added);
      if found.Some? {
        ChildShiftsPrefix(search.shiftLocations, j + 1, |search.shiftLocations|, invalid, DetermineRotations(graph.1));
        MadeShiftsPrefixLonger(newStates, |states|, ChildShifts(search.shiftLocations, j + 1, invalid, DetermineRotations(graph.1)),
                               ChildShifts(search.shiftLocations, |search.shiftLocations|, invalid, DetermineRotations(graph.1)));
        return;
      }
      j := j + 1;
    }
  }

  /** One round of the loop over the shift locations: skips the invalid location, tries every rotation at any other. */
  method ShiftLocationStep(search: Search, instance: SolverInstance, states: seq<GameStateNode>, current: nat, graph: (Grid, Node),
                           j: nat, newStates: seq<GameStateNode>, added: seq<nat>)
    returns (found: Option<nat>, nextStates: seq<GameStateNode>, nextAdded: seq<nat>)
    requires search.Valid() && search.ValidInstance(instance) && StatesValid(search, instance, states) && current < |states|
    requires graph == GraphOfState(search, instance, states, current) && j < |search.shiftLocations|
    requires StatesValid(search, instance, newStates) && Extends(states, newStates)
    requires forall k :: |states| <= k < |newStates| ==> newStates[k].parent == Some(current)
    requires MadeShifts(newStates, |states|, ChildShifts(search.shiftLocations, j,
                                                         OpposingShiftLocation(states[current].shift.location, search.extent),
                                                         DetermineRotations(graph.1)))
    requires |added| == |newStates| - |states| && forall k :: 0 <= k < |added| ==> added[k] == |states| + k
    requires NoneReach(search, instance, newStates, |states|, |newStates|)
    ensures StatesValid(search, instance, nextStates) && Extends(states, nextStates)
    ensures forall k :: |states| <= k < |nextStates| ==> nextStates[k].parent == Some(current)
    ensures found.Some? ==> FirstOnObjective(search, instance, nextStates, found.value)
    ensures found.Some? ==>
              MadeShiftsPrefix(nextStates, |states|, ChildShifts(search.shiftLocations, j + 1,
                                                                 OpposingShiftLocation(states[current].shift.location, search.extent),
                                                                 DetermineRotations(graph.1)))
    ensures found.Some? ==> NoneReach(search, instance, nextStates, |states|, |nextStates| - 1)
    ensures found.None? ==> NoneReach(search, instance, nextStates, |states|, |nextStates|)
    ensures found.None? ==>
              MadeShifts(nextStates, |states|, ChildShifts(search.shiftLocations, j + 1,
                                                           OpposingShiftLocation(states[current].shift.location, search.extent),
                                                           DetermineRotations(graph.1)))
    ensures found.None? ==> |nextAdded| == |nextStates| - |states| && forall k :: 0 <= k < |nextAdded| ==> nextAdded[k] == |states| + k
  {
    var invalid := OpposingShiftLocation(states[current].shift.location, search.extent);
    found, nextStates, nextAdded := None, newStates, added;
    if search.shiftLocations[j] != invalid {
      ExtendsAgrees(search, instance, states, newStates, current);
      var more;
      found, nextStates, more := TryRotations(search, instance, newStates, current, graph, search.shiftLocations[j]);
      NoneReachExtends(search, instance, newStates, nextStates, |states|, |newStates|);
      if found.Some? {
        MadeShiftsPrefixSplit(states, newStates, nextStates, ChildShifts(search.shiftLocations, j, invalid, DetermineRotations(graph.1)),
                              RotationShifts(search.shiftLocations[j], DetermineRotations(graph.1)));
        NoneReachJoin(search, instance, nextStates, |states|, |newStates|, |nextStates| - 1);
        return;
      }
      NoneReachJoin(search, instance, nextStates, |states|, |newStates|, |nextStates|);
      MadeShiftsSplit(states, newStates, nextStates, ChildShifts(search.shiftLocations, j, invalid, DetermineRotations(graph.1)),
                      RotationShifts(search.shiftLocations[j], DetermineRotations(graph.1)));
      nextAdded := added + more;
    }
  }

  /** The indices from..to-1, in order. */
  function Range(from: nat, to: nat): (r: seq<nat>)
    requires from <= to
    ensures |r| == to - from && forall k :: 0 <= k < |r| ==> r[k] == from + k
  {
    seq(to - from, k requires 0 <= k < to - from => from + k)
  }

  /** The indices listed one by one from `from` are Range(from, to). */
  lemma RangeOf(indices: seq<nat>, from: nat, to: nat)
    requires from <= to && |indices| == to - from && forall k :: 0 <= k < |indices| ==> indices[k] == from + k
    ensures indices == Range(from, to)
  {
  }

  /** Two adjacent ranges make one. */
  lemma RangeJoin(from: nat, middle: nat, to: nat)
    requires from <= middle <= to
    ensures Range(from, middle) + Range(middle, to) == Range(from, to)
  {
    RangeOf(Range(from, middle) + Range(middle, to), from, to);
  }

  /** The states are expanded in nondecreasing depth. */
  predicate Nondecreasing(depths: seq<nat>) {
    forall a, b :: 0 <= a < b < |depths| ==> depths[a] <= depths[b]
  }

  /**
   * The queue of findBestActions: indices of states, in nondecreasing depth, spanning at most
   * one level, none shallower than the last state expanded.
   */
  ghost predicate QueueOrdered(search: Search, instance: SolverInstance, states: seq<GameStateNode>, queue: seq<nat>, last: nat)
    requires StatesValid(search, instance, states)
  {
    && (forall k :: 0 <= k < |queue| ==> queue[k] < |states|)
    && (forall k :: 0 <= k < |queue| ==> last <= Depth(search, instance, states, queue[k]))
    && (forall a, b :: 0 <= a < b < |queue| ==>
          Depth(search, instance, states, queue[a]) <= Depth(search, instance, states, queue[b]) <=
          Depth(search, instance, states, queue[a]) + 1)
  }

  /** After expanding the first state of an ordered queue, the rest followed by its children is ordered again. */
  lemma QueueStep(search: Search, instance: SolverInstance, states: seq<GameStateNode>, newStates: seq<GameStateNode>,
                  queue: seq<nat>, last: nat, children: seq<nat>)
    requires search.Valid() && search.ValidInstance(instance)
    requires StatesValid(search, instance, states) && StatesValid(search, instance, newStates) && Extends(states, newStates)
    requires |queue| > 0 && QueueOrdered(search, instance, states, queue, last)
    requires forall k :: |states| <= k < |newStates| ==> newStates[k].parent == Some(queue[0])
    requires |children| == |newStates| - |states| && forall k :: 0 <= k < |children| ==> children[k] == |states| + k
    ensures QueueOrdered(search, instance, newStates, queue[1..] + children, Depth(search, instance, states, queue[0]))
  {
    var d := Depth(search, instance, states, queue[0]);
    var next := queue[1..] + children;
    forall k | 0 <= k < |next|
      ensures next[k] < |newStates|
      ensures Depth(search, instance, newStates, next[k]) == if k < |queue| - 1 then Depth(search, instance, states, queue[k + 1]) else d + 1
    {
      if k < |queue| - 1 {
        assert next[k] == queue[k + 1];
        ExtendsAgrees(search, instance, states, newStates, queue[k + 1]);
      } else {
        var c := next[k];
        assert c == |states| + (k - (|queue| - 1));
        assert Linked(search, newStates, c);
        ExtendsAgrees(search, instance, states, newStates, queue[0]);
        assert PathShifts(search, instance, newStates, c) == PathShifts(search, instance, newStates, queue[0]) + [newStates[c].shift];
      }
    }
    forall k | 1 <= k < |queue|
      ensures d <= Depth(search, instance, states, queue[k]) <= d + 1
    {
      assert 0 < k;
    }
  }

  /**
   * One round of the loop of findBestActions: the state at the front of the queue is popped and
   * expanded, and its children are pushed unless one of them reaches the objective.
   */
  method ExpandFront(search: Search, instance: SolverInstance, states: seq<GameStateNode>, queue: seq<nat>, ghost last: nat)
    returns (found: Option<nat>, newStates: seq<GameStateNode>, newQueue: seq<nat>, ghost depth: nat)
    requires search.Valid() && search.ValidInstance(instance) && StatesValid(search, instance, states)
    requires |queue| > 0 && QueueOrdered(search, instance, states, queue, last)
    ensures StatesValid(search, instance, newStates) && Extends(states, newStates) && last <= depth
    ensures depth == Depth(search, instance, states, queue[0])
    ensures found.Some? ==> FoundAfter(search, instance, states, newStates, found.value, depth)
    ensures found.None? ==> NoneReach(search, instance, newStates, |states|, |newStates|)
    ensures found.None? ==> newQueue == queue[1..] + Range(|states|, |newStates|)
    ensures found.None? ==> QueueOrdered(search, instance, newStates, newQueue, depth)
  {
    var current := queue[0];
    depth := Depth(search, instance, states, current);
    var added;
    found, newStates, added := Expand(search, instance, states, current);
    newQueue := queue[1..];
    if found.None? {
      QueueStep(search, instance, states, newStates, queue, last, added);
      newQueue := newQueue + added;
      RangeOf(added, |states|, |newStates|);
    } else {
      ChildDepth(search, instance, states, newStates, current, |newStates| - 1);
    }
  }

  /**
   * An expansion of a state at the given depth created the states after `states`, the last of
   * them reaches the objective first at reached node `index`, one level deeper, and none of the
   * others has a reached node on the objective.
   */
  ghost predicate FoundAfter(search: Search, instance: SolverInstance, states: seq<GameStateNode>, newStates: seq<GameStateNode>,
                             index: nat, depth: nat)
    requires StatesValid(search, instance, states) && StatesValid(search, instance, newStates)
  {
    && |states| < |newStates|
    && FirstOnObjective(search, instance, newStates, index)
    && Depth(search, instance, newStates, |newStates| - 1) == depth + 1
    && NoneReach(search, instance, newStates, |states|, |newStates| - 1)
  }

  /** A child of state `current` created after an arena is one level deeper than `current`. */
  lemma ChildDepth(search: Search, instance: SolverInstance, states: seq<GameStateNode>, newStates: seq<GameStateNode>,
                   current: nat, c: nat)
    requires search.Valid() && search.ValidInstance(instance)
    requires StatesValid(search, instance, states) && StatesValid(search, instance, newStates) && Extends(states, newStates)
    requires current < |states| <= c < |newStates| && newStates[c].parent == Some(current)
    ensures Depth(search, instance, newStates, c) == Depth(search, instance, states, current) + 1
  {
    assert Linked(search, newStates, c);
    ExtendsAgrees(search, instance, states, newStates, current);
    assert PathShifts(search, instance, newStates, c) == PathShifts(search, instance, newStates, current) + [newStates[c].shift];
  }

  /**
   * findBestActions: a breadth-first search over the states, starting from the root. State
   * `round` is expanded unless aborted(round) holds, and the search is aborted at the latest at
   * round `limit`. The result is empty when no solution was found, otherwise the actions that
   * reach the objective. `arena` holds the states created, in creation order; state k, for k
   * below |expanded|, was the k-th one expanded, and expanded[k] is its depth. Apart from the
   * root, which is never tested, no state created before the last one reaches the objective;
   * the actions lead to the first reached node of the last state that is on the objective.
   */
  method FindBestActions(search: Search, instance: SolverInstance, aborted: nat -> bool, limit: nat)
    returns (actions: seq<PlayerAction>, ghost expanded: seq<nat>, ghost arena: seq<GameStateNode>)
    requires search.Valid() && search.ValidInstance(instance) && aborted(limit)
    ensures actions != [] ==> Solves(search, instance, actions)
    ensures |expanded| <= limit && Nondecreasing(expanded)
    ensures StatesValid(search, instance, arena) && |expanded| <= |arena|
    ensures forall k :: 0 <= k < |expanded| ==> expanded[k] == Depth(search, instance, arena, k)
    ensures actions != [] ==>
              && |arena| > 1
              && NoneReach(search, instance, arena, 1, |arena| - 1)
              && (exists index :: FirstOnObjective(search, instance, arena, index) &&
                                  actions == ActionsTo(search, instance, arena, |arena| - 1, index))
    ensures actions != [] ==> forall k :: 0 <= k < |expanded| ==> expanded[k] < |actions|
    ensures actions == [] ==> NoneReach(search, instance, arena, 1, |arena|)
  {
    var states := [Root(instance)];
    var queue: seq<nat> := [0];
    var round := 0;
    expanded := [];
    ghost var last := 0;
    RootExplored(search, instance);
    while queue != [] && !aborted(round)
      invariant round <= limit && |expanded| == round
      invariant StatesValid(search, instance, states)
      invariant QueueOrdered(search, instance, states, queue, last)
      invariant round <= |states| && queue == Range(round, |states|)
      invariant Explored(search, instance, states, expanded, last)
      decreases limit - round
    {
      var found, newStates, newQueue, depth := ExpandFront(search, instance, states, queue, last);
      if found.Some? {
        actions := FoundActions(search, instance, states, newStates, found.value, expanded, last, depth);
        ExploredMeans(search, instance, states, expanded, last);
        arena := newStates;
        return;
      }
      NextRound(search, instance, states, newStates, round, newQueue, expanded, last, depth);
      states, queue := newStates, newQueue;
      expanded := expanded + [depth];
      last := depth;
      round := round + 1;
    }
    actions := [];
    arena := states;
    ExploredMeans(search, instance, states, expanded, last);
  }

  /**
   * The return of findBestActions when an expansion finds the objective: reconstructActions on
   * the last state. The actions solve the instance, no state but the root and the last was seen
   * to reach the objective, and every state expanded is shallower than the solution.
   */
  method FoundActions(search: Search, instance: SolverInstance, states: seq<GameStateNode>, newStates: seq<GameStateNode>,
                      index: nat, ghost expanded: seq<nat>, ghost last: nat, ghost depth: nat)
    returns (actions: seq<PlayerAction>)
    requires search.Valid() && search.ValidInstance(instance)
    requires StatesValid(search, instance, states) && StatesValid(search, instance, newStates) && Extends(states, newStates)
    requires Explored(search, instance, states, expanded, last) && last <= depth
    requires FoundAfter(search, instance, states, newStates, index, depth)
    ensures actions != [] && Solves(search, instance, actions)
    ensures forall k :: 0 <= k < |expanded| ==> expanded[k] == Depth(search, instance, newStates, k)
    ensures |newStates| > 1 && NoneReach(search, instance, newStates, 1, |newStates| - 1)
    ensures exists index :: FirstOnObjective(search, instance, newStates, index) &&
                            actions == ActionsTo(search, instance, newStates, |newStates| - 1, index)
    ensures forall k :: 0 <= k < |expanded| ==> expanded[k] < |actions|
  {
    actions := ReconstructActions(search, instance, newStates, |newStates| - 1, index);
    FoundSolves(search, instance, newStates, |newStates| - 1, index);
    NoneReachExtends(search, instance, states, newStates, 1, |states|);
    NoneReachJoin(search, instance, newStates, 1, |states|, |newStates| - 1);
    DepthsExtend(search, instance, states, newStates, expanded);
  }

  /**
   * What the loop of findBestActions has done so far: state k, for k below |expanded|, was the
   * k-th state expanded and has depth expanded[k], the depths do not decrease and none exceeds
   * `last`, and no state but the root has a reached node on the objective.
   */
  ghost predicate Explored(search: Search, instance: SolverInstance, states: seq<GameStateNode>, expanded: seq<nat>, last: nat)
    requires StatesValid(search, instance, states)
  {
    && |expanded| <= |states|
    && Nondecreasing(expanded) && (forall k :: 0 <= k < |expanded| ==> expanded[k] <= last)
    && (forall k :: 0 <= k < |expanded| ==> expanded[k] == Depth(search, instance, states, k))
    && NoneReach(search, instance, states, 1, |states|)
  }

  /** What Explored says of the expanded states and of the arena. */
  lemma ExploredMeans(search: Search, instance: SolverInstance, states: seq<GameStateNode>, expanded: seq<nat>, last: nat)
    requires StatesValid(search, instance, states) && Explored(search, instance, states, expanded, last)
    ensures Nondecreasing(expanded) && |expanded| <= |states|
    ensures forall k :: 0 <= k < |expanded| ==> expanded[k] == Depth(search, instance, states, k)
    ensures NoneReach(search, instance, states, 1, |states|)
  {
  }

  /** The search starts from the root alone, queued, with nothing expanded. */
  lemma RootExplored(search: Search, instance: SolverInstance)
    requires search.Valid() && search.ValidInstance(instance)
    ensures StatesValid(search, instance, [Root(instance)])
    ensures QueueOrdered(search, instance, [Root(instance)], [0], 0)
    ensures [0] == Range(0, 1) && Explored(search, instance, [Root(instance)], [], 0)
  {
    assert PathShifts(search, instance, [Root(instance)], 0) == [];
    RangeOf([0], 0, 1);
  }

  /** After an expansion that found nothing, the invariant of the loop of findBestActions holds for the next round. */
  lemma NextRound(search: Search, instance: SolverInstance, states: seq<GameStateNode>, newStates: seq<GameStateNode>,
                  round: nat, newQueue: seq<nat>, expanded: seq<nat>, last: nat, depth: nat)
    requires search.Valid() && search.ValidInstance(instance)
    requires StatesValid(search, instance, states) && StatesValid(search, instance, newStates) && Extends(states, newStates)
    requires round < |states| && |expanded| == round && depth == Depth(search, instance, states, round)
    requires Explored(search, instance, states, expanded, last) && last <= depth
    requires NoneReach(search, instance, newStates, |states|, |newStates|)
    requires newQueue == Range(round, |states|)[1..] + Range(|states|, |newStates|)
    ensures Explored(search, instance, newStates, expanded + [depth], depth)
    ensures newQueue == Range(round + 1, |newStates|)
  {
    DepthsExtend(search, instance, states, newStates, expanded + [depth]);
    NoneReachExtends(search, instance, states, newStates, 1, |states|);
    NoneReachJoin(search, instance, newStates, 1, |states|, |newStates|);
    assert Range(round, |states|)[1..] == Range(round + 1, |states|);
    RangeJoin(round + 1, |states|, |newStates|);
  }

  /** The depths of the first states of an arena are the same in a longer arena. */
  lemma DepthsExtend(search: Search, instance: SolverInstance, states: seq<GameStateNode>, more: seq<GameStateNode>,
                     depths: seq<nat>)
    requires search.Valid() && search.ValidInstance(instance)
    requires StatesValid(search, instance, states) && StatesValid(search, instance, more) && Extends(states, more)
    requires |depths| <= |states| && forall k :: 0 <= k < |depths| ==> depths[k] == Depth(search, instance, states, k)
    ensures forall k :: 0 <= k < |depths| ==> depths[k] == Depth(search, instance, more, k)
  {
    forall k | 0 <= k < |depths|
      ensures depths[k] == Depth(search, instance, more, k)
    {
      ExtendsAgrees(search, instance, states, more, k);
    }
  }
}
