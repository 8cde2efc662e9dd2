/**
 * The minimax solver of algolibs/solvers (minimax.cpp): evaluations, the iterator over the
 * children of a game tree node, negamax and iterative deepening.
 *
 * The solver shares one maze graph between all game tree nodes and undoes every shift before the
 * next one; here each node and each child iterator holds its grid and leftover as values, and the
 * iterator proves that its grid is the parent's again once the iteration has ended. The evaluator
 * and reachable::reachableLocations are parameters of a search.
 */
module Minimax {
  import opened Common
  import opened GraphBasics
  import opened SolverMazeGraph

  /** Evaluation: a value from the viewpoint of player 0, and whether the game is decided. */
  datatype Evaluation = Evaluation(value: int, isTerminal: bool) {
    /** operator- */
    function Negate(): (r: Evaluation)
      ensures r.isTerminal == isTerminal
    {
      Evaluation(-value, isTerminal)
    }

    /** operator+ */
    function Plus(other: Evaluation): (r: Evaluation)
      ensures r.isTerminal <==> isTerminal || other.isTerminal
    {
      Evaluation(value + other.value, isTerminal || other.isTerminal)
    }

    /** operator* with a factor */
    function Times(factor: int): (r: Evaluation)
      ensures r.isTerminal == isTerminal
    {
      Evaluation(value * factor, isTerminal)
    }

    /** operator>: only the values are compared. */
    predicate Greater(other: Evaluation)
      ensures Greater(other) ==> this != other
    {
      value > other.value
    }
  }

  /** MinimaxRunner::infinity */
  const Infinity: Evaluation := Evaluation(10000, false)

  /** Negation is an involution, turns the order around, and distributes over the sum. */
  lemma NegateProperties(e: Evaluation, f: Evaluation)
    ensures e.Negate().Negate() == e
    ensures e.Greater(f) <==> f.Negate().Greater(e.Negate())
    ensures e.Plus(f).Negate() == e.Negate().Plus(f.Negate())
    ensures e.Times(-1) == e.Negate()
  {
  }

  /** operator> is a strict order that ignores is_terminal: two evaluations neither greater than the other have equal values. */
  lemma GreaterOrder(e: Evaluation, f: Evaluation, g: Evaluation)
    ensures !e.Greater(e)
    ensures e.Greater(f) && f.Greater(g) ==> e.Greater(g)
    ensures !e.Greater(f) && !f.Greater(e) <==> e.value == f.value
  {
  }

  /** Scaling distributes over the sum and keeps a sum terminal exactly when one of its parts is. */
  lemma TimesPlus(e: Evaluation, f: Evaluation, factor: int)
    ensures e.Plus(f).Times(factor) == e.Times(factor).Plus(f.Times(factor))
    ensures e.Plus(f).isTerminal == (e.isTerminal || f.isTerminal)
  {
    assert (e.value + f.value) * factor == e.value * factor + f.value * factor;
  }

  /**
   * determineMaxRotation, in quarter turns: a straight node (North and South, or East and West)
   * is tried in two rotations, any other node in four.
   */
  function DetermineMaxRotation(outPaths: bv8): (r: int)
    ensures r == 1 || r == 3
  {
    if outPaths == CombineOutPaths(North.Bit(), South.Bit()) || outPaths == CombineOutPaths(East.Bit(), West.Bit()) then 1
    else 3
  }

  /**
   * Only straight nodes look the same after half a turn, so the rotations determineMaxRotation
   * leaves out of the search repeat the ones it keeps.
   */
  lemma MaxRotationSymmetric(outPaths: bv8)
    requires outPaths <= 15
    ensures DetermineMaxRotation(outPaths) == 1 <==> outPaths != 0 && outPaths != 15 && RotateOutPaths(outPaths, 2) == outPaths
    ensures DetermineMaxRotation(outPaths) == 3 || DetermineMaxRotation(outPaths) == 1
  {
    assert RotateOutPaths(outPaths, 2) == ((outPaths << 2) | (outPaths >> 2)) & 15;
  }

  /** GameTreeNode: the graph (node matrix and leftover), the player to act, the other player and the shift that led here. */
  datatype GameTreeNode = GameTreeNode(grid: Grid, leftover: Node, playerLocation: Location,
                                       opponentLocation: Location, previousShiftLocation: Location)

  /** A child of a game tree node and the action that leads to it. */
  datatype Child = Child(action: PlayerAction, node: GameTreeNode)

  /** MinimaxResult */
  datatype MinimaxResult = MinimaxResult(action: Option<PlayerAction>, evaluation: Evaluation)

  /**
   * What does not change during a search: the extent and shift locations of the graph, the
   * evaluator, and reachable::reachableLocations.
   */
  datatype Search = Search(extent: nat, shiftLocations: seq<Location>,
                           evaluate: GameTreeNode -> Evaluation,
                           reachable: (Grid, Location) -> seq<Location>) {
    /**
     * The shift locations are distinct (MazeGraph::addShiftLocation), each and its opposite can be
     * shifted (border locations away from the corners, or inner locations), and the reachable
     * locations of an inside location are a non-empty list of inside locations.
     */
    ghost predicate Valid() {
      && extent >= 1
      && NoDuplicates(shiftLocations)
      && (forall i :: 0 <= i < |shiftLocations| ==>
            ShiftDefined(shiftLocations[i], extent) && ShiftDefined(OpposingShiftLocation(shiftLocations[i], extent), extent))
      && (forall g, l {:trigger reachable(g, l)} :: IsGrid(g, extent) && IsInside(l, extent) ==>
            |reachable(g, l)| > 0 && forall m :: m in reachable(g, l) ==> IsInside(m, extent))
    }

    /** A game tree node of this graph: the grid has the extent and both players stand inside it. */
    predicate ValidNode(node: GameTreeNode) {
      IsGrid(node.grid, extent) && IsInside(node.playerLocation, extent) && IsInside(node.opponentLocation, extent)
    }

    /** The ChildIterator constructor dereferences the first shift location that is not the invalid one: there must be one. */
    predicate HasShiftBesides(invalid: Location) {
      |shiftLocations| > 0 && (shiftLocations[0] == invalid ==> |shiftLocations| > 1)
    }

    /** Iterators over the node's children and over the children of any node reached by a shift can start. */
    predicate IteratorsDefined(node: GameTreeNode) {
      && HasShiftBesides(OpposingShiftLocation(node.previousShiftLocation, extent))
      && forall i :: 0 <= i < |shiftLocations| ==> HasShiftBesides(OpposingShiftLocation(shiftLocations[i], extent))
    }
  }

  /** The child for the shift at s with the given rotation and the move to m. */
  function ChildFor(search: Search, node: GameTreeNode, s: Location, rotation: int, m: Location): (c: Child)
    requires search.Valid() && search.ValidNode(node) && s in search.shiftLocations && IsInside(m, search.extent)
    ensures search.ValidNode(c.node) && c.node.previousShiftLocation == s
  {
    var shifted := GraphShift(node.grid, node.leftover, search.extent, s, rotation);
    TranslateShifted(node.grid, search.extent, s, node.leftover, node.opponentLocation);
    Child(PlayerAction(ShiftAction(s, rotation), m),
          GameTreeNode(shifted.0, shifted.1, TranslateLocationByShift(node.opponentLocation, s, search.extent), m, s))
  }

  /** The children for the shift at s with the given rotation, one per move location, in order. */
  function MoveChildren(search: Search, node: GameTreeNode, s: Location, rotation: int, moves: seq<Location>): (cs: seq<Child>)
    requires search.Valid() && search.ValidNode(node) && s in search.shiftLocations
    requires forall m :: m in moves ==> IsInside(m, search.extent)
    ensures |cs| == |moves|
    ensures forall c :: c in cs ==> search.ValidNode(c.node) && c.node.previousShiftLocation in search.shiftLocations
  {
    if moves == [] then []
    else [ChildFor(search, node, s, rotation, moves[0])] + MoveChildren(search, node, s, rotation, moves[1..])
  }

  /** The moves after the shift at s with the given rotation: the locations reachable from the translated player location. */
  function MovesAfter(search: Search, node: GameTreeNode, s: Location, rotation: int): (moves: seq<Location>)
    requires search.Valid() && search.ValidNode(node) && s in search.shiftLocations
    ensures |moves| > 0 && forall m :: m in moves ==> IsInside(m, search.extent)
  {
    TranslateShifted(node.grid, search.extent, s, node.leftover, node.playerLocation);
    search.reachable(GraphShift(node.grid, node.leftover, search.extent, s, rotation).0,
                     TranslateLocationByShift(node.playerLocation, s, search.extent))
  }

  /** The children for the shift at s, from the given rotation up to the maximal rotation of the inserted node. */
  function RotationChildren(search: Search, node: GameTreeNode, s: Location, rotation: int): (cs: seq<Child>)
    requires search.Valid() && search.ValidNode(node) && s in search.shiftLocations
    requires 0 <= rotation <= DetermineMaxRotation(node.leftover.outPaths)
    ensures forall c :: c in cs ==> search.ValidNode(c.node) && c.node.previousShiftLocation in search.shiftLocations
    decreases DetermineMaxRotation(node.leftover.outPaths) - rotation, 1
  {
    MoveChildren(search, node, s, rotation, MovesAfter(search, node, s, rotation)) + LaterRotations(search, node, s, rotation)
  }

  /** The children for the shift at s with the rotations after the given one. */
  function LaterRotations(search: Search, node: GameTreeNode, s: Location, rotation: int): (cs: seq<Child>)
    requires search.Valid() && search.ValidNode(node) && s in search.shiftLocations
    requires 0 <= rotation <= DetermineMaxRotation(node.leftover.outPaths)
    ensures forall c :: c in cs ==> search.ValidNode(c.node) && c.node.previousShiftLocation in search.shiftLocations
    decreases DetermineMaxRotation(node.leftover.outPaths) - rotation, 0
  {
    if rotation < DetermineMaxRotation(node.leftover.outPaths) then RotationChildren(search, node, s, NextRotation(rotation))
    else []
  }

  /** The children for the shift locations from index i on, leaving out the location opposing the previous shift. */
  function LocationChildren(search: Search, node: GameTreeNode, i: nat): (cs: seq<Child>)
    requires search.Valid() && search.ValidNode(node) && i <= |search.shiftLocations|
    ensures forall c :: c in cs ==> search.ValidNode(c.node) && c.node.previousShiftLocation in search.shiftLocations
    decreases |search.shiftLocations| - i
  {
    if i == |search.shiftLocations| then []
    else
      var s := search.shiftLocations[i];
      (if s == OpposingShiftLocation(node.previousShiftLocation, search.extent) then [] else RotationChildren(search, node, s, 0))
      + LocationChildren(search, node, i + 1)
  }

  /** The children of a node in the order ChildIterator visits them. */
  function Children(search: Search, node: GameTreeNode): (cs: seq<Child>)
    requires search.Valid() && search.ValidNode(node)
    ensures forall c :: c in cs ==> search.ValidNode(c.node) && c.node.previousShiftLocation in search.shiftLocations
  {
    LocationChildren(search, node, 0)
  }

  /**
   * From index i on, the children are those of the first shift location from i that is not the
   * invalid one (the one after i when i holds it, as the locations are distinct), or none.
   */
  lemma NextLocationChildren(search: Search, node: GameTreeNode, i: nat)
    requires search.Valid() && search.ValidNode(node) && i <= |search.shiftLocations|
    ensures SkipInvalid(search, node, i) == |search.shiftLocations| ==> LocationChildren(search, node, i) == []
    ensures SkipInvalid(search, node, i) < |search.shiftLocations| ==>
              LocationChildren(search, node, i) == ChildrenFrom(search, node, SkipInvalid(search, node, i))
  {
    var locations := search.shiftLocations;
    var invalid := OpposingShiftLocation(node.previousShiftLocation, search.extent);
    if i < |locations| && locations[i] == invalid {
      assert LocationChildren(search, node, i) == LocationChildren(search, node, i + 1);
      if i + 1 < |locations| {
        assert locations[i + 1] != locations[i];
      }
    }
  }

  /** The children of the later rotations: those of the next rotation and its later ones, or none after the maximal rotation. */
  lemma LaterRotationChildren(search: Search, node: GameTreeNode, s: Location, rotation: int)
    requires search.Valid() && search.ValidNode(node) && s in search.shiftLocations
    requires 0 <= rotation <= DetermineMaxRotation(node.leftover.outPaths)
    ensures rotation == DetermineMaxRotation(node.leftover.outPaths) ==> LaterRotations(search, node, s, rotation) == []
    ensures rotation < DetermineMaxRotation(node.leftover.outPaths) ==>
              LaterRotations(search, node, s, rotation) ==
                MoveChildren(search, node, s, rotation + 1, MovesAfter(search, node, s, rotation + 1))
                + LaterRotations(search, node, s, rotation + 1)
  {
  }

  /** The children of the move locations from index k on: the one for location k, then the rest. */
  lemma MoveChildrenFrom(search: Search, node: GameTreeNode, s: Location, rotation: int, moves: seq<Location>, k: nat)
    requires search.Valid() && search.ValidNode(node) && s in search.shiftLocations
    requires forall m :: m in moves ==> IsInside(m, search.extent)
    requires k < |moves|
    ensures MoveChildren(search, node, s, rotation, moves[k..]) ==
              [ChildFor(search, node, s, rotation, moves[k])] + MoveChildren(search, node, s, rotation, moves[k + 1..])
  {
    assert moves[k..][1..] == moves[k + 1..];
  }

  /**
   * The grid facts the child iterator relies on: the shifted grid holds the inserted node at the
   * shift location, overwriting its rotation gives the shift with the new rotation, and the shift
   * at the opposing location with the pushed-out node gives the grid back.
   */
  lemma ShiftedGraphFacts(grid: Grid, leftover: Node, extent: nat, s: Location, rotation: int)
    requires extent >= 1 && IsGrid(grid, extent) && ShiftDefined(s, extent) && ShiftDefined(OpposingShiftLocation(s, extent), extent)
    ensures var shifted := GraphShift(grid, leftover, extent, s, rotation);
            && At(shifted.0, extent, s) == leftover.(rotation := rotation)
            && SetAt(shifted.0, extent, s, leftover.(rotation := rotation + 1)) == GraphShift(grid, leftover, extent, s, rotation + 1).0
            && GraphShift(shifted.0, shifted.1, extent, OpposingShiftLocation(s, extent), shifted.1.rotation) == (grid, leftover.(rotation := rotation))
  {
    var inserted := leftover.(rotation := rotation);
    var shifted := GraphShift(grid, leftover, extent, s, rotation);
    ReplaceInserted(grid, extent, s, inserted, leftover.(rotation := rotation + 1));
    ShiftRoundTrip(grid, extent, s, inserted);
    var pushed := shifted.1;
    assert pushed.(rotation := pushed.rotation) == pushed;
  }

  /** The negamax value of a child, seen from its parent. */
  function ChildValue(search: Search, c: Child, depth: nat, maxDepth: nat, aborted: bool): Evaluation
    requires search.Valid() && search.ValidNode(c.node) && depth < maxDepth
    decreases maxDepth - depth, 0, 0
  {
    NegamaxValue(search, c.node, depth + 1, maxDepth, aborted).Negate()
  }

  /**
   * The loop of negamax over the remaining children, from the best value and action so far: a
   * child's value replaces them only when it is strictly greater, and an abort ends the loop after
   * the first child.
   */
  function BestOf(search: Search, children: seq<Child>, depth: nat, maxDepth: nat, aborted: bool,
                  best: Evaluation, action: Option<PlayerAction>): (Evaluation, Option<PlayerAction>)
    requires search.Valid() && depth < maxDepth && forall c :: c in children ==> search.ValidNode(c.node)
    decreases maxDepth - depth, 1, |children|
  {
    if children == [] then (best, action)
    else
      var v := ChildValue(search, children[0], depth, maxDepth, aborted);
      var next := if v.Greater(best) then (v, Some(children[0].action)) else (best, action);
      if aborted then next else BestOf(search, children[1..], depth, maxDepth, aborted, next.0, next.1)
  }

  /**
   * The value negamax computes: the evaluation at the maximal depth or at a decided game, and
   * otherwise the best of the negated children's values, starting from -infinity.
   */
  function NegamaxValue(search: Search, node: GameTreeNode, depth: nat, maxDepth: nat, aborted: bool): Evaluation
    requires search.Valid() && search.ValidNode(node) && depth <= maxDepth
    decreases maxDepth - depth, 3, 0
  {
    var evaluation := search.evaluate(node);
    if depth == maxDepth || evaluation.isTerminal then evaluation
    else BestOf(search, Children(search, node), depth, maxDepth, aborted, Infinity.Negate(), None).0
  }

  /** The best action after a negamax run at the root: unchanged at a leaf, else from the loop over the children. */
  function RootAction(search: Search, root: GameTreeNode, maxDepth: nat, aborted: bool, previous: Option<PlayerAction>): Option<PlayerAction>
    requires search.Valid() && search.ValidNode(root)
  {
    if maxDepth == 0 || search.evaluate(root).isTerminal then previous
    else BestOf(search, Children(search, root), 0, maxDepth, aborted, Infinity.Negate(), previous).1
  }

  /** The node with its leftover turned to the given rotation; the grid and the players stay. */
  function TurnLeftover(node: GameTreeNode, rotation: int): (turned: GameTreeNode)
    ensures turned.grid == node.grid && turned.playerLocation == node.playerLocation
    ensures turned.opponentLocation == node.opponentLocation && turned.previousShiftLocation == node.previousShiftLocation
    ensures turned.leftover.nodeId == node.leftover.nodeId && turned.leftover.outPaths == node.leftover.outPaths
    ensures turned.leftover.rotation == rotation
  {
    node.(leftover := node.leftover.(rotation := rotation))
  }

  /**
   * The children of a shift do not depend on the rotation the leftover had before it: the shift
   * inserts the leftover with the child's own rotation.
   */
  lemma {:induction false} MoveChildrenIgnoreLeftoverRotation(search: Search, node: GameTreeNode, s: Location, rotation: int,
                                                              moves: seq<Location>, turn: int)
    requires search.Valid() && search.ValidNode(node) && s in search.shiftLocations
    requires forall m :: m in moves ==> IsInside(m, search.extent)
    ensures MoveChildren(search, TurnLeftover(node, turn), s, rotation, moves) == MoveChildren(search, node, s, rotation, moves)
    decreases |moves|
  {
    if moves != [] {
      assert TurnLeftover(node, turn).leftover.(rotation := rotation) == node.leftover.(rotation := rotation);
      MoveChildrenIgnoreLeftoverRotation(search, node, s, rotation, moves[1..], turn);
    }
  }

  /** The children for the rotations from `rotation` on do not depend on the leftover's rotation. */
  lemma {:induction false} RotationChildrenIgnoreLeftoverRotation(search: Search, node: GameTreeNode, s: Location, rotation: int, turn: int)
    requires search.Valid() && search.ValidNode(node) && s in search.shiftLocations
    requires 0 <= rotation <= DetermineMaxRotation(node.leftover.outPaths)
    ensures RotationChildren(search, TurnLeftover(node, turn), s, rotation) == RotationChildren(search, node, s, rotation)
    decreases DetermineMaxRotation(node.leftover.outPaths) - rotation
  {
    var turned := TurnLeftover(node, turn);
    assert turned.leftover.(rotation := rotation) == node.leftover.(rotation := rotation);
    assert MovesAfter(search, turned, s, rotation) == MovesAfter(search, node, s, rotation);
    MoveChildrenIgnoreLeftoverRotation(search, node, s, rotation, MovesAfter(search, node, s, rotation), turn);
    if rotation < DetermineMaxRotation(node.leftover.outPaths) {
      RotationChildrenIgnoreLeftoverRotation(search, node, s, NextRotation(rotation), turn);
    }
  }

  /** The children for the shift locations from index i on do not depend on the leftover's rotation. */
  lemma {:induction false} LocationChildrenIgnoreLeftoverRotation(search: Search, node: GameTreeNode, i: nat, turn: int)
    requires search.Valid() && search.ValidNode(node) && i <= |search.shiftLocations|
    ensures LocationChildren(search, TurnLeftover(node, turn), i) == LocationChildren(search, node, i)
    decreases |search.shiftLocations| - i
  {
    if i < |search.shiftLocations| {
      RotationChildrenIgnoreLeftoverRotation(search, node, search.shiftLocations[i], 0, turn);
      LocationChildrenIgnoreLeftoverRotation(search, node, i + 1, turn);
    }
  }

  /**
   * A node whose leftover has been turned has the same children, and where the evaluator does not
   * look at the leftover's rotation, the same negamax value and root action. The solver shares one
   * graph between all iterators, and undoing a subtree's shifts leaves that graph's leftover at
   * the last rotation tried there; the children created after it differ from those here in the
   * leftover's rotation only.
   */
  lemma NegamaxIgnoresLeftoverRotation(search: Search, node: GameTreeNode, turn: int, depth: nat, maxDepth: nat, aborted: bool,
                                       previous: Option<PlayerAction>)
    requires search.Valid() && search.ValidNode(node) && depth <= maxDepth
    requires search.evaluate(TurnLeftover(node, turn)) == search.evaluate(node)
    ensures Children(search, TurnLeftover(node, turn)) == Children(search, node)
    ensures NegamaxValue(search, TurnLeftover(node, turn), depth, maxDepth, aborted) == NegamaxValue(search, node, depth, maxDepth, aborted)
    ensures RootAction(search, TurnLeftover(node, turn), maxDepth, aborted, previous) == RootAction(search, node, maxDepth, aborted, previous)
  {
    LocationChildrenIgnoreLeftoverRotation(search, node, 0, turn);
  }

  /** The fields of a ChildIterator that its steps change, as one value. */
  datatype IteratorState = IteratorState(
    grid: Grid, leftover: Node, playerLocation: Location, isAtEnd: bool,
    currentRotation: int, pushedOutRotation: int, currentShift: nat,
    possibleMoves: seq<Location>, currentMove: nat)

  /** The graph and the player location are the parent's again; only the leftover's rotation may differ. */
  ghost predicate Restored(parent: GameTreeNode, st: IteratorState) {
    && st.grid == parent.grid
    && st.playerLocation == parent.playerLocation
    && st.leftover == parent.leftover.(rotation := st.leftover.rotation)
  }

  /** The graph is the parent's, shifted at the current location with the leftover turned to the current rotation. */
  ghost predicate Shifted(search: Search, parent: GameTreeNode, st: IteratorState)
    requires search.Valid() && search.ValidNode(parent) && st.currentShift < |search.shiftLocations|
  {
    var s := search.shiftLocations[st.currentShift];
    && s != OpposingShiftLocation(parent.previousShiftLocation, search.extent)
    && 0 <= st.currentRotation <= DetermineMaxRotation(parent.leftover.outPaths)
    && (st.grid, st.leftover) == GraphShift(parent.grid, parent.leftover, search.extent, s, st.currentRotation)
    && st.pushedOutRotation == st.leftover.rotation
    && st.playerLocation == TranslateLocationByShift(parent.playerLocation, s, search.extent)
    && st.possibleMoves == MovesAfter(search, parent, s, st.currentRotation)
  }

  /** The state between two steps: shifted, or at the end with the parent's graph restored. */
  ghost predicate IteratorInvariant(search: Search, parent: GameTreeNode, st: IteratorState) {
    && search.Valid() && search.ValidNode(parent)
    && st.currentShift <= |search.shiftLocations|
    && (st.isAtEnd <==> st.currentShift == |search.shiftLocations|)
    && st.currentMove <= |st.possibleMoves|
    && (st.isAtEnd ==> Restored(parent, st) && st.possibleMoves == [] && st.currentMove == 0)
    && (!st.isAtEnd ==> Shifted(search, parent, st))
  }

  /** The children still to be visited from a state, the current one first. */
  ghost function RemainingChildren(search: Search, parent: GameTreeNode, st: IteratorState): seq<Child>
    requires IteratorInvariant(search, parent, st)
  {
    if st.isAtEnd then []
    else
      var s := search.shiftLocations[st.currentShift];
      MoveChildren(search, parent, s, st.currentRotation, st.possibleMoves[st.currentMove..])
      + LaterRotations(search, parent, s, st.currentRotation)
      + LocationChildren(search, parent, st.currentShift + 1)
  }

  /** The state right after the shift at location index k with the given rotation: the first move location is current. */
  ghost function ShiftedState(search: Search, parent: GameTreeNode, k: nat, rotation: int): IteratorState
    requires search.Valid() && search.ValidNode(parent) && k < |search.shiftLocations|
  {
    var s := search.shiftLocations[k];
    var shifted := GraphShift(parent.grid, parent.leftover, search.extent, s, rotation);
    IteratorState(shifted.0, shifted.1, TranslateLocationByShift(parent.playerLocation, s, search.extent), false,
                  rotation, shifted.1.rotation, k, MovesAfter(search, parent, s, rotation), 0)
  }

  /** Right after a shift the state is valid, and the children of that shift and of the later locations remain. */
  lemma ShiftedStateValid(search: Search, parent: GameTreeNode, k: nat, rotation: int)
    requires search.Valid() && search.ValidNode(parent) && k < |search.shiftLocations|
    requires search.shiftLocations[k] != OpposingShiftLocation(parent.previousShiftLocation, search.extent)
    requires 0 <= rotation <= DetermineMaxRotation(parent.leftover.outPaths)
    ensures var st := ShiftedState(search, parent, k, rotation);
            var s := search.shiftLocations[k];
            && IteratorInvariant(search, parent, st) && st.currentMove < |st.possibleMoves|
            && RemainingChildren(search, parent, st) ==
                 MoveChildren(search, parent, s, rotation, MovesAfter(search, parent, s, rotation))
                 + LaterRotations(search, parent, s, rotation) + LocationChildren(search, parent, k + 1)
  {
    var st := ShiftedState(search, parent, k, rotation);
    assert st.possibleMoves[0..] == st.possibleMoves;
  }

  /** Moving to the next move location drops the current child. */
  lemma MoveStep(search: Search, parent: GameTreeNode, st: IteratorState)
    requires IteratorInvariant(search, parent, st) && !st.isAtEnd && st.currentMove < |st.possibleMoves|
    ensures var next := st.(currentMove := st.currentMove + 1);
            && IteratorInvariant(search, parent, next)
            && RemainingChildren(search, parent, next) == RemainingChildren(search, parent, st)[1..]
  {
    var s := search.shiftLocations[st.currentShift];
    var later := LaterRotations(search, parent, s, st.currentRotation);
    var locations := LocationChildren(search, parent, st.currentShift + 1);
    var rest := MoveChildren(search, parent, s, st.currentRotation, st.possibleMoves[st.currentMove + 1..]);
    var first := ChildFor(search, parent, s, st.currentRotation, st.possibleMoves[st.currentMove]);
    MoveChildrenFrom(search, parent, s, st.currentRotation, st.possibleMoves, st.currentMove);
    assert RemainingChildren(search, parent, st) == [first] + rest + later + locations;
    var next := st.(currentMove := st.currentMove + 1);
    NextMoveState(search, parent, st);
    assert RemainingChildren(search, parent, next) == rest + later + locations;
    DropFirst(first, rest, later, locations);
  }

  /** The state with the next move location current satisfies the iterator's invariant. */
  lemma NextMoveState(search: Search, parent: GameTreeNode, st: IteratorState)
    requires IteratorInvariant(search, parent, st) && !st.isAtEnd && st.currentMove < |st.possibleMoves|
    ensures IteratorInvariant(search, parent, st.(currentMove := st.currentMove + 1))
  {
  }

  /** What holds while shifted: the inserted node sits at the shift location, and undoing the shift gives the parent's graph back. */
  lemma ShiftedStateFacts(search: Search, parent: GameTreeNode, st: IteratorState)
    requires search.Valid() && search.ValidNode(parent) && st.currentShift < |search.shiftLocations| && Shifted(search, parent, st)
    ensures var s := search.shiftLocations[st.currentShift];
            var opposing := OpposingShiftLocation(s, search.extent);
            && IsInside(s, search.extent)
            && At(st.grid, search.extent, s) == parent.leftover.(rotation := st.currentRotation)
            && GraphShift(st.grid, st.leftover, search.extent, opposing, st.pushedOutRotation) == (parent.grid, parent.leftover.(rotation := st.currentRotation))
            && TranslateLocationByShift(st.playerLocation, opposing, search.extent) == parent.playerLocation
  {
    var s := search.shiftLocations[st.currentShift];
    ShiftedGraphFacts(parent.grid, parent.leftover, search.extent, s, st.currentRotation);
    TranslateInverse(parent.playerLocation, s, search.extent);
  }

  /** Below the maximal rotation, turning the inserted node once more gives the state right after the shift with the next rotation. */
  lemma RotatedState(search: Search, parent: GameTreeNode, st: IteratorState)
    requires IteratorInvariant(search, parent, st) && !st.isAtEnd
    requires st.currentRotation < DetermineMaxRotation(parent.leftover.outPaths)
    ensures var s := search.shiftLocations[st.currentShift];
            var rotation := NextRotation(st.currentRotation);
            IsInside(s, search.extent) &&
            var rotated := SetAt(st.grid, search.extent, s, At(st.grid, search.extent, s).(rotation := rotation));
            st.(currentRotation := rotation, grid := rotated, possibleMoves := search.reachable(rotated, st.playerLocation), currentMove := 0)
              == ShiftedState(search, parent, st.currentShift, rotation)
  {
    var s := search.shiftLocations[st.currentShift];
    ShiftedGraphFacts(parent.grid, parent.leftover, search.extent, s, st.currentRotation);
    var rotation := NextRotation(st.currentRotation);
    var rotated := SetAt(st.grid, search.extent, s, At(st.grid, search.extent, s).(rotation := rotation));
    var shifted := GraphShift(parent.grid, parent.leftover, search.extent, s, rotation);
    assert rotated == shifted.0;
    assert st.leftover == shifted.1;
  }

  /** The rotation step keeps the invariant and the children still to come. */
  lemma RotationStep(search: Search, parent: GameTreeNode, st: IteratorState)
    requires IteratorInvariant(search, parent, st) && !st.isAtEnd && st.currentMove == |st.possibleMoves|
    requires st.currentRotation < DetermineMaxRotation(parent.leftover.outPaths)
    ensures var s := search.shiftLocations[st.currentShift];
            var rotation := NextRotation(st.currentRotation);
            IsInside(s, search.extent) &&
            var rotated := SetAt(st.grid, search.extent, s, At(st.grid, search.extent, s).(rotation := rotation));
            var next := st.(currentRotation := rotation, grid := rotated, possibleMoves := search.reachable(rotated, st.playerLocation), currentMove := 0);
            && IteratorInvariant(search, parent, next) && next.currentMove < |next.possibleMoves|
            && RemainingChildren(search, parent, next) == RemainingChildren(search, parent, st)
  {
    RotatedState(search, parent, st);
    NextRotationState(search, parent, st);
  }

  /** The children after the given rotation at location index k: its later rotations, then the later locations. */
  ghost function AfterRotation(search: Search, parent: GameTreeNode, k: nat, rotation: int): seq<Child>
    requires search.Valid() && search.ValidNode(parent) && k < |search.shiftLocations|
    requires 0 <= rotation <= DetermineMaxRotation(parent.leftover.outPaths)
  {
    LaterRotations(search, parent, search.shiftLocations[k], rotation) + LocationChildren(search, parent, k + 1)
  }

  /** Once the moves of a rotation are used up, the children left are the later rotations' and the later locations'. */
  lemma ExhaustedChildren(search: Search, parent: GameTreeNode, st: IteratorState)
    requires IteratorInvariant(search, parent, st) && !st.isAtEnd && st.currentMove == |st.possibleMoves|
    ensures RemainingChildren(search, parent, st) == AfterRotation(search, parent, st.currentShift, st.currentRotation)
  {
    assert st.possibleMoves[st.currentMove..] == [];
  }

  /** The state after the next rotation keeps the invariant and the children still to come. */
  lemma NextRotationState(search: Search, parent: GameTreeNode, st: IteratorState)
    requires IteratorInvariant(search, parent, st) && !st.isAtEnd && st.currentMove == |st.possibleMoves|
    requires st.currentRotation < DetermineMaxRotation(parent.leftover.outPaths)
    ensures var started := ShiftedState(search, parent, st.currentShift, NextRotation(st.currentRotation));
            && IteratorInvariant(search, parent, started) && started.currentMove < |started.possibleMoves|
            && RemainingChildren(search, parent, started) == RemainingChildren(search, parent, st)
  {
    ExhaustedChildren(search, parent, st);
    LaterRotationState(search, parent, st.currentShift, st.currentRotation);
  }

  /** The state after the shift at location index k with the rotation after `rotation` keeps the invariant, with the children after `rotation` to come. */
  lemma LaterRotationState(search: Search, parent: GameTreeNode, k: nat, rotation: int)
    requires search.Valid() && search.ValidNode(parent) && k < |search.shiftLocations|
    requires search.shiftLocations[k] != OpposingShiftLocation(parent.previousShiftLocation, search.extent)
    requires 0 <= rotation < DetermineMaxRotation(parent.leftover.outPaths)
    ensures var started := ShiftedState(search, parent, k, NextRotation(rotation));
            && IteratorInvariant(search, parent, started) && started.currentMove < |started.possibleMoves|
            && RemainingChildren(search, parent, started) == AfterRotation(search, parent, k, rotation)
  {
    LaterRotationChildren(search, parent, search.shiftLocations[k], rotation);
    ShiftedStateValid(search, parent, k, NextRotation(rotation));
  }

  /** skipInvalidShiftLocation: the index i, or the one after it when i holds the invalid location. */
  function SkipInvalid(search: Search, parent: GameTreeNode, i: nat): (j: nat)
    requires search.Valid() && i <= |search.shiftLocations|
    ensures j <= |search.shiftLocations| && (j == i || j == i + 1)
    ensures j < |search.shiftLocations| ==> search.shiftLocations[j] != OpposingShiftLocation(parent.previousShiftLocation, search.extent)
  {
    var locations := search.shiftLocations;
    if i < |locations| && locations[i] == OpposingShiftLocation(parent.previousShiftLocation, search.extent) then
      assert i + 1 < |locations| ==> locations[i + 1] != locations[i];
      i + 1
    else i
  }

  /**
   * At the maximal rotation with no valid shift location left, undoing the shift ends the
   * iteration with the parent's graph restored and no children left.
   */
  lemma EndStep(search: Search, parent: GameTreeNode, st: IteratorState)
    requires IteratorInvariant(search, parent, st) && !st.isAtEnd && st.currentMove == |st.possibleMoves|
    requires st.currentRotation == DetermineMaxRotation(parent.leftover.outPaths)
    requires SkipInvalid(search, parent, st.currentShift + 1) == |search.shiftLocations|
    ensures var end := st.(grid := parent.grid, leftover := parent.leftover.(rotation := st.currentRotation),
                           playerLocation := parent.playerLocation, currentRotation := 0,
                           currentShift := |search.shiftLocations|, isAtEnd := true, possibleMoves := [], currentMove := 0);
            IteratorInvariant(search, parent, end) && RemainingChildren(search, parent, end) == RemainingChildren(search, parent, st)
  {
    ExhaustedChildren(search, parent, st);
    AfterLastRotation(search, parent, st.currentShift);
  }

  /**
   * At the maximal rotation, the state right after the shift at the next valid shift location
   * keeps the invariant and the children still to come.
   */
  lemma ShiftStep(search: Search, parent: GameTreeNode, st: IteratorState, next: nat)
    requires IteratorInvariant(search, parent, st) && !st.isAtEnd && st.currentMove == |st.possibleMoves|
    requires st.currentRotation == DetermineMaxRotation(parent.leftover.outPaths)
    requires next == SkipInvalid(search, parent, st.currentShift + 1) && next < |search.shiftLocations|
    ensures var started := ShiftedState(search, parent, next, 0);
            && IteratorInvariant(search, parent, started) && started.currentMove < |started.possibleMoves|
            && RemainingChildren(search, parent, started) == RemainingChildren(search, parent, st)
  {
    NextShiftChildren(search, parent, st);
    FirstRotationState(search, parent, next);
  }

  /** The children from the first rotation at location index j on. */
  ghost function ChildrenFrom(search: Search, parent: GameTreeNode, j: nat): seq<Child>
    requires search.Valid() && search.ValidNode(parent) && j < |search.shiftLocations|
  {
    var s := search.shiftLocations[j];
    MoveChildren(search, parent, s, 0, MovesAfter(search, parent, s, 0))
    + LaterRotations(search, parent, s, 0) + LocationChildren(search, parent, j + 1)
  }

  /** The state right after the shift at a valid location index j keeps the invariant, with all of j's children to come. */
  lemma FirstRotationState(search: Search, parent: GameTreeNode, j: nat)
    requires search.Valid() && search.ValidNode(parent) && j < |search.shiftLocations|
    requires search.shiftLocations[j] != OpposingShiftLocation(parent.previousShiftLocation, search.extent)
    ensures var started := ShiftedState(search, parent, j, 0);
            && IteratorInvariant(search, parent, started) && started.currentMove < |started.possibleMoves|
            && RemainingChildren(search, parent, started) == ChildrenFrom(search, parent, j)
  {
    ShiftedStateValid(search, parent, j, 0);
  }

  /** At the maximal rotation with the moves used up, the children left start at the next valid shift location. */
  lemma NextShiftChildren(search: Search, parent: GameTreeNode, st: IteratorState)
    requires IteratorInvariant(search, parent, st) && !st.isAtEnd && st.currentMove == |st.possibleMoves|
    requires st.currentRotation == DetermineMaxRotation(parent.leftover.outPaths)
    requires SkipInvalid(search, parent, st.currentShift + 1) < |search.shiftLocations|
    ensures RemainingChildren(search, parent, st) == ChildrenFrom(search, parent, SkipInvalid(search, parent, st.currentShift + 1))
  {
    ExhaustedChildren(search, parent, st);
    AfterLastRotation(search, parent, st.currentShift);
  }

  /** After the last rotation at location index k, the children left start at the next valid shift location, if any. */
  lemma AfterLastRotation(search: Search, parent: GameTreeNode, k: nat)
    requires search.Valid() && search.ValidNode(parent) && k < |search.shiftLocations|
    ensures SkipInvalid(search, parent, k + 1) == |search.shiftLocations| ==>
              AfterRotation(search, parent, k, DetermineMaxRotation(parent.leftover.outPaths)) == []
    ensures SkipInvalid(search, parent, k + 1) < |search.shiftLocations| ==>
              AfterRotation(search, parent, k, DetermineMaxRotation(parent.leftover.outPaths))
              == ChildrenFrom(search, parent, SkipInvalid(search, parent, k + 1))
  {
    var s := search.shiftLocations[k];
    var max := DetermineMaxRotation(parent.leftover.outPaths);
    var rest := LocationChildren(search, parent, k + 1);
    assert AfterRotation(search, parent, k, max) == rest by {
      LaterRotationChildren(search, parent, s, max);
      assert [] + rest == rest;
    }
    NextLocationChildren(search, parent, k + 1);
  }

  /** Dropping the first element of a sequence that starts with c and continues with a, b and d. */
  lemma DropFirst<T>(c: T, a: seq<T>, b: seq<T>, d: seq<T>)
    ensures ([c] + a + b + d)[1..] == a + b + d
  {
  }

  /**
   * ChildIterator: while the children of one shift are visited, the graph stays shifted at that
   * location with the current rotation, and the player location is translated with it.
   */
  class ChildIterator {
    const search: Search
    const parent: GameTreeNode
    const invalidShiftLocation: Location
    var grid: Grid
    var leftover: Node
    var playerLocation: Location
    var isAtEnd: bool
    var currentRotation: int
    var pushedOutRotation: int
    var currentShift: nat
    var possibleMoves: seq<Location>
    var currentMove: nat

    /** The changing fields as a value. */
    ghost function State(): IteratorState
      reads this
    {
      IteratorState(grid, leftover, playerLocation, isAtEnd, currentRotation, pushedOutRotation, currentShift, possibleMoves, currentMove)
    }

    /** The state between two steps. */
    ghost predicate Invariant()
      reads this
    {
      invalidShiftLocation == OpposingShiftLocation(parent.previousShiftLocation, search.extent)
      && IteratorInvariant(search, parent, State())
    }

    /** Not at the end, the current move location exists. */
    ghost predicate Valid()
      reads this
    {
      Invariant() && (!isAtEnd ==> currentMove < |possibleMoves|)
    }

    /** The children still to be visited, the current one first. */
    ghost function Remaining(): seq<Child>
      reads this
      requires Invariant()
    {
      RemainingChildren(search, parent, State())
    }

    /**
     * ChildIterator(parent): the first shift location that is not the invalid one
     * (skipInvalidShiftLocation), shifted with rotation 0 (shift), with its move locations
     * (initPossibleMoves).
     */
    constructor (search: Search, parent: GameTreeNode)
      requires search.Valid() && search.ValidNode(parent)
      requires search.HasShiftBesides(OpposingShiftLocation(parent.previousShiftLocation, search.extent))
      ensures Valid() && this.search == search && this.parent == parent
      ensures Remaining() == Children(search, parent)
    {
      var invalid := OpposingShiftLocation(parent.previousShiftLocation, search.extent);
      var first := if search.shiftLocations[0] == invalid then 1 else 0;
      this.search := search;
      this.parent := parent;
      invalidShiftLocation := invalid;
      grid, leftover, playerLocation := parent.grid, parent.leftover, parent.playerLocation;
      isAtEnd, currentRotation, pushedOutRotation, currentShift := false, 0, 0, first;
      possibleMoves, currentMove := [], 0;
      new;
      Shift();
      NextLocationChildren(search, parent, 0);
      ShiftedStateValid(search, parent, first, 0);
    }

    /** getPlayerAction */
    method GetPlayerAction() returns (action: PlayerAction)
      requires Valid() && !isAtEnd
      ensures Remaining() != [] && action == Remaining()[0].action
    {
      action := PlayerAction(ShiftAction(search.shiftLocations[currentShift], currentRotation), possibleMoves[currentMove]);
    }

    /** createGameTreeNode: the opponent location is translated by the shift, and the player has moved. */
    method CreateGameTreeNode() returns (child: GameTreeNode)
      requires Valid() && !isAtEnd
      ensures Remaining() != [] && child == Remaining()[0].node
      ensures search.ValidNode(child) && child.previousShiftLocation in search.shiftLocations
    {
      var s := search.shiftLocations[currentShift];
      var newOpponentLocation := TranslateLocationByShift(parent.opponentLocation, s, search.extent);
      child := GameTreeNode(grid, leftover, newOpponentLocation, possibleMoves[currentMove], s);
    }

    /** operator++: the next move location, or the next shift once the move locations are used up. */
    method Next()
      requires Valid() && !isAtEnd
      modifies this
      ensures Valid() && Remaining() == old(Remaining())[1..]
      ensures isAtEnd ==> Restored(parent, State())
    {
      ghost var st := State();
      MoveStep(search, parent, st);
      currentMove := currentMove + 1;
      assert State() == st.(currentMove := st.currentMove + 1);
      if currentMove == |possibleMoves| {
        NextShift();
      }
    }

    /**
     * nextShift: the inserted node takes the next rotation while it is below the maximal one,
     * and otherwise the iterator moves on to the next shift location.
     */
    method NextShift()
      requires Invariant() && !isAtEnd && currentMove == |possibleMoves|
      modifies this
      ensures Valid() && Remaining() == old(Remaining())
    {
      ShiftedStateFacts(search, parent, State());
      var s := search.shiftLocations[currentShift];
      var maxRotation := DetermineMaxRotation(At(grid, search.extent, s).outPaths);
      if currentRotation < maxRotation {
        RotateInserted();
      } else {
        NextShiftLocation();
      }
    }

    /** The first branch of nextShift: the inserted node takes the next rotation, and the move locations are recomputed. */
    method RotateInserted()
      requires Invariant() && !isAtEnd && currentMove == |possibleMoves|
      requires currentRotation < DetermineMaxRotation(parent.leftover.outPaths)
      modifies this
      ensures Valid() && Remaining() == old(Remaining())
    {
      ghost var st := State();
      RotationStep(search, parent, st);
      var s := search.shiftLocations[currentShift];
      var rotation := NextRotation(currentRotation);
      var rotated := SetAt(grid, search.extent, s, At(grid, search.extent, s).(rotation := rotation));
      var moves := search.reachable(rotated, playerLocation);
      currentRotation, grid, possibleMoves, currentMove := rotation, rotated, moves, 0;
      assert State() == st.(currentRotation := rotation, grid := rotated, possibleMoves := moves, currentMove := 0);
    }

    /**
     * The second branch of nextShift: the shift is undone (undoShift), and the iterator moves to
     * the next shift location that is not the invalid one (skipInvalidShiftLocation), shifting the
     * graph there (shift), or to the end; the move locations are recomputed (initPossibleMoves).
     */
    method NextShiftLocation()
      requires Invariant() && !isAtEnd && currentMove == |possibleMoves|
      requires currentRotation == DetermineMaxRotation(parent.leftover.outPaths)
      modifies this
      ensures Valid() && Remaining() == old(Remaining())
    {
      var next := currentShift + 1;
      if next != |search.shiftLocations| && search.shiftLocations[next] == invalidShiftLocation {
        next := next + 1;
      }
      assert next == SkipInvalid(search, parent, currentShift + 1);
      if next == |search.shiftLocations| {
        UndoShiftAtEnd();
      } else {
        UndoShiftAndShift(next);
      }
    }

    /** No valid shift location is left: the shift is undone (undoShift) and the iterator is at its end. */
    method UndoShiftAtEnd()
      requires Invariant() && !isAtEnd && currentMove == |possibleMoves|
      requires currentRotation == DetermineMaxRotation(parent.leftover.outPaths)
      requires SkipInvalid(search, parent, currentShift + 1) == |search.shiftLocations|
      modifies this
      ensures Valid() && Remaining() == old(Remaining())
    {
      EndStep(search, parent, State());
      UndoShift();
      currentRotation, currentShift, isAtEnd, possibleMoves, currentMove := 0, |search.shiftLocations|, true, [], 0;
    }

    /**
     * The shift is undone (undoShift), the graph is shifted at the next valid shift location with
     * rotation 0 (shift), and its move locations are computed (initPossibleMoves).
     */
    method UndoShiftAndShift(next: nat)
      requires Invariant() && !isAtEnd && currentMove == |possibleMoves|
      requires currentRotation == DetermineMaxRotation(parent.leftover.outPaths)
      requires next == SkipInvalid(search, parent, currentShift + 1) && next < |search.shiftLocations|
      modifies this
      ensures Valid() && Remaining() == old(Remaining())
    {
      ShiftStep(search, parent, State(), next);
      UndoShift();
      currentRotation, currentShift := 0, next;
      Shift();
    }

    /** undoShift: the graph is shifted at the opposing location with the pushed-out rotation, and so is the player. */
    method UndoShift()
      requires Invariant() && !isAtEnd
      modifies this
      ensures State() == old(State()).(grid := parent.grid, leftover := parent.leftover.(rotation := old(currentRotation)),
                                       playerLocation := parent.playerLocation)
    {
      ShiftedStateFacts(search, parent, State());
      var opposing := OpposingShiftLocation(search.shiftLocations[currentShift], search.extent);
      var restored := GraphShift(grid, leftover, search.extent, opposing, pushedOutRotation);
      grid, leftover, playerLocation := restored.0, restored.1, TranslateLocationByShift(playerLocation, opposing, search.extent);
    }

    /**
     * shift followed by initPossibleMoves: the unshifted graph is shifted at the current shift location
     * with the current rotation, and the move locations of the player are computed.
     */
    method Shift()
      requires search.Valid() && search.ValidNode(parent) && currentShift < |search.shiftLocations| && !isAtEnd
      requires grid == parent.grid && leftover == parent.leftover.(rotation := leftover.rotation)
      requires playerLocation == parent.playerLocation
      modifies this
      ensures State() == ShiftedState(search, parent, old(currentShift), old(currentRotation))
    {
      var s := search.shiftLocations[currentShift];
      var shifted := GraphShift(grid, leftover, search.extent, s, currentRotation);
      var player := TranslateLocationByShift(playerLocation, s, search.extent);
      TranslateShifted(grid, search.extent, s, leftover, playerLocation);
      grid, leftover, pushedOutRotation, playerLocation, possibleMoves, currentMove :=
        shifted.0, shifted.1, shifted.1.rotation, player, search.reachable(shifted.0, player), 0;
    }
  }
}
