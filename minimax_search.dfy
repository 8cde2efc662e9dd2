/**
 * The searches of algolibs/solvers/minimax.cpp on top of the child iterator: MinimaxRunner
 * (negamax with the best root action kept between runs), findBestAction, and IterativeDeepening.
 *
 * The abort flag is read by the searches while they run; here it is a value per run: a negamax
 * run sees one abort flag, and iterative deepening sees the flag of each depth it runs.
 */
module MinimaxSearch {
  import opened Common
  import opened GraphBasics
  import opened SolverMazeGraph
  import opened Minimax

  /** The negamax value of a list of children does not depend on the action it starts from. */
  lemma {:induction false} BestOfValueIndependent(search: Search, children: seq<Child>, depth: nat, maxDepth: nat, aborted: bool,
                                                  best: Evaluation, action1: Option<PlayerAction>, action2: Option<PlayerAction>)
    requires search.Valid() && depth < maxDepth && forall c :: c in children ==> search.ValidNode(c.node)
    ensures var r1 := BestOf(search, children, depth, maxDepth, aborted, best, action1);
            var r2 := BestOf(search, children, depth, maxDepth, aborted, best, action2);
            r1.0 == r2.0 && (r1.1 == r2.1 || (r1.1 == action1 && r2.1 == action2))
    decreases |children|
  {
    if children != [] {
      var v := ChildValue(search, children[0], depth, maxDepth, aborted);
      if !aborted {
        if v.Greater(best) {
          BestOfValueIndependent(search, children[1..], depth, maxDepth, aborted, v, Some(children[0].action), Some(children[0].action));
        } else {
          BestOfValueIndependent(search, children[1..], depth, maxDepth, aborted, best, action1, action2);
        }
      }
    }
  }

  /**
   * Without an abort, the loop of negamax ends with a value no child beats. Either no child beats
   * the starting value, which is kept with the starting action, or the value is that of the first
   * child that reaches it, which beats the starting value and every child before it.
   */
  lemma {:induction false} BestOfMaximal(search: Search, children: seq<Child>, depth: nat, maxDepth: nat,
                                         best: Evaluation, action: Option<PlayerAction>)
    requires search.Valid() && depth < maxDepth && forall c :: c in children ==> search.ValidNode(c.node)
    ensures var r := BestOf(search, children, depth, maxDepth, false, best, action);
            && (forall i :: 0 <= i < |children| ==> !ChildValue(search, children[i], depth, maxDepth, false).Greater(r.0))
            && (|| (r == (best, action) && forall i :: 0 <= i < |children| ==> !ChildValue(search, children[i], depth, maxDepth, false).Greater(best))
                || exists i :: && 0 <= i < |children|
                               && r == (ChildValue(search, children[i], depth, maxDepth, false), Some(children[i].action))
                               && r.0.Greater(best)
                               && forall j :: 0 <= j < i ==> r.0.Greater(ChildValue(search, children[j], depth, maxDepth, false)))
    decreases |children|
  {
    if children != [] {
      var next := AfterFirst(search, children, depth, maxDepth, best, action);
      BestOfMaximal(search, children[1..], depth, maxDepth, next.0, next.1);
      MaximalBoundStep(search, children, depth, maxDepth, best, action);
      MaximalWitnessStep(search, children, depth, maxDepth, best, action);
    }
  }

  /** The conclusion of BestOfMaximal for the result r of negamax's loop over `children` from (best, action). */
  ghost predicate Maximal(search: Search, children: seq<Child>, depth: nat, maxDepth: nat,
                          best: Evaluation, action: Option<PlayerAction>, r: (Evaluation, Option<PlayerAction>))
    requires search.Valid() && depth < maxDepth && forall c :: c in children ==> search.ValidNode(c.node)
  {
    && (forall i :: 0 <= i < |children| ==> !ChildValue(search, children[i], depth, maxDepth, false).Greater(r.0))
    && (|| (r == (best, action) && forall i :: 0 <= i < |children| ==> !ChildValue(search, children[i], depth, maxDepth, false).Greater(best))
        || exists i :: && 0 <= i < |children|
                       && r == (ChildValue(search, children[i], depth, maxDepth, false), Some(children[i].action))
                       && r.0.Greater(best)
                       && forall j :: 0 <= j < i ==> r.0.Greater(ChildValue(search, children[j], depth, maxDepth, false)))
  }

  /** The best value and action after the first of a non-empty list of children, as negamax's loop keeps them. */
  ghost function AfterFirst(search: Search, children: seq<Child>, depth: nat, maxDepth: nat,
                            best: Evaluation, action: Option<PlayerAction>): (Evaluation, Option<PlayerAction>)
    requires search.Valid() && depth < maxDepth && forall c :: c in children ==> search.ValidNode(c.node)
    requires children != []
  {
    var v := ChildValue(search, children[0], depth, maxDepth, false);
    if v.Greater(best) then (v, Some(children[0].action)) else (best, action)
  }

  /** The conclusion of BestOfMaximal holds for the tail of a non-empty list, from what its first child leaves. */
  ghost predicate TailMaximal(search: Search, children: seq<Child>, depth: nat, maxDepth: nat,
                              best: Evaluation, action: Option<PlayerAction>)
    requires search.Valid() && depth < maxDepth && forall c :: c in children ==> search.ValidNode(c.node)
    requires children != []
  {
    var next := AfterFirst(search, children, depth, maxDepth, best, action);
    Maximal(search, children[1..], depth, maxDepth, next.0, next.1, BestOf(search, children[1..], depth, maxDepth, false, next.0, next.1))
  }

  /** The bound of BestOfMaximal for a non-empty list, from its conclusion for the tail. */
  lemma MaximalBoundStep(search: Search, children: seq<Child>, depth: nat, maxDepth: nat,
                         best: Evaluation, action: Option<PlayerAction>)
    requires search.Valid() && depth < maxDepth && forall c :: c in children ==> search.ValidNode(c.node)
    requires children != [] && TailMaximal(search, children, depth, maxDepth, best, action)
    ensures var r := BestOf(search, children, depth, maxDepth, false, best, action);
            forall i :: 0 <= i < |children| ==> !ChildValue(search, children[i], depth, maxDepth, false).Greater(r.0)
  {
    var rest := children[1..];
    var next := AfterFirst(search, children, depth, maxDepth, best, action);
    var r := BestOf(search, rest, depth, maxDepth, false, next.0, next.1);
    assert r == BestOf(search, children, depth, maxDepth, false, best, action);
    forall i | 0 <= i < |children|
      ensures !ChildValue(search, children[i], depth, maxDepth, false).Greater(r.0)
    {
      if i > 0 {
        assert children[i] == rest[i - 1];
      }
    }
  }

  /** The witness of BestOfMaximal for a non-empty list, from its conclusion for the tail. */
  lemma MaximalWitnessStep(search: Search, children: seq<Child>, depth: nat, maxDepth: nat,
                           best: Evaluation, action: Option<PlayerAction>)
    requires search.Valid() && depth < maxDepth && forall c :: c in children ==> search.ValidNode(c.node)
    requires children != [] && TailMaximal(search, children, depth, maxDepth, best, action)
    ensures var r := BestOf(search, children, depth, maxDepth, false, best, action);
            || (r == (best, action) && forall i :: 0 <= i < |children| ==> !ChildValue(search, children[i], depth, maxDepth, false).Greater(best))
            || exists i :: && 0 <= i < |children|
                           && r == (ChildValue(search, children[i], depth, maxDepth, false), Some(children[i].action))
                           && r.0.Greater(best)
                           && forall j :: 0 <= j < i ==> r.0.Greater(ChildValue(search, children[j], depth, maxDepth, false))
  {
    var next := AfterFirst(search, children, depth, maxDepth, best, action);
    if BestOf(search, children[1..], depth, maxDepth, false, next.0, next.1) == next {
      KeptWitness(search, children, depth, maxDepth, best, action);
    } else {
      LaterWitness(search, children, depth, maxDepth, best, action);
    }
  }

  /** When the tail changes nothing, the first child set the value, or no child beats the starting one. */
  lemma KeptWitness(search: Search, children: seq<Child>, depth: nat, maxDepth: nat,
                    best: Evaluation, action: Option<PlayerAction>)
    requires search.Valid() && depth < maxDepth && forall c :: c in children ==> search.ValidNode(c.node)
    requires children != [] && TailMaximal(search, children, depth, maxDepth, best, action)
    requires var next := AfterFirst(search, children, depth, maxDepth, best, action);
             BestOf(search, children[1..], depth, maxDepth, false, next.0, next.1) == next
    ensures var r := BestOf(search, children, depth, maxDepth, false, best, action);
            || (r == (best, action) && forall i :: 0 <= i < |children| ==> !ChildValue(search, children[i], depth, maxDepth, false).Greater(best))
            || (r == (ChildValue(search, children[0], depth, maxDepth, false), Some(children[0].action)) && r.0.Greater(best))
  {
    var v := ChildValue(search, children[0], depth, maxDepth, false);
    var rest := children[1..];
    var next := AfterFirst(search, children, depth, maxDepth, best, action);
    assert next == BestOf(search, children, depth, maxDepth, false, best, action);
    if !v.Greater(best) {
      forall i | 0 <= i < |children|
        ensures !ChildValue(search, children[i], depth, maxDepth, false).Greater(best)
      {
        if i > 0 {
          assert children[i] == rest[i - 1];
        }
      }
    }
  }

  /** When the tail improves on what the first child leaves, its witness is one for the whole list. */
  lemma LaterWitness(search: Search, children: seq<Child>, depth: nat, maxDepth: nat,
                     best: Evaluation, action: Option<PlayerAction>)
    requires search.Valid() && depth < maxDepth && forall c :: c in children ==> search.ValidNode(c.node)
    requires children != [] && TailMaximal(search, children, depth, maxDepth, best, action)
    requires var next := AfterFirst(search, children, depth, maxDepth, best, action);
             BestOf(search, children[1..], depth, maxDepth, false, next.0, next.1) != next
    ensures var r := BestOf(search, children, depth, maxDepth, false, best, action);
            exists i :: && 0 <= i < |children|
                        && r == (ChildValue(search, children[i], depth, maxDepth, false), Some(children[i].action))
                        && r.0.Greater(best)
                        && forall j :: 0 <= j < i ==> r.0.Greater(ChildValue(search, children[j], depth, maxDepth, false))
  {
    var rest := children[1..];
    var next := AfterFirst(search, children, depth, maxDepth, best, action);
    var r := BestOf(search, rest, depth, maxDepth, false, next.0, next.1);
    assert r == BestOf(search, children, depth, maxDepth, false, best, action);
    var k :| && 0 <= k < |rest|
             && r == (ChildValue(search, rest[k], depth, maxDepth, false), Some(rest[k].action))
             && r.0.Greater(next.0)
             && forall j :: 0 <= j < k ==> r.0.Greater(ChildValue(search, rest[j], depth, maxDepth, false));
    var v := ChildValue(search, children[0], depth, maxDepth, false);
    assert r.0.Greater(v) && r.0.Greater(best);
    assert children[k + 1] == rest[k];
    forall j | 0 <= j < k + 1
      ensures r.0.Greater(ChildValue(search, children[j], depth, maxDepth, false))
    {
      if j > 0 {
        assert children[j] == rest[j - 1];
      }
    }
  }

  /**
   * negamax without an abort is the maximum over the negated values of the children: none of
   * them is greater, and unless it is -infinity the value is that of a child, whose action the
   * root keeps.
   */
  lemma NegamaxIsMaximum(search: Search, node: GameTreeNode, maxDepth: nat)
    requires search.Valid() && search.ValidNode(node) && 0 < maxDepth && !search.evaluate(node).isTerminal
    ensures var v := NegamaxValue(search, node, 0, maxDepth, false);
            var children := Children(search, node);
            && (forall i :: 0 <= i < |children| ==> !ChildValue(search, children[i], 0, maxDepth, false).Greater(v))
            && (v == Infinity.Negate() || exists i :: 0 <= i < |children| && v == ChildValue(search, children[i], 0, maxDepth, false))
            && forall previous: Option<PlayerAction> ::
                 RootAction(search, node, maxDepth, false, previous) == previous ||
                 exists i :: 0 <= i < |children| && v == ChildValue(search, children[i], 0, maxDepth, false) &&
                             RootAction(search, node, maxDepth, false, previous) == Some(children[i].action)
  {
    var children := Children(search, node);
    BestOfMaximal(search, children, 0, maxDepth, Infinity.Negate(), None);
    forall previous: Option<PlayerAction>
      ensures RootAction(search, node, maxDepth, false, previous) == previous ||
              exists i :: 0 <= i < |children| && NegamaxValue(search, node, 0, maxDepth, false) == ChildValue(search, children[i], 0, maxDepth, false) &&
                          RootAction(search, node, maxDepth, false, previous) == Some(children[i].action)
    {
      BestOfMaximal(search, children, 0, maxDepth, Infinity.Negate(), previous);
      BestOfValueIndependent(search, children, 0, maxDepth, false, Infinity.Negate(), previous, None);
    }
  }

  /** The root of the game tree of a solver instance: its graph and leftover, both locations and the previous shift location. */
  function Root(instance: SolverInstance): (r: GameTreeNode)
    ensures r.grid == instance.grid && r.leftover == instance.leftover
    ensures r.playerLocation == instance.playerLocation && r.opponentLocation == instance.opponentLocation
    ensures r.previousShiftLocation == instance.previousShiftLocation
  {
    GameTreeNode(instance.grid, instance.leftover, instance.playerLocation, instance.opponentLocation,
                 instance.previousShiftLocation)
  }

  /** What negamax needs to start a child iterator at a node: the shifts it and its descendants can take. */
  predicate CanExpand(search: Search, node: GameTreeNode, depth: nat, maxDepth: nat) {
    depth < maxDepth && !search.evaluate(node).isTerminal ==> search.IteratorsDefined(node)
  }

  /** MinimaxRunner: negamax to a maximal depth, keeping the best action at the root between runs. */
  class MinimaxRunner {
    const search: Search
    var maxDepth: nat
    var bestAction: Option<PlayerAction>

    /** MinimaxRunner(evaluator, max_depth): the best action starts as the error action. */
    constructor (search: Search, maxDepth: nat)
      ensures this.search == search && this.maxDepth == maxDepth && bestAction == None
    {
      this.search := search;
      this.maxDepth := maxDepth;
      bestAction := None;
    }

    /** setMaxDepth */
    method SetMaxDepth(depth: nat)
      modifies this
      ensures maxDepth == depth && bestAction == old(bestAction)
    {
      maxDepth := depth;
    }

    /** runMinimax: negamax at the root of the instance; the result holds the best action so far. */
    method RunMinimax(instance: SolverInstance, aborted: bool) returns (result: MinimaxResult)
      requires search.Valid() && search.ValidNode(Root(instance)) && CanExpand(search, Root(instance), 0, maxDepth)
      modifies this
      ensures maxDepth == old(maxDepth)
      ensures bestAction == RootAction(search, Root(instance), maxDepth, aborted, old(bestAction))
      ensures result == MinimaxResult(bestAction, NegamaxValue(search, Root(instance), 0, maxDepth, aborted))
    {
      var evaluation := Negamax(Root(instance), 0, aborted);
      result := MinimaxResult(bestAction, evaluation);
    }

    /**
     * negamax: the evaluation at the maximal depth or at a decided game, otherwise the best negated
     * value of the children; at depth 0 the best action is updated on each strict improvement.
     * With an abort the loop ends after its first child.
     */
    method Negamax(node: GameTreeNode, depth: nat, aborted: bool) returns (value: Evaluation)
      requires search.Valid() && search.ValidNode(node) && depth <= maxDepth && CanExpand(search, node, depth, maxDepth)
      modifies this
      ensures maxDepth == old(maxDepth)
      ensures value == NegamaxValue(search, node, depth, maxDepth, aborted)
      ensures bestAction == if depth == 0 then RootAction(search, node, maxDepth, aborted, old(bestAction)) else old(bestAction)
      decreases maxDepth - depth, 1
    {
      var evaluation := search.evaluate(node);
      if depth == maxDepth || evaluation.isTerminal {
        return search.evaluate(node);
      }
      var bestValue := Infinity.Negate();
      ghost var start := bestAction;
      ghost var action := bestAction;
      ghost var result := BestOf(search, Children(search, node), depth, maxDepth, aborted, bestValue, start);
      var childIterator := new ChildIterator(search, node);
      while !childIterator.isAtEnd
        invariant childIterator.Valid() && childIterator.search == search && childIterator.parent == node
        invariant maxDepth == old(maxDepth)
        invariant BestOf(search, childIterator.Remaining(), depth, maxDepth, aborted, bestValue, action) == result
        invariant depth == 0 ==> bestAction == action
        invariant depth != 0 ==> bestAction == old(bestAction)
        decreases |childIterator.Remaining()|
      {
        bestValue, action := VisitChild(node, depth, aborted, childIterator, bestValue, action);
        if aborted {
          break;
        }
      }
      value := bestValue;
      BestOfValueIndependent(search, Children(search, node), depth, maxDepth, aborted, Infinity.Negate(), start, None);
    }

    /**
     * One pass of the loop of negamax: the child's negated negamax value replaces the best value on
     * a strict improvement, with the child's action (kept at depth 0), and unless the search is
     * aborted the iterator moves on.
     */
    method VisitChild(node: GameTreeNode, depth: nat, aborted: bool, childIterator: ChildIterator,
                      bestValue: Evaluation, ghost action: Option<PlayerAction>)
      returns (newBestValue: Evaluation, ghost newAction: Option<PlayerAction>)
      requires search.Valid() && search.ValidNode(node) && depth < maxDepth
      requires !search.evaluate(node).isTerminal && search.IteratorsDefined(node)
      requires childIterator.Valid() && !childIterator.isAtEnd && childIterator.search == search && childIterator.parent == node
      requires depth == 0 ==> bestAction == action
      modifies this, childIterator
      ensures maxDepth == old(maxDepth)
      ensures childIterator.Valid() && childIterator.search == search && childIterator.parent == node
      ensures depth == 0 ==> bestAction == newAction
      ensures depth != 0 ==> bestAction == old(bestAction)
      ensures aborted ==> (newBestValue, newAction) == BestOf(search, old(childIterator.Remaining()), depth, maxDepth, aborted, bestValue, action)
      ensures !aborted ==> BestOf(search, childIterator.Remaining(), depth, maxDepth, aborted, newBestValue, newAction) ==
                           BestOf(search, old(childIterator.Remaining()), depth, maxDepth, aborted, bestValue, action)
      ensures !aborted ==> |childIterator.Remaining()| < |old(childIterator.Remaining())|
      decreases maxDepth - depth, 0
    {
      ghost var remaining := childIterator.Remaining();
      var child := childIterator.CreateGameTreeNode();
      ChildExpands(search, node, child, depth, maxDepth);
      var negamaxValue := Negamax(child, depth + 1, aborted);
      negamaxValue := negamaxValue.Negate();
      assert negamaxValue == ChildValue(search, remaining[0], depth, maxDepth, aborted);
      newBestValue, newAction := bestValue, action;
      if negamaxValue.Greater(bestValue) {
        newBestValue := negamaxValue;
        var playerAction := childIterator.GetPlayerAction();
        newAction := Some(playerAction);
        if depth == 0 {
          bestAction := Some(playerAction);
        }
      }
      if !aborted {
        childIterator.Next();
      }
    }
  }

  /** A child of a node negamax expands can be expanded in turn. */
  lemma ChildExpands(search: Search, node: GameTreeNode, child: GameTreeNode, depth: nat, maxDepth: nat)
    requires depth < maxDepth && !search.evaluate(node).isTerminal && search.IteratorsDefined(node)
    requires child.previousShiftLocation in search.shiftLocations
    ensures CanExpand(search, child, depth + 1, maxDepth)
  {
    var i :| 0 <= i < |search.shiftLocations| && search.shiftLocations[i] == child.previousShiftLocation;
  }

  /** findBestAction: one negamax run to the given depth with a fresh runner. */
  method FindBestAction(search: Search, instance: SolverInstance, maxDepth: nat, aborted: bool) returns (result: MinimaxResult)
    requires search.Valid() && search.ValidNode(Root(instance)) && CanExpand(search, Root(instance), 0, maxDepth)
    ensures result == MinimaxResult(RootAction(search, Root(instance), maxDepth, aborted, None),
                                    NegamaxValue(search, Root(instance), 0, maxDepth, aborted))
  {
    var runner := new MinimaxRunner(search, maxDepth);
    result := runner.RunMinimax(instance, aborted);
  }
  /** The result iterative deepening keeps and the depth it stopped at. */
  datatype DeepeningOutcome = DeepeningOutcome(result: MinimaxResult, depth: nat)

  /**
   * The rounds of iterative deepening after `depth` rounds, with the kept result and the runner's
   * best action so far: round d runs negamax to depth d and sees the abort flag aborted(d); its
   * result is kept unless it was aborted, the result of depth 1 always; the rounds stop at a
   * terminal result or at an abort. The abort at `limit` ends the search at the latest.
   */
  function Deepen(search: Search, root: GameTreeNode, aborted: nat -> bool, limit: nat, depth: nat,
                  result: MinimaxResult, best: Option<PlayerAction>): (o: DeepeningOutcome)
    requires search.Valid() && search.ValidNode(root) && depth < limit && aborted(limit)
    ensures depth < o.depth <= limit
    ensures o.result.evaluation.isTerminal || aborted(o.depth)
    decreases limit - depth
  {
    var d := depth + 1;
    var run := MinimaxResult(RootAction(search, root, d, aborted(d), best), NegamaxValue(search, root, 0, d, aborted(d)));
    var kept := if !aborted(d) || d == 1 then run else result;
    if !kept.evaluation.isTerminal && !aborted(d) then Deepen(search, root, aborted, limit, d, kept, run.action)
    else DeepeningOutcome(kept, d)
  }

  /** The result's evaluation is that of the round to depth d, which was not aborted or is the first. */
  ghost predicate FromRound(search: Search, root: GameTreeNode, aborted: nat -> bool, result: MinimaxResult, d: nat)
    requires search.Valid() && search.ValidNode(root)
  {
    1 <= d && (d == 1 || !aborted(d)) && result.evaluation == NegamaxValue(search, root, 0, d, aborted(d))
  }

  /**
   * Iterative deepening stops at the first terminal result or the first abort, and the result it
   * keeps is that of a round that was not aborted, or of depth 1; when the last round was not
   * aborted, its result is kept.
   */
  lemma {:induction false} DeepenKeepsUnaborted(search: Search, root: GameTreeNode, aborted: nat -> bool, limit: nat, depth: nat,
                                                result: MinimaxResult, best: Option<PlayerAction>)
    requires search.Valid() && search.ValidNode(root) && depth < limit && aborted(limit)
    requires depth == 0 || exists k: nat :: k <= depth && FromRound(search, root, aborted, result, k)
    ensures var o := Deepen(search, root, aborted, limit, depth, result, best);
            && depth < o.depth <= limit
            && (o.result.evaluation.isTerminal || aborted(o.depth))
            && (forall k :: depth < k < o.depth ==> !aborted(k))
            && (exists k: nat :: k <= o.depth && FromRound(search, root, aborted, o.result, k))
            && (!aborted(o.depth) || o.depth == 1 ==> FromRound(search, root, aborted, o.result, o.depth))
    decreases limit - depth
  {
    var d := depth + 1;
    var run := MinimaxResult(RootAction(search, root, d, aborted(d), best), NegamaxValue(search, root, 0, d, aborted(d)));
    var kept := if !aborted(d) || d == 1 then run else result;
    if !aborted(d) || d == 1 {
      assert FromRound(search, root, aborted, kept, d);
    }
    if !kept.evaluation.isTerminal && !aborted(d) {
      DeepenKeepsUnaborted(search, root, aborted, limit, d, kept, run.action);
    }
  }

  /** IterativeDeepening: negamax runs to the depths 1, 2, 3, ... with one runner. */
  class IterativeDeepening {
    const search: Search
    var maxDepth: nat
    var minimaxResult: MinimaxResult

    /** IterativeDeepening(evaluator): depth 0 and the error action with -infinity. */
    constructor (search: Search)
      ensures this.search == search && maxDepth == 0 && minimaxResult == MinimaxResult(None, Infinity.Negate())
    {
      this.search := search;
      maxDepth := 0;
      minimaxResult := MinimaxResult(None, Infinity.Negate());
    }

    /**
     * iterateMinimax: from depth 1 on, each run's result replaces the kept one unless the run was
     * aborted (the first one always does), until the kept result is terminal or a run was aborted.
     */
    method IterateMinimax(instance: SolverInstance, aborted: nat -> bool, limit: nat) returns (action: Option<PlayerAction>)
      requires search.Valid() && search.ValidNode(Root(instance))
      requires !search.evaluate(Root(instance)).isTerminal ==> search.IteratorsDefined(Root(instance))
      requires 0 < limit && aborted(limit)
      modifies this
      ensures var o := Deepen(search, Root(instance), aborted, limit, 0, MinimaxResult(None, Infinity.Negate()), None);
              minimaxResult == o.result && maxDepth == o.depth && action == o.result.action
    {
      maxDepth := 0;
      minimaxResult := MinimaxResult(None, Infinity.Negate());
      var runner := new MinimaxRunner(search, maxDepth);
      ghost var outcome := Deepen(search, Root(instance), aborted, limit, 0, minimaxResult, None);
      var searching := true;
      while searching
        invariant fresh(runner) && runner.search == search && maxDepth <= limit
        invariant searching ==>
                    maxDepth < limit && Deepen(search, Root(instance), aborted, limit, maxDepth, minimaxResult, runner.bestAction) == outcome
        invariant !searching ==> DeepeningOutcome(minimaxResult, maxDepth) == outcome
        decreases limit - maxDepth
      {
        maxDepth := maxDepth + 1;
        runner.SetMaxDepth(maxDepth);
        var newResult := runner.RunMinimax(instance, aborted(maxDepth));
        if !aborted(maxDepth) || maxDepth == 1 {
          minimaxResult := newResult;
        }
        searching := !minimaxResult.evaluation.isTerminal && !aborted(maxDepth);
      }
      action := minimaxResult.action;
    }
  }
}
