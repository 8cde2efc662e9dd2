/** The turn progression of the backend model (classes PlayerAction and Turns in game.py). */
module TurnOrder {
  import opened Common
  import opened ModelExceptions

  datatype Action = Shift | Move

  /**
   * An entry of the turn progression: the identifier of the player, the action, and whether the
   * entry carries a turn callback. Players are known by their identifiers.
   */
  datatype PlayerAction = PlayerAction(player: int, action: Action, hasCallback: bool) {
    /** PlayerAction.__eq__: the player identifiers and the actions agree; the callbacks do not matter. */
    predicate Matches(player': int, action': Action)
      ensures Matches(player', action') <==> this.(hasCallback := false) == PlayerAction(player', action', false)
    {
      player == player' && action == action'
    }
  }

  /** The entries of the players in order: each player contributes a SHIFT entry followed by a MOVE entry. */
  ghost predicate WellPaired(entries: seq<PlayerAction>) {
    && |entries| % 2 == 0
    && (forall i :: 0 <= i < |entries| / 2 ==>
          && entries[2 * i].action == Shift && entries[2 * i + 1].action == Move
          && entries[2 * i].player == entries[2 * i + 1].player
          && entries[2 * i].hasCallback == entries[2 * i + 1].hasCallback)
    && (forall i, j :: 0 <= i < j < |entries| / 2 ==> entries[2 * i].player != entries[2 * j].player)
  }

  /** The identifiers of the registered players, in order of registration. */
  function Registered(entries: seq<PlayerAction>): (ps: seq<int>)
    requires |entries| % 2 == 0
    ensures |ps| == |entries| / 2
    ensures forall i :: 0 <= i < |ps| ==> ps[i] == entries[2 * i].player
  {
    seq(|entries| / 2, i requires 0 <= i < |entries| / 2 => entries[2 * i].player)
  }

  /** A player appears in some entry exactly when it is one of the registered players. */
  lemma {:induction false} RegisteredMembers(entries: seq<PlayerAction>, player: int)
    requires WellPaired(entries)
    ensures (exists k :: 0 <= k < |entries| && entries[k].player == player) <==> player in Registered(entries)
  {
    if exists k :: 0 <= k < |entries| && entries[k].player == player {
      var k :| 0 <= k < |entries| && entries[k].player == player;
      var i := k / 2;
      assert k == 2 * i || k == 2 * i + 1;
      assert Registered(entries)[i] == player;
    }
    if player in Registered(entries) {
      var i :| 0 <= i < |Registered(entries)| && Registered(entries)[i] == player;
      assert entries[2 * i].player == player;
    }
  }

  /** The turn progression: the entries, the index of the next entry, and the callbacks fired so far. */
  class Turns {
    var entries: seq<PlayerAction>
    var next: int
    /** The players whose turn callbacks were called, oldest first. */
    var notified: seq<int>

    ghost predicate Valid()
      reads this
    {
      && WellPaired(entries)
      && 0 <= next
      && (entries == [] ==> next == 0)
      && (entries != [] ==> next < |entries|)
    }

    /** Turns() without arguments. */
    constructor ()
      ensures Valid() && entries == [] && next == 0 && notified == []
    {
      entries := [];
      next := 0;
      notified := [];
    }

    /** Turns.add_player: a player not yet present gets a SHIFT entry and a MOVE entry at the end. */
    method AddPlayer(player: int, hasCallback: bool)
      requires Valid()
      modifies this
      ensures Valid() && next == old(next) && notified == old(notified)
      ensures player in Registered(old(entries)) ==> entries == old(entries)
      ensures player !in Registered(old(entries)) ==>
                entries == old(entries) + [PlayerAction(player, Shift, hasCallback), PlayerAction(player, Move, hasCallback)]
      ensures Registered(entries) == Registered(old(entries)) + (if player in Registered(old(entries)) then [] else [player])
    {
      var found := false;
      for k := 0 to |entries|
        invariant found <==> exists j :: 0 <= j < k && entries[j].player == player
      {
        if entries[k].player == player {
          found := true;
        }
      }
      RegisteredMembers(entries, player);
      if !found {
        ghost var before := entries;
        entries := entries + [PlayerAction(player, Shift, hasCallback), PlayerAction(player, Move, hasCallback)];
        AppendKeepsPaired(before, player, hasCallback);
      }
    }

    /**
     * Turns.start: the progression restarts at the first entry, whose callback is called if it has one.
     * Without entries, indexing the empty list raises IndexError.
     */
    method Start() returns (r: Result<(), ModelError>)
      requires Valid()
      modifies this
      ensures Valid() && entries == old(entries) && next == 0
      ensures r.Failure? <==> entries == []
      ensures r.Failure? ==> r.error == IndexError && notified == old(notified)
      ensures r.Success? ==> notified == old(notified) + (if entries[0].hasCallback then [entries[0].player] else [])
    {
      next := 0;
      if entries == [] {
        return Failure(IndexError);
      }
      if entries[next].hasCallback {
        notified := notified + [entries[next].player];
      }
      return Success(());
    }

    /** Turns.next_player_action: the entry at the index, or None when the list is empty. */
    function NextPlayerAction(): (r: Option<PlayerAction>)
      reads this
      requires Valid()
      ensures r.None? <==> entries == []
      ensures r.Some? ==> r.value == entries[next]
    {
      if 0 <= next < |entries| then Some(entries[next]) else None
    }

    /** Turns.is_action_possible: the next entry is this player's, for this action, whatever its callback. */
    predicate IsActionPossible(player: int, action: Action)
      reads this
      requires Valid()
      ensures IsActionPossible(player, action) <==>
                entries != [] && entries[next].player == player && entries[next].action == action
    {
      NextPlayerAction().Some? && NextPlayerAction().value.Matches(player, action)
    }

    /**
     * Turns.perform_action: an action out of turn raises TurnActionViolation and changes nothing;
     * otherwise the index moves on cyclically and the new entry's callback is called if that entry
     * belongs to another player.
     */
    method PerformAction(player: int, action: Action) returns (r: Result<(), ModelError>)
      requires Valid()
      modifies this
      ensures Valid() && entries == old(entries)
      ensures r.Failure? <==> !old(IsActionPossible(player, action))
      ensures r.Failure? ==> r.error == TurnActionViolation && next == old(next) && notified == old(notified)
      ensures r.Success? ==>
                && next == Successor(old(next), |entries|)
                && notified == old(notified) + (if entries[next].player != player && entries[next].hasCallback then [entries[next].player] else [])
      ensures r.Success? && action == Shift ==> IsActionPossible(player, Move)
      ensures r.Success? && action == Move ==> entries[next].action == Shift
    {
      if !IsActionPossible(player, action) {
        return Failure(TurnActionViolation);
      }
      CyclicSuccessor(next, |entries|);
      ActionsAlternate(entries, next);
      next := (next + 1) % |entries|;
      var entry := entries[next];
      if entry.player != player && entry.hasCallback {
        notified := notified + [entry.player];
      }
      return Success(());
    }
  }

  lemma AppendKeepsPaired(entries: seq<PlayerAction>, player: int, hasCallback: bool)
    requires WellPaired(entries) && player !in Registered(entries)
    ensures var after := entries + [PlayerAction(player, Shift, hasCallback), PlayerAction(player, Move, hasCallback)];
            WellPaired(after) && Registered(after) == Registered(entries) + [player]
  {
    var after := entries + [PlayerAction(player, Shift, hasCallback), PlayerAction(player, Move, hasCallback)];
    var n := |entries| / 2;
    assert |after| / 2 == n + 1;
    forall i | 0 <= i < n
      ensures after[2 * i] == entries[2 * i] && after[2 * i + 1] == entries[2 * i + 1]
    {
    }
    forall i | 0 <= i < n
      ensures after[2 * i].player != player
    {
      assert Registered(entries)[i] == entries[2 * i].player;
    }
    assert after[2 * n].player == player;
  }

  lemma EvenEntryIsShift(entries: seq<PlayerAction>, k: int)
    requires WellPaired(entries) && 0 <= k < |entries| && k % 2 == 0
    ensures entries[k].action == Shift
  {
    var i := k / 2;
    assert k == 2 * i;
  }

  /** The index after k in a cyclic list of length n. */
  function Successor(k: int, n: int): int {
    if k + 1 < n then k + 1 else 0
  }

  /** Python's `(k + 1) % n` for an index k of a list of length n is the cyclic successor. */
  lemma CyclicSuccessor(k: int, n: int)
    requires 0 <= k < n
    ensures (k + 1) % n == Successor(k, n)
  {
    if k + 1 == n {
      assert (k + 1) % n == n % n == 0;
    }
  }

  /** A player's SHIFT entry is followed by its MOVE entry, and a MOVE entry by the next player's SHIFT entry. */
  lemma {:induction false} ActionsAlternate(entries: seq<PlayerAction>, k: int)
    requires WellPaired(entries) && 0 <= k < |entries|
    ensures var n := Successor(k, |entries|);
            entries[k].action == Shift ==> entries[n].action == Move && entries[n].player == entries[k].player
    ensures entries[k].action == Move ==> entries[Successor(k, |entries|)].action == Shift
  {
    CyclicSuccessor(k, |entries|);
    var i := k / 2;
    assert k == 2 * i || k == 2 * i + 1;
    if k == 2 * i {
      assert entries[k].action == Shift;
      assert k + 1 < |entries|;
    } else {
      assert entries[k].action == Move;
      if k + 1 < |entries| {
        EvenEntryIsShift(entries, k + 1);
      } else {
        EvenEntryIsShift(entries, 0);
      }
    }
  }
}
