/** One played game of the backend model (class Game in game.py): players, board and turns. */
module Games {
  import opened Common
  import opened ModelExceptions
  import opened MazeCards
  import opened Mazes
  import opened MazeAlgorithm
  import opened Boards
  import opened TurnOrder

  const MaxPlayers: nat := 4

  /**
   * The turn entries as Game.start_game registers the players: entries 2k and 2k + 1 belong to the
   * player with identifier k, and no entry carries a callback.
   */
  ghost predicate InOrder(entries: seq<PlayerAction>) {
    forall k :: 0 <= k < |entries| ==> entries[k].player == k / 2 && !entries[k].hasCallback
  }

  /** In entries in order, the players registered are exactly the identifiers below half the length. */
  lemma InOrderMembers(entries: seq<PlayerAction>, player: int)
    requires WellPaired(entries) && InOrder(entries)
    ensures player in Registered(entries) <==> 0 <= player < |entries| / 2
  {
    if 0 <= player < |entries| / 2 {
      assert Registered(entries)[player] == entries[2 * player].player == player;
    }
  }

  lemma InOrderRegistered(entries: seq<PlayerAction>, players: seq<int>)
    requires WellPaired(entries) && InOrder(entries) && |entries| == 2 * |players|
    requires forall k :: 0 <= k < |players| ==> players[k] == k
    ensures Registered(entries) == players
  {
    forall i | 0 <= i < |players|
      ensures Registered(entries)[i] == players[i]
    {
      assert entries[2 * i].player == i;
    }
  }

  /** Pieces as Game.start_game creates them: piece k starts at the k-th start location and has an objective. */
  ghost predicate StartedPieces(g: Grid, pieces: seq<Piece>)
    requires IsGrid(g)
  {
    forall k :: 0 <= k < |pieces| ==>
      pieces[k].mazeCard == At(g, StartLocation(k)).identifier && pieces[k].objective.Some?
  }

  lemma StartedPiecesAppend(g: Grid, pieces: seq<Piece>, piece: Piece)
    requires IsGrid(g) && StartedPieces(g, pieces)
    requires piece.mazeCard == At(g, StartLocation(|pieces|)).identifier && piece.objective.Some?
    ensures StartedPieces(g, pieces + [piece])
  {
  }

  /**
   * A game. A player is known by its identifier, which is its index in `players`; after the game
   * has started, the piece of player k is the board's piece at index k.
   */
  class Game {
    const identifier: int
    const board: Board
    const turns: Turns
    var players: seq<int>

    ghost predicate Valid()
      reads this, board, board.maze, board.maze.cells, turns
    {
      && board.Valid() && turns.Valid()
      && |players| <= MaxPlayers
      && (forall k :: 0 <= k < |players| ==> players[k] == k)
      // the players registered in the turns are the first players, each with a piece
      && InOrder(turns.entries)
      && |turns.entries| <= 2 * |players|
      && |turns.entries| <= 2 * |board.pieces|
    }

    /** Game(identifier, board): no players yet and a fresh turn progression. */
    constructor (identifier: int, board: Board)
      requires board.Valid()
      ensures Valid() && this.identifier == identifier && this.board == board && players == []
      ensures fresh(turns) && turns.entries == [] && turns.notified == []
    {
      this.identifier := identifier;
      this.board := board;
      players := [];
      turns := new Turns();
    }

    /** Game.add_player: the new player's identifier is the number of players before it; a fifth player raises GameFull. */
    method AddPlayer() returns (r: Result<int, ModelError>)
      requires Valid()
      modifies this
      ensures Valid()
      ensures r.Failure? <==> |old(players)| >= MaxPlayers
      ensures r.Failure? ==> r.error == GameFull && players == old(players)
      ensures r.Success? ==> r.value == |old(players)| && players == old(players) + [r.value]
    {
      if |players| < MaxPlayers {
        var nextId := |players|;
        players := players + [nextId];
        return Success(nextId);
      }
      return Failure(GameFull);
    }

    /** Game.get_player: the first player with the identifier, or PlayerNotFound. */
    method GetPlayer(playerId: int) returns (r: Result<nat, ModelError>)
      requires Valid()
      ensures r.Failure? <==> playerId !in players
      ensures r.Failure? ==> r.error == PlayerNotFound
      ensures r.Success? ==> r.value < |players| && players[r.value] == playerId && r.value == playerId
    {
      for k := 0 to |players|
        invariant playerId !in players[..k]
      {
        if players[k] == playerId {
          return Success(k);
        }
      }
      assert players[..|players|] == players;
      return Failure(PlayerNotFound);
    }

    /**
     * Game.start_game: the pieces are cleared, every player in order gets a new piece and is
     * registered in the turns if it is not yet, and the turns restart; without players, starting
     * the turns raises IndexError.
     */
    method StartGame() returns (r: Result<(), ModelError>)
      requires Valid()
      modifies board, turns
      ensures Valid()
      ensures board.maze.Cards() == old(board.maze.Cards()) && board.leftover == old(board.leftover)
      ensures |board.pieces| == |players|
      ensures StartedPieces(board.maze.Cards(), board.pieces)
      ensures Registered(turns.entries) == players && turns.next == 0 && turns.notified == old(turns.notified)
      ensures |turns.entries| == 2 * |players|
      ensures r.Failure? <==> players == []
      ensures r.Failure? ==> r.error == IndexError
    {
      ghost var g := board.maze.Cards();
      ghost var registered := |turns.entries| / 2;
      board.ClearPieces();
      assert board.maze.Cards() == g;
      for k := 0 to |players|
        invariant board.Valid() && turns.Valid()
        invariant board.maze.Cards() == g && board.leftover == old(board.leftover)
        invariant |board.pieces| == k
        invariant StartedPieces(g, board.pieces)
        invariant InOrder(turns.entries) && |turns.entries| == 2 * (if k <= registered then registered else k)
        invariant turns.notified == old(turns.notified)
      {
        SetBoard();
        assert board.maze.Cards() == g;
        RegisterInTurns(k, registered);
      }
      InOrderRegistered(turns.entries, players);
      r := turns.Start();
      assert board.maze.Cards() == g;
    }

    /** Player.set_board: the player's piece is created; with fewer than four pieces the draw cannot fail. */
    method SetBoard()
      requires board.Valid() && |board.pieces| < MaxPlayers
      modifies board
      ensures board.Valid() && board.maze.Cards() == old(board.maze.Cards()) && board.leftover == old(board.leftover)
      ensures StartedPieces(board.maze.Cards(), old(board.pieces)) ==> StartedPieces(board.maze.Cards(), board.pieces)
      ensures |board.pieces| == |old(board.pieces)| + 1
    {
      ghost var g := board.maze.Cards();
      var created := board.CreatePiece();
      assert board.maze.Cards() == g;
      if StartedPieces(g, old(board.pieces)) {
        StartedPiecesAppend(g, old(board.pieces), board.pieces[created.value]);
      }
    }

    /** Player.register_in_turns for the player at index k: Turns.add_player without callback. */
    method RegisterInTurns(k: nat, ghost registered: nat)
      requires turns.Valid() && k < |players| && players[k] == k
      requires InOrder(turns.entries) && |turns.entries| == 2 * (if k <= registered then registered else k)
      modifies turns
      ensures turns.Valid() && turns.notified == old(turns.notified) && turns.next == old(turns.next)
      ensures InOrder(turns.entries) && |turns.entries| == 2 * (if k + 1 <= registered then registered else k + 1)
    {
      InOrderMembers(turns.entries, k);
      ghost var before := turns.entries;
      turns.AddPlayer(players[k], false);
      if k >= registered {
        assert turns.entries == before + [PlayerAction(k, Action.Shift, false), PlayerAction(k, Action.Move, false)];
        assert turns.entries[2 * k].player == k == (2 * k + 1) / 2;
      }
    }

    /**
     * Game.shift: the board shifts only if the shift is the player's turn action; the turns then
     * advance, and they raise TurnActionViolation when it was not. A shift the board rejects raises
     * before the turns advance.
     */
    method Shift(playerId: int, location: BoardLocation, rotation: int) returns (r: Result<(), ModelError>)
      requires Valid()
      modifies board, board.maze.cells, turns
      ensures Valid() && players == old(players) && turns.entries == old(turns.entries)
      ensures playerId !in players || !old(turns.IsActionPossible(playerId, Action.Shift)) ==>
                && r == Failure(if playerId in players then TurnActionViolation else PlayerNotFound)
                && board.maze.Cards() == old(board.maze.Cards()) && board.leftover == old(board.leftover)
                && board.pieces == old(board.pieces)
                && turns.next == old(turns.next) && turns.notified == old(turns.notified)
      ensures playerId in players && old(turns.IsActionPossible(playerId, Action.Shift)) ==>
                && ShiftOutcome(old(board.maze.Cards()), old(board.leftover), old(board.pieces),
                                board.maze.Cards(), board.leftover, board.pieces, location, rotation, r)
                && (r.Failure? ==> turns.next == old(turns.next))
                && (r.Success? ==> turns.next == Successor(old(turns.next), |turns.entries|) && turns.IsActionPossible(playerId, Action.Move))
      ensures turns.notified == old(turns.notified)
    {
      var player := GetPlayer(playerId);
      if player.Failure? {
        return Failure(player.error);
      }
      ghost var possible := turns.IsActionPossible(player.value, Action.Shift);
      if turns.IsActionPossible(player.value, Action.Shift) {
        var shifted := board.Shift(location, rotation);
        if shifted.Failure? {
          return shifted;
        }
      }
      ghost var h, pieces := board.maze.Cards(), board.pieces;
      r := turns.PerformAction(player.value, Action.Shift);
      assert board.maze.Cards() == h && board.pieces == pieces;
      assert possible ==> r.Success?;
    }

    /**
     * Game.move: the player's piece moves only if the move is the player's turn action; the turns
     * then advance, and they raise TurnActionViolation when it was not. A move the board rejects
     * raises before the turns advance.
     */
    method Move(playerId: int, target: BoardLocation) returns (r: Result<(), ModelError>)
      requires Valid()
      modifies board, turns
      ensures Valid() && players == old(players) && turns.entries == old(turns.entries)
      ensures board.maze.Cards() == old(board.maze.Cards()) && board.leftover == old(board.leftover)
      ensures playerId !in players || !old(turns.IsActionPossible(playerId, Action.Move)) ==>
                && r == Failure(if playerId in players then TurnActionViolation else PlayerNotFound)
                && board.pieces == old(board.pieces)
                && turns.next == old(turns.next) && turns.notified == old(turns.notified)
      ensures playerId in players && old(turns.IsActionPossible(playerId, Action.Move)) ==>
                && 0 <= playerId < |old(board.pieces)|
                && MoveOutcome(board.maze.Cards(), board.leftover, old(board.pieces), board.pieces, playerId, target, r)
                && (r.Failure? ==> turns.next == old(turns.next))
                && (r.Success? ==> turns.next == Successor(old(turns.next), |turns.entries|)
                                   && turns.entries[turns.next].action == Action.Shift)
      ensures turns.notified == old(turns.notified)
    {
      var player := GetPlayer(playerId);
      if player.Failure? {
        return Failure(player.error);
      }
      ghost var g, pieces := board.maze.Cards(), board.pieces;
      ghost var possible := turns.IsActionPossible(player.value, Action.Move);
      if turns.IsActionPossible(player.value, Action.Move) {
        var moved := board.Move(player.value, target);
        assert board.maze.Cards() == g;
        if moved.Failure? {
          return moved;
        }
      }
      ghost var after := board.pieces;
      r := turns.PerformAction(player.value, Action.Move);
      assert board.maze.Cards() == g && board.pieces == after;
      assert possible ==> r.Success?;
    }
  }
}
