/** The board of the backend model (classes Piece and Board in game.py). */
module Boards {
  import opened Common
  import opened ModelExceptions
  import opened MazeCards
  import opened Mazes
  import opened MazeAlgorithm

  /**
   * A piece: the identifier of the card it stands on and the identifier of its objective card,
   * if one was drawn. Cards are compared by identifier, as MazeCard.__eq__ does.
   */
  datatype Piece = Piece(mazeCard: int, objective: Option<int>) {
    /**
     * Piece.has_reached_objective: the piece stands on its objective card. A piece without an
     * objective compares its card with None and has never reached it.
     */
    predicate HasReachedObjective()
      ensures objective.None? ==> !HasReachedObjective()
    {
      objective == Some(mazeCard)
    }
  }

  /** A piece moved onto a card has reached its objective exactly when that card is its objective. */
  lemma MovedOntoObjective(piece: Piece, card: int)
    ensures piece.(mazeCard := card).HasReachedObjective() <==> piece.objective == Some(card)
  {
  }

  /** Board._start_locations: the corners, clockwise from the top left. */
  const StartLocations: seq<BoardLocation> :=
    [BoardLocation(0, 0), BoardLocation(0, MazeSize - 1), BoardLocation(MazeSize - 1, MazeSize - 1), BoardLocation(MazeSize - 1, 0)]

  /** The location of the n-th created piece: `islice(cycle(start_locations), n + 1)[-1]`. */
  function StartLocation(n: nat): (l: BoardLocation)
    ensures IsInside(l) && l == StartLocations[n % 4]
  {
    StartLocations[n % 4]
  }

  /** The identifier of the card at l. */
  function CardId(g: Grid, l: BoardLocation): int
    requires IsGrid(g) && IsInside(l)
  {
    At(g, l).identifier
  }

  /** The identifiers of the cards in the grid. */
  function GridIdentifiers(g: Grid): (s: set<int>)
    requires IsGrid(g)
    ensures forall l {:trigger At(g, l)} :: IsInside(l) ==> At(g, l).identifier in s
  {
    set l | l in InsideLocations() :: At(g, l).identifier
  }

  /** Every identifier of the grid belongs to a card inside it. */
  lemma GridIdentifierLocation(g: Grid, i: int) returns (l: BoardLocation)
    requires IsGrid(g) && i in GridIdentifiers(g)
    ensures IsInside(l) && At(g, l).identifier == i
  {
    l :| l in InsideLocations() && At(g, l).identifier == i;
  }

  /** Every piece stands on a card of the grid. */
  ghost predicate PiecesOnGrid(g: Grid, pieces: seq<Piece>)
    requires IsGrid(g)
  {
    forall k :: 0 <= k < |pieces| ==> pieces[k].mazeCard in GridIdentifiers(g)
  }

  /** The identifiers of all cards of the board: every grid card and the leftover. */
  function CardIdentifiers(g: Grid, leftover: MazeCard): set<int>
    requires IsGrid(g)
  {
    GridIdentifiers(g) + {leftover.identifier}
  }

  /** No two cards of the board share an identifier, so identity of cards is equality of identifiers. */
  ghost predicate DistinctCards(g: Grid, leftover: MazeCard)
    requires IsGrid(g)
  {
    && (forall p, q {:trigger CardId(g, p), CardId(g, q)} :: IsInside(p) && IsInside(q) && p != q ==> CardId(g, p) != CardId(g, q))
    && (forall p {:trigger CardId(g, p)} :: IsInside(p) ==> CardId(g, p) != leftover.identifier)
  }

  /** The identifiers that the pieces stand on or have as objective. */
  function Occupied(pieces: seq<Piece>): set<int> {
    if pieces == [] then {}
    else
      var last := pieces[|pieces| - 1];
      Occupied(pieces[..|pieces| - 1]) + {last.mazeCard} + (if last.objective.Some? then {last.objective.value} else {})
  }

  /** Occupied holds exactly the cards and the objectives of the pieces. */
  lemma {:induction false} OccupiedMembers(pieces: seq<Piece>, x: int)
    ensures x in Occupied(pieces) <==>
              exists k :: 0 <= k < |pieces| && (pieces[k].mazeCard == x || pieces[k].objective == Some(x))
  {
    if pieces != [] {
      var front := pieces[..|pieces| - 1];
      OccupiedMembers(front, x);
      if x in Occupied(front) {
        var k :| 0 <= k < |front| && (front[k].mazeCard == x || front[k].objective == Some(x));
        assert pieces[k] == front[k];
      }
      if exists k :: 0 <= k < |pieces| && (pieces[k].mazeCard == x || pieces[k].objective == Some(x)) {
        var k :| 0 <= k < |pieces| && (pieces[k].mazeCard == x || pieces[k].objective == Some(x));
        if k < |front| {
          assert front[k] == pieces[k];
        }
      }
    }
  }

  /** Each piece occupies at most two cards. */
  lemma {:induction false} OccupiedBound(pieces: seq<Piece>)
    ensures |Occupied(pieces)| <= 2 * |pieces|
  {
    if pieces != [] {
      var last := pieces[|pieces| - 1];
      OccupiedBound(pieces[..|pieces| - 1]);
      CardsOfUnion(Occupied(pieces[..|pieces| - 1]), {last.mazeCard}, if last.objective.Some? then {last.objective.value} else {});
    }
  }

  lemma CardsOfUnion(a: set<int>, b: set<int>, c: set<int>)
    ensures |a + b + c| <= |a| + |b| + |c|
  {
    UnionCard(a, b);
    UnionCard(a + b, c);
  }

  lemma UnionCard(a: set<int>, b: set<int>)
    ensures |a + b| <= |a| + |b|
  {
    assert |a + b| + |a * b| == |a| + |b|;
  }

  /** The pool of _random_unoccupied_maze_card: every card of the board minus every piece's card and objective. */
  function UnoccupiedPool(g: Grid, leftover: MazeCard, pieces: seq<Piece>): set<int>
    requires IsGrid(g)
  {
    CardIdentifiers(g, leftover) - Occupied(pieces)
  }

  /** A subset is no larger than its superset. */
  lemma SubsetCard(a: set<int>, b: set<int>)
    requires a <= b
    ensures |a| <= |b|
  {
    assert b == a + (b - a);
    assert a * (b - a) == {};
  }

  /**
   * With at most four pieces the pool is never empty: nine distinct cards of the board are more
   * than the at most eight cards four pieces can occupy. So `choice` does not raise in any game.
   */
  lemma {:induction false} PoolNonEmpty(g: Grid, leftover: MazeCard, pieces: seq<Piece>)
    requires IsGrid(g) && DistinctCards(g, leftover) && |pieces| <= 4
    ensures UnoccupiedPool(g, leftover, pieces) != {}
  {
    var nine := NineCards(g, leftover);
    var occupied := Occupied(pieces);
    OccupiedBound(pieces);
    if UnoccupiedPool(g, leftover, pieces) == {} {
      assert nine <= occupied;
      SubsetCard(nine, occupied);
      assert false;
    }
  }

  /** The identifiers of the first row, the first two cells of the second row, as a set of nine. */
  function NineCards(g: Grid, leftover: MazeCard): (s: set<int>)
    requires IsGrid(g) && DistinctCards(g, leftover)
    ensures s <= CardIdentifiers(g, leftover) && |s| == 9
  {
    var ids := seq(9, k requires 0 <= k < 9 => CardId(g, BoardLocation(k / 7, k % 7)));
    assert forall i, j :: 0 <= i < j < 9 ==> ids[i] != ids[j] by {
      forall i, j | 0 <= i < j < 9
        ensures ids[i] != ids[j]
      {
        assert BoardLocation(i / 7, i % 7) != BoardLocation(j / 7, j % 7);
      }
    }
    DistinctSeqCard(ids);
    set k | 0 <= k < 9 :: ids[k]
  }

  lemma {:induction false} DistinctSeqCard(ids: seq<int>)
    requires forall i, j :: 0 <= i < j < |ids| ==> ids[i] != ids[j]
    ensures |set k | 0 <= k < |ids| :: ids[k]| == |ids|
  {
    if ids != [] {
      var front := ids[..|ids| - 1];
      DistinctSeqCard(front);
      var s := set k | 0 <= k < |ids| :: ids[k];
      var t := set k | 0 <= k < |front| :: front[k];
      assert s == t + {ids[|ids| - 1]} by {
        forall x | x in s
          ensures x in t + {ids[|ids| - 1]}
        {
          var k :| 0 <= k < |ids| && ids[k] == x;
          if k < |front| {
            assert front[k] == x;
          }
        }
      }
      assert ids[|ids| - 1] !in t;
    }
  }

  lemma PiecesOnGridAppend(g: Grid, pieces: seq<Piece>, piece: Piece)
    requires IsGrid(g) && PiecesOnGrid(g, pieces) && piece.mazeCard in GridIdentifiers(g)
    ensures PiecesOnGrid(g, pieces + [piece])
  {
  }

  lemma PiecesOnGridUpdate(g: Grid, pieces: seq<Piece>, k: nat, piece: Piece)
    requires IsGrid(g) && PiecesOnGrid(g, pieces) && k < |pieces| && piece.mazeCard in GridIdentifiers(g)
    ensures PiecesOnGrid(g, pieces[k := piece])
  {
  }

  /** The pieces after a shift: every piece standing on the pushed-out card moves onto the inserted one. */
  function Rehomed(pieces: seq<Piece>, pushedOut: int, inserted: int): (r: seq<Piece>)
    ensures |r| == |pieces|
    ensures forall k :: 0 <= k < |pieces| ==> r[k].objective == pieces[k].objective
    ensures forall k :: 0 <= k < |pieces| ==>
              r[k].mazeCard == if pieces[k].mazeCard == pushedOut then inserted else pieces[k].mazeCard
  {
    seq(|pieces|, k requires 0 <= k < |pieces| =>
      if pieces[k].mazeCard == pushedOut then pieces[k].(mazeCard := inserted) else pieces[k])
  }

  /**
   * A shift keeps the identifiers distinct: the cells draw their cards from distinct old cells or
   * from the old leftover, and the new leftover is the old far-end card, which no cell draws from.
   */
  lemma ShiftKeepsDistinct(g: Grid, leftover: MazeCard, insert: BoardLocation, card: MazeCard)
    requires IsGrid(g) && DistinctCards(g, leftover) && OnBorder(insert) && card.identifier == leftover.identifier
    ensures DistinctCards(ShiftedGrid(g, insert, card), PushedOut(g, insert))
  {
    var h := ShiftedGrid(g, insert, card);
    var far := FarEnd(insert);
    forall p, q | IsInside(p) && IsInside(q) && p != q
      ensures CardId(h, p) != CardId(h, q)
    {
      ShiftOriginInjective(insert, p, q);
      ShiftedCellFromOrigin(g, insert, card, p);
      ShiftedCellFromOrigin(g, insert, card, q);
      var op, oq := ShiftOrigin(insert, p), ShiftOrigin(insert, q);
      if op.Some? && oq.Some? {
        assert CardId(g, op.value) != CardId(g, oq.value);
      } else if op.Some? {
        assert CardId(g, op.value) != leftover.identifier;
      } else if oq.Some? {
        assert CardId(g, oq.value) != leftover.identifier;
      }
    }
    forall p | IsInside(p)
      ensures CardId(h, p) != CardId(g, far)
    {
      ShiftedCellFromOrigin(g, insert, card, p);
      var op := ShiftOrigin(insert, p);
      if op.Some? {
        assert CardId(g, op.value) != CardId(g, far);
      }
    }
  }

  /** After a shift every piece still stands on a card of the grid, and none on the new leftover. */
  lemma ShiftKeepsPiecesOnGrid(g: Grid, leftover: MazeCard, insert: BoardLocation, card: MazeCard, pieces: seq<Piece>)
    requires IsGrid(g) && DistinctCards(g, leftover) && OnBorder(insert) && card.identifier == leftover.identifier
    requires PiecesOnGrid(g, pieces)
    ensures PiecesOnGrid(ShiftedGrid(g, insert, card), Rehomed(pieces, PushedOut(g, insert).identifier, card.identifier))
  {
    var h := ShiftedGrid(g, insert, card);
    var pushed := PushedOut(g, insert).identifier;
    var r := Rehomed(pieces, pushed, card.identifier);
    forall k | 0 <= k < |r|
      ensures r[k].mazeCard in GridIdentifiers(h)
    {
      if pieces[k].mazeCard == pushed {
        assert At(h, insert) == card;
      } else {
        var l := GridIdentifierLocation(g, pieces[k].mazeCard);
        assert l != FarEnd(insert);
        ShiftKeepsCards(g, insert, card, l);
      }
    }
  }

  /** The board: the maze, the leftover card and the pieces. */
  class Board {
    const maze: Maze
    var leftover: MazeCard
    var pieces: seq<Piece>

    ghost predicate Valid()
      reads this, maze, maze.cells
    {
      && maze.Valid()
      && DistinctCards(maze.Cards(), leftover)
      && PiecesOnGrid(maze.Cards(), pieces)
    }

    /** A board without pieces on the given maze; the maze and the leftover carry distinct cards. */
    constructor (maze: Maze, leftover: MazeCard)
      requires maze.Valid() && DistinctCards(maze.Cards(), leftover)
      ensures Valid() && this.maze == maze && this.leftover == leftover && pieces == []
    {
      this.maze := maze;
      this.leftover := leftover;
      pieces := [];
    }

    /** Board.clear_pieces */
    method ClearPieces()
      requires Valid()
      modifies this
      ensures Valid() && pieces == [] && leftover == old(leftover)
    {
      pieces := [];
    }

    /**
     * Board._random_unoccupied_maze_card: a card that no piece stands on or has as objective,
     * picked by `random.choice`, here any member of the pool. An empty pool raises IndexError.
     */
    method RandomUnoccupiedMazeCard() returns (r: Result<int, ModelError>)
      requires maze.Valid()
      ensures r.Failure? <==> UnoccupiedPool(maze.Cards(), leftover, pieces) == {}
      ensures r.Failure? ==> r.error == IndexError
      ensures r.Success? ==> r.value in CardIdentifiers(maze.Cards(), leftover) && r.value !in Occupied(pieces)
    {
      var g := maze.Cards();
      var cards := CardIdentifiers(g, leftover);
      for k := 0 to |pieces|
        invariant cards == CardIdentifiers(g, leftover) - Occupied(pieces[..k])
      {
        assert pieces[..k + 1][..k] == pieces[..k];
        cards := cards - (if pieces[k].objective.Some? then {pieces[k].objective.value} else {});
        cards := cards - {pieces[k].mazeCard};
      }
      assert pieces[..|pieces|] == pieces;
      if cards == {} {
        return Failure(IndexError);
      }
      var choice :| choice in cards;
      return Success(choice);
    }

    /**
     * Board.create_piece: the new piece starts on the card at the next start location, is appended,
     * and then draws its objective from the pool, which already excludes its own card.
     * The returned value is the index of the new piece.
     */
    method CreatePiece() returns (r: Result<nat, ModelError>)
      requires Valid()
      modifies this
      ensures Valid() && leftover == old(leftover) && maze.Cards() == old(maze.Cards())
      ensures var placed := Piece(At(maze.Cards(), StartLocation(|old(pieces)|)).identifier, None);
              && (r.Failure? <==> UnoccupiedPool(maze.Cards(), leftover, old(pieces) + [placed]) == {})
              && (r.Failure? ==> r.error == IndexError && pieces == old(pieces) + [placed])
              && (r.Success? ==>
                    && r.value == |old(pieces)| && |pieces| == r.value + 1 && pieces[r.value].objective.Some?
                    && pieces == old(pieces) + [placed.(objective := pieces[r.value].objective)]
                    && pieces[r.value].objective.value in UnoccupiedPool(maze.Cards(), leftover, old(pieces) + [placed]))
      ensures |old(pieces)| < 4 ==> r.Success?
    {
      ghost var g := maze.Cards();
      var location := StartLocation(|pieces|);
      var card := maze.Get(location);
      var index := |pieces|;
      var piece := Piece(card.value.identifier, None);
      PiecesOnGridAppend(g, pieces, piece);
      pieces := pieces + [piece];
      assert maze.Cards() == g;
      if |pieces| <= 4 {
        PoolNonEmpty(g, leftover, pieces);
      }
      ghost var placed := pieces;
      var objective := DrawObjective(index);
      assert maze.Cards() == g;
      if objective.Failure? {
        return Failure(objective.error);
      }
      PiecesOnGridUpdate(g, placed, index, pieces[index]);
      return Success(index);
    }

    /**
     * `piece.objective_maze_card = self._random_unoccupied_maze_card()`: the piece at `index` draws
     * its objective from the pool; when the pool is empty the call raises and nothing changes.
     */
    method DrawObjective(index: nat) returns (r: Result<int, ModelError>)
      requires maze.Valid() && index < |pieces|
      modifies this
      ensures leftover == old(leftover)
      ensures r.Failure? <==> UnoccupiedPool(maze.Cards(), leftover, old(pieces)) == {}
      ensures r.Failure? ==> r.error == IndexError && pieces == old(pieces)
      ensures r.Success? ==>
                && r.value in UnoccupiedPool(maze.Cards(), leftover, old(pieces))
                && pieces == old(pieces)[index := old(pieces)[index].(objective := Some(r.value))]
    {
      r := RandomUnoccupiedMazeCard();
      if r.Success? {
        pieces := pieces[index := pieces[index].(objective := Some(r.value))];
      }
    }

    /**
     * Board.shift: the leftover takes the requested rotation first and is then pushed in at
     * `location`; the pushed-out card becomes the leftover and the pieces on it move onto the
     * inserted card. An invalid rotation changes nothing, a failing maze shift keeps the new rotation.
     */
    method Shift(location: BoardLocation, rotation: int) returns (r: Result<(), ModelError>)
      requires Valid()
      modifies this, maze.cells
      ensures Valid() && |pieces| == |old(pieces)|
      ensures ShiftOutcome(old(maze.Cards()), old(leftover), old(pieces), maze.Cards(), leftover, pieces, location, rotation, r)
    {
      var rotated := SetRotation(leftover, rotation);
      if rotated.Failure? {
        return Failure(rotated.error);
      }
      ghost var g, previous := maze.Cards(), leftover;
      leftover := rotated.value;
      assert maze.Cards() == g;
      var pushedCard := leftover;
      var shifted := maze.Shift(location, leftover);
      if shifted.Failure? {
        return Failure(shifted.error);
      }
      ghost var h := maze.Cards();
      leftover := shifted.value;
      assert maze.Cards() == h;
      ShiftKeepsDistinct(g, previous, location, pushedCard);
      ShiftKeepsPiecesOnGrid(g, previous, location, pushedCard, pieces);
      MovePiecesOnto(leftover.identifier, pushedCard.identifier);
      assert maze.Cards() == h;
      return Success(());
    }

    /** The loop of Board.shift over _find_pieces_by_maze_card: the pieces on `pushedOut` move onto `inserted`. */
    method MovePiecesOnto(pushedOut: int, inserted: int)
      modifies this
      ensures pieces == Rehomed(old(pieces), pushedOut, inserted) && leftover == old(leftover)
    {
      ghost var expected := Rehomed(pieces, pushedOut, inserted);
      for k := 0 to |pieces|
        invariant |pieces| == |expected| && leftover == old(leftover)
        invariant forall j :: 0 <= j < k ==> pieces[j] == expected[j]
        invariant forall j :: k <= j < |pieces| ==> pieces[j] == old(pieces)[j]
      {
        if pieces[k].mazeCard == pushedOut {
          pieces := pieces[k := pieces[k].(mazeCard := inserted)];
        }
      }
      assert pieces == expected;
    }
    /**
     * Board.move: the piece moves onto the card at `target` if that location is inside the maze and
     * connected to the piece's location; on reaching its objective the piece draws a new one, and
     * when that draw raises the piece stays moved.
     */
    method Move(piece: nat, target: BoardLocation) returns (r: Result<(), ModelError>)
      requires Valid() && piece < |pieces|
      modifies this
      ensures Valid() && leftover == old(leftover) && maze.Cards() == old(maze.Cards())
      ensures MoveOutcome(maze.Cards(), leftover, old(pieces), pieces, piece, target, r) && |pieces| == |old(pieces)|
      ensures |old(pieces)| <= 4 ==> r != Failure(IndexError)
    {
      ghost var g := maze.Cards();
      var location := maze.MazeCardLocation(pieces[piece].mazeCard);
      assert maze.Cards() == g;
      ghost var l := GridIdentifierLocation(g, pieces[piece].mazeCard);
      SameCardSameLocation(g, leftover, l, location.value);
      CardLocationUnique(g, leftover, location.value);
      var targetCard := maze.Get(target);
      assert maze.Cards() == g;
      if targetCard.Failure? {
        return Failure(targetCard.error);
      }
      var graph := new Graph(maze);
      assert maze.Cards() == g;
      var reachable := graph.IsReachable(location.value, target);
      assert maze.Cards() == g;
      if !reachable.value {
        return Failure(MoveUnreachable);
      }
      r := MoveOnto(piece, target, targetCard.value);
    }

    /** The second half of Board.move: the piece steps onto `card` and, on reaching its objective, draws a new one. */
    method MoveOnto(piece: nat, target: BoardLocation, card: MazeCard) returns (r: Result<(), ModelError>)
      requires Valid() && piece < |pieces| && IsInside(target) && card == At(maze.Cards(), target)
      modifies this
      ensures Valid() && leftover == old(leftover) && maze.Cards() == old(maze.Cards())
      ensures MovedOnto(maze.Cards(), leftover, old(pieces), pieces, piece, target, r)
      ensures |old(pieces)| <= 4 ==> r != Failure(IndexError)
    {
      ghost var g := maze.Cards();
      var moved := pieces[piece].(mazeCard := card.identifier);
      PiecesOnGridUpdate(g, pieces, piece, moved);
      pieces := pieces[piece := moved];
      assert maze.Cards() == g;
      if !moved.HasReachedObjective() {
        return Success(());
      }
      if |pieces| <= 4 {
        PoolNonEmpty(g, leftover, pieces);
      }
      ghost var before := pieces;
      var objective := DrawObjective(piece);
      assert maze.Cards() == g;
      if objective.Failure? {
        return Failure(objective.error);
      }
      PiecesOnGridUpdate(g, before, piece, pieces[piece]);
      return Success(());
    }
  }

  /** The outcome of Board.move for the piece at index `piece`, on cards `g` that the move leaves alone: an
   * unknown target fails with InvalidLocation, an unconnected one with MoveUnreachable, and both leave
   * the pieces alone. */
  ghost predicate MoveOutcome(g: Grid, leftover: MazeCard, pieces: seq<Piece>, pieces': seq<Piece>,
                              piece: nat, target: BoardLocation, r: Result<(), ModelError>)
    requires IsGrid(g) && piece < |pieces|
  {
    if !IsInside(target) then
      r == Failure(InvalidLocation) && pieces' == pieces
    else
      && (forall l {:trigger At(g, l)} ::
            IsInside(l) && At(g, l).identifier == pieces[piece].mazeCard ==>
              (r == Failure(MoveUnreachable) <==> !Reachable(g, l, target)))
      && (r == Failure(MoveUnreachable) ==> pieces' == pieces)
      && (r != Failure(MoveUnreachable) ==> MovedOnto(g, leftover, pieces, pieces', piece, target, r))
  }

  /**
   * The outcome of Board.shift on a board whose cards were `g`, whose leftover was `leftover` and
   * whose pieces were `pieces`, and which now holds `g'`, `leftover'` and `pieces'`: an invalid
   * rotation changes nothing, a location that is not an insert location keeps the rotated leftover
   * and fails with InvalidShiftLocation, or with InvalidLocation outside the maze.
   */
  ghost predicate ShiftOutcome(g: Grid, leftover: MazeCard, pieces: seq<Piece>,
                               g': Grid, leftover': MazeCard, pieces': seq<Piece>,
                               location: BoardLocation, rotation: int, r: Result<(), ModelError>)
    requires IsGrid(g)
  {
    if rotation % 90 != 0 then
      r == Failure(InvalidRotation) && g' == g && leftover' == leftover && pieces' == pieces
    else if location !in InsertLocationSet() then
      && r == Failure(if IsInside(location) then InvalidShiftLocation else InvalidLocation)
      && g' == g && leftover' == SetRotation(leftover, rotation).value && pieces' == pieces
    else
      var inserted := SetRotation(leftover, rotation).value;
      && r.Success? && OnBorder(location)
      && g' == ShiftedGrid(g, location, inserted)
      && leftover' == PushedOut(g, location)
      && pieces' == Rehomed(pieces, leftover'.identifier, inserted.identifier)
  }

  /**
   * The outcome of Board.move once the target is connected: the piece stands on the target's card;
   * if that card is its objective it draws a new one from the pool, and an empty pool fails with
   * IndexError after the piece has moved.
   */
  ghost predicate MovedOnto(g: Grid, leftover: MazeCard, before: seq<Piece>, after: seq<Piece>, piece: nat,
                            target: BoardLocation, r: Result<(), ModelError>)
    requires IsGrid(g) && IsInside(target) && piece < |before|
  {
    var moved := before[piece].(mazeCard := At(g, target).identifier);
    var pool := UnoccupiedPool(g, leftover, before[piece := moved]);
    if !moved.HasReachedObjective() then
      r.Success? && after == before[piece := moved]
    else
      && (r.Failure? <==> pool == {})
      && (r.Failure? ==> r.error == IndexError && after == before[piece := moved])
      && (r.Success? ==>
            && |after| == |before| && after[piece].objective.Some? && after[piece].objective.value in pool
            && after == before[piece := moved.(objective := after[piece].objective)])
  }

  /** The location of a card is the only location holding it. */
  lemma CardLocationUnique(g: Grid, leftover: MazeCard, m: BoardLocation)
    requires IsGrid(g) && DistinctCards(g, leftover) && IsInside(m)
    ensures forall l {:trigger At(g, l)} :: IsInside(l) && At(g, l).identifier == At(g, m).identifier ==> l == m
  {
    forall l | IsInside(l) && At(g, l).identifier == At(g, m).identifier
      ensures l == m
    {
      SameCardSameLocation(g, leftover, l, m);
    }
  }

  /** Two locations holding the same card are the same location. */
  lemma SameCardSameLocation(g: Grid, leftover: MazeCard, l: BoardLocation, m: BoardLocation)
    requires IsGrid(g) && DistinctCards(g, leftover) && IsInside(l) && IsInside(m)
    ensures At(g, l).identifier == At(g, m).identifier ==> l == m
  {
    if l != m {
      assert CardId(g, l) != CardId(g, m);
    }
  }

  /** No piece stands on the leftover: the pieces stand on grid cards, whose identifiers differ from the leftover's. */
  lemma PiecesOffLeftover(g: Grid, leftover: MazeCard, pieces: seq<Piece>)
    requires IsGrid(g) && DistinctCards(g, leftover) && PiecesOnGrid(g, pieces)
    ensures forall k :: 0 <= k < |pieces| ==> pieces[k].mazeCard != leftover.identifier
  {
    forall k | 0 <= k < |pieces|
      ensures pieces[k].mazeCard != leftover.identifier
    {
      var l := GridIdentifierLocation(g, pieces[k].mazeCard);
      assert CardId(g, l) != leftover.identifier;
    }
  }
}
