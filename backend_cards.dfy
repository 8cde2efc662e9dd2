/** Domain failures raised by the backend game model. */
module ModelExceptions {

  datatype ModelError =
    | InvalidLocation
    | InvalidShiftLocation
    | InvalidRotation
    | MoveUnreachable
    | TurnActionViolation
    | GameFull
    | PlayerNotFound
      /** Python's IndexError: indexing an empty list, or `random.choice` of an empty pool */
    | IndexError
}

/** Board locations, directions and maze cards of the backend model (game.py). */
module MazeCards {
  import opened Common
  import opened ModelExceptions

  /** A row and a column; the location does not know the extent of the maze. */
  datatype BoardLocation = BoardLocation(row: int, column: int) {
    function Add(rowDelta: int, columnDelta: int): (r: BoardLocation)
      ensures r.row - row == rowDelta && r.column - column == columnDelta
    {
      BoardLocation(row + rowDelta, column + columnDelta)
    }
  }

  /** The four keys of MazeCard._DIRECTION_TO_DOOR, in the order in which the dictionary lists them. */
  datatype Direction = North | East | South | West {
    function RowDelta(): int {
      match this
      case North => -1
      case East => 0
      case South => 1
      case West => 0
    }

    function ColumnDelta(): int {
      match this
      case North => 0
      case East => 1
      case South => 0
      case West => -1
    }

    /** The position of the direction's door letter in "NESW". */
    function DoorIndex(): (i: nat)
      ensures i < 4 && DoorLetters[i] == Door()
    {
      match this
      case North => 0
      case East => 1
      case South => 2
      case West => 3
    }

    /** The door letter _DIRECTION_TO_DOOR maps the direction to. */
    function Door(): char {
      match this
      case North => 'N'
      case East => 'E'
      case South => 'S'
      case West => 'W'
    }

    /** The direction whose delta is the negated delta (`_mirror` in maze_algorithm.py). */
    function Mirror(): (m: Direction)
      ensures m.RowDelta() == -RowDelta() && m.ColumnDelta() == -ColumnDelta()
      ensures m != this
    {
      match this
      case North => South
      case East => West
      case South => North
      case West => East
    }

    /** The next direction clockwise: N, E, S, W, N. */
    function Clockwise(): (c: Direction)
      ensures c.DoorIndex() == (DoorIndex() + 1) % 4
    {
      match this
      case North => East
      case East => South
      case South => West
      case West => North
    }
  }

  const DoorLetters: string := "NESW"
  const AllDirections: seq<Direction> := [North, East, South, West]

  /** The direction whose door letter sits at index i of "NESW". */
  function DirectionAt(i: nat): (d: Direction)
    requires i < 4
    ensures d.DoorIndex() == i
  {
    AllDirections[i]
  }

  const Straight: string := "NS"
  const Corner: string := "NE"
  const TJunction: string := "NES"

  /**
   * A maze card. Its identity is its identifier (MazeCard.__eq__ compares identifiers only);
   * the doors are letters of "NESW" for the unrotated card, the rotation is in degrees.
   * The constructor does not validate the rotation; only the rotation setter does.
   */
  datatype MazeCard = MazeCard(identifier: int, doors: string, rotation: int)

  /** The rotation setter: rejects values that are not multiples of 90, otherwise stores them modulo 360. */
  function SetRotation(card: MazeCard, value: int): (r: Result<MazeCard, ModelError>)
    ensures r.Failure? <==> value % 90 != 0
    ensures r.Failure? ==> r.error == InvalidRotation
    ensures r.Success? ==>
              && r.value.identifier == card.identifier && r.value.doors == card.doors
              && 0 <= r.value.rotation < 360 && r.value.rotation % 90 == 0
              && (value - r.value.rotation) % 360 == 0
  {
    if value % 90 != 0 then Failure(InvalidRotation)
    else
      NormalizedRotation(value);
      Success(card.(rotation := value % 360))
  }

  lemma NormalizedRotation(value: int)
    requires value % 90 == 0
    ensures (value % 360) % 90 == 0 && (value - value % 360) % 360 == 0
  {
    var k, q := value / 90, value / 360;
    assert value == 90 * k;
    assert value % 360 == 90 * (k - 4 * q);
    assert value - value % 360 == 360 * q;
  }

  /** Number of clockwise quarter turns, Python's `rotation // 90` (floor division, as Dafny's `/` by a positive divisor). */
  function Turns(card: MazeCard): int {
    card.rotation / 90
  }

  /** The unrotated door that ends up facing `direction` once the card is rotated. */
  function AdaptedDoor(card: MazeCard, direction: Direction): char {
    DoorLetters[(direction.DoorIndex() - Turns(card) + 4) % 4]
  }

  /** True iff the card, with its rotation applied, has an outgoing path towards `direction`. */
  predicate HasOutPath(card: MazeCard, direction: Direction)
    ensures HasOutPath(card, direction) ==> |card.doors| > 0
  {
    AdaptedDoor(card, direction) in card.doors
  }

  /** The directions with outgoing paths, in the order N, E, S, W. */
  function OutPaths(card: MazeCard): (r: seq<Direction>)
    ensures forall d :: d in r <==> HasOutPath(card, d)
    ensures forall i, j :: 0 <= i < j < |r| ==> r[i].DoorIndex() < r[j].DoorIndex()
  {
    OutPathsFrom(card, 0)
  }

  function OutPathsFrom(card: MazeCard, i: nat): (r: seq<Direction>)
    requires i <= 4
    ensures forall d :: d in r <==> i <= d.DoorIndex() && HasOutPath(card, d)
    ensures forall k, j :: 0 <= k < j < |r| ==> r[k].DoorIndex() < r[j].DoorIndex()
    ensures forall k :: 0 <= k < |r| ==> i <= r[k].DoorIndex()
    decreases 4 - i
  {
    if i == 4 then []
    else
      var rest := OutPathsFrom(card, i + 1);
      if HasOutPath(card, DirectionAt(i)) then [DirectionAt(i)] + rest else rest
  }

  /** Without rotation, a card has an out path exactly where its door letters say. */
  lemma UnrotatedOutPaths(card: MazeCard, direction: Direction)
    requires 0 <= card.rotation < 90
    ensures HasOutPath(card, direction) <==> direction.Door() in card.doors
  {
    assert Turns(card) == 0;
    assert (direction.DoorIndex() + 4) % 4 == direction.DoorIndex();
  }

  /** Turning a card a quarter clockwise turns each of its out paths a quarter clockwise. */
  lemma {:induction false} QuarterTurnMovesOutPaths(card: MazeCard, direction: Direction)
    ensures HasOutPath(card.(rotation := card.rotation + 90), direction.Clockwise())
            <==> HasOutPath(card, direction)
  {
    var turned := card.(rotation := card.rotation + 90);
    var t := Turns(card);
    assert Turns(turned) == t + 1;
    var i := direction.DoorIndex();
    var j := direction.Clockwise().DoorIndex();
    assert j == (i + 1) % 4;
    assert (j - (t + 1) + 4) % 4 == (i - t + 4) % 4 by {
      if i == 3 {
        assert j == 0;
        assert (0 - (t + 1) + 4) - (3 - t + 4) == -4;
      } else {
        assert j == i + 1;
      }
    }
  }

  /** Adding k quarter turns to the rotation adds k to Turns. */
  lemma TurnsShift(card: MazeCard, k: int)
    ensures Turns(card.(rotation := card.rotation + 90 * k)) == Turns(card) + k
  {
    var t, m := card.rotation / 90, card.rotation % 90;
    assert card.rotation + 90 * k == 90 * (t + k) + m;
  }

  lemma ModFour(x: int, q: int)
    ensures (x - 4 * q) % 4 == x % 4
  {
    var t, m := x / 4, x % 4;
    assert x - 4 * q == 4 * (t - q) + m;
  }

  /** Only the rotation modulo 360 matters, so the setter's normalisation does not change any out path. */
  lemma {:induction false} FullTurnKeepsOutPaths(card: MazeCard, direction: Direction)
    ensures HasOutPath(card.(rotation := card.rotation + 360), direction) <==> HasOutPath(card, direction)
  {
    TurnsShift(card, 4);
    ModFour(direction.DoorIndex() - Turns(card) + 4, 1);
  }

  /** A successful rotation update keeps every out path of the requested rotation. */
  lemma {:induction false} SetRotationKeepsRequestedOutPaths(card: MazeCard, value: int, direction: Direction)
    requires value % 90 == 0
    ensures SetRotation(card, value).Success?
    ensures HasOutPath(SetRotation(card, value).value, direction)
            <==> HasOutPath(card.(rotation := value), direction)
  {
    var stored := SetRotation(card, value).value;
    var k := value / 360;
    assert value == stored.rotation + 90 * (4 * k);
    assert card.(rotation := value) == stored.(rotation := stored.rotation + 90 * (4 * k));
    TurnsShift(stored, 4 * k);
    ModFour(direction.DoorIndex() - Turns(stored) + 4, k);
  }
}
