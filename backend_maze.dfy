/** The 7x7 maze of the backend model (class Maze in game.py) and the pure grid functions that specify it. */
module Mazes {
  import opened Common
  import opened ModelExceptions
  import opened MazeCards

  const MazeSize: int := 7

  /** The value of a maze: rows of cards. */
  type Grid = seq<seq<MazeCard>>

  predicate IsGrid(g: Grid) {
    |g| == MazeSize && forall r :: 0 <= r < MazeSize ==> |g[r]| == MazeSize
  }

  /** Maze.is_inside */
  predicate IsInside(l: BoardLocation) {
    l.row >= 0 && l.column >= 0 && l.row < MazeSize && l.column < MazeSize
  }

  function At(g: Grid, l: BoardLocation): MazeCard
    requires IsGrid(g) && IsInside(l)
  {
    g[l.row][l.column]
  }

  /** The grid with one cell replaced. */
  function Update(g: Grid, l: BoardLocation, card: MazeCard): (r: Grid)
    requires IsGrid(g) && IsInside(l)
    ensures IsGrid(r) && At(r, l) == card
    ensures forall q {:trigger At(r, q)} :: IsInside(q) && q != l ==> At(r, q) == At(g, q)
  {
    g[l.row := g[l.row][l.column := card]]
  }

  /** Two grids that agree on every cell are equal. */
  lemma GridsEqual(a: Grid, b: Grid)
    requires IsGrid(a) && IsGrid(b)
    requires forall q :: IsInside(q) ==> At(a, q) == At(b, q)
    ensures a == b
  {
    forall r | 0 <= r < MazeSize
      ensures a[r] == b[r]
    {
      forall c | 0 <= c < MazeSize
        ensures a[r][c] == b[r][c]
      {
        assert At(a, BoardLocation(r, c)) == At(b, BoardLocation(r, c));
      }
    }
  }

  /** Every location of the maze, row-major (Maze.maze_locations), as a set. */
  function InsideLocations(): (s: set<BoardLocation>)
    ensures forall l :: l in s <==> IsInside(l)
  {
    set r, c | 0 <= r < MazeSize && 0 <= c < MazeSize :: BoardLocation(r, c)
  }

  /** One coordinate on the border, the other odd and below `bound`. */
  predicate InsertLocationBelow(l: BoardLocation, bound: int) {
    || ((l.row == 0 || l.row == MazeSize - 1) && 1 <= l.column < bound && l.column % 2 == 1)
    || ((l.column == 0 || l.column == MazeSize - 1) && 1 <= l.row < bound && l.row % 2 == 1)
  }

  /** One of 1, 3 and 5. */
  predicate OddInside(i: int) {
    i == 1 || i == 3 || i == 5
  }

  /** The shiftable locations: one coordinate in {0, 6}, the other in {1, 3, 5}. */
  predicate IsInsertLocation(l: BoardLocation) {
    || ((l.row == 0 || l.row == 6) && OddInside(l.column))
    || ((l.column == 0 || l.column == 6) && OddInside(l.row))
  }

  function InsertLocationSet(): (s: set<BoardLocation>)
    ensures forall l :: l in s <==> IsInsertLocation(l)
  {
    set l | l in InsideLocations() && IsInsertLocation(l)
  }

  /** Maze._determine_shift_direction: the direction in which the cards move. */
  function ShiftDirection(l: BoardLocation): (r: Result<Direction, ModelError>)
    ensures r.Failure? <==> (l.row != MazeSize - 1 && l.row != 0 && l.column != MazeSize - 1 && l.column != 0)
    ensures r.Failure? ==> r.error == InvalidShiftLocation
  {
    if l.row == MazeSize - 1 then Success(North)
    else if l.row == 0 then Success(South)
    else if l.column == MazeSize - 1 then Success(West)
    else if l.column == 0 then Success(East)
    else Failure(InvalidShiftLocation)
  }

  /** A location inside the maze on which ShiftDirection succeeds. */
  predicate OnBorder(l: BoardLocation) {
    IsInside(l) && (l.row == 0 || l.row == MazeSize - 1 || l.column == 0 || l.column == MazeSize - 1)
  }

  /** Maze._neighbor */
  function Neighbor(l: BoardLocation, d: Direction): (r: Option<BoardLocation>)
    ensures r.Some? <==> IsInside(l.Add(d.RowDelta(), d.ColumnDelta()))
    ensures r.Some? ==> r.value == l.Add(d.RowDelta(), d.ColumnDelta())
  {
    var n := l.Add(d.RowDelta(), d.ColumnDelta());
    if IsInside(n) then Some(n) else None
  }

  /** The location k steps from l in direction d. */
  function Along(l: BoardLocation, d: Direction, k: int): BoardLocation {
    match d
    case North => BoardLocation(l.row - k, l.column)
    case South => BoardLocation(l.row + k, l.column)
    case East => BoardLocation(l.row, l.column + k)
    case West => BoardLocation(l.row, l.column - k)
  }

  /** How many cells, l included, lie between l and the border that d points to. */
  function Remaining(l: BoardLocation, d: Direction): int {
    match d
    case North => l.row + 1
    case South => MazeSize - l.row
    case East => MazeSize - l.column
    case West => l.column + 1
  }

  /** The locations visited from l in direction d until the maze ends: the shift line. */
  function Walk(l: BoardLocation, d: Direction): (w: seq<BoardLocation>)
    requires IsInside(l)
    ensures |w| == Remaining(l, d)
    ensures forall k :: 0 <= k < |w| ==> w[k] == Along(l, d, k) && IsInside(w[k])
  {
    seq(Remaining(l, d), k requires 0 <= k < Remaining(l, d) => Along(l, d, k))
  }

  /** A walk never visits a location twice. */
  lemma WalkDistinct(l: BoardLocation, d: Direction)
    requires IsInside(l)
    ensures forall i, j :: 0 <= i < j < |Walk(l, d)| ==> Walk(l, d)[i] != Walk(l, d)[j]
  {
  }

  /** Stepping from the k-th location of a walk reaches the next one, and leaves the maze exactly after the last. */
  lemma NeighborAlong(l: BoardLocation, d: Direction, k: nat)
    requires IsInside(l) && k < Remaining(l, d)
    ensures Neighbor(Along(l, d, k), d).Some? <==> k + 1 < Remaining(l, d)
    ensures Neighbor(Along(l, d, k), d).Some? ==> Neighbor(Along(l, d, k), d).value == Along(l, d, k + 1)
  {
  }

  /** True iff q lies on the full row or column that a shift at `insert` in direction d moves. */
  predicate OnLine(insert: BoardLocation, d: Direction, q: BoardLocation) {
    if d.RowDelta() != 0 then q.column == insert.column else q.row == insert.row
  }

  /** The cell one step back along the shift direction: the card arriving at q comes from there. */
  function Back(q: BoardLocation, d: Direction): BoardLocation {
    q.Add(-d.RowDelta(), -d.ColumnDelta())
  }

  /** The location whose card is pushed out by a shift at `insert`: the far end of its line. */
  function FarEnd(insert: BoardLocation): (f: BoardLocation)
    requires OnBorder(insert)
    ensures OnBorder(f) && ShiftDirection(f).value == ShiftDirection(insert).value.Mirror()
  {
    Along(insert, ShiftDirection(insert).value, MazeSize - 1)
  }

  /** What a shift at `insert` puts on cell q. */
  function ShiftedCell(g: Grid, insert: BoardLocation, card: MazeCard, q: BoardLocation): MazeCard
    requires IsGrid(g) && OnBorder(insert) && IsInside(q)
  {
    var d := ShiftDirection(insert).value;
    if q == insert then card
    else if OnLine(insert, d, q) then At(g, Back(q, d))
    else At(g, q)
  }

  /**
   * The grid after a shift at `insert`: every card of the line moves one cell along it, `card`
   * enters at `insert`, and all other cells keep their cards.
   */
  function ShiftedGrid(g: Grid, insert: BoardLocation, card: MazeCard): (r: Grid)
    requires IsGrid(g) && OnBorder(insert)
    ensures IsGrid(r)
    ensures forall q {:trigger At(r, q)} :: IsInside(q) ==> At(r, q) == ShiftedCell(g, insert, card, q)
  {
    seq(MazeSize, row requires 0 <= row < MazeSize =>
      seq(MazeSize, column requires 0 <= column < MazeSize =>
        ShiftedCell(g, insert, card, BoardLocation(row, column))))
  }

  /** The card a shift at `insert` pushes out of the maze. */
  function PushedOut(g: Grid, insert: BoardLocation): MazeCard
    requires IsGrid(g) && OnBorder(insert)
  {
    At(g, FarEnd(insert))
  }

  /** The far end of a border location's line is a border location whose line runs back the other way. */
  lemma FarEndReverses(insert: BoardLocation)
    requires OnBorder(insert)
    ensures FarEnd(FarEnd(insert)) == insert
  {
    var far := FarEnd(insert);
    if insert.row == MazeSize - 1 {
      assert far == BoardLocation(0, insert.column);
      assert FarEnd(far) == Along(far, South, MazeSize - 1);
    } else if insert.row == 0 {
      assert far == BoardLocation(MazeSize - 1, insert.column);
      assert FarEnd(far) == Along(far, North, MazeSize - 1);
    } else if insert.column == MazeSize - 1 {
      assert far == BoardLocation(insert.row, 0);
      assert FarEnd(far) == Along(far, East, MazeSize - 1);
    } else {
      assert far == BoardLocation(insert.row, MazeSize - 1);
      assert FarEnd(far) == Along(far, West, MazeSize - 1);
    }
  }

  /** The far end of an insert location is an insert location too. */
  lemma FarEndIsInsertLocation(insert: BoardLocation)
    requires IsInsertLocation(insert)
    ensures OnBorder(insert) && IsInsertLocation(FarEnd(insert))
  {
    var far := FarEnd(insert);
    if insert.row == MazeSize - 1 {
      assert far == BoardLocation(0, insert.column);
    } else if insert.row == 0 {
      assert far == BoardLocation(MazeSize - 1, insert.column);
    } else if insert.column == MazeSize - 1 {
      assert far == BoardLocation(insert.row, 0);
    } else {
      assert far == BoardLocation(insert.row, MazeSize - 1);
    }
  }

  /** The round trip on one cell: the second shift puts back what the first one moved away. */
  lemma RoundTripCell(g: Grid, insert: BoardLocation, card: MazeCard, q: BoardLocation)
    requires IsGrid(g) && OnBorder(insert) && IsInside(q)
    ensures At(ShiftedGrid(ShiftedGrid(g, insert, card), FarEnd(insert), PushedOut(g, insert)), q) == At(g, q)
  {
    var d := ShiftDirection(insert).value;
    var far := FarEnd(insert);
    var once := ShiftedGrid(g, insert, card);
    if q != far && OnLine(insert, d, q) {
      var b := Back(q, d.Mirror());
      assert OnLine(far, d.Mirror(), q);
      assert IsInside(b) && b != insert && Back(b, d) == q by {
        match d
        case North =>
        case South =>
        case East =>
        case West =>
      }
      assert At(once, b) == At(g, q);
    }
  }

  /**
   * Shifting at `insert` and then pushing the ejected card back in at the far end restores the maze,
   * and ejects the card that was inserted first.
   */
  lemma ShiftRoundTrip(g: Grid, insert: BoardLocation, card: MazeCard)
    requires IsGrid(g) && OnBorder(insert)
    ensures ShiftedGrid(ShiftedGrid(g, insert, card), FarEnd(insert), PushedOut(g, insert)) == g
    ensures PushedOut(ShiftedGrid(g, insert, card), FarEnd(insert)) == card
  {
    FarEndReverses(insert);
    var twice := ShiftedGrid(ShiftedGrid(g, insert, card), FarEnd(insert), PushedOut(g, insert));
    forall q | IsInside(q)
      ensures At(twice, q) == At(g, q)
    {
      RoundTripCell(g, insert, card, q);
    }
    GridsEqual(twice, g);
  }

  /** Every card of the old maze except the pushed-out one is still in the maze after a shift. */
  lemma ShiftKeepsCards(g: Grid, insert: BoardLocation, card: MazeCard, q: BoardLocation)
    requires IsGrid(g) && OnBorder(insert) && IsInside(q) && q != FarEnd(insert)
    ensures var d := ShiftDirection(insert).value;
            var q' := if OnLine(insert, d, q) then q.Add(d.RowDelta(), d.ColumnDelta()) else q;
            IsInside(q') && q' != insert && At(ShiftedGrid(g, insert, card), q') == At(g, q)
  {
  }

  /**
   * Where the card now at q came from: Some(old location), or None for the inserted card.
   * Distinct cells draw from distinct origins, which keeps card identifiers distinct.
   */
  function ShiftOrigin(insert: BoardLocation, q: BoardLocation): (o: Option<BoardLocation>)
    requires OnBorder(insert) && IsInside(q)
    ensures o.Some? ==> IsInside(o.value) && o.value != FarEnd(insert)
  {
    var d := ShiftDirection(insert).value;
    if q == insert then None
    else if OnLine(insert, d, q) then Some(Back(q, d))
    else Some(q)
  }

  lemma ShiftOriginInjective(insert: BoardLocation, q1: BoardLocation, q2: BoardLocation)
    requires OnBorder(insert) && IsInside(q1) && IsInside(q2) && q1 != q2
    ensures ShiftOrigin(insert, q1) != ShiftOrigin(insert, q2)
  {
  }

  lemma ShiftedCellFromOrigin(g: Grid, insert: BoardLocation, card: MazeCard, q: BoardLocation)
    requires IsGrid(g) && OnBorder(insert) && IsInside(q)
    ensures ShiftOrigin(insert, q).None? ==> At(ShiftedGrid(g, insert, card), q) == card
    ensures ShiftOrigin(insert, q).Some? ==> At(ShiftedGrid(g, insert, card), q) == At(g, ShiftOrigin(insert, q).value)
  {
  }

  /** The maze: a 7x7 array of maze cards and the set of locations where cards can be pushed in. */
  class Maze {
    const cells: array2<MazeCard>
    const insertLocations: set<BoardLocation>

    ghost predicate Valid()
      reads this
    {
      cells.Length0 == MazeSize && cells.Length1 == MazeSize && insertLocations == InsertLocationSet()
    }

    /** The current cards, as a grid value. */
    function Cards(): (g: Grid)
      reads this, cells
      requires Valid()
      ensures IsGrid(g)
      ensures forall q {:trigger At(g, q)} :: IsInside(q) ==> At(g, q) == cells[q.row, q.column]
    {
      RowsAbove(MazeSize)
    }

    /** The first n rows of the cards. */
    function RowsAbove(n: nat): (rows: seq<seq<MazeCard>>)
      reads this, cells
      requires Valid() && n <= MazeSize
      ensures |rows| == n
      ensures forall r :: 0 <= r < n ==> |rows[r]| == MazeSize
      ensures forall r, c :: 0 <= r < n && 0 <= c < MazeSize ==> rows[r][c] == cells[r, c]
    {
      if n == 0 then [] else RowsAbove(n - 1) + [RowPrefix(n - 1, MazeSize)]
    }

    /** The first n cards of row r. */
    function RowPrefix(r: nat, n: nat): (row: seq<MazeCard>)
      reads this, cells
      requires Valid() && r < MazeSize && n <= MazeSize
      ensures |row| == n && forall c :: 0 <= c < n ==> row[c] == cells[r, c]
    {
      if n == 0 then [] else RowPrefix(r, n - 1) + [cells[r, n - 1]]
    }

    /**
     * The Python maze starts with empty cells that its creator fills through __setitem__;
     * here the creator passes the cards directly. The insert locations are collected as in __init__.
     */
    constructor (initial: Grid)
      requires IsGrid(initial)
      ensures Valid() && fresh(cells)
      ensures Cards() == initial
    {
      cells := new MazeCard[MazeSize, MazeSize]((r, c) requires 0 <= r < MazeSize && 0 <= c < MazeSize => initial[r][c]);
      var locations: set<BoardLocation> := {};
      var position := 1;
      while position < MazeSize
        invariant 1 <= position <= MazeSize + 1 && position % 2 == 1
        invariant forall l :: l in locations <==> InsertLocationBelow(l, position)
      {
        locations := locations + {BoardLocation(0, position), BoardLocation(position, 0),
                                  BoardLocation(MazeSize - 1, position), BoardLocation(position, MazeSize - 1)};
        position := position + 2;
      }
      assert forall l :: InsertLocationBelow(l, position) <==> IsInsertLocation(l);
      insertLocations := locations;
      new;
      GridsEqual(Cards(), initial);
    }

    /** Maze.__getitem__ */
    method Get(l: BoardLocation) returns (r: Result<MazeCard, ModelError>)
      requires Valid()
      ensures !IsInside(l) ==> r == Failure(InvalidLocation)
      ensures IsInside(l) ==> r == Success(At(Cards(), l))
    {
      if !IsInside(l) {
        return Failure(InvalidLocation);
      }
      return Success(cells[l.row, l.column]);
    }

    /** Maze.__setitem__: only the addressed cell changes. */
    method Set(l: BoardLocation, card: MazeCard) returns (r: Result<(), ModelError>)
      requires Valid()
      modifies cells
      ensures r.Failure? <==> !IsInside(l)
      ensures r.Failure? ==> r.error == InvalidLocation && Cards() == old(Cards())
      ensures r.Success? ==> Cards() == Update(old(Cards()), l, card)
    {
      if !IsInside(l) {
        return Failure(InvalidLocation);
      }
      cells[l.row, l.column] := card;
      GridsEqual(Cards(), Update(old(Cards()), l, card));
      return Success(());
    }

    /** Maze.maze_card_location: the first location, in row-major order, holding a card with that identifier. */
    method MazeCardLocation(identifier: int) returns (r: Option<BoardLocation>)
      requires Valid()
      ensures r.None? <==> forall q {:trigger At(Cards(), q)} :: IsInside(q) ==> At(Cards(), q).identifier != identifier
      ensures r.Some? ==> IsInside(r.value) && At(Cards(), r.value).identifier == identifier
      ensures r.Some? ==> forall q {:trigger At(Cards(), q)} :: IsInside(q) && RowMajorBefore(q, r.value) ==> At(Cards(), q).identifier != identifier
    {
      var row := 0;
      while row < MazeSize
        invariant 0 <= row <= MazeSize
        invariant forall q :: IsInside(q) && q.row < row ==> cells[q.row, q.column].identifier != identifier
      {
        var column := 0;
        while column < MazeSize
          invariant 0 <= column <= MazeSize
          invariant forall q :: IsInside(q) && q.row < row ==> cells[q.row, q.column].identifier != identifier
          invariant forall c :: 0 <= c < column ==> cells[row, c].identifier != identifier
        {
          if cells[row, column].identifier == identifier {
            assert At(Cards(), BoardLocation(row, column)).identifier == identifier;
            return Some(BoardLocation(row, column));
          }
          column := column + 1;
        }
        row := row + 1;
      }
      return None;
    }

    /** Maze._shift_all: every card on the line moves to the next location of the line, far end first. */
    method ShiftAll(line: seq<BoardLocation>)
      requires Valid()
      requires forall k :: 0 <= k < |line| ==> IsInside(line[k])
      requires forall i, j :: 0 <= i < j < |line| ==> line[i] != line[j]
      modifies cells
      ensures forall j :: 0 <= j < |line| - 1 ==> At(Cards(), line[j + 1]) == At(old(Cards()), line[j])
      ensures forall q {:trigger At(Cards(), q)} :: IsInside(q) && (q !in line || q == line[0]) ==> At(Cards(), q) == At(old(Cards()), q)
    {
      if |line| < 2 {
        return;
      }
      var i := |line| - 1;
      while i > 0
        invariant 0 <= i <= |line| - 1
        invariant forall j :: i <= j < |line| - 1 ==> cells[line[j + 1].row, line[j + 1].column] == At(old(Cards()), line[j])
        invariant forall q :: IsInside(q) && q !in line[i + 1..] ==> cells[q.row, q.column] == At(old(Cards()), q)
      {
        var source, target := line[i - 1], line[i];
        assert source !in line[i + 1..];
        cells[target.row, target.column] := cells[source.row, source.column];
        i := i - 1;
      }
      assert forall q :: q == line[0] ==> q !in line[1..];
    }

    /**
     * Maze.shift: pushes `card` in at `insert` and returns the card pushed out at the far end.
     * Both errors are raised before any cell changes.
     */
    method Shift(insert: BoardLocation, card: MazeCard) returns (r: Result<MazeCard, ModelError>)
      requires Valid()
      modifies cells
      ensures !IsInside(insert) ==> r == Failure(InvalidLocation)
      ensures IsInside(insert) && insert !in insertLocations ==> r == Failure(InvalidShiftLocation)
      ensures r.Failure? ==> Cards() == old(Cards())
      ensures r.Success? <==> insert in insertLocations
      ensures r.Success? ==> OnBorder(insert)
                             && r.value == PushedOut(old(Cards()), insert)
                             && Cards() == ShiftedGrid(old(Cards()), insert, card)
    {
      if !IsInside(insert) {
        return Failure(InvalidLocation);
      }
      if insert !in insertLocations {
        return Failure(InvalidShiftLocation);
      }
      // every insert location lies on the border, so _determine_shift_direction does not raise here
      assert IsInsertLocation(insert);
      var pushedOut := ShiftBorder(insert, card);
      return Success(pushedOut);
    }

    /** The body of Maze.shift once the location is known to lie on the border. */
    method ShiftBorder(insert: BoardLocation, card: MazeCard) returns (pushedOut: MazeCard)
      requires Valid() && OnBorder(insert)
      modifies cells
      ensures pushedOut == PushedOut(old(Cards()), insert)
      ensures Cards() == ShiftedGrid(old(Cards()), insert, card)
    {
      var direction := ShiftDirection(insert).value;
      var line := ShiftLine(insert, direction);
      assert |line| == MazeSize && line[MazeSize - 1] == FarEnd(insert);
      WalkDistinct(insert, direction);
      ghost var before := Cards();
      pushedOut := cells[line[MazeSize - 1].row, line[MazeSize - 1].column];
      ShiftAll(line);
      ghost var mid := Cards();
      cells[insert.row, insert.column] := card;
      forall q | IsInside(q)
        ensures At(Cards(), q) == (if q == insert then card else At(mid, q))
      {
      }
      ShiftedFromLine(before, mid, Cards(), insert, card, line);
    }
  }

  /** The line `shift` collects: the insert location and its neighbours towards the shift direction, up to the border. */
  method ShiftLine(insert: BoardLocation, direction: Direction) returns (line: seq<BoardLocation>)
    requires IsInside(insert)
    ensures line == Walk(insert, direction)
  {
    line := [];
    var current: Option<BoardLocation> := Some(insert);
    while current.Some?
      invariant |line| <= Remaining(insert, direction)
      invariant current.Some? <==> |line| < Remaining(insert, direction)
      invariant current.Some? ==> current.value == Along(insert, direction, |line|)
      invariant forall k :: 0 <= k < |line| ==> line[k] == Along(insert, direction, k)
      decreases Remaining(insert, direction) - |line|
    {
      NeighborAlong(insert, direction, |line|);
      line := line + [current.value];
      current := Neighbor(current.value, direction);
    }
  }

  /**
   * Moving every card of the line one step forward and then writing the inserted card at its start
   * yields the shifted maze.
   */
  lemma ShiftedFromLine(before: Grid, mid: Grid, after: Grid, insert: BoardLocation, card: MazeCard,
                        line: seq<BoardLocation>)
    requires IsGrid(before) && IsGrid(mid) && IsGrid(after) && OnBorder(insert)
    requires line == Walk(insert, ShiftDirection(insert).value)
    requires forall i :: 1 <= i < |line| ==> At(mid, line[i]) == At(before, line[i - 1])
    requires forall q :: IsInside(q) && (q !in line || q == line[0]) ==> At(mid, q) == At(before, q)
    requires forall q :: IsInside(q) ==> At(after, q) == (if q == insert then card else At(mid, q))
    ensures after == ShiftedGrid(before, insert, card)
  {
    var d := ShiftDirection(insert).value;
    forall q | IsInside(q)
      ensures At(after, q) == ShiftedCell(before, insert, card, q)
    {
      if q != insert && OnLine(insert, d, q) {
        var k := LineIndex(insert, d, q);
        assert line[k] == q && line[k - 1] == Back(q, d);
      } else if q != insert {
        assert q !in line;
      }
    }
    GridsEqual(after, ShiftedGrid(before, insert, card));
  }

  predicate RowMajorBefore(a: BoardLocation, b: BoardLocation) {
    a.row < b.row || (a.row == b.row && a.column < b.column)
  }

  /** The position of q on the shift line of a border location. */
  function LineIndex(insert: BoardLocation, d: Direction, q: BoardLocation): (k: int)
    requires OnBorder(insert) && d == ShiftDirection(insert).value && IsInside(q) && OnLine(insert, d, q)
    ensures 0 <= k < MazeSize && Along(insert, d, k) == q
  {
    match d
    case North => insert.row - q.row
    case South => q.row - insert.row
    case East => q.column - insert.column
    case West => insert.column - q.column
  }
}
