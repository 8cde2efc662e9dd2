/**
 * Locations, out-path masks, nodes and node grids shared by the two C++ MazeGraph variants
 * (algolibs/libexhsearch and algolibs/solvers).
 */
module GraphBasics {

  /** Location::OffsetType */
  datatype Offset = Offset(rowOffset: int, columnOffset: int)

  const NoOffset: Offset := Offset(0, 0)

  /** A location; Location::IndexType is signed, so a location may lie outside every graph. */
  datatype Location = Location(row: int, column: int) {
    function Plus(o: Offset): Location {
      Location(row + o.rowOffset, column + o.columnOffset)
    }

    function Minus(o: Offset): Location {
      Location(row - o.rowOffset, column - o.columnOffset)
    }
  }

  /**
   * The four out paths. Their mask bits are North = 1, East = 2, South = 4, West = 8, the order in
   * which the neighbor iterators step through them by shifting the bit left.
   */
  datatype OutPath = North | East | South | West {
    function Bit(): bv8 {
      match this
      case North => 1
      case East => 2
      case South => 4
      case West => 8
    }

    /** The position of the bit: 0 for North up to 3 for West. */
    function Index(): nat {
      match this
      case North => 0
      case East => 1
      case South => 2
      case West => 3
    }

    /** offsetFromOutPath */
    function Step(): Offset {
      match this
      case North => Offset(-1, 0)
      case East => Offset(0, 1)
      case South => Offset(1, 0)
      case West => Offset(0, -1)
    }

    function Opposite(): OutPath {
      match this
      case North => South
      case East => West
      case South => North
      case West => East
    }

    /** The out path k quarter turns clockwise from this one. */
    function Turned(k: nat): (d: OutPath)
      ensures d.Index() == (Index() + k) % 4
    {
      OutPathAt((Index() + k) % 4)
    }
  }

  /** The out path at position i of the order North, East, South, West. */
  function OutPathAt(i: nat): (d: OutPath)
    requires i < 4
    ensures d.Index() == i
  {
    if i == 0 then North else if i == 1 then East else if i == 2 then South else West
  }

  /** An out path is determined by its position. */
  lemma IndexDetermines(d: OutPath, e: OutPath)
    requires d.Index() == e.Index()
    ensures d == e
  {
  }

  /** The bit after West: the end of the neighbor iteration. */
  const Sentinel: bv8 := 16

  /** Shifting an out path's bit left by one gives the next out path's bit, and West's gives the sentinel. */
  lemma NextBit(j: nat)
    requires j < 4
    ensures OutPathAt(j).Bit() < Sentinel
    ensures OutPathAt(j).Bit() << 1 == if j + 1 == 4 then Sentinel else OutPathAt(j + 1).Bit()
  {
  }

  /** offsetFromOutPath on any mask value: only the four single bits have a non-zero offset. */
  function OffsetFromOutPath(x: bv8): (o: Offset)
    ensures forall d: OutPath :: x == d.Bit() ==> o == d.Step()
  {
    if x == 1 then Offset(-1, 0)
    else if x == 2 then Offset(0, 1)
    else if x == 4 then Offset(1, 0)
    else if x == 8 then Offset(0, -1)
    else NoOffset
  }

  /** A graph node; the unit of `rotation` depends on the graph variant. */
  datatype Node = Node(nodeId: int, outPaths: bv8, rotation: int)

  /** The node matrix as a value: `extent` rows of `extent` nodes. */
  type Grid = seq<seq<Node>>

  predicate IsGrid(g: Grid, extent: nat) {
    |g| == extent && forall r :: 0 <= r < extent ==> |g[r]| == extent
  }

  /** MazeGraph::isInside */
  predicate IsInside(l: Location, extent: nat) {
    0 <= l.row < extent && 0 <= l.column < extent
  }

  function At(g: Grid, extent: nat, l: Location): Node
    requires IsGrid(g, extent) && IsInside(l, extent)
  {
    g[l.row][l.column]
  }

  /** The node matrix held in a two-dimensional array, row by row. */
  function GridOf(a: array2<Node>): (g: Grid)
    reads a
    requires a.Length0 == a.Length1
    ensures IsGrid(g, a.Length0)
    ensures forall q {:trigger At(g, a.Length0, q)} :: IsInside(q, a.Length0) ==> At(g, a.Length0, q) == a[q.row, q.column]
  {
    RowsAbove(a, a.Length0)
  }

  function RowsAbove(a: array2<Node>, n: nat): (rows: Grid)
    reads a
    requires a.Length0 == a.Length1 && n <= a.Length0
    ensures |rows| == n
    ensures forall r :: 0 <= r < n ==> |rows[r]| == a.Length1
    ensures forall r, c :: 0 <= r < n && 0 <= c < a.Length1 ==> rows[r][c] == a[r, c]
  {
    if n == 0 then [] else RowsAbove(a, n - 1) + [RowPrefix(a, n - 1, a.Length1)]
  }

  function RowPrefix(a: array2<Node>, r: nat, n: nat): (row: seq<Node>)
    reads a
    requires r < a.Length0 && n <= a.Length1
    ensures |row| == n && forall c :: 0 <= c < n ==> row[c] == a[r, c]
  {
    if n == 0 then [] else RowPrefix(a, r, n - 1) + [a[r, n - 1]]
  }

  lemma ConcatAssociative<T>(a: seq<T>, b: seq<T>, c: seq<T>)
    ensures (a + b) + c == a + (b + c)
  {
  }

  /** Two grids of the same extent are equal when they agree at every location. */
  lemma GridsEqual(g: Grid, h: Grid, extent: nat)
    requires IsGrid(g, extent) && IsGrid(h, extent)
    requires forall q {:trigger At(g, extent, q)} :: IsInside(q, extent) ==> At(g, extent, q) == At(h, extent, q)
    ensures g == h
  {
    forall r | 0 <= r < extent
      ensures g[r] == h[r]
    {
      forall c | 0 <= c < extent
        ensures g[r][c] == h[r][c]
      {
        assert At(g, extent, Location(r, c)) == At(h, extent, Location(r, c));
      }
    }
  }

  /**
   * The direction in which a shift at `l` pushes the line: away from row 0, from the last row,
   * from column 0 or from the last column, checked in that order; (0, 0) for any other location.
   * This is getOffsetByShiftLocation, and the offset computed at the start of the libexhsearch shift.
   */
  function ShiftOffset(l: Location, extent: nat): Offset {
    if l.row == 0 then Offset(1, 0)
    else if l.row == extent - 1 then Offset(-1, 0)
    else if l.column == 0 then Offset(0, 1)
    else if l.column == extent - 1 then Offset(0, -1)
    else NoOffset
  }

  /**
   * The location k steps from `l` along `o`, for the unit offsets and the zero offset a shift
   * uses; any other offset leaves `l` where it is.
   */
  function Along(l: Location, o: Offset, k: int): Location {
    if o == Offset(1, 0) then Location(l.row + k, l.column)
    else if o == Offset(-1, 0) then Location(l.row - k, l.column)
    else if o == Offset(0, 1) then Location(l.row, l.column + k)
    else if o == Offset(0, -1) then Location(l.row, l.column - k)
    else l
  }

  /** The location the shifted line ends at, and whose node is pushed out. */
  function FarEnd(insert: Location, extent: nat): Location
    requires extent >= 1
  {
    Along(insert, ShiftOffset(insert, extent), extent - 1)
  }

  /** A location of the line a shift at `insert` moves, other than `insert` itself. */
  predicate Behind(q: Location, insert: Location, extent: nat) {
    BehindAlong(q, insert, ShiftOffset(insert, extent))
  }

  /** A location other than `insert` on the row or column through `insert` that the offset runs along. */
  predicate BehindAlong(q: Location, insert: Location, o: Offset) {
    q != insert && (if o.rowOffset != 0 then q.column == insert.column else o.columnOffset != 0 && q.row == insert.row)
  }

  /** The node at `q` after a shift at `insert`: the inserted node at `insert`, the predecessor's along the line, the old one elsewhere. */
  function ShiftedNode(g: Grid, extent: nat, insert: Location, inserted: Node, q: Location): Node
    requires IsGrid(g, extent) && IsInside(insert, extent) && IsInside(q, extent)
  {
    if q == insert then inserted
    else if Behind(q, insert, extent) then At(g, extent, q.Minus(ShiftOffset(insert, extent)))
    else At(g, extent, q)
  }

  function ShiftedGrid(g: Grid, extent: nat, insert: Location, inserted: Node): (r: Grid)
    requires IsGrid(g, extent) && IsInside(insert, extent)
    ensures IsGrid(r, extent)
    ensures forall q {:trigger At(r, extent, q)} :: IsInside(q, extent) ==> At(r, extent, q) == ShiftedNode(g, extent, insert, inserted, q)
  {
    seq(extent, row requires 0 <= row < extent =>
      seq(extent, column requires 0 <= column < extent =>
        ShiftedNode(g, extent, insert, inserted, Location(row, column))))
  }

  /** The grid with the node at `l` replaced by `n`: a write to one slot of the node matrix. */
  function SetAt(g: Grid, extent: nat, l: Location, n: Node): (r: Grid)
    requires IsGrid(g, extent) && IsInside(l, extent)
    ensures IsGrid(r, extent)
    ensures forall q {:trigger At(r, extent, q)} :: IsInside(q, extent) ==> At(r, extent, q) == if q == l then n else At(g, extent, q)
  {
    g[l.row := g[l.row][l.column := n]]
  }

  /** Overwriting the inserted node of a shifted grid gives the shift that inserted the new node. */
  lemma ReplaceInserted(g: Grid, extent: nat, insert: Location, inserted: Node, n: Node)
    requires IsGrid(g, extent) && IsInside(insert, extent)
    ensures SetAt(ShiftedGrid(g, extent, insert, inserted), extent, insert, n) == ShiftedGrid(g, extent, insert, n)
  {
    var h := ShiftedGrid(g, extent, insert, inserted);
    GridsEqual(SetAt(h, extent, insert, n), ShiftedGrid(g, extent, insert, n), extent);
  }

  /** The predecessor of a location behind the insert location is inside the grid. */
  lemma BehindHasPredecessor(insert: Location, extent: nat, q: Location)
    requires IsInside(insert, extent) && IsInside(q, extent) && Behind(q, insert, extent)
    ensures IsInside(q.Minus(ShiftOffset(insert, extent)), extent)
  {
  }

  /** The line of a shift runs from the insert location to the far end, inside the grid. */
  lemma AlongInside(insert: Location, extent: nat, k: int)
    requires IsInside(insert, extent) && 0 <= k < extent
    ensures IsInside(Along(insert, ShiftOffset(insert, extent), k), extent)
  {
  }

  /** The position of `q` on the line of a shift at `insert` with offset o: its distance from `insert`. */
  function LineIndex(q: Location, insert: Location, o: Offset): int {
    if o.rowOffset == 1 then q.row - insert.row
    else if o.rowOffset == -1 then insert.row - q.row
    else if o.columnOffset == 1 then q.column - insert.column
    else insert.column - q.column
  }

  /** A location behind the insert location lies on the line, at index 1 or more. */
  lemma BehindOnLine(insert: Location, extent: nat, q: Location)
    requires IsInside(insert, extent) && IsInside(q, extent) && Behind(q, insert, extent)
    ensures var o := ShiftOffset(insert, extent);
            var k := LineIndex(q, insert, o);
            1 <= k < extent && q == Along(insert, o, k)
  {
  }

  /** The k-th location of the line is behind the insert location, at index k, when k is at least 1. */
  lemma LineBehind(insert: Location, extent: nat, k: int)
    requires IsInside(insert, extent) && 1 <= k < extent && ShiftOffset(insert, extent) != NoOffset
    ensures var o := ShiftOffset(insert, extent);
            Behind(Along(insert, o, k), insert, extent) && LineIndex(Along(insert, o, k), insert, o) == k
            && Along(insert, o, k).Minus(o) == Along(insert, o, k - 1)
  {
  }

  /** The k-th location of a line without offset is the insert location itself. */
  lemma LineStill(insert: Location, extent: nat, k: int)
    requires ShiftOffset(insert, extent) == NoOffset
    ensures Along(insert, ShiftOffset(insert, extent), k) == insert
  {
  }

  /** The node at `q` while the nodes from index t + 1 to the end of the line have been copied over; o is the shift offset. */
  function CopiedNode(g: Grid, extent: nat, insert: Location, o: Offset, t: int, q: Location): Node
    requires IsGrid(g, extent) && IsInside(insert, extent) && IsInside(q, extent) && o == ShiftOffset(insert, extent)
  {
    if BehindAlong(q, insert, o) && LineIndex(q, insert, o) > t then
      BehindHasPredecessor(insert, extent, q);
      At(g, extent, q.Minus(o))
    else At(g, extent, q)
  }

  /**
   * One step of the copy loop: the node at index t of the line takes the copy its predecessor holds,
   * and no other location changes.
   */
  lemma CopyStep(g: Grid, extent: nat, insert: Location, o: Offset, t: int, q: Location)
    requires IsGrid(g, extent) && IsInside(insert, extent) && IsInside(q, extent) && 1 <= t < extent
    requires o == ShiftOffset(insert, extent)
    ensures IsInside(Along(insert, o, t - 1), extent)
    ensures q == Along(insert, o, t) ==> CopiedNode(g, extent, insert, o, t - 1, q) == CopiedNode(g, extent, insert, o, t, Along(insert, o, t - 1))
    ensures q != Along(insert, o, t) ==> CopiedNode(g, extent, insert, o, t - 1, q) == CopiedNode(g, extent, insert, o, t, q)
  {
    AlongInside(insert, extent, t - 1);
    if o == NoOffset {
      LineStill(insert, extent, t);
      LineStill(insert, extent, t - 1);
    } else {
      LineBehind(insert, extent, t);
      if t - 1 >= 1 {
        LineBehind(insert, extent, t - 1);
      }
      if Behind(q, insert, extent) {
        BehindOnLine(insert, extent, q);
      }
    }
  }

  /** Before the copy loop nothing has been copied; after it, the whole line behind the insert location has. */
  lemma CopiedEnds(g: Grid, extent: nat, insert: Location, o: Offset, q: Location)
    requires IsGrid(g, extent) && IsInside(insert, extent) && IsInside(q, extent) && o == ShiftOffset(insert, extent)
    ensures CopiedNode(g, extent, insert, o, extent - 1, q) == At(g, extent, q)
    ensures q != insert ==> CopiedNode(g, extent, insert, o, 0, q) == ShiftedNode(g, extent, insert, At(g, extent, q), q)
  {
    if Behind(q, insert, extent) {
      BehindOnLine(insert, extent, q);
    }
  }

  predicate NoDuplicates<T(==)>(s: seq<T>) {
    forall i, j :: 0 <= i < j < |s| ==> s[i] != s[j]
  }

  /** The row-major index of an inside location, as the node matrix stores it. */
  function RowMajor(q: Location, extent: nat): int {
    q.row * extent + q.column
  }

  /** Row-major indices of distinct inside locations differ and stay below extent * extent. */
  lemma RowMajorDistinct(p: Location, q: Location, extent: nat)
    requires IsInside(p, extent) && IsInside(q, extent)
    ensures 0 <= RowMajor(p, extent) < extent * extent
    ensures RowMajor(p, extent) == RowMajor(q, extent) ==> p == q
  {
    RowMajorBound(p.row, p.column, extent);
    if p.row < q.row {
      RowMajorBound(p.row, p.column, extent);
      MulMonotone(p.row + 1, q.row, extent);
    } else if q.row < p.row {
      RowMajorBound(q.row, q.column, extent);
      MulMonotone(q.row + 1, p.row, extent);
    }
  }

  lemma RowMajorBound(r: nat, c: nat, extent: nat)
    requires r < extent && c < extent
    ensures r * extent + c < (r + 1) * extent <= extent * extent
  {
    MulMonotone(r + 1, extent, extent);
  }

  lemma NextRow(row: int, extent: int)
    ensures row * extent + extent == (row + 1) * extent
  {
  }

  lemma MulMonotone(a: nat, b: nat, n: nat)
    requires a <= b
    ensures a * n <= b * n
  {
  }

  /** Row-major order on locations, the order getLocation scans in. */
  predicate RowMajorBefore(p: Location, q: Location) {
    p.row < q.row || (p.row == q.row && p.column < q.column)
  }
}
