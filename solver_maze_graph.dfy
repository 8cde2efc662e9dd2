/**
 * The maze graph of algolibs/solvers: the same node matrix, leftover and shift locations as the
 * libexhsearch graph, but node rotations count clockwise quarter turns (0 to 3, the values of
 * RotationDegreeType), the shift walks back from the opposing location, and the graph also
 * records its number of matrix slots.
 */
module SolverMazeGraph {
  import opened GraphBasics

  /** rotateOutPaths: the four low bits turned left by `rotation` quarter turns; the right shift by 4 - rotation needs rotation <= 4. */
  function RotateOutPaths(outPaths: bv8, rotation: int): (r: bv8)
    requires 0 <= rotation <= 4
    ensures r <= 15
  {
    ((outPaths << rotation) | (outPaths >> (4 - rotation))) & 15
  }

  /** operator- on rotations: the quarter turns that complete a full turn, 4 for no rotation. */
  function Negate(rotation: int): (r: int)
    ensures 0 <= rotation <= 4 ==> 0 <= r <= 4
  {
    4 - rotation
  }

  /** nextRotation: one more quarter turn, without wrapping after three. */
  function NextRotation(rotation: int): (r: int)
    ensures r > rotation
  {
    rotation + 1
  }

  /** mirrorOutPath */
  function MirrorOutPath(outPath: bv8): (r: bv8)
    ensures r <= 15
  {
    RotateOutPaths(outPath, 2)
  }

  /** combineOutPaths (defined alike in minimax.cpp and exhsearch.cpp): the union of two out-path masks. */
  function CombineOutPaths(outPaths1: bv8, outPaths2: bv8): (r: bv8)
    ensures forall d: OutPath :: r & d.Bit() != 0 <==> outPaths1 & d.Bit() != 0 || outPaths2 & d.Bit() != 0
  {
    outPaths1 | outPaths2
  }

  /** A single out path rotated by r quarter turns is the out path r quarter turns clockwise from it. */
  lemma RotateSingle(d: OutPath, rotation: int)
    requires 0 <= rotation <= 4
    ensures RotateOutPaths(d.Bit(), rotation) == d.Turned(rotation).Bit()
  {
    match d
    case North =>
    case East =>
    case South =>
    case West =>
  }

  /** Rotating a mask of out paths by r and then by operator-(r) gives it back. */
  lemma RotateInverse(x: bv8, rotation: int)
    requires x <= 15 && 0 <= rotation <= 4
    ensures RotateOutPaths(RotateOutPaths(x, rotation), Negate(rotation)) == x
  {
    if rotation == 0 {
      assert RotateOutPaths(x, 0) == x;
    } else if rotation == 1 {
      assert RotateOutPaths(x, 1) == ((x << 1) | (x >> 3)) & 15;
    } else if rotation == 2 {
      assert RotateOutPaths(x, 2) == ((x << 2) | (x >> 2)) & 15;
    } else if rotation == 3 {
      assert RotateOutPaths(x, 3) == ((x << 3) | (x >> 1)) & 15;
    } else {
      assert RotateOutPaths(x, 4) == x;
    }
  }

  /**
   * Rotating by the next rotation is rotating by one more quarter turn; after three quarter turns
   * the next rotation, 4, is a full turn.
   */
  lemma RotateNext(x: bv8, rotation: int)
    requires x <= 15 && 0 <= rotation <= 3
    ensures RotateOutPaths(x, NextRotation(rotation)) == RotateOutPaths(RotateOutPaths(x, rotation), 1)
    ensures RotateOutPaths(x, NextRotation(3)) == x
  {
    if rotation == 0 {
      assert RotateOutPaths(x, 0) == x;
    } else if rotation == 1 {
      assert RotateOutPaths(x, 1) == ((x << 1) | (x >> 3)) & 15;
    } else if rotation == 2 {
      assert RotateOutPaths(x, 2) == ((x << 2) | (x >> 2)) & 15;
    } else {
      assert RotateOutPaths(x, 3) == ((x << 3) | (x >> 1)) & 15;
    }
  }

  /** With a bit above the four out paths, rotating by no quarter turn gains an out path. */
  lemma HighBitLeaksIntoRotation()
    ensures RotateOutPaths(16, 0) == North.Bit()
  {
  }

  /** A node whose rotation is a RotationDegreeType value and whose mask uses only the four out-path bits. */
  predicate WellFormed(node: Node) {
    0 <= node.rotation <= 3 && node.outPaths <= 15
  }

  /** hasOutPath(node, out_path): the out path is turned back by the node's rotation and looked up in the mask. */
  predicate HasOutPath(node: Node, outPath: bv8)
    requires 0 <= node.rotation <= 4
    ensures HasOutPath(node, outPath) ==> node.outPaths != 0
  {
    node.outPaths & RotateOutPaths(outPath, Negate(node.rotation)) != 0
  }

  /** Turning the out path back by the rotation agrees with turning the node's mask forward by it. */
  lemma HasOutPathRotatedMask(node: Node, d: OutPath)
    requires WellFormed(node)
    ensures HasOutPath(node, d.Bit()) <==> RotateOutPaths(node.outPaths, node.rotation) & d.Bit() != 0
  {
    var x := node.outPaths;
    if node.rotation == 0 {
      assert RotateOutPaths(x, 0) == x;
    } else if node.rotation == 1 {
      assert RotateOutPaths(x, 1) == ((x << 1) | (x >> 3)) & 15;
    } else if node.rotation == 2 {
      assert RotateOutPaths(x, 2) == ((x << 2) | (x >> 2)) & 15;
    } else {
      assert RotateOutPaths(x, 3) == ((x << 3) | (x >> 1)) & 15;
    }
  }

  /** The mirrored out path of a single out path is the opposite one. */
  lemma MirrorOpposite(d: OutPath)
    ensures MirrorOutPath(d.Bit()) == d.Opposite().Bit()
  {
    RotateSingle(d, 2);
  }

  /** The integer square root: the largest r with r * r <= n. */
  function Isqrt(n: nat): (r: nat)
    ensures r * r <= n < (r + 1) * (r + 1)
  {
    if n == 0 then 0
    else
      var s := Isqrt(n - 1);
      if (s + 1) * (s + 1) <= n then
        assert (s + 2) * (s + 2) == s * s + 4 * s + 4;
        s + 1
      else s
  }

  /** Only one r has r * r <= n < (r + 1) * (r + 1). */
  lemma RootUnique(r: nat, s: nat, n: nat)
    requires r * r <= n < (r + 1) * (r + 1) && s * s <= n < (s + 1) * (s + 1)
    ensures r == s
  {
    SquareBelow(r, s);
    SquareBelow(s, r);
  }

  /** A root below another has its successor's square at most the other's square. */
  lemma SquareBelow(a: nat, b: nat)
    ensures a < b ==> (a + 1) * (a + 1) <= b * b
  {
    if a < b {
      MulMonotone(a + 1, b, a + 1);
      MulMonotone(a + 1, b, b);
    }
  }

  /** integerSquareRoot: counts up to the first root whose square exceeds the number, and steps back one. */
  method IntegerSquareRoot(number: nat) returns (root: nat)
    ensures root * root <= number < (root + 1) * (root + 1)
    ensures root == Isqrt(number)
  {
    var r := 0;
    while r * r <= number
      invariant r == 0 || (r - 1) * (r - 1) <= number
      invariant r <= number + 1
      decreases number + 1 - r
    {
      if r >= 1 {
        MulMonotone(1, r, r);
      }
      r := r + 1;
    }
    root := r - 1;
    RootUnique(root, Isqrt(number), number);
  }

  /**
   * opposingShiftLocation: the location at the other end of the row or column, checking column 0,
   * row 0, the last column and the last row in that order; any other location is its own opposite.
   */
  function OpposingShiftLocation(location: Location, extent: nat): Location {
    var border := extent - 1;
    if location.column == 0 then Location(location.row, border)
    else if location.row == 0 then Location(border, location.column)
    else if location.column == border then Location(location.row, 0)
    else if location.row == border then Location(0, location.column)
    else location
  }

  /** A location of the outer rows and columns of the grid. */
  predicate OnBorder(l: Location, extent: nat) {
    IsInside(l, extent) && (l.row == 0 || l.row == extent - 1 || l.column == 0 || l.column == extent - 1)
  }

  /** One of the four corners of the grid. */
  predicate IsCorner(l: Location, extent: nat) {
    (l.row == 0 || l.row == extent - 1) && (l.column == 0 || l.column == extent - 1)
  }

  /** On the border away from the corners, opposing twice gives the location back; inside the border a location is its own opposite. */
  lemma OpposingInvolution(l: Location, extent: nat)
    requires IsInside(l, extent)
    ensures OnBorder(l, extent) && !IsCorner(l, extent) ==>
              OnBorder(OpposingShiftLocation(l, extent), extent) && !IsCorner(OpposingShiftLocation(l, extent), extent) &&
              OpposingShiftLocation(OpposingShiftLocation(l, extent), extent) == l
    ensures !OnBorder(l, extent) ==> OpposingShiftLocation(l, extent) == l
  {
  }

  /**
   * The copy loop of shift walks back from the opposing location to the location in extent - 1
   * steps without leaving the grid exactly when the opposing location is the far end of the line.
   */
  predicate ShiftDefined(location: Location, extent: nat) {
    IsInside(location, extent) && OpposingShiftLocation(location, extent) == FarEnd(location, extent)
  }

  /** The shift is defined everywhere except at three corners: (0, 0), (extent - 1, 0) and (extent - 1, extent - 1). */
  lemma ShiftDefinedExceptCorners(l: Location, extent: nat)
    requires IsInside(l, extent)
    ensures ShiftDefined(l, extent) <==>
              !(extent >= 2 && (l == Location(0, 0) || l == Location(extent - 1, 0) || l == Location(extent - 1, extent - 1)))
  {
  }

  /**
   * translateLocationByShift: a location on the shifted row or column moves one step along the
   * offset, cyclically; any other location stays. The remainder is taken of a non-negative sum
   * for every location inside the grid.
   */
  function TranslateLocationByShift(location: Location, shiftLocation: Location, extent: nat): Location
    requires extent > 0
  {
    var offset := ShiftOffset(shiftLocation, extent);
    if offset.rowOffset != 0 then
      if location.column == shiftLocation.column then
        Location((location.row + offset.rowOffset + extent) % extent, location.column)
      else location
    else if location.row == shiftLocation.row then
      Location(location.row, (location.column + offset.columnOffset + extent) % extent)
    else location
  }

  /** C++ `(x + d + n) % n` for a coordinate x of the grid and a step d of at most one: the step, taken cyclically. */
  lemma CyclicStep(x: int, d: int, n: int)
    requires n > 0 && 0 <= x < n && -1 <= d <= 1
    ensures 0 <= x + d < n ==> (x + d + n) % n == x + d
    ensures x + d == n ==> (x + d + n) % n == 0
    ensures x + d == -1 ==> (x + d + n) % n == n - 1
  {
    var a := x + d + n;
    if x + d == n {
      ModDouble(n);
      assert a == 2 * n;
    } else if x + d == -1 {
      ModSmall(a, n);
    } else {
      ModOnce(a, n);
    }
  }

  lemma ModOnce(a: int, n: int)
    requires n > 0 && n <= a < 2 * n
    ensures a % n == a - n
  {
  }

  lemma ModSmall(a: int, n: int)
    requires 0 <= a < n
    ensures a % n == a
  {
  }

  lemma ModDouble(n: int)
    requires n > 0
    ensures (2 * n) % n == 0
  {
  }

  /**
   * After a shift, the node previously at `l` sits at the translated location, except for the
   * node pushed off the far end, whose location is translated to the insert location.
   */
  lemma TranslateShifted(g: Grid, extent: nat, s: Location, inserted: Node, l: Location)
    requires IsGrid(g, extent) && ShiftDefined(s, extent) && IsInside(l, extent)
    ensures IsInside(TranslateLocationByShift(l, s, extent), extent)
    ensures l == FarEnd(s, extent) ==> TranslateLocationByShift(l, s, extent) == s
    ensures l != FarEnd(s, extent) ==>
              At(ShiftedGrid(g, extent, s, inserted), extent, TranslateLocationByShift(l, s, extent)) == At(g, extent, l)
  {
    var o := ShiftOffset(s, extent);
    var t := TranslateLocationByShift(l, s, extent);
    if o.rowOffset != 0 {
      CyclicStep(l.row, o.rowOffset, extent);
      if l.column == s.column && l != FarEnd(s, extent) {
        assert t == l.Plus(o) && Behind(t, s, extent) && t.Minus(o) == l;
      }
    } else {
      CyclicStep(l.column, o.columnOffset, extent);
      if l.row == s.row && l != FarEnd(s, extent) && o != NoOffset {
        assert t == l.Plus(o) && Behind(t, s, extent) && t.Minus(o) == l;
      }
    }
  }

  /** The negated offset. */
  function Reversed(o: Offset): Offset {
    Offset(-o.rowOffset, -o.columnOffset)
  }

  /**
   * When the shift at the opposing location is defined too, its line is the same line walked the
   * other way: it pushes in the opposite direction and ends at the first location.
   */
  lemma OpposingLine(s: Location, extent: nat)
    requires ShiftDefined(s, extent) && ShiftDefined(OpposingShiftLocation(s, extent), extent)
    ensures var o := OpposingShiftLocation(s, extent);
            (extent >= 2 ==> ShiftOffset(o, extent) == Reversed(ShiftOffset(s, extent))) && FarEnd(o, extent) == s
  {
    var b := extent - 1;
    var o := OpposingShiftLocation(s, extent);
    ShiftDefinedExceptCorners(s, extent);
    ShiftDefinedExceptCorners(o, extent);
    if extent == 1 {
      assert s == o == Location(0, 0);
    } else if s.column == 0 {
      assert o == Location(s.row, b) && ShiftOffset(s, extent) == Offset(0, 1) && ShiftOffset(o, extent) == Offset(0, -1);
    } else if s.row == 0 {
      assert o == Location(b, s.column) && ShiftOffset(s, extent) == Offset(1, 0) && ShiftOffset(o, extent) == Offset(-1, 0);
    } else if s.column == b {
      assert o == Location(s.row, 0) && ShiftOffset(s, extent) == Offset(0, -1) && ShiftOffset(o, extent) == Offset(0, 1);
    } else if s.row == b {
      assert o == Location(0, s.column) && ShiftOffset(s, extent) == Offset(-1, 0) && ShiftOffset(o, extent) == Offset(1, 0);
    } else {
      assert o == s && ShiftOffset(s, extent) == NoOffset;
    }
  }

  /**
   * Translating by a shift and then by the shift at the opposing location gives every location of
   * the grid back: the second moves the same line one step the other way.
   */
  lemma TranslateInverse(l: Location, s: Location, extent: nat)
    requires IsInside(l, extent) && ShiftDefined(s, extent) && ShiftDefined(OpposingShiftLocation(s, extent), extent)
    ensures TranslateLocationByShift(TranslateLocationByShift(l, s, extent), OpposingShiftLocation(s, extent), extent) == l
  {
    var o := OpposingShiftLocation(s, extent);
    ShiftDefinedExceptCorners(s, extent);
    ShiftDefinedExceptCorners(o, extent);
    var b := extent - 1;
    if extent == 1 {
      assert l == Location(0, 0) && s == l && o == l && ShiftOffset(s, extent) == Offset(1, 0);
      CyclicStep(0, 1, 1);
    } else if s.column == 0 {
      assert o == Location(s.row, b) && ShiftOffset(s, extent) == Offset(0, 1);
      TranslateBack(l, s, o, extent);
    } else if s.row == 0 {
      assert o == Location(b, s.column) && ShiftOffset(s, extent) == Offset(1, 0);
      TranslateBack(l, s, o, extent);
    } else if s.column == b {
      assert o == Location(s.row, 0) && ShiftOffset(s, extent) == Offset(0, -1);
      TranslateBack(l, s, o, extent);
    } else if s.row == b {
      assert o == Location(0, s.column) && ShiftOffset(s, extent) == Offset(-1, 0);
      TranslateBack(l, s, o, extent);
    } else {
      assert o == s && ShiftOffset(s, extent) == NoOffset;
      TranslateStill(l, s, extent);
    }
  }

  /** A shift location without offset translates no location of the grid. */
  lemma TranslateStill(l: Location, s: Location, extent: nat)
    requires IsInside(l, extent) && ShiftOffset(s, extent) == NoOffset
    ensures TranslateLocationByShift(l, s, extent) == l
  {
    CyclicStep(l.column, 0, extent);
  }

  /** The two translations of TranslateInverse for a border location `s` and its opposite `o` on the same line. */
  lemma TranslateBack(l: Location, s: Location, o: Location, extent: nat)
    requires extent >= 2 && IsInside(l, extent)
    requires ShiftOffset(s, extent) in {Offset(1, 0), Offset(-1, 0), Offset(0, 1), Offset(0, -1)}
    requires ShiftOffset(o, extent) == Reversed(ShiftOffset(s, extent))
    requires ShiftOffset(s, extent).rowOffset != 0 ==> o.column == s.column
    requires ShiftOffset(s, extent).columnOffset != 0 ==> o.row == s.row
    ensures TranslateLocationByShift(TranslateLocationByShift(l, s, extent), o, extent) == l
  {
    var d := ShiftOffset(s, extent);
    var t := TranslateLocationByShift(l, s, extent);
    if d.rowOffset != 0 {
      CyclicStep(l.row, d.rowOffset, extent);
      CyclicStep(t.row, -d.rowOffset, extent);
    } else {
      CyclicStep(l.column, d.columnOffset, extent);
      CyclicStep(t.column, -d.columnOffset, extent);
    }
  }

  /**
   * A shift at `s` followed by a shift at the opposing location that inserts the node pushed out
   * by the first gives back every node of the matrix, and pushes out the node the first inserted.
   */
  lemma ShiftRoundTrip(g: Grid, extent: nat, s: Location, inserted: Node)
    requires IsGrid(g, extent) && ShiftDefined(s, extent) && ShiftDefined(OpposingShiftLocation(s, extent), extent)
    ensures var o := OpposingShiftLocation(s, extent);
            var h := ShiftedGrid(g, extent, s, inserted);
            && ShiftedGrid(h, extent, o, At(g, extent, FarEnd(s, extent))) == g
            && At(h, extent, FarEnd(o, extent)) == inserted
  {
    var o := OpposingShiftLocation(s, extent);
    var h := ShiftedGrid(g, extent, s, inserted);
    var pushed := At(g, extent, FarEnd(s, extent));
    var back := ShiftedGrid(h, extent, o, pushed);
    OpposingLine(s, extent);
    forall q | IsInside(q, extent)
      ensures At(back, extent, q) == At(g, extent, q)
    {
      RoundTripAt(g, extent, s, inserted, q);
    }
    GridsEqual(back, g, extent);
  }

  /** The round trip at one location. */
  lemma RoundTripAt(g: Grid, extent: nat, s: Location, inserted: Node, q: Location)
    requires IsGrid(g, extent) && ShiftDefined(s, extent) && ShiftDefined(OpposingShiftLocation(s, extent), extent)
    requires IsInside(q, extent)
    ensures var h := ShiftedGrid(g, extent, s, inserted);
            ShiftedNode(h, extent, OpposingShiftLocation(s, extent), At(g, extent, FarEnd(s, extent)), q) == At(g, extent, q)
  {
    var o := OpposingShiftLocation(s, extent);
    OpposingLine(s, extent);
    if q == o {
      assert o == FarEnd(s, extent);
    } else if Behind(q, o, extent) {
      RoundTripBehind(g, extent, s, inserted, q);
    } else {
      RoundTripOff(g, extent, s, inserted, q);
    }
  }

  /** Off the line of the two shifts, neither changes the node. */
  lemma RoundTripOff(g: Grid, extent: nat, s: Location, inserted: Node, q: Location)
    requires IsGrid(g, extent) && ShiftDefined(s, extent) && ShiftDefined(OpposingShiftLocation(s, extent), extent)
    requires IsInside(q, extent) && q != OpposingShiftLocation(s, extent) && !Behind(q, OpposingShiftLocation(s, extent), extent)
    ensures At(ShiftedGrid(g, extent, s, inserted), extent, q) == At(g, extent, q)
  {
    OpposingLineMembers(s, extent, q);
    assert q != s && !Behind(q, s, extent);
  }

  /** A shift and the shift at its opposing location move the same line. */
  lemma OpposingLineMembers(s: Location, extent: nat, q: Location)
    requires ShiftDefined(s, extent) && ShiftDefined(OpposingShiftLocation(s, extent), extent) && IsInside(q, extent)
    ensures var o := OpposingShiftLocation(s, extent);
            (q == s || Behind(q, s, extent)) <==> (q == o || Behind(q, o, extent))
  {
    var b := extent - 1;
    var o := OpposingShiftLocation(s, extent);
    ShiftDefinedExceptCorners(s, extent);
    ShiftDefinedExceptCorners(o, extent);
    if extent == 1 {
      assert s == o == q == Location(0, 0);
    } else if s.column == 0 {
      assert o == Location(s.row, b) && ShiftOffset(s, extent) == Offset(0, 1) && ShiftOffset(o, extent) == Offset(0, -1);
    } else if s.row == 0 {
      assert o == Location(b, s.column) && ShiftOffset(s, extent) == Offset(1, 0) && ShiftOffset(o, extent) == Offset(-1, 0);
    } else if s.column == b {
      assert o == Location(s.row, 0) && ShiftOffset(s, extent) == Offset(0, -1) && ShiftOffset(o, extent) == Offset(0, 1);
    } else if s.row == b {
      assert o == Location(0, s.column) && ShiftOffset(s, extent) == Offset(-1, 0) && ShiftOffset(o, extent) == Offset(1, 0);
    } else {
      assert o == s;
    }
  }

  /** Behind the opposing location, the second shift takes back the node the first moved on. */
  lemma RoundTripBehind(g: Grid, extent: nat, s: Location, inserted: Node, q: Location)
    requires IsGrid(g, extent) && ShiftDefined(s, extent) && ShiftDefined(OpposingShiftLocation(s, extent), extent)
    requires IsInside(q, extent) && Behind(q, OpposingShiftLocation(s, extent), extent)
    ensures var p := q.Minus(ShiftOffset(OpposingShiftLocation(s, extent), extent));
            IsInside(p, extent) && At(ShiftedGrid(g, extent, s, inserted), extent, p) == At(g, extent, q)
  {
    var o := OpposingShiftLocation(s, extent);
    OpposingLine(s, extent);
    var os := ShiftOffset(s, extent);
    BehindHasPredecessor(o, extent, q);
    var p := q.Minus(ShiftOffset(o, extent));
    assert extent >= 2;
    assert p == q.Plus(os);
    assert p != s && Behind(p, s, extent) && p.Minus(os) == q;
  }

  /** The grid and leftover after MazeGraph::shift at s, inserting the leftover turned to `rotation`. */
  function GraphShift(grid: Grid, leftover: Node, extent: nat, s: Location, rotation: int): (r: (Grid, Node))
    requires extent >= 1 && IsGrid(grid, extent) && ShiftDefined(s, extent)
    ensures IsGrid(r.0, extent)
  {
    AlongInside(s, extent, extent - 1);
    (ShiftedGrid(grid, extent, s, leftover.(rotation := rotation)), At(grid, extent, FarEnd(s, extent)))
  }

  /** ShiftAction: where the leftover is inserted and with which rotation. */
  datatype ShiftAction = ShiftAction(location: Location, rotation: int)

  /** PlayerAction: a shift and the location the player then moves to. */
  datatype PlayerAction = PlayerAction(shift: ShiftAction, moveLocation: Location)

  /**
   * SolverInstance: the graph (node matrix and leftover) a solver starts from, both players, the
   * shift that led to it, and the identifier of the node the player is looking for.
   */
  datatype SolverInstance = SolverInstance(grid: Grid, leftover: Node, playerLocation: Location, opponentLocation: Location,
                                           previousShiftLocation: Location, objectiveId: int)

  /** Every node of the matrix is well formed. */
  ghost predicate NodesWellFormed(g: Grid, extent: nat)
    requires IsGrid(g, extent)
  {
    forall q {:trigger At(g, extent, q)} :: IsInside(q, extent) ==> WellFormed(At(g, extent, q))
  }

  /** NeighborIterator::isNeighbor on the node matrix: the location the out path leads to is inside and its node has the mirrored out path. */
  predicate LeadsToNeighbor(g: Grid, extent: nat, l: Location, outPath: bv8)
    requires IsGrid(g, extent) && NodesWellFormed(g, extent)
  {
    var potential := l.Plus(OffsetFromOutPath(outPath));
    IsInside(potential, extent) && HasOutPath(At(g, extent, potential), MirrorOutPath(outPath))
  }

  /**
   * The neighbor iterator visits `l + offset(d)` for out path d when the node at `l`, rotated, has
   * d, and the location is inside and its node has the mirrored out path.
   */
  predicate IsNeighborVia(g: Grid, extent: nat, l: Location, d: OutPath)
    requires IsGrid(g, extent) && IsInside(l, extent) && NodesWellFormed(g, extent)
  {
    var node := At(g, extent, l);
    RotateOutPaths(node.outPaths, node.rotation) & d.Bit() != 0 && LeadsToNeighbor(g, extent, l, d.Bit())
  }

  /** The neighbors of `l` the iterator yields from out path index i on, in the order North, East, South, West. */
  function NeighborsFrom(g: Grid, extent: nat, l: Location, i: nat): (r: seq<Location>)
    requires IsGrid(g, extent) && IsInside(l, extent) && NodesWellFormed(g, extent) && i <= 4
    ensures |r| <= 4 - i
    decreases 4 - i
  {
    if i == 4 then []
    else if IsNeighborVia(g, extent, l, OutPathAt(i)) then [l.Plus(OutPathAt(i).Step())] + NeighborsFrom(g, extent, l, i + 1)
    else NeighborsFrom(g, extent, l, i + 1)
  }

  /** The loop test of moveToNextNeighbor at out path index j fails exactly when the iterator skips that out path. */
  lemma SkipTest(g: Grid, extent: nat, l: Location, j: nat, mask: bv8)
    requires IsGrid(g, extent) && IsInside(l, extent) && NodesWellFormed(g, extent) && j < 4
    requires mask == RotateOutPaths(At(g, extent, l).outPaths, At(g, extent, l).rotation)
    ensures (OutPathAt(j).Bit() & mask == 0 || !LeadsToNeighbor(g, extent, l, OutPathAt(j).Bit())) <==>
            !IsNeighborVia(g, extent, l, OutPathAt(j))
    ensures !IsNeighborVia(g, extent, l, OutPathAt(j)) ==> NeighborsFrom(g, extent, l, j) == NeighborsFrom(g, extent, l, j + 1)
  {
    var b := OutPathAt(j).Bit();
    assert b & mask == mask & b;
  }

  /** The iteration from a neighbor's out path index starts with that neighbor. */
  lemma NeighborsFromHead(g: Grid, extent: nat, l: Location, j: nat)
    requires IsGrid(g, extent) && IsInside(l, extent) && NodesWellFormed(g, extent) && j < 4
    requires IsNeighborVia(g, extent, l, OutPathAt(j))
    ensures NeighborsFrom(g, extent, l, j) == [l.Plus(OffsetFromOutPath(OutPathAt(j).Bit()))] + NeighborsFrom(g, extent, l, j + 1)
  {
  }

  /** The yielded locations are exactly the neighbors via an out path from index i on. */
  lemma {:induction false} NeighborsFromMembers(g: Grid, extent: nat, l: Location, i: nat, q: Location)
    requires IsGrid(g, extent) && IsInside(l, extent) && NodesWellFormed(g, extent) && i <= 4
    ensures q in NeighborsFrom(g, extent, l, i) <==>
            exists d: OutPath :: i <= d.Index() && IsNeighborVia(g, extent, l, d) && q == l.Plus(d.Step())
    decreases 4 - i
  {
    if i < 4 {
      NeighborsFromMembers(g, extent, l, i + 1, q);
      var d := OutPathAt(i);
      if IsNeighborVia(g, extent, l, d) && q == l.Plus(d.Step()) {
        assert q in NeighborsFrom(g, extent, l, i);
      }
      if exists e: OutPath :: i <= e.Index() && IsNeighborVia(g, extent, l, e) && q == l.Plus(e.Step()) {
        var e: OutPath :| i <= e.Index() && IsNeighborVia(g, extent, l, e) && q == l.Plus(e.Step());
        if e.Index() == i {
          IndexDetermines(e, d);
        }
      }
    }
  }

  /** A connection via an out path is also a connection back via the opposite out path. */
  lemma NeighborViaSymmetric(g: Grid, extent: nat, l: Location, d: OutPath)
    requires IsGrid(g, extent) && IsInside(l, extent) && NodesWellFormed(g, extent)
    requires IsNeighborVia(g, extent, l, d)
    ensures IsInside(l.Plus(d.Step()), extent) && IsNeighborVia(g, extent, l.Plus(d.Step()), d.Opposite())
    ensures l.Plus(d.Step()).Plus(d.Opposite().Step()) == l
  {
    var q := l.Plus(d.Step());
    var e := d.Opposite();
    MirrorOpposite(d);
    MirrorOpposite(e);
    assert e.Opposite() == d;
    HasOutPathRotatedMask(At(g, extent, q), e);
    HasOutPathRotatedMask(At(g, extent, l), d);
    assert q.Plus(e.Step()) == l;
  }

  /** If the iteration from `l` yields `q`, the iteration from `q` yields `l`: connections are mutual. */
  lemma NeighborsSymmetric(g: Grid, extent: nat, l: Location, q: Location)
    requires IsGrid(g, extent) && IsInside(l, extent) && NodesWellFormed(g, extent)
    requires q in NeighborsFrom(g, extent, l, 0)
    ensures IsInside(q, extent) && l in NeighborsFrom(g, extent, q, 0)
  {
    NeighborsFromMembers(g, extent, l, 0, q);
    var d: OutPath :| IsNeighborVia(g, extent, l, d) && q == l.Plus(d.Step());
    NeighborViaSymmetric(g, extent, l, d);
    var e := d.Opposite();
    assert 0 <= e.Index() && IsNeighborVia(g, extent, q, e) && l == q.Plus(e.Step());
    NeighborsFromMembers(g, extent, q, 0, l);
  }


  /** The locations of the line a shift at `insert` moves, from `insert` to the far end. */
  ghost function LineOf(insert: Location, offset: Offset, extent: nat): (r: seq<Location>)
    requires IsInside(insert, extent) && offset == ShiftOffset(insert, extent)
    ensures |r| == extent
    ensures forall k :: 0 <= k < extent ==> r[k] == Along(insert, offset, k) && IsInside(r[k], extent)
  {
    seq(extent, k requires 0 <= k < extent => AlongInside(insert, extent, k); Along(insert, offset, k))
  }

  /** One step back along the line of a shift from index t leads to index t - 1, still inside. */
  lemma StepBack(insert: Location, extent: nat, t: int)
    requires IsInside(insert, extent) && 1 <= t < extent
    ensures var o := ShiftOffset(insert, extent);
            Along(insert, o, t).Minus(o) == Along(insert, o, t - 1) && IsInside(Along(insert, o, t - 1), extent)
  {
    AlongInside(insert, extent, t - 1);
  }


  class MazeGraph {
    const extent: nat
    /** size_: the number of matrix slots, one less than the number of nodes. */
    const size: nat
    const nodes: array2<Node>
    var leftover: Node
    var shiftLocations: seq<Location>

    ghost predicate Valid()
      reads this
    {
      Square() && NoDuplicates(shiftLocations)
    }

    /** The node matrix has `extent` rows and columns. */
    predicate Square() {
      nodes.Length0 == extent && nodes.Length1 == extent
    }

    /** The node matrix as a value. */
    function Grid(): (g: Grid)
      reads nodes
      requires Square()
      ensures IsGrid(g, extent)
      ensures forall q {:trigger At(g, extent, q)} :: IsInside(q, extent) ==> At(g, extent, q) == nodes[q.row, q.column]
    {
      GridOf(nodes)
    }

    /**
     * MazeGraph(extent): extent * extent slots whose node identifiers are numbered in row-major
     * order from 0, the leftover takes the next one, and no node has out paths or rotation.
     */
    constructor (extent: nat)
      ensures Valid() && this.extent == extent && size == extent * extent && fresh(nodes) && shiftLocations == []
      ensures forall r, c {:trigger nodes[r, c]} :: 0 <= r < extent && 0 <= c < extent ==> nodes[r, c] == Node(RowMajor(Location(r, c), extent), 0, 0)
      ensures leftover == Node(extent * extent, 0, 0)
    {
      this.extent := extent;
      size := extent * extent;
      nodes := new Node[extent, extent]((r, c) => Node(0, 0, 0));
      shiftLocations := [];
      leftover := Node(0, 0, 0);
      new;
      var current := 0;
      for row := 0 to extent
        invariant Valid() && shiftLocations == [] && leftover == Node(0, 0, 0)
        invariant current == row * extent
        invariant forall r, c {:trigger nodes[r, c]} :: 0 <= r < row && 0 <= c < extent ==> nodes[r, c] == Node(RowMajor(Location(r, c), extent), 0, 0)
      {
        for column := 0 to extent
          invariant Valid() && shiftLocations == [] && leftover == Node(0, 0, 0)
          invariant current == RowMajor(Location(row, column), extent)
          invariant forall r, c {:trigger nodes[r, c]} :: 0 <= r < row && 0 <= c < extent ==> nodes[r, c] == Node(RowMajor(Location(r, c), extent), 0, 0)
          invariant forall c {:trigger nodes[row, c]} :: 0 <= c < column ==> nodes[row, c] == Node(RowMajor(Location(row, c), extent), 0, 0)
        {
          nodes[row, column] := Node(current, 0, 0);
          current := current + 1;
        }
        NextRow(row, extent);
      }
      leftover := leftover.(nodeId := current);
    }

    /**
     * MazeGraph(nodes): the extent is the integer square root of the number of nodes, the first
     * extent * extent nodes fill the matrix in row-major order and the next one is the leftover.
     * When the number of nodes is a perfect square (or zero), no node is left for the leftover and
     * the C++ constructor reads past the end of the vector.
     */
    constructor FromNodes(input: seq<Node>)
      requires Isqrt(|input|) * Isqrt(|input|) < |input|
      ensures Valid() && extent == Isqrt(|input|) && size == |input| - 1 && fresh(nodes) && shiftLocations == []
      ensures forall r, c {:trigger RowMajor(Location(r, c), extent)} :: 0 <= r < extent && 0 <= c < extent ==>
                RowMajor(Location(r, c), extent) < |input| && nodes[r, c] == input[RowMajor(Location(r, c), extent)]
      ensures leftover == input[extent * extent]
    {
      size := |input| - 1;
      var root := IntegerSquareRoot(|input|);
      extent := root;
      nodes := new Node[root, root]((r, c) => Node(0, 0, 0));
      shiftLocations := [];
      leftover := Node(0, 0, 0);
      new;
      Fill(input);
      leftover := input[extent * extent];
    }

    /** The loops of MazeGraph(nodes): the matrix takes the first extent * extent nodes in row-major order. */
    method Fill(input: seq<Node>)
      requires Square() && extent * extent < |input|
      modifies nodes
      ensures forall r, c {:trigger RowMajor(Location(r, c), extent)} :: 0 <= r < extent && 0 <= c < extent ==>
                RowMajor(Location(r, c), extent) < |input| && nodes[r, c] == input[RowMajor(Location(r, c), extent)]
    {
      var current := 0;
      for row := 0 to extent
        invariant current == row * extent
        invariant forall r, c {:trigger RowMajor(Location(r, c), extent)} :: 0 <= r < row && 0 <= c < extent ==>
                    RowMajor(Location(r, c), extent) < |input| && nodes[r, c] == input[RowMajor(Location(r, c), extent)]
      {
        for column := 0 to extent
          invariant current == RowMajor(Location(row, column), extent)
          invariant forall r, c {:trigger RowMajor(Location(r, c), extent)} :: 0 <= r < row && 0 <= c < extent ==>
                      RowMajor(Location(r, c), extent) < |input| && nodes[r, c] == input[RowMajor(Location(r, c), extent)]
          invariant forall c {:trigger RowMajor(Location(row, c), extent)} :: 0 <= c < column ==>
                      RowMajor(Location(row, c), extent) < |input| && nodes[row, c] == input[RowMajor(Location(row, c), extent)]
        {
          RowMajorDistinct(Location(row, column), Location(row, column), extent);
          nodes[row, column] := input[current];
          current := current + 1;
        }
        NextRow(row, extent);
      }
    }

    /** MazeGraph::setOutPaths: only the node at the location changes, and only its out paths. */
    method SetOutPaths(location: Location, outPaths: bv8)
      requires Valid() && IsInside(location, extent)
      modifies nodes
      ensures Valid()
      ensures nodes[location.row, location.column] == old(nodes[location.row, location.column]).(outPaths := outPaths)
      ensures forall r, c :: 0 <= r < extent && 0 <= c < extent && (r, c) != (location.row, location.column) ==>
                nodes[r, c] == old(nodes[r, c])
    {
      nodes[location.row, location.column] := nodes[location.row, location.column].(outPaths := outPaths);
    }

    /** MazeGraph::addShiftLocation: a location not yet in the list is appended; the list never holds a location twice. */
    method AddShiftLocation(location: Location)
      requires Valid()
      modifies this
      ensures Valid() && leftover == old(leftover)
      ensures shiftLocations == if location in old(shiftLocations) then old(shiftLocations) else old(shiftLocations) + [location]
    {
      var found := false;
      for k := 0 to |shiftLocations|
        invariant found <==> location in shiftLocations[..k]
      {
        if shiftLocations[k] == location {
          found := true;
        }
      }
      assert shiftLocations[..|shiftLocations|] == shiftLocations;
      if !found {
        shiftLocations := shiftLocations + [location];
      }
    }

    /** MazeGraph::setLeftoverOutPaths */
    method SetLeftoverOutPaths(outPaths: bv8)
      requires Valid()
      modifies this
      ensures Valid() && shiftLocations == old(shiftLocations)
      ensures leftover == old(leftover).(outPaths := outPaths)
    {
      leftover := leftover.(outPaths := outPaths);
    }

    /**
     * MazeGraph::getLocation: the first location in row-major order whose node has the identifier,
     * or the given leftover location when no node of the matrix has it.
     */
    method GetLocation(nodeId: int, leftoverLocation: Location) returns (result: Location)
      requires Valid()
      ensures (exists r, c :: 0 <= r < extent && 0 <= c < extent && nodes[r, c].nodeId == nodeId) ==>
                && IsInside(result, extent) && nodes[result.row, result.column].nodeId == nodeId
                && forall r, c {:trigger nodes[r, c]} :: 0 <= r < extent && 0 <= c < extent && RowMajorBefore(Location(r, c), result) ==>
                     nodes[r, c].nodeId != nodeId
      ensures (forall r, c :: 0 <= r < extent && 0 <= c < extent ==> nodes[r, c].nodeId != nodeId) ==>
                result == leftoverLocation
    {
      for row := 0 to extent
        invariant forall r, c :: 0 <= r < row && 0 <= c < extent ==> nodes[r, c].nodeId != nodeId
      {
        for column := 0 to extent
          invariant forall r, c :: 0 <= r < row && 0 <= c < extent ==> nodes[r, c].nodeId != nodeId
          invariant forall c :: 0 <= c < column ==> nodes[row, c].nodeId != nodeId
        {
          if nodes[row, column].nodeId == nodeId {
            return Location(row, column);
          }
        }
      }
      return leftoverLocation;
    }

    /** MazeGraph::getNumberOfNodes: the matrix slots and the leftover. */
    function GetNumberOfNodes(): (n: nat)
      reads this
      ensures n == size + 1
    {
      size + 1
    }

    /**
     * MazeGraph::shift: walking back from the opposing location, every node of the line takes its
     * predecessor's node, the leftover with the given rotation takes the location, and the node
     * that was at the opposing location becomes the leftover. The walk stays inside the matrix
     * exactly when the shift is defined; at a location off the border the offset is (0, 0) and the
     * shift swaps the node there with the leftover.
     */
    method Shift(location: Location, leftoverRotation: int)
      requires Valid() && ShiftDefined(location, extent)
      modifies this, nodes
      ensures Valid() && shiftLocations == old(shiftLocations)
      ensures Grid() == ShiftedGrid(old(Grid()), extent, location, old(leftover).(rotation := leftoverRotation))
      ensures leftover == At(old(Grid()), extent, FarEnd(location, extent))
    {
      var offset := ShiftOffset(location, extent);
      var toLocation := OpposingShiftLocation(location, extent);
      AlongInside(location, extent, extent - 1);
      leftover := leftover.(rotation := leftoverRotation);
      var updatedLeftover := ShiftLine(location, offset, toLocation, leftover);
      leftover := updatedLeftover;
    }

    /**
     * The node matrix part of MazeGraph::shift: the node at the far end is taken out, the line
     * moves one step along the offset, and `inserted` takes the location.
     */
    method ShiftLine(location: Location, offset: Offset, toLocation: Location, inserted: Node) returns (updatedLeftover: Node)
      requires Valid() && IsInside(location, extent) && offset == ShiftOffset(location, extent)
      requires toLocation == Along(location, offset, extent - 1) && IsInside(toLocation, extent)
      modifies nodes
      ensures Grid() == ShiftedGrid(old(Grid()), extent, location, inserted)
      ensures updatedLeftover == At(old(Grid()), extent, toLocation)
    {
      ghost var g := Grid();
      GridNodes(g);
      updatedLeftover := nodes[toLocation.row, toLocation.column];
      var insertAt := MoveLineBack(location, offset, toLocation, g);
      PlaceInserted(insertAt, offset, inserted, g);
    }

    /** The node matrix holds the grid it is read as, slot by slot. */
    lemma GridNodes(g: Grid)
      requires Square() && g == Grid()
      ensures forall r, c {:trigger nodes[r, c]} :: 0 <= r < extent && 0 <= c < extent ==> nodes[r, c] == At(g, extent, Location(r, c))
    {
      forall r, c | 0 <= r < extent && 0 <= c < extent
        ensures nodes[r, c] == At(g, extent, Location(r, c))
      {
        assert IsInside(Location(r, c), extent);
      }
    }

    /** One iteration of the loop of MazeGraph::shift: the node at index t of the line takes its predecessor's node. */
    method CopyBack(location: Location, offset: Offset, toLocation: Location, fromLocation: Location, ghost t: int, ghost g: Grid)
      requires Valid() && IsInside(location, extent) && offset == ShiftOffset(location, extent) && IsGrid(g, extent)
      requires 1 <= t < extent && toLocation == Along(location, offset, t) && fromLocation == Along(location, offset, t - 1)
      requires IsInside(toLocation, extent) && IsInside(fromLocation, extent)
      requires forall r, c {:trigger nodes[r, c]} :: 0 <= r < extent && 0 <= c < extent ==> nodes[r, c] == CopiedNode(g, extent, location, offset, t, Location(r, c))
      modifies nodes
      ensures forall r, c {:trigger nodes[r, c]} :: 0 <= r < extent && 0 <= c < extent ==> nodes[r, c] == CopiedNode(g, extent, location, offset, t - 1, Location(r, c))
    {
      forall r, c | 0 <= r < extent && 0 <= c < extent
        ensures Location(r, c) == toLocation ==> CopiedNode(g, extent, location, offset, t - 1, Location(r, c)) == CopiedNode(g, extent, location, offset, t, fromLocation)
        ensures Location(r, c) != toLocation ==> CopiedNode(g, extent, location, offset, t - 1, Location(r, c)) == CopiedNode(g, extent, location, offset, t, Location(r, c))
      {
        CopyStep(g, extent, location, offset, t, Location(r, c));
      }
      nodes[toLocation.row, toLocation.column] := nodes[fromLocation.row, fromLocation.column];
    }

    /** The copy loop of MazeGraph::shift: extent - 1 steps back from the far end, each node taking its predecessor's. */
    method MoveLineBack(location: Location, offset: Offset, farEnd: Location, ghost g: Grid) returns (toLocation: Location)
      requires Valid() && IsInside(location, extent) && offset == ShiftOffset(location, extent)
      requires farEnd == Along(location, offset, extent - 1) && IsInside(farEnd, extent)
      requires IsGrid(g, extent) && forall r, c {:trigger nodes[r, c]} :: 0 <= r < extent && 0 <= c < extent ==> nodes[r, c] == At(g, extent, Location(r, c))
      modifies nodes
      ensures toLocation == location
      ensures forall r, c {:trigger nodes[r, c]} :: 0 <= r < extent && 0 <= c < extent ==> nodes[r, c] == CopiedNode(g, extent, location, offset, 0, Location(r, c))
    {
      forall r, c | 0 <= r < extent && 0 <= c < extent
        ensures CopiedNode(g, extent, location, offset, extent - 1, Location(r, c)) == At(g, extent, Location(r, c))
      {
        CopiedEnds(g, extent, location, offset, Location(r, c));
      }
      toLocation := farEnd;
      ghost var t := extent - 1;
      for i := 0 to extent - 1
        invariant t == extent - 1 - i && toLocation == Along(location, offset, t) && IsInside(toLocation, extent)
        invariant forall r, c {:trigger nodes[r, c]} :: 0 <= r < extent && 0 <= c < extent ==> nodes[r, c] == CopiedNode(g, extent, location, offset, t, Location(r, c))
      {
        var fromLocation := toLocation.Minus(offset);
        StepBack(location, extent, t);
        CopyBack(location, offset, toLocation, fromLocation, t, g);
        toLocation := fromLocation;
        t := t - 1;
      }
      AlongInside(location, extent, 0);
    }

    /** The last write of MazeGraph::shift: the inserted node takes the location the walk ended at. */
    method PlaceInserted(location: Location, offset: Offset, inserted: Node, ghost g: Grid)
      requires Square() && IsInside(location, extent) && offset == ShiftOffset(location, extent) && IsGrid(g, extent)
      requires forall r, c {:trigger nodes[r, c]} :: 0 <= r < extent && 0 <= c < extent ==> nodes[r, c] == CopiedNode(g, extent, location, offset, 0, Location(r, c))
      modifies nodes
      ensures Grid() == ShiftedGrid(g, extent, location, inserted)
    {
      nodes[location.row, location.column] := inserted;
      forall r, c | 0 <= r < extent && 0 <= c < extent
        ensures nodes[r, c] == ShiftedNode(g, extent, location, inserted, Location(r, c))
      {
        CopiedEnds(g, extent, location, offset, Location(r, c));
      }
      ghost var h, shifted := Grid(), ShiftedGrid(g, extent, location, inserted);
      forall q | IsInside(q, extent)
        ensures At(h, extent, q) == At(shifted, extent, q)
      {
      }
      GridsEqual(h, shifted, extent);
    }

    /**
     * NeighborIterator::moveToNextNeighbor: from out path index i on, the first out path leading to
     * a neighbor, whose neighbor then heads the rest of the iteration, or the sentinel when none is left.
     */
    method MoveToNextNeighbor(location: Location, i: nat) returns (j: nat, outPath: bv8)
      requires Valid() && IsInside(location, extent) && NodesWellFormed(Grid(), extent) && i <= 4
      ensures i <= j <= 4 && outPath == if j == 4 then Sentinel else OutPathAt(j).Bit()
      ensures j == 4 ==> NeighborsFrom(Grid(), extent, location, i) == []
      ensures j < 4 ==> NeighborsFrom(Grid(), extent, location, i) ==
                        [location.Plus(OffsetFromOutPath(outPath))] + NeighborsFrom(Grid(), extent, location, j + 1)
    {
      ghost var g := Grid();
      var node := nodes[location.row, location.column];
      assert node == At(g, extent, location);
      var nodeOutPaths := RotateOutPaths(node.outPaths, node.rotation);
      j := i;
      outPath := if j == 4 then Sentinel else OutPathAt(j).Bit();
      while outPath < Sentinel && (outPath & nodeOutPaths == 0 || !IsNeighbor(location, outPath))
        invariant i <= j <= 4 && outPath == if j == 4 then Sentinel else OutPathAt(j).Bit()
        invariant NeighborsFrom(g, extent, location, i) == NeighborsFrom(g, extent, location, j)
        decreases 4 - j
      {
        SkipTest(g, extent, location, j, nodeOutPaths);
        NextBit(j);
        outPath := outPath << 1;
        j := j + 1;
      }
      if j < 4 {
        SkipTest(g, extent, location, j, nodeOutPaths);
        NeighborsFromHead(g, extent, location, j);
      }
    }

    /** NeighborIterator::isNeighbor */
    predicate IsNeighbor(location: Location, outPath: bv8)
      reads this, nodes
      requires Valid() && NodesWellFormed(Grid(), extent)
      ensures IsNeighbor(location, outPath) ==> IsInside(location.Plus(OffsetFromOutPath(outPath)), extent)
    {
      LeadsToNeighbor(Grid(), extent, location, outPath)
    }

    /**
     * MazeGraph::neighbors, iterated to the end: the locations reachable in one step from the
     * location, in the order North, East, South, West.
     */
    method Neighbors(location: Location) returns (result: seq<Location>)
      requires Valid() && IsInside(location, extent) && NodesWellFormed(Grid(), extent)
      ensures result == NeighborsFrom(Grid(), extent, location, 0)
    {
      ghost var g := Grid();
      result := [];
      var j, outPath := MoveToNextNeighbor(location, 0);
      ghost var upcoming := NeighborsFrom(g, extent, location, 0);
      while outPath != Sentinel
        invariant j <= 4 && outPath == if j == 4 then Sentinel else OutPathAt(j).Bit()
        invariant result + upcoming == NeighborsFrom(g, extent, location, 0)
        invariant j == 4 ==> upcoming == []
        invariant j < 4 ==> upcoming == [location.Plus(OffsetFromOutPath(outPath))] + NeighborsFrom(g, extent, location, j + 1)
        decreases 4 - j
      {
        var neighbor := location.Plus(OffsetFromOutPath(outPath));
        ghost var rest := NeighborsFrom(g, extent, location, j + 1);
        ConcatAssociative(result, [neighbor], rest);
        result := result + [neighbor];
        outPath := outPath << 1;
        j, outPath := MoveToNextNeighbor(location, j + 1);
        upcoming := rest;
      }
    }
  }
}
