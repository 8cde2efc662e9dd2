/**
 * The maze graph of algolibs/libexhsearch: a square matrix of nodes, a leftover node and a list of
 * shift locations. Node rotations are in degrees. C++ integer division truncates toward zero, which
 * is written out here because Dafny's division on negative operands rounds down.
 */
module ExhMazeGraph {
  import opened GraphBasics

  /** C++ `a / b` for b > 0. */
  function TruncDiv(a: int, b: int): (q: int)
    requires b > 0
    ensures a >= 0 ==> q == a / b
    ensures a < 0 ==> q == -((-a) / b)
  {
    if a >= 0 then a / b else -((-a) / b)
  }

  /** Rotations in degrees for which rotateOutPaths shifts by a non-negative amount. */
  predicate RotationDefined(rotation: int) {
    -450 < rotation < 450
  }

  /** The number of clockwise quarter turns rotateOutPaths applies: `(rotation / 90 + 4) % 4`. */
  function Quarters(rotation: int): (q: nat)
    requires rotation > -450
    ensures q < 4
  {
    (TruncDiv(rotation, 90) + 4) % 4
  }

  /** Rotating the four low bits left by q positions, cyclically. */
  function RotateBits(x: bv8, q: nat): bv8
    requires q < 4
  {
    ((x << q) | (x >> (4 - q))) & 15
  }

  /** rotateOutPaths */
  function RotateOutPaths(outPaths: bv8, rotation: int): (r: bv8)
    requires rotation > -450
    ensures r <= 15
  {
    RotateBits(outPaths, Quarters(rotation))
  }

  /** mirrorOutPath */
  function MirrorOutPath(outPath: bv8): (r: bv8)
    ensures r <= 15
  {
    RotateOutPaths(outPath, 180)
  }

  /** Rotating a mask takes every out path it has q quarter turns clockwise, and no other. */
  lemma RotateBitsTurns(x: bv8, q: nat, d: OutPath)
    requires q < 4 && x <= 15
    ensures RotateBits(x, q) & d.Turned(q).Bit() != 0 <==> x & d.Bit() != 0
  {
    var b := d.Bit();
    var t := d.Turned(q).Bit();
    if q == 0 {
      assert t == b;
      assert RotateBits(x, q) == x;
    } else if q == 1 {
      assert RotateBits(x, q) == ((x << 1) | (x >> 3)) & 15;
      match d
      case North => assert t == 2;
      case East => assert t == 4;
      case South => assert t == 8;
      case West => assert t == 1;
    } else if q == 2 {
      assert RotateBits(x, q) == ((x << 2) | (x >> 2)) & 15;
      match d
      case North => assert t == 4;
      case East => assert t == 8;
      case South => assert t == 1;
      case West => assert t == 2;
    } else {
      assert RotateBits(x, q) == ((x << 3) | (x >> 1)) & 15;
      match d
      case North => assert t == 8;
      case East => assert t == 1;
      case South => assert t == 2;
      case West => assert t == 4;
    }
  }

  /** A rotated single out path is the out path turned by the rotation's quarter turns. */
  lemma RotateSingle(d: OutPath, rotation: int)
    requires rotation > -450
    ensures RotateOutPaths(d.Bit(), rotation) == d.Turned(Quarters(rotation)).Bit()
  {
    var q := Quarters(rotation);
    if q == 0 {
      assert RotateBits(d.Bit(), q) == d.Bit() & 15;
    } else if q == 1 {
      assert RotateBits(d.Bit(), q) == ((d.Bit() << 1) | (d.Bit() >> 3)) & 15;
    } else if q == 2 {
      assert RotateBits(d.Bit(), q) == ((d.Bit() << 2) | (d.Bit() >> 2)) & 15;
    } else {
      assert RotateBits(d.Bit(), q) == ((d.Bit() << 3) | (d.Bit() >> 1)) & 15;
    }
  }

  /** The mirrored out path of a single out path is the opposite one. */
  lemma MirrorOpposite(d: OutPath)
    ensures MirrorOutPath(d.Bit()) == d.Opposite().Bit()
  {
    RotateSingle(d, 180);
  }

  /** Mirroring a mask of out paths twice gives it back. */
  lemma MirrorTwice(x: bv8)
    requires x <= 15
    ensures MirrorOutPath(MirrorOutPath(x)) == x
  {
    assert Quarters(180) == 2;
    assert MirrorOutPath(x) == ((x << 2) | (x >> 2)) & 15;
  }

  /** MazeGraph::hasOutPath(node, out_path): the out path is turned back by the node's rotation and looked up in the mask. */
  predicate HasOutPath(node: Node, outPath: bv8)
    requires node.rotation < 450
    ensures HasOutPath(node, outPath) ==> node.outPaths != 0
  {
    node.outPaths & RotateOutPaths(outPath, -node.rotation) != 0
  }

  /** C++ division truncates, so a negated rotation turns by the complementary number of quarter turns. */
  lemma QuartersNegate(rotation: int)
    requires RotationDefined(rotation)
    ensures Quarters(-rotation) == (4 - Quarters(rotation)) % 4
  {
    assert TruncDiv(-rotation, 90) == -TruncDiv(rotation, 90);
  }

  /** Looking up a single out path turned back by q quarter turns agrees with turning the mask forward by q. */
  lemma RotateBitsAdjoint(x: bv8, q: nat, d: OutPath)
    requires q < 4 && x <= 15
    ensures x & RotateBits(d.Bit(), (4 - q) % 4) != 0 <==> RotateBits(x, q) & d.Bit() != 0
  {
    if q == 0 {
      assert RotateBits(x, q) == x & 15;
    } else if q == 1 {
      assert RotateBits(x, q) == ((x << 1) | (x >> 3)) & 15;
    } else if q == 2 {
      assert RotateBits(x, q) == ((x << 2) | (x >> 2)) & 15;
    } else {
      assert RotateBits(x, q) == ((x << 3) | (x >> 1)) & 15;
    }
  }

  /**
   * Because division truncates, turning the out path back by the rotation agrees with turning the
   * node's mask forward by it, for every rotation and not only for multiples of 90 degrees.
   */
  lemma HasOutPathRotatedMask(node: Node, d: OutPath)
    requires WellFormed(node)
    ensures HasOutPath(node, d.Bit()) <==> RotateOutPaths(node.outPaths, node.rotation) & d.Bit() != 0
  {
    QuartersNegate(node.rotation);
    RotateBitsAdjoint(node.outPaths, Quarters(node.rotation), d);
  }

  /** With a bit above the four out paths, the rotated mask gains an out path the mask does not have. */
  lemma HighBitLeaksIntoRotation()
    ensures RotateOutPaths(16, 90) & North.Bit() == 0 && RotateOutPaths(16, 90) & East.Bit() != 0
  {
    assert Quarters(90) == 1;
  }

  /** A node whose rotation rotateOutPaths accepts in both directions and whose mask uses only the four out-path bits. */
  predicate WellFormed(node: Node) {
    RotationDefined(node.rotation) && node.outPaths <= 15
  }

  /** Every node of the matrix is well formed. */
  ghost predicate NodesWellFormed(g: Grid, extent: nat)
    requires IsGrid(g, extent)
  {
    forall q {:trigger At(g, extent, q)} :: IsInside(q, extent) ==> WellFormed(At(g, extent, q))
  }

  /** NeighborIterator::isNeighbor on the node matrix: the location the out path leads to is inside and its node has the mirrored out path. */
  predicate LeadsToNeighbor(g: Grid, extent: nat, l: Location, outPath: bv8)
    requires IsGrid(g, extent) && NodesWellFormed(g, extent)
  {
    var potential := l.Plus(OffsetFromOutPath(outPath));
    IsInside(potential, extent) && HasOutPath(At(g, extent, potential), MirrorOutPath(outPath))
  }

  /**
   * The neighbor iterator visits `l + offset(d)` for out path d when the node at `l`, rotated, has
   * d, and the location is inside and its node has the mirrored out path.
   */
  predicate IsNeighborVia(g: Grid, extent: nat, l: Location, d: OutPath)
    requires IsGrid(g, extent) && IsInside(l, extent) && NodesWellFormed(g, extent)
  {
    var node := At(g, extent, l);
    RotateOutPaths(node.outPaths, node.rotation) & d.Bit() != 0 && LeadsToNeighbor(g, extent, l, d.Bit())
  }

  /** The neighbors of `l` the iterator yields from out path index i on, in the order North, East, South, West. */
  function NeighborsFrom(g: Grid, extent: nat, l: Location, i: nat): (r: seq<Location>)
    requires IsGrid(g, extent) && IsInside(l, extent) && NodesWellFormed(g, extent) && i <= 4
    ensures |r| <= 4 - i
    decreases 4 - i
  {
    if i == 4 then []
    else if IsNeighborVia(g, extent, l, OutPathAt(i)) then [l.Plus(OutPathAt(i).Step())] + NeighborsFrom(g, extent, l, i + 1)
    else NeighborsFrom(g, extent, l, i + 1)
  }

  /** The loop test of moveToNextNeighbor at out path index j fails exactly when the iterator skips that out path. */
  lemma SkipTest(g: Grid, extent: nat, l: Location, j: nat, mask: bv8)
    requires IsGrid(g, extent) && IsInside(l, extent) && NodesWellFormed(g, extent) && j < 4
    requires mask == RotateOutPaths(At(g, extent, l).outPaths, At(g, extent, l).rotation)
    ensures (OutPathAt(j).Bit() & mask == 0 || !LeadsToNeighbor(g, extent, l, OutPathAt(j).Bit())) <==>
            !IsNeighborVia(g, extent, l, OutPathAt(j))
    ensures !IsNeighborVia(g, extent, l, OutPathAt(j)) ==> NeighborsFrom(g, extent, l, j) == NeighborsFrom(g, extent, l, j + 1)
  {
    var b := OutPathAt(j).Bit();
    assert b & mask == mask & b;
  }

  /** The iteration from a neighbor's out path index starts with that neighbor. */
  lemma NeighborsFromHead(g: Grid, extent: nat, l: Location, j: nat)
    requires IsGrid(g, extent) && IsInside(l, extent) && NodesWellFormed(g, extent) && j < 4
    requires IsNeighborVia(g, extent, l, OutPathAt(j))
    ensures NeighborsFrom(g, extent, l, j) == [l.Plus(OffsetFromOutPath(OutPathAt(j).Bit()))] + NeighborsFrom(g, extent, l, j + 1)
  {
  }

  /** The yielded locations are exactly the neighbors via an out path from index i on. */
  lemma {:induction false} NeighborsFromMembers(g: Grid, extent: nat, l: Location, i: nat, q: Location)
    requires IsGrid(g, extent) && IsInside(l, extent) && NodesWellFormed(g, extent) && i <= 4
    ensures q in NeighborsFrom(g, extent, l, i) <==>
            exists d: OutPath :: i <= d.Index() && IsNeighborVia(g, extent, l, d) && q == l.Plus(d.Step())
    decreases 4 - i
  {
    if i < 4 {
      NeighborsFromMembers(g, extent, l, i + 1, q);
      var d := OutPathAt(i);
      if IsNeighborVia(g, extent, l, d) && q == l.Plus(d.Step()) {
        assert q in NeighborsFrom(g, extent, l, i);
      }
      if exists e: OutPath :: i <= e.Index() && IsNeighborVia(g, extent, l, e) && q == l.Plus(e.Step()) {
        var e: OutPath :| i <= e.Index() && IsNeighborVia(g, extent, l, e) && q == l.Plus(e.Step());
        if e.Index() == i {
          IndexDetermines(e, d);
        }
      }
    }
  }

  /** A connection via an out path is also a connection back via the opposite out path. */
  lemma NeighborViaSymmetric(g: Grid, extent: nat, l: Location, d: OutPath)
    requires IsGrid(g, extent) && IsInside(l, extent) && NodesWellFormed(g, extent)
    requires IsNeighborVia(g, extent, l, d)
    ensures IsInside(l.Plus(d.Step()), extent) && IsNeighborVia(g, extent, l.Plus(d.Step()), d.Opposite())
    ensures l.Plus(d.Step()).Plus(d.Opposite().Step()) == l
  {
    var q := l.Plus(d.Step());
    var e := d.Opposite();
    MirrorOpposite(d);
    MirrorOpposite(e);
    assert e.Opposite() == d;
    HasOutPathRotatedMask(At(g, extent, q), e);
    HasOutPathRotatedMask(At(g, extent, l), d);
    assert q.Plus(e.Step()) == l;
  }

  /** If the iteration from `l` yields `q`, the iteration from `q` yields `l`: connections are mutual. */
  lemma NeighborsSymmetric(g: Grid, extent: nat, l: Location, q: Location)
    requires IsGrid(g, extent) && IsInside(l, extent) && NodesWellFormed(g, extent)
    requires q in NeighborsFrom(g, extent, l, 0)
    ensures IsInside(q, extent) && l in NeighborsFrom(g, extent, q, 0)
  {
    NeighborsFromMembers(g, extent, l, 0, q);
    var d: OutPath :| IsNeighborVia(g, extent, l, d) && q == l.Plus(d.Step());
    NeighborViaSymmetric(g, extent, l, d);
    var e := d.Opposite();
    assert 0 <= e.Index() && IsNeighborVia(g, extent, q, e) && l == q.Plus(e.Step());
    NeighborsFromMembers(g, extent, q, 0, l);
  }

  /** The line of MazeGraph::shift: `extent` locations from `location`, one offset apart. */
  method LineFrom(location: Location, offset: Offset, extent: nat) returns (line: seq<Location>)
    requires IsInside(location, extent) && offset == ShiftOffset(location, extent)
    ensures |line| == extent
    ensures forall k :: 0 <= k < extent ==> line[k] == Along(location, offset, k) && IsInside(line[k], extent)
  {
    line := [];
    var current := location;
    for i := 0 to extent
      invariant |line| == i && current == Along(location, offset, i)
      invariant forall k :: 0 <= k < i ==> line[k] == Along(location, offset, k) && IsInside(line[k], extent)
    {
      AlongInside(location, extent, i);
      line := line + [current];
      current := current.Plus(offset);
    }
  }

  class MazeGraph {
    const extent: nat
    const nodes: array2<Node>
    var leftover: Node
    var shiftLocations: seq<Location>

    ghost predicate Valid()
      reads this
    {
      Square() && NoDuplicates(shiftLocations)
    }

    /** The node matrix has `extent` rows and columns. */
    predicate Square() {
      nodes.Length0 == extent && nodes.Length1 == extent
    }

    /** The node matrix as a value. */
    function Grid(): (g: Grid)
      reads nodes
      requires Square()
      ensures IsGrid(g, extent)
      ensures forall q {:trigger At(g, extent, q)} :: IsInside(q, extent) ==> At(g, extent, q) == nodes[q.row, q.column]
    {
      GridOf(nodes)
    }

    /** MazeGraph::getNumberOfNodes: the slots of the node matrix; the leftover is not counted. */
    function GetNumberOfNodes(): (n: nat)
      requires Square()
      ensures n == nodes.Length0 * nodes.Length1
    {
      extent * extent
    }

    /**
     * MazeGraph(extent): node identifiers are numbered in row-major order from 0, the leftover
     * takes the next one, and no node has out paths or rotation (the resized matrix holds
     * value-initialized nodes, of which only the identifier is set).
     */
    constructor (extent: nat)
      ensures Valid() && this.extent == extent && fresh(nodes) && shiftLocations == []
      ensures forall r, c {:trigger nodes[r, c]} :: 0 <= r < extent && 0 <= c < extent ==> nodes[r, c] == Node(RowMajor(Location(r, c), extent), 0, 0)
      ensures leftover == Node(extent * extent, 0, 0)
    {
      this.extent := extent;
      nodes := new Node[extent, extent]((r, c) => Node(0, 0, 0));
      shiftLocations := [];
      leftover := Node(0, 0, 0);
      new;
      var current := 0;
      for row := 0 to extent
        invariant Valid() && shiftLocations == [] && leftover == Node(0, 0, 0)
        invariant current == row * extent
        invariant forall r, c {:trigger nodes[r, c]} :: 0 <= r < row && 0 <= c < extent ==> nodes[r, c] == Node(RowMajor(Location(r, c), extent), 0, 0)
      {
        for column := 0 to extent
          invariant Valid() && shiftLocations == [] && leftover == Node(0, 0, 0)
          invariant current == RowMajor(Location(row, column), extent)
          invariant forall r, c {:trigger nodes[r, c]} :: 0 <= r < row && 0 <= c < extent ==> nodes[r, c] == Node(RowMajor(Location(r, c), extent), 0, 0)
          invariant forall c {:trigger nodes[row, c]} :: 0 <= c < column ==> nodes[row, c] == Node(RowMajor(Location(row, c), extent), 0, 0)
        {
          nodes[row, column] := Node(current, 0, 0);
          current := current + 1;
        }
        NextRow(row, extent);
      }
      leftover := leftover.(nodeId := current);
    }

    /** MazeGraph(extent, nodes): the input nodes fill the matrix in row-major order, and the next one is the leftover. */
    constructor FromNodes(extent: nat, input: seq<Node>)
      requires |input| > extent * extent
      ensures Valid() && this.extent == extent && fresh(nodes) && shiftLocations == []
      ensures forall r, c {:trigger RowMajor(Location(r, c), extent)} :: 0 <= r < extent && 0 <= c < extent ==>
                RowMajor(Location(r, c), extent) < |input| && nodes[r, c] == input[RowMajor(Location(r, c), extent)]
      ensures leftover == input[extent * extent]
    {
      this.extent := extent;
      nodes := new Node[extent, extent]((r, c) => Node(0, 0, 0));
      shiftLocations := [];
      leftover := Node(0, 0, 0);
      new;
      var current := 0;
      for row := 0 to extent
        invariant Valid() && shiftLocations == [] && leftover == Node(0, 0, 0)
        invariant current == row * extent
        invariant forall r, c {:trigger RowMajor(Location(r, c), extent)} :: 0 <= r < row && 0 <= c < extent ==>
                    RowMajor(Location(r, c), extent) < |input| && nodes[r, c] == input[RowMajor(Location(r, c), extent)]
      {
        for column := 0 to extent
          invariant Valid() && shiftLocations == [] && leftover == Node(0, 0, 0)
          invariant current == RowMajor(Location(row, column), extent)
          invariant forall r, c {:trigger RowMajor(Location(r, c), extent)} :: 0 <= r < row && 0 <= c < extent ==>
                      RowMajor(Location(r, c), extent) < |input| && nodes[r, c] == input[RowMajor(Location(r, c), extent)]
          invariant forall c {:trigger RowMajor(Location(row, c), extent)} :: 0 <= c < column ==>
                      RowMajor(Location(row, c), extent) < |input| && nodes[row, c] == input[RowMajor(Location(row, c), extent)]
        {
          RowMajorDistinct(Location(row, column), Location(row, column), extent);
          var node := input[current];
          nodes[row, column] := nodes[row, column].(nodeId := node.nodeId, rotation := node.rotation, outPaths := node.outPaths);
          current := current + 1;
        }
        NextRow(row, extent);
      }
      var node := input[current];
      leftover := leftover.(nodeId := node.nodeId, rotation := node.rotation, outPaths := node.outPaths);
    }

    /** MazeGraph::setOutPaths: only the node at the location changes, and only its out paths. */
    method SetOutPaths(location: Location, outPaths: bv8)
      requires Valid() && IsInside(location, extent)
      modifies nodes
      ensures Valid()
      ensures nodes[location.row, location.column] == old(nodes[location.row, location.column]).(outPaths := outPaths)
      ensures forall r, c :: 0 <= r < extent && 0 <= c < extent && (r, c) != (location.row, location.column) ==>
                nodes[r, c] == old(nodes[r, c])
    {
      nodes[location.row, location.column] := nodes[location.row, location.column].(outPaths := outPaths);
    }

    /** MazeGraph::addShiftLocation: a location not yet in the list is appended; the list never holds a location twice. */
    method AddShiftLocation(location: Location)
      requires Valid()
      modifies this
      ensures Valid() && leftover == old(leftover)
      ensures shiftLocations == if location in old(shiftLocations) then old(shiftLocations) else old(shiftLocations) + [location]
    {
      var found := false;
      for k := 0 to |shiftLocations|
        invariant found <==> location in shiftLocations[..k]
      {
        if shiftLocations[k] == location {
          found := true;
        }
      }
      assert shiftLocations[..|shiftLocations|] == shiftLocations;
      if !found {
        shiftLocations := shiftLocations + [location];
      }
    }

    /** MazeGraph::setLeftoverOutPaths */
    method SetLeftoverOutPaths(outPaths: bv8)
      requires Valid()
      modifies this
      ensures Valid() && shiftLocations == old(shiftLocations)
      ensures leftover == old(leftover).(outPaths := outPaths)
    {
      leftover := leftover.(outPaths := outPaths);
    }

    /** MazeGraph::hasOutPath(location, out_path) */
    predicate HasOutPathAt(location: Location, outPath: bv8)
      reads this, nodes
      requires Valid() && IsInside(location, extent) && nodes[location.row, location.column].rotation < 450
      ensures HasOutPathAt(location, outPath) <==> HasOutPath(At(Grid(), extent, location), outPath)
    {
      HasOutPath(nodes[location.row, location.column], outPath)
    }

    /** MazeGraph::getNodeId */
    function GetNodeId(location: Location): (id: int)
      reads this, nodes
      requires Valid() && IsInside(location, extent)
      ensures id == At(Grid(), extent, location).nodeId
    {
      nodes[location.row, location.column].nodeId
    }

    /** MazeGraph::leftoverHasOutPath */
    predicate LeftoverHasOutPath(outPath: bv8)
      reads this
      requires leftover.rotation < 450
      ensures LeftoverHasOutPath(outPath) ==> leftover.outPaths != 0
    {
      HasOutPath(leftover, outPath)
    }

    /** The leftover has an out path exactly when its mask, turned by its rotation, has it. */
    lemma LeftoverRotatedMask(d: OutPath)
      requires WellFormed(leftover)
      ensures LeftoverHasOutPath(d.Bit()) <==> RotateOutPaths(leftover.outPaths, leftover.rotation) & d.Bit() != 0
    {
      HasOutPathRotatedMask(leftover, d);
    }

    /**
     * MazeGraph::getLocation: the first location in row-major order whose node has the identifier,
     * or the given leftover location when no node of the matrix has it.
     */
    method GetLocation(nodeId: int, leftoverLocation: Location) returns (result: Location)
      requires Valid()
      ensures (exists r, c :: 0 <= r < extent && 0 <= c < extent && nodes[r, c].nodeId == nodeId) ==>
                && IsInside(result, extent) && nodes[result.row, result.column].nodeId == nodeId
                && forall r, c {:trigger nodes[r, c]} :: 0 <= r < extent && 0 <= c < extent && RowMajorBefore(Location(r, c), result) ==>
                     nodes[r, c].nodeId != nodeId
      ensures (forall r, c :: 0 <= r < extent && 0 <= c < extent ==> nodes[r, c].nodeId != nodeId) ==>
                result == leftoverLocation
    {
      for row := 0 to extent
        invariant forall r, c :: 0 <= r < row && 0 <= c < extent ==> nodes[r, c].nodeId != nodeId
      {
        for column := 0 to extent
          invariant forall r, c :: 0 <= r < row && 0 <= c < extent ==> nodes[r, c].nodeId != nodeId
          invariant forall c :: 0 <= c < column ==> nodes[row, c].nodeId != nodeId
        {
          if nodes[row, column].nodeId == nodeId {
            return Location(row, column);
          }
        }
      }
      return leftoverLocation;
    }

    /**
     * MazeGraph::shift: the line starting at the location moves one step along the shift offset,
     * the leftover with the given rotation takes the location, and the node pushed off the far end
     * becomes the leftover. At a location off the border the offset is (0, 0), and the shift swaps
     * the node there with the leftover.
     */
    method Shift(location: Location, leftoverRotation: int)
      requires Valid() && IsInside(location, extent)
      modifies this, nodes
      ensures Valid() && shiftLocations == old(shiftLocations)
      ensures Grid() == ShiftedGrid(old(Grid()), extent, location, old(leftover).(rotation := leftoverRotation))
      ensures leftover == At(old(Grid()), extent, FarEnd(location, extent))
    {
      ghost var g := Grid();
      assert g == old(Grid());
      var offset := ShiftOffset(location, extent);
      var line := LineFrom(location, offset, extent);
      var updatedLeftover := nodes[line[|line| - 1].row, line[|line| - 1].column];
      assert line[|line| - 1] == FarEnd(location, extent);
      assert updatedLeftover == At(g, extent, FarEnd(location, extent));
      MoveLineOn(location, offset, line, g);
      leftover := leftover.(rotation := leftoverRotation);
      var inserted := leftover;
      leftover := updatedLeftover;
      assert line[0] == location && inserted == old(leftover).(rotation := leftoverRotation);
      PlaceInserted(line[0], offset, inserted, g);
    }

    /** The last write of MazeGraph::shift: the inserted node takes the location the line starts at. */
    method PlaceInserted(location: Location, offset: Offset, inserted: Node, ghost g: Grid)
      requires Square() && IsInside(location, extent) && offset == ShiftOffset(location, extent) && IsGrid(g, extent)
      requires forall r, c {:trigger nodes[r, c]} :: 0 <= r < extent && 0 <= c < extent ==> nodes[r, c] == CopiedNode(g, extent, location, offset, 0, Location(r, c))
      modifies nodes
      ensures Grid() == ShiftedGrid(g, extent, location, inserted)
    {
      nodes[location.row, location.column] := inserted;
      forall r, c | 0 <= r < extent && 0 <= c < extent
        ensures nodes[r, c] == ShiftedNode(g, extent, location, inserted, Location(r, c))
      {
        CopiedEnds(g, extent, location, offset, Location(r, c));
      }
      ghost var h, shifted := Grid(), ShiftedGrid(g, extent, location, inserted);
      forall q | IsInside(q, extent)
        ensures At(h, extent, q) == At(shifted, extent, q)
      {
      }
      GridsEqual(h, shifted, extent);
    }

    /** The copy loop of MazeGraph::shift: walking the line backwards, every node takes its predecessor's node. */
    method MoveLineOn(location: Location, offset: Offset, line: seq<Location>, ghost g: Grid)
      requires Valid() && IsInside(location, extent) && |line| == extent && offset == ShiftOffset(location, extent)
      requires forall k :: 0 <= k < extent ==> line[k] == Along(location, offset, k) && IsInside(line[k], extent)
      requires IsGrid(g, extent) && forall r, c {:trigger nodes[r, c]} :: 0 <= r < extent && 0 <= c < extent ==> nodes[r, c] == At(g, extent, Location(r, c))
      modifies nodes
      ensures forall r, c {:trigger nodes[r, c]} :: 0 <= r < extent && 0 <= c < extent ==> nodes[r, c] == CopiedNode(g, extent, location, offset, 0, Location(r, c))
    {
      forall r, c | 0 <= r < extent && 0 <= c < extent
        ensures CopiedNode(g, extent, location, offset, extent - 1, Location(r, c)) == At(g, extent, Location(r, c))
      {
        CopiedEnds(g, extent, location, offset, Location(r, c));
      }
      var t := |line| - 1;
      while t > 0
        invariant 0 <= t < extent
        invariant forall r, c {:trigger nodes[r, c]} :: 0 <= r < extent && 0 <= c < extent ==> nodes[r, c] == CopiedNode(g, extent, location, offset, t, Location(r, c))
      {
        var to, from := line[t], line[t - 1];
        forall r, c | 0 <= r < extent && 0 <= c < extent
          ensures Location(r, c) == to ==> CopiedNode(g, extent, location, offset, t - 1, Location(r, c)) == CopiedNode(g, extent, location, offset, t, from)
          ensures Location(r, c) != to ==> CopiedNode(g, extent, location, offset, t - 1, Location(r, c)) == CopiedNode(g, extent, location, offset, t, Location(r, c))
        {
          CopyStep(g, extent, location, offset, t, Location(r, c));
        }
        nodes[to.row, to.column] := nodes[from.row, from.column];
        t := t - 1;
      }
    }

    /**
     * NeighborIterator::moveToNextNeighbor: from out path index i on, the first out path leading to
     * a neighbor, whose neighbor then heads the rest of the iteration, or the sentinel when none is left.
     */
    method MoveToNextNeighbor(location: Location, i: nat) returns (j: nat, outPath: bv8)
      requires Valid() && IsInside(location, extent) && NodesWellFormed(Grid(), extent) && i <= 4
      ensures i <= j <= 4 && outPath == if j == 4 then Sentinel else OutPathAt(j).Bit()
      ensures j == 4 ==> NeighborsFrom(Grid(), extent, location, i) == []
      ensures j < 4 ==> NeighborsFrom(Grid(), extent, location, i) ==
                        [location.Plus(OffsetFromOutPath(outPath))] + NeighborsFrom(Grid(), extent, location, j + 1)
    {
      ghost var g := Grid();
      var node := nodes[location.row, location.column];
      assert node == At(g, extent, location);
      var nodeOutPaths := RotateOutPaths(node.outPaths, node.rotation);
      j := i;
      outPath := if j == 4 then Sentinel else OutPathAt(j).Bit();
      while outPath < Sentinel && (outPath & nodeOutPaths == 0 || !IsNeighbor(location, outPath))
        invariant i <= j <= 4 && outPath == if j == 4 then Sentinel else OutPathAt(j).Bit()
        invariant NeighborsFrom(g, extent, location, i) == NeighborsFrom(g, extent, location, j)
        decreases 4 - j
      {
        SkipTest(g, extent, location, j, nodeOutPaths);
        NextBit(j);
        outPath := outPath << 1;
        j := j + 1;
      }
      if j < 4 {
        SkipTest(g, extent, location, j, nodeOutPaths);
        NeighborsFromHead(g, extent, location, j);
      }
    }

    /** NeighborIterator::isNeighbor */
    predicate IsNeighbor(location: Location, outPath: bv8)
      reads this, nodes
      requires Valid() && NodesWellFormed(Grid(), extent)
      ensures IsNeighbor(location, outPath) ==> IsInside(location.Plus(OffsetFromOutPath(outPath)), extent)
    {
      LeadsToNeighbor(Grid(), extent, location, outPath)
    }

    /**
     * MazeGraph::neighbors, iterated to the end: the locations reachable in one step from the
     * location, in the order North, East, South, West.
     */
    method Neighbors(location: Location) returns (result: seq<Location>)
      requires Valid() && IsInside(location, extent) && NodesWellFormed(Grid(), extent)
      ensures result == NeighborsFrom(Grid(), extent, location, 0)
    {
      ghost var g := Grid();
      result := [];
      var j, outPath := MoveToNextNeighbor(location, 0);
      ghost var upcoming := NeighborsFrom(g, extent, location, 0);
      while outPath != Sentinel
        invariant j <= 4 && outPath == if j == 4 then Sentinel else OutPathAt(j).Bit()
        invariant result + upcoming == NeighborsFrom(g, extent, location, 0)
        invariant j == 4 ==> upcoming == []
        invariant j < 4 ==> upcoming == [location.Plus(OffsetFromOutPath(outPath))] + NeighborsFrom(g, extent, location, j + 1)
        decreases 4 - j
      {
        var neighbor := location.Plus(OffsetFromOutPath(outPath));
        ghost var rest := NeighborsFrom(g, extent, location, j + 1);
        ConcatAssociative(result, [neighbor], rest);
        result := result + [neighbor];
        outPath := outPath << 1;
        j, outPath := MoveToNextNeighbor(location, j + 1);
        upcoming := rest;
      }
    }
  }
}
