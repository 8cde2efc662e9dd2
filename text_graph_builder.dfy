/**
 * The text graph builder of algolibs/graphbuilder: a maze drawn as text lines, `linesPerNode` lines
 * per row of nodes, where a '.' at the middle of a node's side means an out path on that side.
 */
module TextGraphBuilders {
  import opened GraphBasics
  import opened GraphBuilders
  import ExhMazeGraph

  /** A grid is its own update at a cell with the cell's own bits. */
  lemma CellUpdatedSame(grid: seq<seq<OutPathBits>>, location: Location)
    requires 0 <= location.row < |grid| && 0 <= location.column < |grid[location.row]|
    ensures CellUpdated(grid, grid, location, grid[location.row][location.column])
  {
  }

  /** Two updates of the same cell make one. */
  lemma CellUpdatedThen(a: seq<seq<OutPathBits>>, b: seq<seq<OutPathBits>>, c: seq<seq<OutPathBits>>, location: Location, bits: OutPathBits)
    requires 0 <= location.row < |b| && 0 <= location.column < |b[location.row]|
    requires CellUpdated(a, b, location, b[location.row][location.column])
    requires CellUpdated(b, c, location, bits)
    ensures CellUpdated(a, c, location, bits)
  {
  }

  /** Line `i` exists and has a character at `j`. */
  predicate InText(lines: seq<string>, i: nat, j: nat) {
    i < |lines| && j < |lines[i]|
  }

  /**
   * A TextGraphBuilder. It extends a GraphBuilder, whose bitsets it fills; `first`, `second` and
   * `third` map a node's row or column to the line or character of its first, middle and last text
   * row or column.
   */
  class TextGraphBuilder {
    const builder: GraphBuilder
    var lines: seq<string>
    const linesPerNode: nat
    const first: nat -> nat
    const second: nat -> nat
    const third: nat -> nat

    /** A builder without lines on top of a default-constructed GraphBuilder. */
    constructor (linesPerNode: nat, first: nat -> nat, second: nat -> nat, third: nat -> nat)
      ensures this.linesPerNode == linesPerNode && this.first == first && this.second == second && this.third == third
      ensures lines == [] && fresh(builder)
      ensures builder.outPaths == [] && builder.leftoverOutPaths == {} && !builder.standardShiftLocations
    {
      this.linesPerNode := linesPerNode;
      this.first := first;
      this.second := second;
      this.third := third;
      lines := [];
      builder := new GraphBuilder();
    }

    /** extent: whole groups of `linesPerNode` lines, rounded down. */
    function Extent(): nat
      reads this
      requires linesPerNode > 0
    {
      |lines| / linesPerNode
    }

    /** The four characters buildGraph reads for the node at (row, column) exist. */
    predicate NodeInText(row: nat, column: nat)
      reads this
    {
      InText(lines, first(row), second(column)) && InText(lines, second(row), third(column)) &&
      InText(lines, third(row), second(column)) && InText(lines, second(row), first(column))
    }

    /** The text holds every character buildGraph reads. */
    predicate Covers()
      reads this
      requires linesPerNode > 0
    {
      forall row: nat, column: nat | row < Extent() && column < Extent() :: NodeInText(row, column)
    }

    /** The out paths the text shows for the node at (row, column): a side whose middle character is '.'. */
    function TextOutPaths(row: nat, column: nat): (bits: OutPathBits)
      reads this
      requires NodeInText(row, column)
      ensures North in bits <==> lines[first(row)][second(column)] == '.'
      ensures East in bits <==> lines[second(row)][third(column)] == '.'
      ensures South in bits <==> lines[third(row)][second(column)] == '.'
      ensures West in bits <==> lines[second(row)][first(column)] == '.'
    {
      (if lines[first(row)][second(column)] == '.' then {North} else {}) +
      (if lines[second(row)][third(column)] == '.' then {East} else {}) +
      (if lines[third(row)][second(column)] == '.' then {South} else {}) +
      (if lines[second(row)][first(column)] == '.' then {West} else {})
    }

    /** setMaze: the lines are replaced wholesale. */
    method SetMaze(newLines: seq<string>) returns (self: TextGraphBuilder)
      modifies this
      ensures self == this && lines == newLines
    {
      lines := newLines;
      self := this;
    }

    /**
     * buildGraph: the bitsets are resized to extent x extent, each node's bitset gains the out paths
     * its text shows (none are removed), and the graph is what constructGraph makes of the bitsets.
     */
    method BuildGraph() returns (graph: ExhMazeGraph.MazeGraph)
      requires linesPerNode > 0 && Covers()
      modifies builder
      ensures builder.leftoverOutPaths == old(builder.leftoverOutPaths)
      ensures builder.standardShiftLocations == old(builder.standardShiftLocations)
      ensures |builder.outPaths| == Extent() && IsSquare(builder.outPaths)
      ensures forall r, c :: 0 <= r < Extent() && 0 <= c < Extent() ==>
                builder.outPaths[r][c] == ResizedGrid(old(builder.outPaths), Extent())[r][c] + TextOutPaths(r, c)
      ensures fresh(graph) && Constructed(graph, builder.outPaths, builder.leftoverOutPaths, builder.standardShiftLocations)
    {
      var extent := |lines| / linesPerNode;
      ResizeBitsets(extent);
      ghost var resized := builder.outPaths;
      for row := 0 to extent
        invariant builder.leftoverOutPaths == old(builder.leftoverOutPaths)
        invariant builder.standardShiftLocations == old(builder.standardShiftLocations)
        invariant Parsed(resized, row, 0)
      {
        for column := 0 to extent
          invariant builder.leftoverOutPaths == old(builder.leftoverOutPaths)
          invariant builder.standardShiftLocations == old(builder.standardShiftLocations)
          invariant Parsed(resized, row, column)
        {
          ParseNode(row, column);
        }
      }
      graph := builder.ConstructGraph();
    }

    /** The nodes before (row, column) in row-major order have gained their text's out paths, the others are unchanged. */
    ghost predicate Parsed(resized: seq<seq<OutPathBits>>, row: nat, column: nat)
      reads this, builder
      requires linesPerNode > 0
    {
      Covers() && |resized| == Extent() && IsSquare(resized) && |builder.outPaths| == Extent() && IsSquare(builder.outPaths) &&
      forall r, c :: 0 <= r < Extent() && 0 <= c < Extent() ==>
        builder.outPaths[r][c] == resized[r][c] + (if r < row || (r == row && c < column) then TextOutPaths(r, c) else {})
    }

    /** The two resize steps of buildGraph: first the rows, then every row's cells. */
    method ResizeBitsets(extent: nat)
      modifies builder
      ensures builder.leftoverOutPaths == old(builder.leftoverOutPaths)
      ensures builder.standardShiftLocations == old(builder.standardShiftLocations)
      ensures builder.outPaths == ResizedGrid(old(builder.outPaths), extent)
    {
      var grid := Resized(builder.outPaths, extent, []);
      for row := 0 to extent
        invariant |grid| == extent
        invariant forall r :: 0 <= r < extent ==>
                    grid[r] == if r < row then Resized(Resized(old(builder.outPaths), extent, [])[r], extent, {})
                               else Resized(old(builder.outPaths), extent, [])[r]
      {
        grid := grid[row := Resized(grid[row], extent, {})];
      }
      builder.outPaths := grid;
      ghost var expected := ResizedGrid(old(builder.outPaths), extent);
      assert forall r :: 0 <= r < extent ==> grid[r] == expected[r];
    }

    /** The body of buildGraph's inner loop: addOutPath for each side whose middle character is '.'. */
    method ParseNode(row: nat, column: nat)
      requires row < |builder.outPaths| && column < |builder.outPaths[row]| && NodeInText(row, column)
      modifies builder
      ensures builder.leftoverOutPaths == old(builder.leftoverOutPaths)
      ensures builder.standardShiftLocations == old(builder.standardShiftLocations)
      ensures CellUpdated(old(builder.outPaths), builder.outPaths, Location(row, column),
                          old(builder.outPaths)[row][column] + TextOutPaths(row, column))
    {
      var location := Location(row, column);
      ghost var before := builder.outPaths;
      CellUpdatedSame(before, location);
      if lines[first(row)][second(column)] == '.' {
        AddStep(before, location, North);
      }
      if lines[second(row)][third(column)] == '.' {
        AddStep(before, location, East);
      }
      if lines[third(row)][second(column)] == '.' {
        AddStep(before, location, South);
      }
      if lines[second(row)][first(column)] == '.' {
        AddStep(before, location, West);
      }
    }

    /** One addOutPath of buildGraph, seen from the bitsets before the node was parsed. */
    method AddStep(ghost before: seq<seq<OutPathBits>>, location: Location, outPath: OutPath)
      requires 0 <= location.row < |builder.outPaths| && 0 <= location.column < |builder.outPaths[location.row]|
      requires CellUpdated(before, builder.outPaths, location, builder.outPaths[location.row][location.column])
      modifies builder
      ensures builder.leftoverOutPaths == old(builder.leftoverOutPaths)
      ensures builder.standardShiftLocations == old(builder.standardShiftLocations)
      ensures CellUpdated(before, builder.outPaths, location, old(builder.outPaths)[location.row][location.column] + {outPath})
    {
      ghost var middle := builder.outPaths;
      builder.AddOutPath(location, outPath);
      CellUpdatedThen(before, middle, builder.outPaths, location, builder.outPaths[location.row][location.column]);
    }
  }
}
