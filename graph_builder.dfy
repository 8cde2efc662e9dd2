/**
 * The graph builder of algolibs/graphbuilder: out paths are collected per cell and for the leftover
 * as bitsets indexed by out-path position, and then turned into a libexhsearch MazeGraph.
 */
module GraphBuilders {
  import opened GraphBasics
  import ExhMazeGraph

  /** GraphBuilder::OutPaths, a bitset indexed by out-path position, as the set of its positions that are set. */
  type OutPathBits = set<OutPath>

  /** addOutPath(out_paths, out_path): exactly the position of `outPath` becomes set. */
  function AddOutPathTo(bits: OutPathBits, outPath: OutPath): (r: OutPathBits)
    ensures outPath in r
    ensures forall d :: d != outPath ==> (d in r <==> d in bits)
  {
    bits + {outPath}
  }

  /** Setting the same position twice is the same as setting it once. */
  lemma AddOutPathIdempotent(bits: OutPathBits, outPath: OutPath)
    ensures AddOutPathTo(AddOutPathTo(bits, outPath), outPath) == AddOutPathTo(bits, outPath)
  {
  }

  /** addOutPath for each listed out path in turn. */
  function AddOutPathsTo(bits: OutPathBits, outPaths: seq<OutPath>): (r: OutPathBits)
    ensures forall d :: d in r <==> d in bits || d in outPaths
  {
    if outPaths == [] then bits
    else
      var init := outPaths[..|outPaths| - 1];
      assert outPaths == init + [outPaths[|outPaths| - 1]];
      AddOutPathTo(AddOutPathsTo(bits, init), outPaths[|outPaths| - 1])
  }

  /** MazeGraph::OutPaths for a bitset: mask bit 2^p for each set position p among the four out paths. */
  function MaskOf(bits: OutPathBits): (m: bv8)
    ensures forall d: OutPath :: m & d.Bit() != 0 <==> d in bits
    ensures m & 0xF0 == 0
  {
    (if North in bits then 1 else 0) | (if East in bits then 2 else 0) |
    (if South in bits then 4 else 0) | (if West in bits then 8 else 0)
  }

  /** The bitset a mask stands for. */
  function BitsOf(mask: bv8): (bits: OutPathBits)
    ensures forall d: OutPath :: d in bits <==> mask & d.Bit() != 0
  {
    set d: OutPath | mask & d.Bit() != 0
  }

  /** The conversion loses nothing: the bitset comes back from its mask, and a mask from its bitset up to the high bits. */
  lemma MaskRoundTrip(bits: OutPathBits, mask: bv8)
    ensures BitsOf(MaskOf(bits)) == bits
    ensures MaskOf(BitsOf(mask)) == mask & 0x0F
  {
    var m := MaskOf(BitsOf(mask));
    assert m & 1 == mask & 1 by { assert North.Bit() == 1; }
    assert m & 2 == mask & 2 by { assert East.Bit() == 2; }
    assert m & 4 == mask & 4 by { assert South.Bit() == 4; }
    assert m & 8 == mask & 8 by { assert West.Bit() == 8; }
  }

  /** std::vector::resize: the first elements are kept, and missing ones are value-initialized. */
  function Resized<T>(s: seq<T>, n: nat, filler: T): (r: seq<T>)
    ensures |r| == n
    ensures forall i :: 0 <= i < n ==> r[i] == if i < |s| then s[i] else filler
  {
    if n <= |s| then s[..n] else s + seq(n - |s|, _ => filler)
  }

  /** The grid the bitsets form after resizing it to `extent` rows and every row to `extent` cells. */
  function ResizedGrid(grid: seq<seq<OutPathBits>>, extent: nat): (r: seq<seq<OutPathBits>>)
    ensures |r| == extent
    ensures forall row :: 0 <= row < extent ==> |r[row]| == extent
    ensures forall row, column :: 0 <= row < extent && 0 <= column < extent ==>
              r[row][column] == if row < |grid| && column < |grid[row]| then grid[row][column] else {}
  {
    var r := seq(extent, row requires 0 <= row < extent => Resized(if row < |grid| then grid[row] else [], extent, {}));
    assert forall row :: 0 <= row < extent ==> r[row] == Resized(if row < |grid| then grid[row] else [], extent, {});
    r
  }

  /** Every row holds as many cells as there are rows. */
  predicate IsSquare(grid: seq<seq<OutPathBits>>) {
    forall row :: 0 <= row < |grid| ==> |grid[row]| == |grid|
  }

  /** `after` is `before` with the cell at `location` replaced by `bits`. */
  ghost predicate CellUpdated(before: seq<seq<OutPathBits>>, after: seq<seq<OutPathBits>>, location: Location, bits: OutPathBits) {
    |after| == |before| && (forall r :: 0 <= r < |before| ==> |after[r]| == |before[r]|) &&
    forall r, c :: 0 <= r < |before| && 0 <= c < |before[r]| ==>
      after[r][c] == if r == location.row && c == location.column then bits else before[r][c]
  }

  /** The arguments of the addShiftLocation calls of one round at odd position `pos`, in order. */
  function RoundLocations(extent: nat, pos: int): seq<Location> {
    [Location(0, pos), Location(extent - 1, pos), Location(pos, 0), Location(pos, extent - 1)]
  }

  /** The shift-location list after addShiftLocation of each location, which appends only new ones. */
  function AddedNew(list: seq<Location>, locations: seq<Location>): seq<Location> {
    if locations == [] then list
    else
      var before := AddedNew(list, locations[..|locations| - 1]);
      var l := locations[|locations| - 1];
      if l in before then before else before + [l]
  }

  /** Adding keeps the list free of duplicates, and the list then holds the old and the added locations. */
  lemma {:induction false} AddedNewMembers(list: seq<Location>, locations: seq<Location>, q: Location)
    ensures NoDuplicates(list) ==> NoDuplicates(AddedNew(list, locations))
    ensures q in AddedNew(list, locations) <==> q in list || q in locations
  {
    if locations != [] {
      var init := locations[..|locations| - 1];
      var l := locations[|locations| - 1];
      assert locations == init + [l];
      AddedNewMembers(list, init, q);
      if NoDuplicates(list) {
        var before := AddedNew(list, init);
        forall q' | q' in before
          ensures q' != l || l in before
        {
        }
      }
    }
  }

  /** Adding one more location to the ones added already. */
  lemma AddedNewSnoc(list: seq<Location>, locations: seq<Location>, l: Location)
    ensures AddedNew(list, locations + [l]) == if l in AddedNew(list, locations) then AddedNew(list, locations) else AddedNew(list, locations) + [l]
  {
    assert (locations + [l])[..|locations|] == locations;
  }

  /** Locations that are all new and distinct are appended as they are. */
  lemma {:induction false} AddedNewAllNew(list: seq<Location>, locations: seq<Location>)
    requires NoDuplicates(locations)
    requires forall l :: l in locations ==> l !in list
    ensures AddedNew(list, locations) == list + locations
  {
    if locations != [] {
      var init := locations[..|locations| - 1];
      var l := locations[|locations| - 1];
      assert locations == init + [l];
      assert NoDuplicates(init);
      AddedNewAllNew(list, init);
      assert l !in init;
    }
  }

  /** The shift locations after the standard rounds at the odd positions below `pos`. */
  function ShiftLocationsBefore(extent: nat, pos: nat): seq<Location>
    decreases pos
  {
    if pos < 2 then [] else AddedNew(ShiftLocationsBefore(extent, pos - 2), RoundLocations(extent, pos - 2))
  }

  /** The first odd number not below `extent`: where the loop over odd positions stops. */
  function RoundsEnd(extent: nat): nat {
    if extent % 2 == 1 then extent else extent + 1
  }

  /** The shift locations withStandardShiftLocations asks for. */
  function StandardShiftLocations(extent: nat): seq<Location> {
    ShiftLocationsBefore(extent, RoundsEnd(extent))
  }

  /** `l` is one of the four locations of the round at `p`. */
  predicate StandardAt(l: Location, extent: nat, p: int) {
    l == Location(0, p) || l == Location(extent - 1, p) || l == Location(p, 0) || l == Location(p, extent - 1)
  }

  lemma {:induction false} ShiftLocationsBeforeMembers(extent: nat, pos: nat, l: Location)
    requires pos % 2 == 1
    ensures NoDuplicates(ShiftLocationsBefore(extent, pos))
    ensures l in ShiftLocationsBefore(extent, pos) <==> exists p :: 0 < p < pos && p % 2 == 1 && StandardAt(l, extent, p)
    decreases pos
  {
    if pos >= 2 {
      ShiftLocationsBeforeMembers(extent, pos - 2, l);
      var p := pos - 2;
      AddedNewMembers(ShiftLocationsBefore(extent, p), RoundLocations(extent, p), l);
      if StandardAt(l, extent, p) {
        assert l in RoundLocations(extent, p);
      }
      if l in RoundLocations(extent, p) {
        assert StandardAt(l, extent, p);
      }
    }
  }

  /**
   * The standard shift locations are the cells (0, p), (extent - 1, p), (p, 0) and (p, extent - 1)
   * for the odd positions p below the extent, each listed once.
   */
  lemma StandardShiftLocationsMembers(extent: nat, l: Location)
    ensures NoDuplicates(StandardShiftLocations(extent))
    ensures l in StandardShiftLocations(extent) <==> exists p :: 0 < p < extent && p % 2 == 1 && StandardAt(l, extent, p)
  {
    ShiftLocationsBeforeMembers(extent, RoundsEnd(extent), l);
    if l in StandardShiftLocations(extent) {
      var p :| 0 < p < RoundsEnd(extent) && p % 2 == 1 && StandardAt(l, extent, p);
      assert p < extent;
    }
  }

  /** On an odd extent every round adds four new locations: the odd positions never meet the even borders. */
  lemma {:induction false} ShiftLocationsBeforeCount(extent: nat, pos: nat)
    requires extent % 2 == 1 && pos % 2 == 1 && pos <= extent
    ensures |ShiftLocationsBefore(extent, pos)| == 2 * (pos - 1)
    decreases pos
  {
    if pos >= 2 {
      var p := pos - 2;
      var before := ShiftLocationsBefore(extent, p);
      var round := RoundLocations(extent, p);
      ShiftLocationsBeforeCount(extent, p);
      forall l | l in round
        ensures l !in before
      {
        ShiftLocationsBeforeMembers(extent, p, l);
      }
      AddedNewAllNew(before, round);
    }
  }

  /** An odd extent has 2 * (extent - 1) standard shift locations; the standard 7 x 7 board has 12. */
  lemma StandardShiftLocationsCount(extent: nat)
    requires extent % 2 == 1
    ensures |StandardShiftLocations(extent)| == 2 * (extent - 1)
    ensures extent == 7 ==> |StandardShiftLocations(extent)| == 12
  {
    ShiftLocationsBeforeCount(extent, extent);
  }

  /**
   * A GraphBuilder: the bitset of every cell, the leftover's bitset, and whether the standard shift
   * locations are to be added.
   */
  class GraphBuilder {
    var outPaths: seq<seq<OutPathBits>>
    var leftoverOutPaths: OutPathBits
    var standardShiftLocations: bool

    /** A default-constructed builder has no cells, an empty leftover bitset and no shift locations. */
    constructor ()
      ensures outPaths == [] && leftoverOutPaths == {} && !standardShiftLocations
    {
      outPaths := [];
      leftoverOutPaths := {};
      standardShiftLocations := false;
    }

    /** The bitsets form a square: as many cells in every row as there are rows. */
    predicate Square()
      reads this
    {
      IsSquare(outPaths)
    }

    /** addOutPath(location, out_path): only that position of that cell's bitset becomes set. */
    method AddOutPath(location: Location, outPath: OutPath)
      requires 0 <= location.row < |outPaths| && 0 <= location.column < |outPaths[location.row]|
      modifies this
      ensures leftoverOutPaths == old(leftoverOutPaths) && standardShiftLocations == old(standardShiftLocations)
      ensures CellUpdated(old(outPaths), outPaths, location, AddOutPathTo(old(outPaths)[location.row][location.column], outPath))
    {
      var row := outPaths[location.row];
      outPaths := outPaths[location.row := row[location.column := AddOutPathTo(row[location.column], outPath)]];
    }

    /** addOutPaths(location, out_paths): addOutPath for each listed out path. */
    method AddOutPaths(location: Location, list: seq<OutPath>)
      requires 0 <= location.row < |outPaths| && 0 <= location.column < |outPaths[location.row]|
      modifies this
      ensures leftoverOutPaths == old(leftoverOutPaths) && standardShiftLocations == old(standardShiftLocations)
      ensures CellUpdated(old(outPaths), outPaths, location, AddOutPathsTo(old(outPaths)[location.row][location.column], list))
    {
      assert list[..0] == [];
      for k := 0 to |list|
        invariant leftoverOutPaths == old(leftoverOutPaths) && standardShiftLocations == old(standardShiftLocations)
        invariant CellUpdated(old(outPaths), outPaths, location, AddOutPathsTo(old(outPaths)[location.row][location.column], list[..k]))
      {
        assert list[..k + 1][..k] == list[..k];
        AddOutPath(location, list[k]);
      }
      assert list[..|list|] == list;
    }

    /** withStandardShiftLocations */
    method WithStandardShiftLocations() returns (self: GraphBuilder)
      modifies this
      ensures self == this && standardShiftLocations
      ensures outPaths == old(outPaths) && leftoverOutPaths == old(leftoverOutPaths)
    {
      standardShiftLocations := true;
      self := this;
    }

    /** withLeftoverOutPaths(out_paths): addOutPath on the leftover's bitset for each listed out path. */
    method WithLeftoverOutPaths(list: seq<OutPath>) returns (self: GraphBuilder)
      modifies this
      ensures self == this && leftoverOutPaths == AddOutPathsTo(old(leftoverOutPaths), list)
      ensures outPaths == old(outPaths) && standardShiftLocations == old(standardShiftLocations)
    {
      for k := 0 to |list|
        invariant leftoverOutPaths == AddOutPathsTo(old(leftoverOutPaths), list[..k])
        invariant outPaths == old(outPaths) && standardShiftLocations == old(standardShiftLocations)
      {
        assert list[..k + 1][..k] == list[..k];
        leftoverOutPaths := AddOutPathTo(leftoverOutPaths, list[k]);
      }
      assert list[..|list|] == list;
      self := this;
    }

    /** outPathsForMazeGraph: the mask of a bitset, accumulated position by position. */
    static method OutPathsForMazeGraph(bits: OutPathBits) returns (mask: bv8)
      ensures mask == MaskOf(bits)
    {
      var order := [North, East, South, West];
      var accumulated: bv8 := 0;
      for k := 0 to 4
        invariant forall d: OutPath :: accumulated & d.Bit() != 0 <==> d in bits && d.Index() < k
        invariant accumulated & 0xF0 == 0
      {
        var outPath := order[k];
        assert outPath.Index() == k;
        if outPath in bits {
          accumulated := accumulated + (1 as bv8 << k);
        }
      }
      mask := accumulated;
      assert mask & 1 == MaskOf(bits) & 1 by { assert North.Bit() == 1; }
      assert mask & 2 == MaskOf(bits) & 2 by { assert East.Bit() == 2; }
      assert mask & 4 == MaskOf(bits) & 4 by { assert South.Bit() == 4; }
      assert mask & 8 == MaskOf(bits) & 8 by { assert West.Bit() == 8; }
    }

    /**
     * constructGraph: a graph of extent `|outPaths|` whose nodes carry the masks of the cells'
     * bitsets, whose leftover carries the leftover's mask, and which has the standard shift
     * locations if they were asked for and none otherwise.
     */
    method ConstructGraph() returns (graph: ExhMazeGraph.MazeGraph)
      requires Square()
      ensures fresh(graph) && fresh(graph.nodes)
      ensures Constructed(graph, outPaths, leftoverOutPaths, standardShiftLocations)
    {
      var extent := |outPaths|;
      graph := new ExhMazeGraph.MazeGraph(extent);
      FillCells(graph, outPaths);
      var leftoverMask := OutPathsForMazeGraph(leftoverOutPaths);
      graph.SetLeftoverOutPaths(leftoverMask);
      if standardShiftLocations {
        AddStandardShiftLocations(graph, outPaths);
      }
    }
  }

  /** The nested loops of constructGraph: every cell's node gets the mask of the cell's bitset. */
  method FillCells(graph: ExhMazeGraph.MazeGraph, outPaths: seq<seq<OutPathBits>>)
    requires graph.Valid() && graph.extent == |outPaths| && IsSquare(outPaths)
    requires CellsFilled(graph, outPaths, 0, 0)
    modifies graph.nodes
    ensures graph.Valid() && CellsFilled(graph, outPaths, |outPaths|, 0)
  {
    var extent := |outPaths|;
    for row := 0 to extent
      invariant graph.Valid() && CellsFilled(graph, outPaths, row, 0)
    {
      for column := 0 to extent
        invariant graph.Valid() && CellsFilled(graph, outPaths, row, column)
      {
        var mask := GraphBuilder.OutPathsForMazeGraph(outPaths[row][column]);
        graph.SetOutPaths(Location(row, column), mask);
      }
    }
  }

  /** The loop over odd positions of constructGraph, adding four shift locations per position. */
  method AddStandardShiftLocations(graph: ExhMazeGraph.MazeGraph, outPaths: seq<seq<OutPathBits>>)
    requires graph.Valid() && graph.extent == |outPaths| && graph.shiftLocations == []
    modifies graph
    ensures graph.Valid() && graph.leftover == old(graph.leftover)
    ensures graph.shiftLocations == StandardShiftLocations(|outPaths|)
  {
    var extent := |outPaths|;
    var pos := 1;
    while pos < extent
      invariant pos % 2 == 1 && pos <= RoundsEnd(extent)
      invariant graph.Valid() && graph.leftover == old(graph.leftover)
      invariant graph.shiftLocations == ShiftLocationsBefore(extent, pos)
    {
      AddRound(graph, pos);
      pos := pos + 2;
    }
  }

  /** One round: the shift locations at `pos` on the four sides, each added unless already present. */
  method AddRound(graph: ExhMazeGraph.MazeGraph, pos: int)
    requires graph.Valid()
    modifies graph
    ensures graph.Valid() && graph.leftover == old(graph.leftover)
    ensures graph.shiftLocations == AddedNew(old(graph.shiftLocations), RoundLocations(graph.extent, pos))
  {
    var round := RoundLocations(graph.extent, pos);
    ghost var list := graph.shiftLocations;
    graph.AddShiftLocation(Location(0, pos));
    AddedNewSnoc(list, [], round[0]);
    graph.AddShiftLocation(Location(graph.extent - 1, pos));
    AddedNewSnoc(list, round[..1], round[1]);
    assert round[..1] + [round[1]] == round[..2];
    graph.AddShiftLocation(Location(pos, 0));
    AddedNewSnoc(list, round[..2], round[2]);
    assert round[..2] + [round[2]] == round[..3];
    graph.AddShiftLocation(Location(pos, graph.extent - 1));
    AddedNewSnoc(list, round[..3], round[3]);
    assert round[..3] + [round[3]] == round;
  }

  /** The cells before (row, column) in row-major order hold their masks, the others are as MazeGraph(extent) left them. */
  ghost predicate CellsFilled(graph: ExhMazeGraph.MazeGraph, outPaths: seq<seq<OutPathBits>>, row: int, column: int)
    reads graph, graph.nodes
  {
    graph.Square() && |outPaths| == graph.extent && IsSquare(outPaths) &&
    forall r, c {:trigger graph.nodes[r, c]} :: 0 <= r < graph.extent && 0 <= c < graph.extent ==>
      graph.nodes[r, c] == Node(RowMajor(Location(r, c), graph.extent),
                                if r < row || (r == row && c < column) then MaskOf(outPaths[r][c]) else 0, 0)
  }

  /** What constructGraph makes of the builder's bitsets and flag. */
  ghost predicate Constructed(graph: ExhMazeGraph.MazeGraph, outPaths: seq<seq<OutPathBits>>, leftoverOutPaths: OutPathBits,
                              standardShiftLocations: bool)
    reads graph, graph.nodes
  {
    graph.Valid() && graph.extent == |outPaths| &&
    CellsFilled(graph, outPaths, |outPaths|, 0) &&
    graph.leftover == Node(|outPaths| * |outPaths|, MaskOf(leftoverOutPaths), 0) &&
    graph.shiftLocations == if standardShiftLocations then StandardShiftLocations(|outPaths|) else []
  }
}
