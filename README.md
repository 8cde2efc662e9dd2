# Labyrinth game logic, modelled and verified in Dafny

Labyrinth is a board game played on a 7 x 7 grid of rotatable maze cards. On each turn a player
pushes the spare card (the *leftover*) into a row or column from the border, which pushes the card
at the far end of that line out. The player then moves their piece along connected paths. The
repository implements this logic three times, and this project models each copy:

- **Python backend model.** `backend/server/model/game.py` defines the maze cards, the maze, the
  board with its pieces, the turn order and the game. `backend/server/model/maze_algorithm.py`
  searches for the reachable locations.
- **C++ solver libraries.** They contain two maze graphs, one in `algolibs/libexhsearch` (rotation
  in degrees) and one in `algolibs/solvers` (rotation in quarter turns). Two searches are built on
  the solver graph: an exhaustive breadth-first search over shift sequences and a negamax search
  with iterative deepening. In both graphs the doors are a 4-bit mask.
- **C++ graph builders.** One turns out-path bitsets into a libexhsearch maze graph; the other
  reads a maze drawn as text.
- **Web client.** The `Player` of `web-client/src/model/player.js` holds a turn action and
  computes a label.

| Dafny file | module | models |
|---|---|---|
| common.dfy | Common | `Option` and `Result`, shared by every module |
| backend_cards.dfy | ModelExceptions, MazeCards | the exceptions of game.py as error values; `BoardLocation`, the directions, `MazeCard` |
| backend_maze.dfy | Mazes | `Maze`: a class over a 7 x 7 array of cards |
| backend_board.dfy | Boards | `Piece` and `Board`: leftover, pieces, shift, move, objective drawing |
| backend_turns.dfy | TurnOrder | `PlayerAction` and `Turns` |
| backend_game.dfy | Games | `Game`, together with the effects of `Player.set_board` and `register_in_turns` |
| backend_reachability.dfy | MazeAlgorithm | `Graph` of maze_algorithm.py: neighbours and breadth-first reachability |
| graph_basics.dfy | GraphBasics | locations, offsets, out-path bits, nodes, node grids and the line geometry both C++ graphs share |
| exh_maze_graph.dfy | ExhMazeGraph | `MazeGraph` of algolibs/libexhsearch/maze_graph.cpp, with its neighbour iterator |
| solver_maze_graph.dfy | SolverMazeGraph | `MazeGraph` of algolibs/solvers/maze_graph.cpp, the opposing/translate geometry and `combineOutPaths` |
| minimax.dfy | Minimax | `Evaluation`, `determineMaxRotation` and `ChildIterator` of minimax.cpp |
| minimax_search.dfy | MinimaxSearch | `MinimaxRunner`, `IterativeDeepening` and `findBestAction` of minimax.cpp |
| exhsearch.dfy | ExhSearch | the breadth-first search of exhsearch.cpp |
| graph_builder.dfy | GraphBuilders | `GraphBuilder` of graph_builder.cpp |
| text_graph_builder.dfy | TextGraphBuilders | `TextGraphBuilder` of text_graph_builder.cpp |
| web_player.dfy | WebPlayer | `Player` of player.js |

Where the source updates state in place, the model does too. The maze and both node matrices are
two-dimensional arrays. The board, pieces, turns, game, graph builders, child iterator, minimax
runner and web player are classes whose methods modify their fields. Each method states its new
state through a value-level function of the old state (`Maze.Cards()`, `MazeGraph.Grid()`,
`ChildIterator.Remaining()`). The source's promises are then proved about those functions as
lemmas: shift round trips, the symmetry of neighbourhood and reachability, that the breadth-first
search is exactly the reach set, that negamax computes a maximum, that the child iterator visits
exactly the children, and that the actions the exhaustive search returns form a solution. Such a
solution uses allowed shifts and avoids opposing ones. Each move goes to a location that
multi-source reachability reports, after its shift, from where the previous move ended, and the
last move ends on the objective. Reachability itself is a parameter of that search.

Alias-sensitive identity is kept by identifier. A piece refers to the identifier of its card, and
`MazeCard.__eq__` compares identifiers only. The searches refer to states by index into an arena of
states, in place of `shared_ptr`.

## Model

| member | source | states |
|---|---|---|
| MazeCards.BoardLocation.Add | backend/server/model/game.py:32-34 | the result differs from the location by exactly the given row and column deltas |
| MazeCards.Direction.DoorIndex | backend/server/model/game.py:97-109 | a direction's index points at its own door letter in "NESW" |
| MazeCards.Direction.Mirror | backend/server/model/maze_algorithm.py:46-47 | the mirrored direction has the negated row and column deltas and is never the direction itself |
| MazeCards.Direction.Clockwise | backend/server/model/game.py:97-109 | the next direction clockwise has the next door index modulo 4 |
| MazeCards.DirectionAt | backend/server/model/game.py:105-108 | the direction found at index i of "NESW" has door index i |
| MazeCards.SetRotation | backend/server/model/game.py:85-90 | fails with InvalidRotation exactly when the value is not a multiple of 90; otherwise keeps identifier and doors and stores a multiple of 90 in [0, 360) that is congruent to the value modulo 360 |
| MazeCards.NormalizedRotation | backend/server/model/game.py:88-90 | for a multiple of 90, value % 360 is a multiple of 90 and congruent to the value |
| MazeCards.OutPaths | backend/server/model/game.py:111-117 | holds exactly the directions with an out path, in strictly increasing N, E, S, W order |
| MazeCards.OutPathsFrom | backend/server/model/game.py:111-117 | the directions from index i on, with an out path, in increasing order |
| MazeCards.HasOutPath | backend/server/model/game.py:97-109 | only a card with doors has an out path; OutPaths lists exactly the directions for which it holds, and SetRotationKeepsRequestedOutPaths that a set rotation keeps every requested one |
| MazeCards.UnrotatedOutPaths | backend/server/model/game.py:97-109 | below 90 degrees a card has an out path exactly where one of its door letters is |
| MazeCards.QuarterTurnMovesOutPaths | backend/server/model/game.py:97-109 | adding 90 degrees moves every out path one direction clockwise |
| MazeCards.TurnsShift | backend/server/model/game.py:106 | adding k quarter turns to the rotation adds k to the card's quarter-turn count |
| MazeCards.FullTurnKeepsOutPaths | backend/server/model/game.py:97-109 | adding 360 degrees changes no out path |
| MazeCards.SetRotationKeepsRequestedOutPaths | backend/server/model/game.py:85-109 | for a multiple of 90 the update succeeds, and the stored card has the same out paths as the requested rotation |
| Mazes.Update | backend/server/model/game.py:188-196 | the updated grid holds the card at the location and the old card everywhere else |
| Mazes.IsInside | backend/server/model/game.py:268-274 | no contract of its own: InsideLocations states that the locations inside are exactly the MAZE_SIZE x MAZE_SIZE cells |
| Mazes.InsideLocations | backend/server/model/game.py:276-281 | holds exactly the locations inside the 7 x 7 maze |
| Mazes.InsertLocationSet | backend/server/model/game.py:169-176 | holds exactly the insert locations: one coordinate 0 or 6, the other 1, 3 or 5 |
| Mazes.ShiftDirection | backend/server/model/game.py:234-251 | fails with InvalidShiftLocation exactly when the location is on no border row or column |
| Mazes.Neighbor | backend/server/model/game.py:253-266 | a neighbour exists exactly when the step in that direction stays inside, and then it is that step |
| Mazes.Walk | backend/server/model/game.py:218-223 | the line from a location to the border: each element is the k-th step and inside the maze |
| Mazes.WalkDistinct | backend/server/model/game.py:218-223 | a line never holds a location twice |
| Mazes.NeighborAlong | backend/server/model/game.py:219-223 | the neighbour of the k-th location of a line is the (k+1)-th, and none exists after the last |
| Mazes.FarEnd | backend/server/model/game.py:218-224 | the pushed-out location lies on a border whose shift direction is the mirror of the insert location's |
| Mazes.ShiftedGrid | backend/server/model/game.py:218-232 | after a shift every cell holds the card ShiftedCell assigns: the predecessor on the line, the inserted card at the insert location, the old card off the line |
| Mazes.FarEndReverses | backend/server/model/game.py:234-251 | the far end of the far end is the insert location itself |
| Mazes.FarEndIsInsertLocation | backend/server/model/game.py:169-176 | the far end of an insert location is an insert location |
| Mazes.RoundTripCell | backend/server/model/game.py:206-227 | a shift followed by pushing the ejected card back in at the far end restores each single cell |
| Mazes.ShiftRoundTrip | backend/server/model/game.py:206-227 | that round trip restores the whole maze and ejects the card inserted first |
| Mazes.ShiftKeepsCards | backend/server/model/game.py:224-232 | every card except the pushed-out one is still in the maze, one step along the line when it was on it |
| Mazes.ShiftOrigin | backend/server/model/game.py:224-232 | each cell's new card comes from an inside location other than the far end, or is the inserted card |
| Mazes.ShiftOriginInjective | backend/server/model/game.py:229-232 | distinct cells draw their cards from distinct origins |
| Mazes.ShiftedCellFromOrigin | backend/server/model/game.py:224-232 | the shifted grid holds the origin's card, or the inserted card when there is no origin |
| Mazes.Maze.Cards | backend/server/model/game.py:163-176 | the array read as a grid value, cell by cell |
| Mazes.Maze.constructor | backend/server/model/game.py:169-176 | a maze holding the given cards, with the insert locations collected |
| Mazes.Maze.Get | backend/server/model/game.py:178-186 | InvalidLocation outside the maze, else the card at the location |
| Mazes.Maze.Set | backend/server/model/game.py:188-196 | InvalidLocation outside the maze with nothing changed, else only the addressed cell changes |
| Mazes.Maze.MazeCardLocation | backend/server/model/game.py:198-204 | None exactly when no cell has the identifier, else the first such location in row-major order |
| Mazes.Maze.ShiftAll | backend/server/model/game.py:229-232 | each card of the line moves to the next location of the line, and every other cell and the line's start keep their cards |
| Mazes.Maze.Shift | backend/server/model/game.py:206-227 | InvalidLocation outside and InvalidShiftLocation off the insert locations, both with nothing changed; success exactly at an insert location, returning the far-end card and leaving the shifted grid |
| Mazes.Maze.ShiftBorder | backend/server/model/game.py:218-227 | at a border location, returns the far-end card and leaves the shifted grid |
| Mazes.ShiftLine | backend/server/model/game.py:218-223 | the collected line is the walk from the insert location in the shift direction |
| Mazes.ShiftedFromLine | backend/server/model/game.py:224-227 | moving the line forward and then writing the inserted card at its start yields the shifted grid |
| Mazes.LineIndex | backend/server/model/game.py:218-223 | a location on the line is its k-th step, for some k below 7 |
| Boards.StartLocation | backend/server/model/game.py:329-330 | the n-th piece starts at the (n mod 4)-th corner, and that corner is inside the maze |
| Boards.Piece.HasReachedObjective | backend/server/model/game.py:158-160 | a piece without an objective has never reached it, since its card is compared with None |
| Boards.MovedOntoObjective | backend/server/model/game.py:158-160 | a piece moved onto a card has reached its objective exactly when that card is its objective |
| Boards.GridIdentifiers | backend/server/model/game.py:367-368 | the identifier of every card of the grid is in the set |
| Boards.GridIdentifierLocation | backend/server/model/game.py:367-368 | every identifier of the set belongs to a card at some inside location |
| Boards.OccupiedMembers | backend/server/model/game.py:369-371 | an identifier is occupied exactly when some piece stands on it or has it as objective |
| Boards.OccupiedBound | backend/server/model/game.py:369-371 | the pieces occupy at most twice as many cards as there are pieces |
| Boards.PoolNonEmpty | backend/server/model/game.py:362-372 | with distinct cards and at most four pieces the unoccupied pool is never empty, so `choice` does not raise |
| Boards.NineCards | backend/server/model/game.py:367-368 | the board holds at least nine distinct card identifiers |
| Boards.PiecesOnGridAppend | backend/server/model/game.py:331-332 | appending a piece that stands on a grid card keeps every piece on the grid |
| Boards.PiecesOnGridUpdate | backend/server/model/game.py:350-351 | moving a piece onto a grid card keeps every piece on the grid |
| Boards.Rehomed | backend/server/model/game.py:341-342 | the same number of pieces with the same objectives, where exactly the pieces on the pushed-out card now stand on the inserted one |
| Boards.ShiftKeepsDistinct | backend/server/model/game.py:336-342 | after a shift the cells and the new leftover still carry distinct identifiers |
| Boards.ShiftKeepsPiecesOnGrid | backend/server/model/game.py:336-342 | after a shift and the re-homing every piece stands on a grid card, none on the new leftover |
| Boards.CardLocationUnique | backend/server/model/game.py:198-204 | the location of a card is the only location holding its identifier |
| Boards.SameCardSameLocation | backend/server/model/game.py:355-360 | two locations holding the same card are one location |
| Boards.PiecesOffLeftover | backend/server/model/game.py:336-342 | no piece stands on the leftover |
| Boards.Board.constructor | backend/server/model/game.py:294-306 | a board on the maze and leftover without pieces |
| Boards.Board.ClearPieces | backend/server/model/game.py:323-325 | no pieces afterwards, and the leftover is unchanged |
| Boards.Board.RandomUnoccupiedMazeCard | backend/server/model/game.py:362-372 | IndexError exactly when the pool is empty, else a card of the board or the leftover on which no piece stands and which no piece has as objective |
| Boards.Board.CreatePiece | backend/server/model/game.py:327-334 | the new piece is appended on the card at the next start location and draws its objective from a pool that already excludes its own card; IndexError exactly when that pool is empty, which cannot happen with fewer than four pieces before |
| Boards.Board.DrawObjective | backend/server/model/game.py:333 | the piece's objective becomes a member of the pool; with an empty pool IndexError and nothing changes |
| Boards.Board.Shift | backend/server/model/game.py:336-342 | InvalidRotation changes nothing; a rejected location keeps the leftover's new rotation; on success the maze is shifted, the pushed-out card is the leftover and the pieces on it move to the inserted card |
| Boards.Board.MovePiecesOnto | backend/server/model/game.py:341-342 | the pieces become the re-homed pieces |
| Boards.Board.Move | backend/server/model/game.py:344-353 | InvalidLocation outside and MoveUnreachable when not connected, both with the piece unchanged; otherwise the piece stands on the target card and draws a new objective exactly when it reached its objective, which cannot raise with at most four pieces |
| Boards.Board.MoveOnto | backend/server/model/game.py:351-353 | the piece stands on the card and redraws its objective exactly when it reached it |
| TurnOrder.Registered | backend/server/model/game.py:465-473 | one identifier per pair of entries, namely the player of the pair's SHIFT entry |
| TurnOrder.PlayerAction.Matches | backend/server/model/game.py:436-439 | two entries are equal exactly when they agree once their callbacks are set aside, so only the player identifier and the action count |
| TurnOrder.RegisteredMembers | backend/server/model/game.py:467-470 | a player occurs in some entry exactly when it is registered |
| TurnOrder.Turns.constructor | backend/server/model/game.py:456-463 | no entries, index 0 and no callbacks fired |
| TurnOrder.Turns.AddPlayer | backend/server/model/game.py:465-473 | a present player changes nothing; a new player gets a SHIFT entry and then a MOVE entry at the end |
| TurnOrder.Turns.Start | backend/server/model/game.py:475-480 | the index becomes 0; IndexError exactly when there are no entries; otherwise the first entry's callback is called if it has one |
| TurnOrder.Turns.NextPlayerAction | backend/server/model/game.py:508-515 | None exactly when there are no entries, else the entry at the index |
| TurnOrder.Turns.IsActionPossible | backend/server/model/game.py:482-489 | possible exactly when there are entries and the entry at the index has this player and this action, whatever its callback |
| TurnOrder.Turns.PerformAction | backend/server/model/game.py:491-506 | TurnActionViolation with nothing changed unless the action is the current entry's; otherwise the index moves on cyclically, the callback fires only for another player, a SHIFT is followed by the same player's MOVE and a MOVE by a SHIFT |
| TurnOrder.AppendKeepsPaired | backend/server/model/game.py:471-473 | appending a new player's two entries keeps the entries paired and registers the player last |
| TurnOrder.EvenEntryIsShift | backend/server/model/game.py:471-472 | every even entry is a SHIFT |
| TurnOrder.CyclicSuccessor | backend/server/model/game.py:503 | `(k + 1) % n` is the cyclic successor of an index |
| TurnOrder.ActionsAlternate | backend/server/model/game.py:503-504 | a SHIFT entry is followed by the same player's MOVE entry, and a MOVE entry by a SHIFT entry |
| Games.InOrderMembers | backend/server/model/game.py:564-568 | with players registered in join order, exactly the identifiers below the player count are registered |
| Games.InOrderRegistered | backend/server/model/game.py:574-576 | registering players 0..n-1 in order gives exactly that list |
| Games.StartedPiecesAppend | backend/server/model/game.py:573-576 | a piece on the next start card with an objective extends a properly started list of pieces |
| Games.Game.constructor | backend/server/model/game.py:522-535 | no players and an empty turn order on the given board |
| Games.Game.AddPlayer | backend/server/model/game.py:557-569 | GameFull exactly when four players exist, with nothing changed; otherwise the new identifier is the old player count and is appended |
| Games.Game.GetPlayer | backend/server/model/game.py:603-613 | PlayerNotFound exactly when no player has the identifier, else that player's index, which equals its identifier |
| Games.Game.StartGame | backend/server/model/game.py:571-577 | maze and leftover unchanged; one piece per player on its start corner; every player registered once in order; index 0; IndexError exactly when there are no players |
| Games.Game.SetBoard | backend/server/model/game.py:394-397 | one more piece on the board, placed as start_game requires; maze and leftover unchanged |
| Games.Game.RegisterInTurns | backend/server/model/game.py:399-401 | the player is registered without callback, keeping join order, the index and the fired callbacks |
| Games.Game.Shift | backend/server/model/game.py:579-590 | an unknown player raises PlayerNotFound and an out-of-turn shift TurnActionViolation, both with nothing changed; otherwise the board shifts as Board.shift does, and the turn advances to the player's MOVE only when the board accepted the shift |
| Games.Game.Move | backend/server/model/game.py:592-601 | an unknown player raises PlayerNotFound and an out-of-turn move TurnActionViolation, both with nothing changed; otherwise the piece moves as Board.move does, and the turn advances to a SHIFT only when the board accepted the move |
| MazeAlgorithm.NeighborsTowardMembers | backend/server/model/maze_algorithm.py:48-54 | a location is yielded for the listed directions exactly when it is the inside step whose card has the mirrored out path |
| MazeAlgorithm.NeighborsAreAdjacent | backend/server/model/maze_algorithm.py:43-54 | `_neighbors` yields exactly the adjacent locations: inside, through an out path, answered by the mirrored one |
| MazeAlgorithm.NeighborIsAdjacent | backend/server/model/maze_algorithm.py:43-54 | every yielded location is adjacent |
| MazeAlgorithm.AdjacentSymmetric | backend/server/model/maze_algorithm.py:43-54 | adjacency is symmetric |
| MazeAlgorithm.ReachableSymmetric | backend/server/model/maze_algorithm.py:15-25 | reachability is symmetric |
| MazeAlgorithm.ReachableStep | backend/server/model/maze_algorithm.py:35-40 | a reachable location's neighbour is reachable |
| MazeAlgorithm.PathExtend | backend/server/model/maze_algorithm.py:35-40 | a chain of neighbours extended by a neighbour is a chain with the same start |
| MazeAlgorithm.ReachSet | backend/server/model/maze_algorithm.py:27-41 | the set of exactly the locations reachable from the source |
| MazeAlgorithm.ReachableInside | backend/server/model/maze_algorithm.py:50-54 | every reachable location is inside the maze |
| MazeAlgorithm.ReachSetClosed | backend/server/model/maze_algorithm.py:33-40 | the reach set holds an inside source and every neighbour of its members |
| MazeAlgorithm.ClosedHoldsReachable | backend/server/model/maze_algorithm.py:35-40 | a set that holds the source and is closed under adjacency holds the end of every chain from the source |
| MazeAlgorithm.SearchStep | backend/server/model/maze_algorithm.py:35-40 | one round of the loop keeps closure outside the queue and shrinks what is left to reach, or the queue |
| MazeAlgorithm.ClosedIsReachSet | backend/server/model/maze_algorithm.py:35-41 | a set of reachable locations that holds the source and is closed under adjacency is the reach set |
| MazeAlgorithm.Graph.constructor | backend/server/model/maze_algorithm.py:12-13 | the graph reads the given maze |
| MazeAlgorithm.Graph.ReachableLocations | backend/server/model/maze_algorithm.py:27-41 | InvalidLocation exactly for an outside source; otherwise the source is in the result, which is exactly the set of locations reachable from it and is closed under adjacency |
| MazeAlgorithm.Graph.Explore | backend/server/model/maze_algorithm.py:33-41 | the search loop ends with a set that holds the source and is closed under adjacency |
| MazeAlgorithm.Graph.VisitNeighbors | backend/server/model/maze_algorithm.py:37-40 | every neighbour not yet reached is marked as reached and appended to the queue, each once |
| MazeAlgorithm.Graph.AdjacentLocations | backend/server/model/maze_algorithm.py:43-54 | the yielded locations are exactly the adjacent ones |
| MazeAlgorithm.Graph.IsReachable | backend/server/model/maze_algorithm.py:15-25 | InvalidLocation exactly for an outside source; otherwise true exactly when the target is reachable, and always for the source itself |
| GraphBasics.OutPath.Turned | algolibs/libexhsearch/maze_graph.cpp:10-17 | the out path k quarter turns on has its index advanced by k modulo 4 |
| GraphBasics.OutPathAt | algolibs/libexhsearch/maze_graph.cpp:208-220 | the out path at position i has index i |
| GraphBasics.IndexDetermines | algolibs/libexhsearch/maze_graph.cpp:208-220 | an out path is determined by its index |
| GraphBasics.OffsetFromOutPath | algolibs/libexhsearch/maze_graph.cpp:23-36 | each single out-path bit has the step of its direction |
| GraphBasics.ShiftOffset | algolibs/solvers/maze_graph.cpp:213-225 | no contract of its own: OpposingLine proves that opposite shift locations get reversed offsets, TranslateStill that a location without offset translates nothing, and ShiftDefinedExceptCorners where the offset makes the shift defined |
| GraphBasics.ShiftedGrid | algolibs/libexhsearch/maze_graph.cpp:123-152 | after a shift every location holds the node ShiftedNode assigns: its predecessor behind the insert location, the inserted node at it, the old node elsewhere |
| GraphBasics.SetAt | algolibs/solvers/minimax.cpp:96-98 | a write to one slot: the new node there, the old nodes elsewhere |
| GraphBasics.ReplaceInserted | algolibs/solvers/minimax.cpp:96-98 | overwriting the inserted node of a shifted grid is the shift with the new node |
| GraphBasics.BehindHasPredecessor | algolibs/libexhsearch/maze_graph.cpp:146-148 | a location behind the insert location has its predecessor inside the grid |
| GraphBasics.AlongInside | algolibs/libexhsearch/maze_graph.cpp:138-144 | every location of a shift line lies inside the grid |
| GraphBasics.BehindOnLine | algolibs/libexhsearch/maze_graph.cpp:138-148 | a location behind the insert location is the line's k-th element for some k of at least 1 |
| GraphBasics.LineBehind | algolibs/libexhsearch/maze_graph.cpp:138-148 | the k-th element of a moving line is behind the insert location, and its predecessor is the (k-1)-th element |
| GraphBasics.LineStill | algolibs/libexhsearch/maze_graph.cpp:124-137 | with offset (0, 0) the whole line is the insert location |
| GraphBasics.CopyStep | algolibs/libexhsearch/maze_graph.cpp:146-148 | one copy step gives line element t its predecessor's node and changes no other location |
| GraphBasics.CopiedEnds | algolibs/libexhsearch/maze_graph.cpp:146-148 | before the copy loop nothing is copied; after it the line behind the insert location is shifted |
| GraphBasics.RowMajorDistinct | algolibs/libexhsearch/maze_graph.cpp:40-49 | row-major indices of inside locations are below extent squared and differ for distinct locations |
| GraphBasics.GridOf | algolibs/libexhsearch/maze_graph.cpp:154-160 | the node matrix read as a grid value, slot by slot |
| GraphBasics.GridsEqual | algolibs/libexhsearch/maze_graph.cpp:154-160 | grids that agree everywhere are equal |
| ExhMazeGraph.TruncDiv | algolibs/libexhsearch/maze_graph.cpp:12 | C++ division by a positive divisor, truncating toward zero |
| ExhMazeGraph.Quarters | algolibs/libexhsearch/maze_graph.cpp:12 | the quarter-turn count `(rotation / 90 + 4) % 4` is below 4 |
| ExhMazeGraph.RotateOutPaths | algolibs/libexhsearch/maze_graph.cpp:10-17 | the rotated mask uses only the four low bits |
| ExhMazeGraph.RotateBitsTurns | algolibs/libexhsearch/maze_graph.cpp:10-17 | rotating a mask by q quarter turns moves each out path q quarter turns clockwise, and adds none |
| ExhMazeGraph.RotateSingle | algolibs/libexhsearch/maze_graph.cpp:10-17 | a single out path rotated is the out path turned by the rotation's quarter turns |
| ExhMazeGraph.MirrorOutPath | algolibs/libexhsearch/maze_graph.cpp:19-21 | the result is a mask of the four out paths; MirrorOpposite: a single out path becomes the opposite one, and MirrorTwice: mirroring twice is the identity on such masks |
| ExhMazeGraph.HasOutPath | algolibs/libexhsearch/maze_graph.cpp:162-166 | only a node with a non-empty mask has an out path; HasOutPathRotatedMask: the same as finding the out path in the mask turned forward by the node's rotation |
| ExhMazeGraph.MirrorOpposite | algolibs/libexhsearch/maze_graph.cpp:19-21 | mirroring swaps N with S and E with W |
| ExhMazeGraph.MirrorTwice | algolibs/libexhsearch/maze_graph.cpp:19-21 | mirroring a mask twice is the identity |
| ExhMazeGraph.QuartersNegate | algolibs/libexhsearch/maze_graph.cpp:162-166 | a negated rotation turns by the complementary number of quarter turns |
| ExhMazeGraph.RotateBitsAdjoint | algolibs/libexhsearch/maze_graph.cpp:162-166 | looking an out path up turned back by q agrees with turning the mask forward by q |
| ExhMazeGraph.HasOutPathRotatedMask | algolibs/libexhsearch/maze_graph.cpp:162-166 | hasOutPath holds exactly when the node's mask, rotated by its rotation, has the out path |
| ExhMazeGraph.HighBitLeaksIntoRotation | algolibs/libexhsearch/maze_graph.cpp:10-17 | a bit above the four out paths turns into an East out path when rotated by 90 degrees |
| ExhMazeGraph.NeighborsFrom | algolibs/libexhsearch/maze_graph.cpp:208-225 | the iteration from out path i on yields at most 4 - i locations |
| ExhMazeGraph.NeighborsFromHead | algolibs/libexhsearch/maze_graph.cpp:208-220 | the iteration from a connecting out path starts with the location it leads to |
| ExhMazeGraph.NeighborsFromMembers | algolibs/libexhsearch/maze_graph.cpp:208-225 | the yielded locations are exactly those connected through an out path from index i on |
| ExhMazeGraph.NeighborViaSymmetric | algolibs/libexhsearch/maze_graph.cpp:222-225 | a connection through an out path is a connection back through the opposite one |
| ExhMazeGraph.NeighborsSymmetric | algolibs/libexhsearch/maze_graph.cpp:208-225 | if the iteration from l yields q, the iteration from q yields l |
| ExhMazeGraph.LineFrom | algolibs/libexhsearch/maze_graph.cpp:138-144 | the line holds `extent` locations, the k-th one k offsets from the start, all inside |
| ExhMazeGraph.MazeGraph.Grid | algolibs/libexhsearch/maze_graph.cpp:154-160 | the node matrix read as a grid value |
| ExhMazeGraph.MazeGraph.GetNumberOfNodes | algolibs/libexhsearch/maze_graph.cpp:115-117 | the count is the number of matrix slots; the leftover is not counted |
| ExhMazeGraph.MazeGraph.constructor | algolibs/libexhsearch/maze_graph.cpp:40-49 | identifiers 0 to extent squared minus 1 in row-major order, the leftover has extent squared, no out paths, no shift locations |
| ExhMazeGraph.MazeGraph.FromNodes | algolibs/libexhsearch/maze_graph.cpp:51-66 | the input fills the matrix in row-major order and the next input node is the leftover |
| ExhMazeGraph.MazeGraph.SetOutPaths | algolibs/libexhsearch/maze_graph.cpp:68-70 | only the addressed node changes, and only its out paths |
| ExhMazeGraph.MazeGraph.AddShiftLocation | algolibs/libexhsearch/maze_graph.cpp:72-76 | a location is appended only when absent, so the list keeps first-insertion order and has no duplicates |
| ExhMazeGraph.MazeGraph.SetLeftoverOutPaths | algolibs/libexhsearch/maze_graph.cpp:78-80 | only the leftover's out paths change |
| ExhMazeGraph.MazeGraph.HasOutPathAt | algolibs/libexhsearch/maze_graph.cpp:82-84 | exactly when the node at that location of the graph's grid has the out path |
| ExhMazeGraph.MazeGraph.GetNodeId | algolibs/libexhsearch/maze_graph.cpp:86-88 | the identifier of the node at that location of the graph's grid |
| ExhMazeGraph.MazeGraph.LeftoverHasOutPath | algolibs/libexhsearch/maze_graph.cpp:94-96 | the leftover node's out paths are looked up, not the matrix's: a leftover without out paths has none |
| ExhMazeGraph.MazeGraph.LeftoverRotatedMask | algolibs/libexhsearch/maze_graph.cpp:94-96 | for a well-formed leftover, it has an out path exactly when its mask turned by its rotation has it |
| ExhMazeGraph.MazeGraph.GetLocation | algolibs/libexhsearch/maze_graph.cpp:98-109 | the first row-major location holding the identifier, or the given leftover location when no node has it |
| ExhMazeGraph.MazeGraph.Shift | algolibs/libexhsearch/maze_graph.cpp:123-152 | the matrix becomes the shifted grid with the old leftover at the given rotation inserted, and the leftover becomes the old far-end node; at a location away from the border this swaps the leftover with that node |
| ExhMazeGraph.MazeGraph.PlaceInserted | algolibs/libexhsearch/maze_graph.cpp:149-151 | writing the inserted node at the start of the copied line completes the shifted grid |
| ExhMazeGraph.MazeGraph.MoveLineOn | algolibs/libexhsearch/maze_graph.cpp:145-148 | the reverse copy loop gives every location behind the insert location its predecessor's node |
| ExhMazeGraph.MazeGraph.MoveToNextNeighbor | algolibs/libexhsearch/maze_graph.cpp:208-220 | stops at the first connecting out path from index i on, which heads the remaining iteration, or at the sentinel when none is left |
| ExhMazeGraph.MazeGraph.IsNeighbor | algolibs/libexhsearch/maze_graph.cpp:222-225 | a neighbour along an out path lies inside the grid; NeighborViaSymmetric: a connection along an out path the node has is also a connection back along the opposite one |
| ExhMazeGraph.MazeGraph.Neighbors | algolibs/libexhsearch/maze_graph.cpp:111-113 | the full iteration yields the connected locations in N, E, S, W order |
| SolverMazeGraph.RotateOutPaths | algolibs/solvers/maze_graph.cpp:11-18 | the rotated mask uses only the four low bits |
| SolverMazeGraph.CombineOutPaths | algolibs/solvers/minimax.cpp:34-37 | the combined mask has exactly the out paths of either mask |
| SolverMazeGraph.Negate | algolibs/solvers/maze_graph.cpp:47-49 | a rotation of 0 to 4 quarter turns negates into 0 to 4; RotateInverse: turning by the negated rotation undoes the turn |
| SolverMazeGraph.NextRotation | algolibs/solvers/maze_graph.cpp:53-55 | one more quarter turn, never wrapping; RotateNext: rotating by it is one more quarter turn, and the rotation after three is a full turn |
| SolverMazeGraph.MirrorOutPath | algolibs/solvers/maze_graph.cpp:20-22 | the result is a mask of the four out paths; MirrorOpposite: a single out path becomes the opposite one |
| SolverMazeGraph.HasOutPath | algolibs/solvers/maze_graph.cpp:57-60 | only a node with a non-empty mask has an out path; HasOutPathRotatedMask: the same as finding the out path in the mask turned forward by the node's rotation |
| SolverMazeGraph.RotateSingle | algolibs/solvers/maze_graph.cpp:11-18 | a single out path rotated by r is the out path r quarter turns clockwise from it |
| SolverMazeGraph.RotateInverse | algolibs/solvers/maze_graph.cpp:47-49 | rotating by r and then by operator-(r) gives the mask back |
| SolverMazeGraph.RotateNext | algolibs/solvers/maze_graph.cpp:53-55 | the next rotation rotates one quarter turn further, and the one after 3 is a full turn |
| SolverMazeGraph.HighBitLeaksIntoRotation | algolibs/solvers/maze_graph.cpp:11-18 | a bit above the four out paths turns into a North out path even without rotation |
| SolverMazeGraph.HasOutPathRotatedMask | algolibs/solvers/maze_graph.cpp:57-60 | hasOutPath holds exactly when the node's mask, rotated by its rotation, has the out path |
| SolverMazeGraph.MirrorOpposite | algolibs/solvers/maze_graph.cpp:20-22 | mirroring swaps N with S and E with W |
| SolverMazeGraph.Isqrt | algolibs/solvers/maze_graph.cpp:39-45 | r * r <= n < (r + 1) * (r + 1) |
| SolverMazeGraph.RootUnique | algolibs/solvers/maze_graph.cpp:39-45 | only one r satisfies those bounds |
| SolverMazeGraph.IntegerSquareRoot | algolibs/solvers/maze_graph.cpp:39-45 | the counting loop returns the integer square root |
| SolverMazeGraph.OpposingShiftLocation | algolibs/solvers/maze_graph.cpp:177-191 | no contract of its own: OpposingInvolution proves it maps border locations other than corners to such locations and back, and keeps every other inside location; OpposingLine that the far end of the opposite location's line is the location again |
| SolverMazeGraph.OpposingInvolution | algolibs/solvers/maze_graph.cpp:177-191 | on non-corner border cells opposing twice is the identity; away from the border a location is its own opposite |
| SolverMazeGraph.ShiftDefinedExceptCorners | algolibs/solvers/maze_graph.cpp:125-137 | the shift is defined everywhere except at the corners (0, 0), (extent - 1, 0) and (extent - 1, extent - 1) |
| SolverMazeGraph.CyclicStep | algolibs/solvers/maze_graph.cpp:197-208 | `(x + d + n) % n` steps x by d, wrapping at both ends |
| SolverMazeGraph.TranslateLocationByShift | algolibs/solvers/maze_graph.cpp:193-211 | no contract of its own: TranslateShifted proves a location stays inside and follows its node through the shift, TranslateInverse that the opposing shift translates it back, TranslateStill that without offset nothing moves |
| SolverMazeGraph.TranslateShifted | algolibs/solvers/maze_graph.cpp:193-211 | after a shift the node formerly at l sits at the translated location, except the pushed-out node, whose location translates to the insert location |
| SolverMazeGraph.OpposingLine | algolibs/solvers/maze_graph.cpp:177-191 | the opposing shift moves the same line in the reverse direction and ends at the first location |
| SolverMazeGraph.TranslateInverse | algolibs/solvers/maze_graph.cpp:193-211 | translating by a shift and then by the opposing shift gives every location back |
| SolverMazeGraph.TranslateStill | algolibs/solvers/maze_graph.cpp:193-211 | a shift location without offset translates nothing |
| SolverMazeGraph.TranslateBack | algolibs/solvers/maze_graph.cpp:193-211 | the two translations along a line and back cancel |
| SolverMazeGraph.ShiftRoundTrip | algolibs/solvers/maze_graph.cpp:125-137 | a shift followed by the opposing shift inserting the pushed-out node restores every node and pushes out the node inserted first |
| SolverMazeGraph.RoundTripAt | algolibs/solvers/maze_graph.cpp:125-137 | that round trip restores each single location |
| SolverMazeGraph.RoundTripOff | algolibs/solvers/maze_graph.cpp:125-137 | off the shared line neither shift changes the node |
| SolverMazeGraph.OpposingLineMembers | algolibs/solvers/maze_graph.cpp:177-191 | a shift and its opposing shift move the same set of locations |
| SolverMazeGraph.RoundTripBehind | algolibs/solvers/maze_graph.cpp:129-133 | on the line, the second shift takes back the node the first moved on |
| SolverMazeGraph.GraphShift | algolibs/solvers/maze_graph.cpp:125-137 | the grid and leftover after a shift form a grid of the same extent |
| SolverMazeGraph.NeighborsFrom | algolibs/solvers/maze_graph.cpp:155-175 | the iteration from out path i on yields at most 4 - i locations |
| SolverMazeGraph.NeighborsFromHead | algolibs/solvers/maze_graph.cpp:155-165 | the iteration from a connecting out path starts with the location it leads to |
| SolverMazeGraph.NeighborsFromMembers | algolibs/solvers/maze_graph.cpp:155-175 | the yielded locations are exactly those connected through an out path from index i on |
| SolverMazeGraph.NeighborViaSymmetric | algolibs/solvers/maze_graph.cpp:172-175 | a connection through an out path is a connection back through the opposite one |
| SolverMazeGraph.NeighborsSymmetric | algolibs/solvers/maze_graph.cpp:155-175 | if the iteration from l yields q, the iteration from q yields l |
| SolverMazeGraph.LineOf | algolibs/solvers/maze_graph.cpp:129-133 | the line of a shift holds `extent` inside locations, the k-th one k offsets from the start |
| SolverMazeGraph.StepBack | algolibs/solvers/maze_graph.cpp:130-132 | one step back from line element t is element t - 1, inside the grid |
| SolverMazeGraph.MazeGraph.Grid | algolibs/solvers/maze_graph.cpp:101-111 | the node matrix read as a grid value |
| SolverMazeGraph.MazeGraph.constructor | algolibs/solvers/maze_graph.cpp:62-71 | extent squared slots with identifiers in row-major order, the leftover next, no out paths, no shift locations |
| SolverMazeGraph.MazeGraph.FromNodes | algolibs/solvers/maze_graph.cpp:73-85 | the extent is the integer square root of the node count, the matrix takes the nodes in row-major order and the next node is the leftover |
| SolverMazeGraph.MazeGraph.SetOutPaths | algolibs/solvers/maze_graph.cpp:87-89 | only the addressed node changes, and only its out paths |
| SolverMazeGraph.MazeGraph.AddShiftLocation | algolibs/solvers/maze_graph.cpp:91-95 | a location is appended only when absent, so the list has no duplicates |
| SolverMazeGraph.MazeGraph.SetLeftoverOutPaths | algolibs/solvers/maze_graph.cpp:97-99 | only the leftover's out paths change |
| SolverMazeGraph.MazeGraph.GetLocation | algolibs/solvers/maze_graph.cpp:101-111 | the first row-major location holding the identifier, or the given leftover location |
| SolverMazeGraph.MazeGraph.GetNumberOfNodes | algolibs/solvers/maze_graph.cpp:117-119 | the stored size plus one for the leftover |
| SolverMazeGraph.MazeGraph.Shift | algolibs/solvers/maze_graph.cpp:125-137 | the matrix becomes the shifted grid with the old leftover at the given rotation inserted, and the leftover becomes the old far-end node |
| SolverMazeGraph.MazeGraph.ShiftLine | algolibs/solvers/maze_graph.cpp:128-135 | the line moves one step, the inserted node takes the location, and the far-end node is returned |
| SolverMazeGraph.MazeGraph.GridNodes | algolibs/solvers/maze_graph.cpp:129-133 | the node matrix holds the grid it is read as, slot by slot |
| SolverMazeGraph.MazeGraph.CopyBack | algolibs/solvers/maze_graph.cpp:130-132 | one loop step gives line element t its predecessor's node |
| SolverMazeGraph.MazeGraph.MoveLineBack | algolibs/solvers/maze_graph.cpp:129-133 | the loop walks back to the insert location, giving every node behind it its predecessor's node |
| SolverMazeGraph.MazeGraph.PlaceInserted | algolibs/solvers/maze_graph.cpp:135 | writing the inserted node where the walk ended completes the shifted grid |
| SolverMazeGraph.MazeGraph.MoveToNextNeighbor | algolibs/solvers/maze_graph.cpp:155-165 | stops at the first connecting out path from index i on, which heads the remaining iteration, or at the sentinel |
| SolverMazeGraph.MazeGraph.IsNeighbor | algolibs/solvers/maze_graph.cpp:172-175 | a neighbour along an out path lies inside the grid; NeighborViaSymmetric: a connection along an out path the node has is also a connection back along the opposite one |
| SolverMazeGraph.MazeGraph.Neighbors | algolibs/solvers/maze_graph.cpp:139-175 | the full iteration yields the connected locations in N, E, S, W order |
| Minimax.NegateProperties | algolibs/solvers/minimax.cpp:246-260 | negation is an involution, reverses the order, distributes over the sum and equals scaling by -1 |
| Minimax.Evaluation.Negate | algolibs/solvers/minimax.cpp:250-252 | keeps whether the game is decided; NegateProperties: an involution that turns the order around and distributes over the sum |
| Minimax.Evaluation.Plus | algolibs/solvers/minimax.cpp:254-256 | decided exactly when one of the parts is; TimesPlus: scaling distributes over it |
| Minimax.Evaluation.Times | algolibs/solvers/minimax.cpp:258-260 | keeps whether the game is decided; NegateProperties: scaling by -1 is negation |
| Minimax.Evaluation.Greater | algolibs/solvers/minimax.cpp:246-248 | no evaluation is greater than itself; GreaterOrder: a strict order on the values that ignores whether the game is decided |
| Minimax.GreaterOrder | algolibs/solvers/minimax.cpp:246-248 | operator> is a strict order on values only: incomparable evaluations have equal values |
| Minimax.TimesPlus | algolibs/solvers/minimax.cpp:250-260 | scaling distributes over the sum, and a sum is terminal exactly when one of its parts is |
| Minimax.MaxRotationSymmetric | algolibs/solvers/minimax.cpp:39-47 | the maximal rotation is 1 exactly for the masks that a half turn leaves unchanged (the straight nodes), and 3 otherwise |
| Minimax.DetermineMaxRotation | algolibs/solvers/minimax.cpp:39-47 | one or three quarter turns; MaxRotationSymmetric: one exactly for the masks that half a turn leaves unchanged |
| Minimax.ChildFor | algolibs/solvers/minimax.cpp:69-73 | the child node is valid and remembers the shift location |
| Minimax.MoveChildren | algolibs/solvers/minimax.cpp:77-83 | one valid child per move location |
| Minimax.MovesAfter | algolibs/solvers/minimax.cpp:133-141 | after a shift there is at least one move location, all inside |
| Minimax.RotationChildren | algolibs/solvers/minimax.cpp:92-113 | the children of the rotations from r to the maximal one are valid nodes that remember a shift location |
| Minimax.LaterRotations | algolibs/solvers/minimax.cpp:96-98 | the children of the rotations after r are valid nodes |
| Minimax.LocationChildren | algolibs/solvers/minimax.cpp:99-119 | the children of the shift locations from index i on are valid nodes |
| Minimax.Children | algolibs/solvers/minimax.cpp:52-63 | the children in visiting order are valid nodes that remember a shift location |
| Minimax.NextLocationChildren | algolibs/solvers/minimax.cpp:99-119 | the children from index i on are those of the first location that is not the invalid one, or none |
| Minimax.LaterRotationChildren | algolibs/solvers/minimax.cpp:92-98 | the children after rotation r are those of r + 1 followed by the later ones, or none after the maximal rotation |
| Minimax.MoveChildrenFrom | algolibs/solvers/minimax.cpp:77-83 | the children from move k on are the child for move k followed by the rest |
| Minimax.ShiftedGraphFacts | algolibs/solvers/minimax.cpp:121-131 | the shifted grid holds the inserted node, re-rotating it equals the shift with the next rotation, and the opposing shift restores the parent's graph |
| Minimax.TurnLeftover | algolibs/solvers/minimax.cpp:127-131 | the node with only its leftover's rotation changed, to the given one |
| Minimax.MoveChildrenIgnoreLeftoverRotation | algolibs/solvers/minimax.cpp:69-83 | the children of one shift and rotation are the same whatever rotation the leftover had |
| Minimax.RotationChildrenIgnoreLeftoverRotation | algolibs/solvers/minimax.cpp:92-98 | the children of the remaining rotations of a shift are the same whatever rotation the leftover had |
| Minimax.LocationChildrenIgnoreLeftoverRotation | algolibs/solvers/minimax.cpp:99-125 | the children of the remaining shift locations are the same whatever rotation the leftover had |
| Minimax.NegamaxIgnoresLeftoverRotation | algolibs/solvers/minimax.cpp:127-131 | the rotation the shared graph's leftover keeps after undoing a subtree changes no child, and for an evaluator that ignores it no negamax value and no root action |
| Minimax.ShiftedStateValid | algolibs/solvers/minimax.cpp:121-125 | right after a shift the iterator state is valid and the children still to come are those of that shift and of the later locations |
| Minimax.MoveStep | algolibs/solvers/minimax.cpp:77-79 | moving to the next move location keeps the invariant and drops exactly the current child |
| Minimax.ShiftedStateFacts | algolibs/solvers/minimax.cpp:127-131 | while shifted, the inserted node is at the shift location, and undoing the shift gives back the parent's graph and player location |
| Minimax.RotatedState | algolibs/solvers/minimax.cpp:96-98 | turning the inserted node once more gives the state right after the shift with the next rotation |
| Minimax.RotationStep | algolibs/solvers/minimax.cpp:96-98 | the rotation step keeps the invariant and the children still to come |
| Minimax.ExhaustedChildren | algolibs/solvers/minimax.cpp:79-81 | when the moves are used up, what is left are the later rotations' and the later locations' children |
| Minimax.NextRotationState | algolibs/solvers/minimax.cpp:96-98 | the state after the next rotation keeps the invariant and the children still to come |
| Minimax.LaterRotationState | algolibs/solvers/minimax.cpp:96-98 | the state after the next rotation at location k has exactly the children after the current rotation to come |
| Minimax.SkipInvalid | algolibs/solvers/minimax.cpp:115-119 | the index stays or moves by one, and never lands on the location opposing the previous shift |
| Minimax.EndStep | algolibs/solvers/minimax.cpp:99-108 | with no valid location left, undoing the shift ends the iteration with the parent's graph restored and no children left |
| Minimax.ShiftStep | algolibs/solvers/minimax.cpp:99-110 | the shift at the next valid location keeps the invariant and the children still to come |
| Minimax.FirstRotationState | algolibs/solvers/minimax.cpp:121-125 | the state right after the shift at a valid location with rotation 0 has all of that location's children to come |
| Minimax.NextShiftChildren | algolibs/solvers/minimax.cpp:99-106 | at the maximal rotation with the moves used up, the children left start at the next valid location |
| Minimax.AfterLastRotation | algolibs/solvers/minimax.cpp:99-106 | after the last rotation the children left start at the next valid location, or there are none |
| Minimax.ChildIterator.constructor | algolibs/solvers/minimax.cpp:52-63 | the iterator is valid and will visit exactly the node's children |
| Minimax.ChildIterator.GetPlayerAction | algolibs/solvers/minimax.cpp:65-67 | the action of the current child |
| Minimax.ChildIterator.CreateGameTreeNode | algolibs/solvers/minimax.cpp:69-73 | the node of the current child, valid and remembering the shift location |
| Minimax.ChildIterator.Next | algolibs/solvers/minimax.cpp:77-83 | exactly the current child is dropped; at the end the parent's graph is restored |
| Minimax.ChildIterator.NextShift | algolibs/solvers/minimax.cpp:92-113 | the children still to come are unchanged and the iterator stays valid |
| Minimax.ChildIterator.RotateInserted | algolibs/solvers/minimax.cpp:96-98 | re-rotating the inserted node keeps the children still to come |
| Minimax.ChildIterator.NextShiftLocation | algolibs/solvers/minimax.cpp:99-112 | moving to the next location keeps the children still to come |
| Minimax.ChildIterator.UndoShiftAtEnd | algolibs/solvers/minimax.cpp:99-108 | undoing the last shift keeps the children still to come, which are none |
| Minimax.ChildIterator.UndoShiftAndShift | algolibs/solvers/minimax.cpp:99-112 | undoing and shifting at the next location keeps the children still to come |
| Minimax.ChildIterator.UndoShift | algolibs/solvers/minimax.cpp:127-131 | the graph, leftover and player location become the parent's again |
| Minimax.ChildIterator.Shift | algolibs/solvers/minimax.cpp:121-125 | the state becomes the shifted state for the current location and rotation, with its move locations |
| MinimaxSearch.BestOfValueIndependent | algolibs/solvers/minimax.cpp:185-199 | the best value of the children does not depend on the starting action |
| MinimaxSearch.BestOfMaximal | algolibs/solvers/minimax.cpp:185-199 | no child's value beats the result, which is either the start value or that of the first child to reach it by strict improvement |
| MinimaxSearch.MaximalBoundStep | algolibs/solvers/minimax.cpp:186-194 | the bound of BestOfMaximal for a list follows from that for its tail |
| MinimaxSearch.MaximalWitnessStep | algolibs/solvers/minimax.cpp:186-194 | the witness of BestOfMaximal for a list follows from that for its tail |
| MinimaxSearch.KeptWitness | algolibs/solvers/minimax.cpp:188-193 | when the tail improves nothing, the first child set the value or nothing beats the start |
| MinimaxSearch.LaterWitness | algolibs/solvers/minimax.cpp:188-193 | when the tail improves, its witness is one for the whole list |
| MinimaxSearch.NegamaxIsMaximum | algolibs/solvers/minimax.cpp:180-200 | without abort, no child's negated value beats negamax; the value is -infinity or some child's; and the best action is kept or is the action of a child with that value |
| MinimaxSearch.MinimaxRunner.constructor | algolibs/solvers/minimax.cpp:163-164 | the runner starts without a best action |
| MinimaxSearch.MinimaxRunner.SetMaxDepth | algolibs/solvers/minimax.cpp:202 | only the maximal depth changes |
| MinimaxSearch.MinimaxRunner.RunMinimax | algolibs/solvers/minimax.cpp:166-174 | the result holds the negamax value of the root and the root's best action |
| MinimaxSearch.Root | algolibs/solvers/minimax.cpp:167-171 | the root node holds a copy of the instance's graph and leftover, the player's and the opponent's locations, and the previous shift location |
| MinimaxSearch.MinimaxRunner.Negamax | algolibs/solvers/minimax.cpp:180-200 | the value is the negamax value, and the best action changes only at depth 0 |
| MinimaxSearch.MinimaxRunner.VisitChild | algolibs/solvers/minimax.cpp:186-198 | one loop pass leaves the best value of the remaining children unchanged and drops a child unless aborted |
| MinimaxSearch.ChildExpands | algolibs/solvers/minimax.cpp:186-188 | a child of an expanded node can be expanded in turn |
| MinimaxSearch.FindBestAction | algolibs/solvers/minimax.cpp:262-266 | a fresh runner's result: the root's best action and negamax value |
| MinimaxSearch.Deepen | algolibs/solvers/minimax.cpp:216-230 | the rounds end after at least one more and by the limit, at a decided result or at an abort; DeepenKeepsUnaborted: the kept result is that of the last unaborted round, or of depth 1 |
| MinimaxSearch.DeepenKeepsUnaborted | algolibs/solvers/minimax.cpp:216-230 | deepening stops at the first terminal result or abort within the limit; it keeps a result from a round that was not aborted, or from depth 1 |
| MinimaxSearch.IterativeDeepening.constructor | algolibs/solvers/minimax.cpp:214-215 | depth 0 and the error action with -infinity |
| MinimaxSearch.IterativeDeepening.IterateMinimax | algolibs/solvers/minimax.cpp:216-230 | the kept result, depth and returned action are those of the deepening specification |
| ExhSearch.DetermineRotations | algolibs/solvers/exhsearch.cpp:105-114 | rotations 0, 1 exactly for the straight masks N|S and E|W, otherwise 0 to 3 |
| ExhSearch.RotationsCoverAll | algolibs/solvers/exhsearch.cpp:105-114 | every one of the four rotations looks like one of the rotations kept |
| ExhSearch.PathShifts | algolibs/solvers/exhsearch.cpp:51-58 | the shifts from the root to a state are valid shift locations, and none exist only for the root |
| ExhSearch.ApplyShifts | algolibs/solvers/exhsearch.cpp:59-61 | replaying shifts keeps a grid of the same extent |
| ExhSearch.GraphOfState | algolibs/solvers/exhsearch.cpp:51-63 | the graph of a state is a grid of the search's extent |
| ExhSearch.GraphOfStateReplays | algolibs/solvers/exhsearch.cpp:51-63 | the graph of a state is the instance's graph with the non-root ancestors' shifts replayed root first |
| ExhSearch.ExtendsAgrees | algolibs/solvers/exhsearch.cpp:35-47 | a longer arena agrees on the paths and graphs of the states it shares |
| ExhSearch.PathAvoidsOpposing | algolibs/solvers/exhsearch.cpp:142-146 | no shift on a path is at the location opposing the shift before it, starting from the instance's previous shift |
| ExhSearch.ActionsTo | algolibs/solvers/exhsearch.cpp:87-98 | the last action is the state's shift with the reached location |
| ExhSearch.ShiftsOf | algolibs/solvers/exhsearch.cpp:87-98 | the shifts of the actions, one per action |
| ExhSearch.ActionsFollowPath | algolibs/solvers/exhsearch.cpp:87-98 | the actions to a reached node carry exactly the shifts of the path to its state |
| ExhSearch.FoundSolves | algolibs/solvers/exhsearch.cpp:152-160 | a reached node lying on the objective yields actions that solve the instance: valid non-opposing shifts, each move chained through the reached nodes from the player's location, the last on the objective |
| ExhSearch.StateReached | algolibs/solvers/exhsearch.cpp:80-85 | every state holds exactly the nodes reached from the player's location by replaying the shifts on its path, each through multiSourceReachableLocations from the translated previous locations |
| ExhSearch.ChainIndices | algolibs/solvers/exhsearch.cpp:87-98 | the source-index chain of a reached node has one index per shift plus the root's, starts at the player's location and ends at the node |
| ExhSearch.ChainHolds | algolibs/solvers/exhsearch.cpp:87-98 | the actions reconstructed for a reached node chain through the reached nodes: move k goes to a node reached after shift k from the node move k - 1 went to |
| ExhSearch.LastMoveReached | algolibs/solvers/exhsearch.cpp:87-95 | the last reconstructed move goes to the node itself, reached from its source in the parent state |
| ExhSearch.ChainSnoc | algolibs/solvers/exhsearch.cpp:87-98 | a chain of moves extended by one move that chains is again a chain |
| ExhSearch.MoveReachedSnoc | algolibs/solvers/exhsearch.cpp:87-98 | a move that chains keeps chaining once a later action is appended |
| ExhSearch.TranslatedInside | algolibs/solvers/exhsearch.cpp:65-78 | translated reached locations stay inside |
| ExhSearch.DetermineReachedLocations | algolibs/solvers/exhsearch.cpp:65-78 | each reached location is translated by the shift, with count and order kept |
| ExhSearch.CreateNewState | algolibs/solvers/exhsearch.cpp:80-85 | a child of the current state whose reached nodes are those reachable from the translated locations |
| ExhSearch.Reversed | algolibs/solvers/exhsearch.cpp:59 | the reversal has the same length and the same members |
| ExhSearch.ReversedSnoc | algolibs/solvers/exhsearch.cpp:59 | reversing with one more element at the end puts it first |
| ExhSearch.CreateGraphFromState | algolibs/solvers/exhsearch.cpp:51-63 | the built graph is the graph of the state |
| ExhSearch.Reverse | algolibs/solvers/exhsearch.cpp:96 | the k-th element of the result is the k-th from the end |
| ExhSearch.ReconstructActions | algolibs/solvers/exhsearch.cpp:87-98 | the actions of the parent chain, root first |
| ExhSearch.FindObjective | algolibs/solvers/exhsearch.cpp:152-157 | the first reached node from an index on whose location holds the objective, or none |
| ExhSearch.RotationShifts | algolibs/solvers/exhsearch.cpp:147-149 | one shift per rotation at the location, in order |
| ExhSearch.MadeShiftsSplit | algolibs/solvers/exhsearch.cpp:147-164 | the shifts made over two extensions of the arena are those of the first followed by those of the second |
| ExhSearch.AddChild | algolibs/solvers/exhsearch.cpp:149-151 | a child made as createNewState makes it, from the parent's graph shifted by the child's shift, keeps the arena valid, including the reached nodes of every state |
| ExhSearch.AddChildShaped | algolibs/solvers/exhsearch.cpp:80-85 | a child linked to its parent with reached locations inside keeps the arena's shape |
| ExhSearch.AddChildState | algolibs/solvers/exhsearch.cpp:149-157 | one new child with the requested shift, whose graph is the parent's shifted and whose reached nodes are the multi-source reach of the parent's translated locations; found is the first reached node on the objective (FirstOnObjective), and when none is found no reached node lies on it (Misses) |
| ExhSearch.TryRotations | algolibs/solvers/exhsearch.cpp:147-164 | one child of the state per rotation, each holding the multi-source reach of the state's translated locations in its shifted graph; when one reaches the objective, the children made are the first rotation shifts up to it, it is the last, its first reached node on the objective is returned, and no child before it has a reached node on the objective; otherwise exactly the rotation shifts were made and no child reaches the objective |
| ExhSearch.RotationStep | algolibs/solvers/exhsearch.cpp:148-163 | one more child of the state for the rotation, appended after the existing states and holding the multi-source reach of the state's translated locations in its shifted graph; the earlier children still miss the objective, and so does the new one unless it is returned with its first reached node on the objective |
| ExhSearch.Expand | algolibs/solvers/exhsearch.cpp:140-165 | children of the state, each holding the multi-source reach of its translated locations in the shifted graph, for every location except the opposing one and every rotation in that order; when one reaches the objective, the children made are a prefix of that order ending with it, it is returned with its first reached node on the objective, and no earlier child reaches the objective; otherwise all the children were made and none reaches it |
| ExhSearch.TryShiftLocations | algolibs/solvers/exhsearch.cpp:143-165 | the loop over the shift locations makes exactly the children of Expand, or the prefix of them up to the first one that reaches the objective, with no earlier child reaching it |
| ExhSearch.ShiftLocationStep | algolibs/solvers/exhsearch.cpp:143-164 | one location's children are made, each holding the multi-source reach of the state's translated locations in its shifted graph, or none for the opposing location; it stops at the first child that reaches the objective, and the children before it, of this and earlier locations, miss the objective |
| ExhSearch.QueueStep | algolibs/solvers/exhsearch.cpp:137-162 | popping the front and pushing its children keeps the queue ordered by depth |
| ExhSearch.ExpandFront | algolibs/solvers/exhsearch.cpp:138-165 | one round keeps the arena valid (every state holding the multi-source reach of its parent's translated locations in its own graph) and extends it; when the objective is found, the last new state reaches it first at the returned node, one level below the popped state, and no other new state reaches it (FoundAfter); otherwise no new state reaches it, the queue is the rest of the old one followed by the new states, and it stays ordered by depth |
| ExhSearch.FindBestActions | algolibs/solvers/exhsearch.cpp:128-168 | non-empty actions solve the instance (valid non-opposing shifts, every move chained through multi-source reachability from the player's location, the last on the objective). The ghost arena holds the states created, and its first states are the expanded ones, in order, with the depths listed in `expanded`, which never decrease. Non-empty actions lead to the first reached node on the objective of the last state, no other state but the root reaches the objective, and every expanded state is shallower than the solution. With empty actions, no state created reaches the objective |
| ExhSearch.Root | algolibs/solvers/exhsearch.cpp:133-136 | the root state has no parent, carries the previous shift location without rotation, and has the player's location as its one reached node, with source index 0 |
| ExhSearch.FoundActions | algolibs/solvers/exhsearch.cpp:158-160 | the actions returned on a find solve the instance, lead to the first reached node on the objective of the last state, are longer than the depth of every expanded state, and no state between the root and the last reaches the objective |
| ExhSearch.ChildDepth | algolibs/solvers/exhsearch.cpp:80-85 | a child is one level deeper than its parent |
| ExhSearch.NextRound | algolibs/solvers/exhsearch.cpp:137-165 | after a round that found nothing, state `round` has been expanded with its depth recorded, the queue is the states not yet expanded, in order, and no state but the root reaches the objective |
| ExhSearch.NoneReachExtends | algolibs/solvers/exhsearch.cpp:161-162 | a state that missed the objective misses it in every longer arena |
| ExhSearch.ChildShiftsPrefix | algolibs/solvers/exhsearch.cpp:143-147 | the shifts tried over the first j shift locations begin those tried over more locations |
| GraphBuilders.AddOutPathTo | algolibs/graphbuilder/graph_builder.cpp:5-7 | the out path becomes set and every other position keeps its value |
| GraphBuilders.AddOutPathIdempotent | algolibs/graphbuilder/graph_builder.cpp:5-7 | setting the same out path twice is setting it once |
| GraphBuilders.AddOutPathsTo | algolibs/graphbuilder/graph_builder.cpp:13-17 | exactly the old positions and the listed out paths are set |
| GraphBuilders.MaskOf | algolibs/graphbuilder/graph_builder.cpp:53-62 | mask bit 2^p is set exactly when position p is, and no bit above the four is set |
| GraphBuilders.BitsOf | algolibs/graphbuilder/graph_builder.cpp:53-62 | the bitset a mask stands for |
| GraphBuilders.MaskRoundTrip | algolibs/graphbuilder/graph_builder.cpp:53-62 | bitset to mask and back is the identity, and mask to bitset and back keeps the four low bits |
| GraphBuilders.Resized | algolibs/graphbuilder/text_graph_builder.cpp:7-10 | vector resize: the first elements kept, the rest value-initialized |
| GraphBuilders.ResizedGrid | algolibs/graphbuilder/text_graph_builder.cpp:7-10 | an extent x extent grid keeping the old cells and filling empty bitsets |
| GraphBuilders.AddedNewMembers | algolibs/graphbuilder/graph_builder.cpp:42-49 | adding keeps the list free of duplicates and holds exactly the old and the added locations |
| GraphBuilders.AddedNewSnoc | algolibs/graphbuilder/graph_builder.cpp:42-49 | adding one more location appends it unless already present |
| GraphBuilders.AddedNewAllNew | algolibs/graphbuilder/graph_builder.cpp:42-49 | distinct new locations are appended as they are |
| GraphBuilders.ShiftLocationsBeforeMembers | algolibs/graphbuilder/graph_builder.cpp:42-49 | the rounds before an odd position list exactly the standard cells of the earlier odd positions, once each |
| GraphBuilders.StandardShiftLocationsMembers | algolibs/graphbuilder/graph_builder.cpp:42-49 | the standard shift locations are exactly (0, p), (extent - 1, p), (p, 0), (p, extent - 1) for odd p below the extent, once each |
| GraphBuilders.ShiftLocationsBeforeCount | algolibs/graphbuilder/graph_builder.cpp:42-49 | on an odd extent each round adds four new locations |
| GraphBuilders.StandardShiftLocationsCount | algolibs/graphbuilder/graph_builder.cpp:42-49 | an odd extent has 2 * (extent - 1) standard shift locations, 12 for extent 7 |
| GraphBuilders.GraphBuilder.AddOutPath | algolibs/graphbuilder/graph_builder.cpp:9-11 | only that position of that cell's bitset becomes set |
| GraphBuilders.GraphBuilder.AddOutPaths | algolibs/graphbuilder/graph_builder.cpp:13-17 | that cell's bitset gains exactly the listed out paths |
| GraphBuilders.GraphBuilder.WithStandardShiftLocations | algolibs/graphbuilder/graph_builder.cpp:19-22 | the flag is set, the bitsets are unchanged, and the builder is returned |
| GraphBuilders.GraphBuilder.WithLeftoverOutPaths | algolibs/graphbuilder/graph_builder.cpp:24-29 | the leftover's bitset gains exactly the listed out paths, and the builder is returned |
| GraphBuilders.GraphBuilder.OutPathsForMazeGraph | algolibs/graphbuilder/graph_builder.cpp:53-62 | the accumulated mask is the mask of the bitset |
| GraphBuilders.GraphBuilder.ConstructGraph | algolibs/graphbuilder/graph_builder.cpp:31-51 | a graph of extent equal to the row count, cell masks and leftover mask converted from the bitsets, and the standard shift locations exactly when requested |
| GraphBuilders.FillCells | algolibs/graphbuilder/graph_builder.cpp:34-39 | every cell's node gets the mask of its bitset |
| GraphBuilders.AddStandardShiftLocations | algolibs/graphbuilder/graph_builder.cpp:42-49 | the graph's shift locations become the standard shift locations, and the leftover is unchanged |
| GraphBuilders.AddRound | algolibs/graphbuilder/graph_builder.cpp:44-47 | the four locations of a position are added unless already present |
| TextGraphBuilders.CellUpdatedSame | algolibs/graphbuilder/text_graph_builder.cpp:13-24 | a grid is its own update with the cell's own bitset |
| TextGraphBuilders.CellUpdatedThen | algolibs/graphbuilder/text_graph_builder.cpp:13-24 | two updates of the same cell make one |
| TextGraphBuilders.TextGraphBuilder.TextOutPaths | algolibs/graphbuilder/text_graph_builder.cpp:13-24 | N, E, S and W are set exactly when the middle character of that side is '.' |
| TextGraphBuilders.TextGraphBuilder.SetMaze | algolibs/graphbuilder/text_graph_builder.cpp:30-33 | the lines are replaced wholesale and the builder is returned |
| TextGraphBuilders.TextGraphBuilder.BuildGraph | algolibs/graphbuilder/text_graph_builder.cpp:5-28 | the bitsets are extent x extent with extent = lines / lines per node; each cell gains its text's out paths, none is cleared; the graph is constructGraph's result |
| TextGraphBuilders.TextGraphBuilder.ResizeBitsets | algolibs/graphbuilder/text_graph_builder.cpp:7-10 | the bitsets become the resized grid |
| TextGraphBuilders.TextGraphBuilder.ParseNode | algolibs/graphbuilder/text_graph_builder.cpp:13-24 | the cell gains exactly its text's out paths and no other cell changes |
| TextGraphBuilders.TextGraphBuilder.AddStep | algolibs/graphbuilder/text_graph_builder.cpp:13-24 | one addOutPath, seen from the bitsets before the node |
| WebPlayer.Notification | web-client/src/model/player.js:25-35 | onHasToShift fires exactly on a change to "SHIFT" and onHasToMove exactly on a change to "MOVE", at most one call |
| WebPlayer.RepeatFiresOnce | web-client/src/model/player.js:28-34 | setting the same value twice fires only what the first setting fires |
| WebPlayer.IndexOf | web-client/src/model/player.js:74-75 | the first occurrence of a pattern from a position on, or none |
| WebPlayer.ReplaceFirst | web-client/src/model/player.js:75 | with no occurrence of the pattern the string is unchanged; otherwise the first occurrence, and only it, is replaced |
| WebPlayer.ReplacePrefix | web-client/src/model/player.js:74-75 | replacing a prefix puts the replacement in its place |
| WebPlayer.KnownNotDynamic | web-client/src/model/player.js:65-79 | none of the four known methods starts with "dynamic-" |
| WebPlayer.ComputationMethodLabel | web-client/src/model/player.js:65-79 | the four known methods get their fixed labels, "dynamic-X" becomes "Library: X", and anything else is shown unchanged |
| WebPlayer.DynamicLabel | web-client/src/model/player.js:74-75 | every library name X is shown as "Library: X" |
| WebPlayer.Player.constructor | web-client/src/model/player.js:2-11 | turn action "NONE", neither user nor computer, and neither has to move nor has to shift |
| WebPlayer.Player.WithId | web-client/src/model/player.js:37-39 | a new player with the identifier |
| WebPlayer.Player.HasToMove | web-client/src/model/player.js:13-15 | a player that has to move has a turn action other than "NONE" and "SHIFT" |
| WebPlayer.Player.HasToShift | web-client/src/model/player.js:17-19 | a player that has to shift has a turn action other than "NONE" and "MOVE" |
| WebPlayer.Player.MoveAndShiftExclusive | web-client/src/model/player.js:13-19 | a player never has to move and to shift at once |
| WebPlayer.Player.GetTurnAction | web-client/src/model/player.js:21-23 | "MOVE" exactly when it has to move, "SHIFT" exactly when it has to shift |
| WebPlayer.Player.SetTurnAction | web-client/src/model/player.js:25-35 | the value is always stored, the handler calls are those of Notification, and nothing else changes |
| WebPlayer.Player.GetLabel | web-client/src/model/player.js:56-63 | "You" for the user, the method label for a computer player, and "" exactly when neither applies or the method is empty |

## Left out

- `random.choice` (game.py:372) is nondeterministic. Board.RandomUnoccupiedMazeCard picks any member of the pool, and its contract holds for every choice.
- `MazeCard.create_instance` and the global `next_id` counter (game.py:119-132) are left out. Cards carry explicit identifiers, and the maze is built from a grid of cards rather than filled cell by cell.
- The `Turns` of game.py has no prepare-delay timer, no `remove_player`, and no callbacks that take an action argument or fire for the same player. The tests describe all of these, but the model follows the code. Callbacks are recorded in the `notified` log as the identifier of the player called.
- `Turns(players, next_action)` with arguments is left out; the game only builds its turns empty.
- Boards.Board.constructor: `Board(maze=None, leftover_card=None)` (game.py:294-306) is modelled with both arguments given. The defaults are outside the model. The default `Maze()` holds `None` in every cell, while the modelled maze holds a card in every cell. The default `MazeCard()` has identifier 0, while the modelled board requires identifiers distinct from the maze's cards.
- Games.Game.constructor: `Game(identifier, board=None, players=None, turns=None)` (game.py:522-535) is modelled with the identifier and the board only. The game starts with no players and empty turns, which is how the game builds them when those arguments are left out.
- TurnOrder.Turns.Start follows the code: on an empty list `start` indexes `[0]` and raises IndexError.
- `Player.set_board` and `register_in_turns` (game.py:394-401) appear as steps of the game (Games.Game.SetBoard and Games.Game.RegisterInTurns). The backend `Player` object is not modelled: a player is its identifier, which here always equals its piece index.
- `backend/server/exceptions.py` maps exceptions to HTTP status codes and DTOs, a transport concern. Errors are the values of `ModelError`.
- The `operator<<` printers of both maze graphs are debug output.
- MinimaxSearch.MinimaxRunner.Negamax: the abort is one flag per run, read after every child at every depth. A flag raised part-way through a run is not modelled, so the model has no run that visits some children in full and is cut short later. With the flag set, every loop ends after its first child.
- MinimaxSearch.FindBestAction: for the same reason, its result is either complete or cut after the first child at every level. A partial result from an abort in the middle of the search is not modelled.
- MinimaxSearch.IterativeDeepening.IterateMinimax: the depth-1 result kept after an abort (minimax.cpp:225) is, in the model, the complete depth-1 result, or the one cut after the first child at every level when the flag of round 1 is set. The best root action set before an abort in the middle of a round is not modelled. The C++ do-while (minimax.cpp:222-228) never ends when no round is terminal and no abort comes. The model requires `0 < limit` and the abort oracle to hold at round `limit`, so at most `limit` rounds run.
- Minimax.ChildFor and Minimax.ChildIterator.CreateGameTreeNode: the C++ iterators share one graph, and undoing a non-leaf sibling's subtree leaves that graph's leftover at the last rotation tried there. The model builds each child from its parent's own leftover, so later children may differ from the C++ ones in the leftover's rotation alone. Minimax.NegamaxIgnoresLeftoverRotation proves that no child, negamax value or root action changes when the evaluator ignores that rotation.
- ExhMazeGraph.MazeGraph.MoveToNextNeighbor, ExhMazeGraph.MazeGraph.Neighbors, ExhMazeGraph.NeighborsFrom, SolverMazeGraph.MazeGraph.MoveToNextNeighbor, SolverMazeGraph.MazeGraph.Neighbors and SolverMazeGraph.NeighborsFrom require every mask to be at most 15 and every rotation to be a quarter-turn count in range (NodesWellFormed), which is what the builders produce. The C++ accepts any mask; a bit above the four out paths can turn into an out path (HighBitLeaksIntoRotation), and the model does not follow the iterator on such masks.
- The abort flags are modelled as a parameter. `is_aborted`, `abortComputation`, the global `iterative_deepening_searches` list and `getSearchStatus` exist for cross-thread cancellation. Negamax takes `aborted: bool`; iterative deepening and the exhaustive search take `aborted: nat -> bool`, indexed by round.
- ExhSearch.FindBestActions: the C++ loop has no visited set and may not terminate when the objective is unreachable. The model requires the abort oracle to hold at round `limit`, so at most `limit` states are expanded, and an exhausted queue also returns no actions. The contract proves that any actions returned solve the instance; it does not claim that an empty result means no solution exists. The arena is stated to start with the expanded states in expansion order, but not to hold every child of each expanded state. So "no shorter solution" is stated only as: every expanded state is shallower than the solution, and no state created before the returned one reaches the objective.
- SolverMazeGraph.TranslateLocationByShift: gives no meaning to a location outside the grid. Dafny's `%` is Euclidean. The C++ `(row + offset + extent) % extent` (maze_graph.cpp:199, 206) is computed in `Location::IndexType`, which is declared in a header that is not part of this model. For a negative coordinate on the shifted line the two can differ. Every location the model translates lies inside the grid (`ExhSearch.ReachedInside`, `Minimax.Search.ValidNode`). There the sum is non-negative, and TranslateShifted proves the result is the cyclic step. The function has no `IsInside` precondition, because the ghost functions ExhSearch.ReachedAfter and ExhSearch.ChildReached would then have to carry that fact through every shift.
- GraphBuilders.GraphBuilder.constructor: a default-constructed builder has no cells, an empty leftover bitset and no standard shift locations. These defaults come from the class declaration in graph_builder.h, which is not part of this model, so the member has no row.
- TextGraphBuilders.TextGraphBuilder.constructor: a builder without lines over a default-constructed GraphBuilder, with the line mapping given as parameters. The declaration is in text_graph_builder.h, which is not part of this model, so the member has no row.
- The evaluator and the `reachable::reachableLocations` and `multiSourceReachableLocations` functions are parameters of the searches (`Search.evaluate`, `Search.reachable`, `Search.multiSourceReachable`). Their headers (`evaluators.h`, `graph_algorithms.h`) are not part of this model. The only assumption is that the locations they return are inside the grid and non-empty where the source relies on it.
- The `OutPaths` values are North = 1, East = 2, South = 4, West = 8, stored in a `bv8`. Their header is not part of this model, and this order is the one the neighbour iterators step through.
- `lines_per_node` and `first`, `second`, `third` of the text builder come from a header that is not part of this model. They are constructor parameters.
- TextGraphBuilder holds a GraphBuilder as a field rather than deriving from it, and builds the libexhsearch MazeGraph. A C++ `std::bitset` of out paths is a `set<OutPath>`.
- Undefined behaviour in the C++ code becomes a precondition:
  - the solver shift at the three corners where no offset is defined (ShiftDefined);
  - text characters outside the lines (TextGraphBuilder.Covers);
  - a node count with no leftover after the square (SolverMazeGraph.MazeGraph.FromNodes requires more nodes than extent squared);
  - a ChildIterator built when no shift location other than the opposing one exists (HasShiftBesides).
- The solver MazeGraph's matrix is an extent x extent array. The slots beyond extent squared that `size_` counts are never read; `size` is kept for `getNumberOfNodes`.
- Integer widths: `size_t` and `int` are unbounded integers. No computation here comes close to a wrap-around, except that libexhsearch rotations must lie in (-450, 450) for `rotateOutPaths` to shift by a non-negative amount. The solvers' `translateLocationByShift` sums stay non-negative for locations inside the grid (see the SolverMazeGraph.TranslateLocationByShift line).
- ExhMazeGraph.RotateOutPaths and SolverMazeGraph.RotateOutPaths keep bits above the four out paths: such a bit can turn into an out path (ExhMazeGraph.HighBitLeaksIntoRotation, SolverMazeGraph.HighBitLeaksIntoRotation). The lemmas about rotation therefore require masks of at most 15, which is what the builders produce (GraphBuilders.MaskOf).
- `shared_ptr<GameStateNode>` parents are indices into an arena of states that only grows, so histories are shared exactly as the pointers share them.
- `Player.newFromApi` and `fillFromApi` of player.js are DTO plumbing. The handlers appear in the `notified` log rather than as callbacks.
- The libexhsearch shift writes the leftover field before the matrix slot it came from. The model computes both from the old state, which gives the same final state.
- `combineOutPaths` is defined identically in minimax.cpp and exhsearch.cpp. It is modelled once, as SolverMazeGraph.CombineOutPaths.
