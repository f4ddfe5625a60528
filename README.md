# Cube maze: the folded-net mapper and the Prim's generator

CubeMaze draws a maze on the surface of a cube. The six S×S faces lie in a
cross-shaped net inside a grid of 4S columns and 3S rows, indexed
`maze[x][y]`. The four corner blocks of the grid are not part of the net.
Each first and last column and row of a face carries an edge id from 1 to 24.
A pairing table says which ids meet when the net is folded into a cube, and
whether the crossing swaps the axes and inverts the position. `next_cell`
uses these tables so that a step off one face continues on the adjacent face.
A randomized Prim's algorithm then carves passages into the grid, one step
per call of `step_generator`.

This project models `cubeMaze.py` in Dafny:

- `Directions`: the `Direction` enum, `opposite` and the unit steps.
- `EdgeTables`: the four edge-set tables, the pairing table, and the scans
  over them.
  - The scans are `find_next_edge`, `parse_edge_effect` and the lookup of
    `offset_from_edge`.
  - `Geometry` is a reference reading written out id by id. Each scan is
    proved equal to it on all 24 ids.
- `CubeNet`: the net and its exclusion ranges, `edges_from_point`,
  `affected_directions`, `offset_from_edge`, `process_affected_direction` and
  `next_cell`.
  - Proved: a step from a net cell always lands on the net.
  - Proved: the reverse traversal leads back.
- `Generator`:
  - `fill_initial_maze` as a function returning a sequence of columns, and
    `get_first_point` as a function of `S`;
  - `wall_neighbors`, `has_front_diagonal_neighbors` and
    `wall_can_become_passage`, as functions over an `array2` grid;
  - `step_generator`, as methods of a class that holds the grid, the wall
    list and the cell carved last.

The side length is a parameter `S`.
- Functions of the mapper only need `S >= 1` and an in-range cell.
- The theorems need `S >= 2` (see Findings).

Python's integer division and modulo agree with Dafny's here, because every
operand is non-negative.

## Model

| member | source | states |
|---|---|---|
| Directions.Opposite | cubeMaze.py:115-119 | `opposite` carries no `ensures` of its own. Its properties are stated by `OppositeInvolution`. |
| Directions.OppositeInvolution | cubeMaze.py:109-119 | `opposite` has no fixed point and is its own inverse. It keeps a direction vertical or horizontal, and it negates the unit step that `next_cell` takes. |
| EdgeTables.TableIdsExactlyOnce | cubeMaze.py:37-48 | The four edge-set tables together hold exactly the ids 1 to 24, each at exactly one position. |
| EdgeTables.TableMember | cubeMaze.py:37-48 | Every table entry is an id from 1 to 24. Its reference location is its table, its set and its place in the set (1 for a set of one). |
| EdgeTables.PairingRow | cubeMaze.py:52-65 | Each pairing row joins two ids that are each other's partner in the reference reading. Both share the row's swap flag (`s`) and invert flag (`i`). |
| EdgeTables.PairingRowsDisjoint | cubeMaze.py:52-65 | Two different pairing rows share no id. |
| EdgeTables.PairingIdsExactlyOnce | cubeMaze.py:52-65 | The pairing table mentions exactly the ids 1 to 24, each in exactly one row. |
| EdgeTables.ScansNeedAMention | cubeMaze.py:68-74 | A scan of the pairing table that finds something started at or before a row mentioning the id. |
| EdgeTables.GeometryAgrees | cubeMaze.py:68-74 | On every id from 1 to 24, `find_next_edge`, `parse_edge_effect` and the table lookup of `offset_from_edge` give the reference partner, flags and location. |
| EdgeTables.PartnerInvolution | cubeMaze.py:52-65 | The reference partner is an id, differs from its id, and has it as partner with the same flags. The axes swap exactly when the two ids lie on different axes. |
| EdgeTables.GeometryPlacesEdge | cubeMaze.py:37-48 | The reference location of every id holds that id in the tables. Sets have 1 entry, or 3 for column tables and 4 for row tables. |
| EdgeTables.GeometryWellPlaced | cubeMaze.py:37-48 | Every reference location names an existing set. It sits on a face of the net: its block or its free block is the middle one. |
| EdgeTables.FindNextEdge | cubeMaze.py:68-74 | `find_next_edge` carries no `ensures` of its own. Its properties are stated by `FindNextEdgeInvolution`, `FindNextEdgeOfEdge` and `GeometryAgrees`. |
| EdgeTables.ParseEdgeEffect | cubeMaze.py:123-145 | `parse_edge_effect` carries no `ensures` of its own. Its properties are stated by `ParseEdgeEffectByTable`, `ParseEdgeEffectFlags`, `ParseEdgeEffectNone`, `ParseEdgeEffectOfEdge` and `GeometryAgrees`. |
| EdgeTables.OffsetFromEdge | cubeMaze.py:159-179 | `offset_from_edge` carries no `ensures` of its own. Its properties are stated by `CubeNet.OffsetShape`, `CubeNet.OffsetFound`, `CubeNet.OffsetLock` and `GeometryAgrees`. |
| EdgeTables.FindNextEdgeInvolution | cubeMaze.py:68-74 | `find_next_edge` is a fixed-point-free involution on 1 to 24 and returns None for every other value. |
| EdgeTables.FindNextEdgeOfEdge | cubeMaze.py:68-74 | `find_next_edge` of an id returns its reference partner. |
| EdgeTables.ParseEdgeEffectByTable | cubeMaze.py:123-145 | `parse_edge_effect` returns LEFT for ids of `x_leading_edge`, RIGHT for `x_trailing_edge`, UP for `y_leading_edge` and DOWN for `y_trailing_edge`. |
| EdgeTables.ParseEdgeEffectFlags | cubeMaze.py:123-145 | From either end of a pairing row, the swap flag is `'s' in entry` and the invert flag is `'i' in entry`. |
| EdgeTables.ParseEdgeEffectNone | cubeMaze.py:145 | `parse_edge_effect` returns None for a value that is not an id. |
| EdgeTables.ParseEdgeEffectOfEdge | cubeMaze.py:123-145 | `parse_edge_effect` returns a result exactly for ids, and the result names the id it was asked about. |
| CubeNet.MazeExclusionRanges | cubeMaze.py:27-33 | The four corner ranges carry no `ensures` of their own. What they exclude is stated by `PointIsExcludedIff`. |
| CubeNet.PointIsExcluded | cubeMaze.py:247-251 | `point_is_excluded` carries no `ensures` of its own. It is characterised by `PointIsExcludedIff` and `OnNetByBlocks`. |
| CubeNet.PointIsExcludedIff | cubeMaze.py:27-33 | `point_is_excluded` holds exactly for in-range cells whose x and y both lie outside [S, 2S). Out-of-range cells count as not excluded. |
| CubeNet.OnNetByBlocks | cubeMaze.py:247-251 | An in-range cell is on the net exactly when its column block or its row block is the middle one. |
| CubeNet.ColumnSet | cubeMaze.py:89-92 | The column test of `edges_from_point` selects an existing set of the column tables. |
| CubeNet.RowSet | cubeMaze.py:98-101 | The row test of `edges_from_point` selects an existing set of the row tables. |
| CubeNet.TrailingTest | cubeMaze.py:91 | `(x + 1) % S == 0` holds exactly when `x % S == S - 1`. |
| CubeNet.ColumnEdgeGeometry | cubeMaze.py:89-95 | The id from the column test is an id. It sits on this column's set, on the leading side exactly when `x % S == 0`. |
| CubeNet.RowEdgeGeometry | cubeMaze.py:98-104 | The id from the row test is an id. It sits on this row's set, on the leading side exactly when `y % S == 0`. |
| CubeNet.EdgeFromEdgeSet | cubeMaze.py:78-82 | `edge_from_edge_set` carries no `ensures` of its own. The id it picks is stated by `ColumnEdgeGeometry` and `RowEdgeGeometry`. |
| CubeNet.EdgesFromPoint | cubeMaze.py:86-106 | `edges_from_point` carries no `ensures` of its own. Its properties are stated by `EdgesFromPointShape`, `ColumnEdgeGeometry`, `RowEdgeGeometry`, `ColumnCellAt` and `RowCellAt`. |
| CubeNet.EdgesFromPointShape | cubeMaze.py:86-106 | `edges_from_point` returns at most two ids, all of them ids, one per test. It returns none exactly when neither `x % S` nor `y % S` is 0 or S-1. |
| CubeNet.AffectedDirections | cubeMaze.py:149-155 | `affected_directions` keeps the `parse_edge_effect` result of every value that has one, and nothing else. On a list made only of ids, the list returned is exactly their results in order. |
| CubeNet.OffsetShape | cubeMaze.py:159-179 | `offset_from_edge` of an id is the first cell of its run, with its locked axis: the first or the last column or row of its block, at its free block. |
| CubeNet.OffsetFound | cubeMaze.py:159-179 | `offset_from_edge` finds every id. |
| CubeNet.LandingOnRun | cubeMaze.py:183-198 | The coordinates of `process_affected_direction` add the swapped and inverted relative offset on the unlocked axis only. |
| CubeNet.FirstAffecting | cubeMaze.py:205-208 | The loop of `next_cell` picks the first effect, in list order, for the direction moved in. It picks none exactly when no effect has that direction. |
| CubeNet.ProcessAffectedDirection | cubeMaze.py:183-198 | `process_affected_direction` carries no `ensures` of its own. Its properties are stated by `LandingOnRun`, `ProcessShape`, `ProcessLandsOnRun` and `ProcessOnRun`. |
| CubeNet.NextCell | cubeMaze.py:202-213 | `next_cell` carries no `ensures` of its own. Its properties are stated by `NextCellCases`, `NextCellLands`, `NextCellReturnTrip` and `NextCellSymmetric`. |
| CubeNet.UnitStep | cubeMaze.py:211-213 | The plain unit step carries no `ensures` of its own. Its properties are stated by `StepWithinFace` and `ReturnAfterStep`. |
| CubeNet.RunCellShape | cubeMaze.py:159-179 | Cell k of an id's run, from `offset_from_edge`, is its reference location's cell k. |
| CubeNet.LocationCellOnNet | cubeMaze.py:159-179 | Every cell of a run is a net cell, in the block and at the offset the location gives. |
| CubeNet.RunCellOnNet | cubeMaze.py:159-179 | Every cell of an id's run is a net cell. |
| CubeNet.LocationCellEdge | cubeMaze.py:86-106 | Every cell of a run reports that run's id in `edges_from_point`. |
| CubeNet.RunCellCrossing | cubeMaze.py:86-106 | Cell k of an id's run reports the id. Moving in the id's crossing direction crosses over that id, and the cell's position along the run is k. |
| CubeNet.ColumnCellAt | cubeMaze.py:89-95 | A cell whose column test finds an id is a cell of that id's run. |
| CubeNet.RowCellAt | cubeMaze.py:98-104 | A cell whose row test finds an id is a cell of that id's run. |
| CubeNet.CrossingOnRun | cubeMaze.py:202-209 | A cell that crosses over an id lies on that id's run, at the position its own offset gives. The id's crossing direction is the direction moved. |
| CubeNet.ProcessShape | cubeMaze.py:183-198 | `process_affected_direction` lands on the partner's run, at the position the swap and inversion give. |
| CubeNet.OffsetLock | cubeMaze.py:159-179 | The locked axis of `offset_from_edge` is the axis of the id's table. |
| CubeNet.ProcessLandsOnRun | cubeMaze.py:183-198 | The relative coordinates stay in [0, S) through swap and invert. The result is a cell of the partner's run, which is on the net and reports the partner in `edges_from_point`. |
| CubeNet.PositionAfterOnRun | cubeMaze.py:183-198 | Swapping and inverting the coordinates of cell k of a run gives position k, or S-1-k when inverted. |
| CubeNet.ProcessOnRun | cubeMaze.py:183-198 | Crossing from cell k of an id's run lands on the partner's run at k, or at S-1-k when the pair inverts. |
| CubeNet.ColumnEffect | cubeMaze.py:89-95 | The effect of the column id moves horizontally: LEFT on a leading column, RIGHT on a trailing one. |
| CubeNet.RowEffect | cubeMaze.py:98-104 | The effect of the row id moves vertically: UP on a leading row, DOWN on a trailing one. |
| CubeNet.AffectedOfTwo | cubeMaze.py:149-155 | `affected_directions` of the column and row ids is their effects, in that order. |
| CubeNet.FirstOfTwo | cubeMaze.py:205-208 | The first matching effect of two concatenated lists comes from the first list if it has one. |
| CubeNet.NextCellCases | cubeMaze.py:202-213 | Moving over an edge of the face, `next_cell` processes that id's crossing with its flags. Otherwise it takes the plain unit step. |
| CubeNet.StepWithinFace | cubeMaze.py:211-213 | A plain step from a net cell that crosses no edge lands on a net cell. From there the opposite direction crosses no edge either. |
| CubeNet.CrossingLands | cubeMaze.py:202-209 | A crossing from a net cell lands on a net cell of the partner's run. |
| CubeNet.NextCellLands | cubeMaze.py:202-213 | For S >= 2, `next_cell` from a net cell in any direction returns a net cell (the check in cubeMaze.py:288-297). |
| CubeNet.RunReturn | cubeMaze.py:183-198 | Crossing from cell k of a run and crossing back from the landing cell returns to cell k. |
| CubeNet.ReturnAfterCrossing | cubeMaze.py:202-209 | After a crossing over an id, moving from the landing cell in the partner's direction comes back. |
| CubeNet.ReturnAfterStep | cubeMaze.py:211-213 | After a plain step, the opposite direction comes back. |
| CubeNet.NextCellReturnTrip | cubeMaze.py:202-213 | The reverse traversal. After a crossing over id e, the cell reached reports e's partner e'. Moving from it in `parse_edge_effect(e')`'s direction returns. After a plain step, `opposite` returns. |
| CubeNet.NextCellSymmetric | cubeMaze.py:202-213 | Every cell reached from a net cell has some direction leading back. |
| CubeNet.SanityCheckAdmitsSideOne | cubeMaze.py:23-24 | The sanity check accepts S = 1, yet there a step right from the net cell (1, 0) goes to the excluded cell (2, 0). |
| CubeNet.AllStepsLand | cubeMaze.py:202-213 | For S >= 2, every step from every net cell stays on the net. |
| CubeNet.SideLengthSupported | cubeMaze.py:23-24 | The corrected side-length check: whenever it passes, no step from a net cell leaves the net. |
| CubeNet.UpFromEdgeOne | cubeMaze.py:202-213 | A step up from (S, 0) crosses edge 1 onto edge 4, inverted, landing at (4S-1, S). |
| CubeNet.DownFromEdgeFour | cubeMaze.py:211-213 | A step down from (4S-1, S) stays on its face. |
| CubeNet.NaiveReturnFails | cubeMaze.py:202-213 | The naive round trip fails: from (4S-1, S), `opposite(UP)` does not return to (S, 0), but edge 4's direction does. |
| Generator.FillInitialMaze | cubeMaze.py:255-259 | `fill_initial_maze` carries no `ensures` of its own. Its properties are stated by `FillInitialMazeShape` and `FillInitialMazeWalls`. |
| Generator.FillInitialMazeShape | cubeMaze.py:255-259 | `fill_initial_maze` gives 4S columns of 3S cells. A cell is a wall exactly when it is not excluded, and is None otherwise. |
| Generator.ColumnWalls | cubeMaze.py:255-259 | The first n cells of a column hold n walls on a middle column, or the part of [S, 2S) below n elsewhere. |
| Generator.FullColumnWalls | cubeMaze.py:255-259 | A whole column holds 3S walls in the middle and S elsewhere. |
| Generator.GridWalls | cubeMaze.py:255-259 | The first n columns hold S walls per column plus 2S more per middle column. |
| Generator.FillInitialMazeWalls | cubeMaze.py:255-259 | The initial grid holds exactly 6S² walls, the six faces. |
| Generator.GetFirstPoint | cubeMaze.py:19-20 | The first point, `(3 * S) / 2` twice, is on the net, at the centre block of the middle face. |
| Generator.FirstPointOnNet | cubeMaze.py:19-20 | (3S)/2 lies in the middle band, so (3S/2, 3S/2) is a net cell. |
| Generator.Neighbors | cubeMaze.py:217-218 | The four `next_cell` results, in the order `for d in Direction` visits, are all net cells. |
| Generator.NeighborsLand | cubeMaze.py:217-218 | Every neighbour of a net cell is a net cell. |
| Generator.WallsAmong | cubeMaze.py:217-218 | The filter keeps only listed cells that are walls and misses none of them. Its length is the number of list positions holding a wall. It keeps all of them exactly when all are walls. |
| Generator.WallNeighbors | cubeMaze.py:217-218 | `wall_neighbors` returns net cells that are walls, and misses no neighbour that is a wall. Its length, which `wall_can_become_passage` compares with 3, is the number of the four directions whose `next_cell` is a wall. |
| Generator.FirstPassageFrom | cubeMaze.py:224-228 | The search returns the first direction, from the given one on, that leads to a passage. It returns none exactly when no such direction is left. |
| Generator.BackDirection | cubeMaze.py:224-228 | The way back is the first direction in enum order that leads to a passage. |
| Generator.AcrossCells | cubeMaze.py:234-237 | The two cells inspected are net cells: the neighbours of the forward cell on either side, across the direction of travel. |
| Generator.HasFrontDiagonalNeighbors | cubeMaze.py:222-237 | `has_front_diagonal_neighbors` carries no `ensures` of its own. It is characterised by `HasFrontDiagonalNeighborsIff`. |
| Generator.HasFrontDiagonalNeighborsIff | cubeMaze.py:222-237 | Let the way back be the first direction leading to a passage, and the cell ahead the neighbour opposite to it. The cell ahead is a net cell. The function holds exactly when a step across the direction of travel from the cell ahead reaches a passage. |
| Generator.AcrossPassage | cubeMaze.py:233-237 | One of the two cells inspected is a passage exactly when some direction across the travel leads from the cell to a passage. |
| Generator.ThreeWallsLeaveAPassage | cubeMaze.py:240-243 | In a grid laid out as the net, a cell with three wall neighbours has a passage as its fourth neighbour. The comment at cubeMaze.py:242 promises this. |
| Generator.WallCanBecomePassage | cubeMaze.py:241-243 | A wall is accepted only with exactly three wall neighbours and a passage next to it. |
| Generator.RemoveFirst | cubeMaze.py:283 | `list.remove` drops exactly one occurrence of the value: one entry fewer, one occurrence fewer in the multiset, nothing new. |
| Generator.FirstIndex | cubeMaze.py:283 | The index `list.remove` works at holds the value, and no earlier entry does. |
| Generator.RemoveFirstCutsFirst | cubeMaze.py:283 | `list.remove` cuts out the first occurrence of the value and keeps the other entries in their order. |
| Generator.RemoveFirstAppend | cubeMaze.py:280-283 | Removing a value that the old part of the list holds leaves the appended part in place. |
| Generator.MazeGenerator.constructor | graphics.py:17-22 | The generator starts with an empty grid, no walls and no cell generated. |
| Generator.MazeGenerator.Fill | cubeMaze.py:255-259 | The grid becomes a fresh copy of `fill_initial_maze(S)`. The wall list and the last cell are kept. |
| Generator.MazeGenerator.Carve | cubeMaze.py:271 | Writing "P" on a net cell, as here and at cubeMaze.py:280, changes that cell only and keeps the grid laid out as the net. |
| Generator.MazeGenerator.Begin | cubeMaze.py:267-272 | The first call carves the first point. The wall list becomes the point's wall neighbours. |
| Generator.MazeGenerator.Examine | cubeMaze.py:275-283 | The picked wall is carved exactly when `wall_can_become_passage` holds. One occurrence of it is removed, after its wall neighbours were appended if it was carved. Nothing else changes. |
| Generator.MazeGenerator.Accept | cubeMaze.py:277-283 | Carving the picked wall changes that cell only, appends its wall neighbours, and removes one occurrence of it. |
| Generator.MazeGenerator.Step | cubeMaze.py:262-284 | One `step_generator` call, with its result stored as graphics.py stores it. Only "P" is ever written, so None cells and "P" cells never change. An empty grid gives `(False, None)` and no change. The first call carves the first point and queues its wall neighbours. Walls exhausted after that give `(False, last)` and no change. Otherwise the pick is carved exactly when `wall_can_become_passage` accepts it, so only with three wall neighbours. The wall list gains only walls and loses one occurrence of the pick. The result is `(len(walls) > 0, last)`. The grid stays laid out as the net, and every listed wall stays on the net. |

## Left out

- graphics.py: window creation, drawing, resizing, the timer and the reset key
  are user interface. Only its use of `fill_initial_maze` and of
  `step_generator`'s result is modelled, by `Fill` and by `Step` storing the
  cursor in `last`.
- `random.choice` is replaced by a caller-supplied index `pick` into the wall
  list. Nothing is claimed about the distribution.
- The `print` calls at cubeMaze.py:258 and cubeMaze.py:265 are output only.
- The `exit(1)` of the sanity check at cubeMaze.py:23-24 is not modelled as a
  process exit. The check is modelled as a predicate, and the generator
  requires the corrected check instead (see Findings).
- `get_first_point` computes `int(side_length * 1.5)` in floating point. The
  model uses `(3 * S) / 2`. The two agree for every S from 0 up to 2^51, where
  the product is exact. Above that, the product may be rounded and they can
  differ: at S = 2^52 + 1, `int(S * 1.5)` is 6755399441055746 but
  `(3 * S) / 2` is 6755399441055745.
- The file-writing block at cubeMaze.py:288-297 is commented-out I/O. Only the
  property it checks is kept, as `CubeNet.NextCellLands`.
- `fill_initial_maze` assigns the global `side_length` (cubeMaze.py:256-257).
  The model passes `S` explicitly and keeps it as a constant field of the
  generator.
- Python's negative indexing and `IndexError` are not modelled. `NextCell`
  requires an in-range cell, and the grid functions require net cells.
  Callers in the source only ever pass such cells.
- Generator.HasFrontDiagonalNeighbors: requires a passage next to the cell.
  Without one, the Python loop leaves `back_direction` unbound and the call
  fails. `ThreeWallsLeaveAPassage` shows that `wall_can_become_passage` always
  provides one.
- Generator.WallCanBecomePassage: requires the grid to be laid out as the net
  (`Shaped`). It states only the direction "accepted implies three walls and
  a neighbouring passage", because the converse is the rule itself.
- CubeNet.ProcessAffectedDirection and CubeNet.NextCell: carry no `ensures`
  of their own. Their properties are the lemmas `ProcessShape`,
  `ProcessLandsOnRun`, `ProcessOnRun`, `NextCellCases`, `NextCellLands` and
  `NextCellReturnTrip`.
- Generator.WallsAmong and Generator.WallNeighbors: state how many cells are
  kept and which, not the order in which they are kept.
- That the finished maze is a spanning tree, or that no wall remains at the
  end, is never claimed or checked by the source, and is not modelled.

## Findings

| source | as written | input that shows it | evidently intended | confidence | as-written member | corrected member |
|---|---|---|---|---|---|---|
| cubeMaze.py:23-24 | Only `side_length == 0` is refused, and graphics.py:73-75 accepts any side. | S = 1: `x % 1 == 0` always holds, so trailing edges are never seen. `next_cell(1, 0, RIGHT)` then steps plainly to the excluded cell (2, 0). | Refuse side lengths below 2, for which no step leaves the net. | not executed; high for the arithmetic, medium that S = 1 was meant to be refused | CubeNet.SanityCheckAdmitsSideOne | CubeNet.SideLengthSupported |
