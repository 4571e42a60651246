# Maze generator of SAS, modelled in Dafny

This project models the maze generation engine of the SAS game: the coarse maze of
`Assets/Scripts/Maze.cs` and the fine walking grid that `Assets/Scripts/MazeGrid.cs`
derives from it.

A maze is a `Width × Height` array of cells. Each cell has four wall flags (left, right,
top, bottom). Each cell also carries marks: visited, room, room number, locked, key
number, enemy spawn and treasure spawn. `GenerateMaze` builds a level in this order:

1. It marks the start cell visited.
2. It places random rectangular rooms. Each room of positive size gets one exit, and a door
   is recorded wherever a wall next to a room is removed.
3. It sets the flags on the outer boundary.
4. It carves corridors with a randomized depth-first backtracker that prefers going straight.
5. It removes extra walls to make cycles.
6. When asked, it walls dead ends back up.
7. When asked, it thins shared walls so that each is recorded on one side only.

The item passes then place keys for the doors, enemies and treasures on cells with an
exit. Each pass skips the cells already claimed in the shared `filledPoints` list.
`MazeGrid.CreateGrid` turns every coarse cell into a `scaleCoef × scaleCoef` block of fine
cells. A boolean rule over the coarse walls and the position in the block decides whether
a fine cell is walkable or a camera slot.

Modules, one per file:

- `Lists` (`lists.dfy`): the two `List<T>` operations the generator relies on. These are
  `Remove`, which drops the first occurrence, and the copy loop of the straight-corridor bias.
- `Rand` (`random.dfy`): `UnityEngine.Random` as a class. It holds a fixed stream of draws
  and a counter of how many were consumed.
- `MazeCells` (`maze_cell.dfy`): coordinates, `MazeCell`, `MazeDoor`, the exceptions the
  code can raise, and the wall arithmetic of `RemoveWall` and `PlaceRoom`.
- `Carving` (`carve.dfy`): the shape of what the backtracker carves, stated over grid
  snapshots (maps from coordinates to cells).
- `Reshaping` (`reshape.dfy`): `MakeCycles`, `RemoveDeadEnds` and the single-walls pass,
  stated over grid snapshots.
- `Mazes` (`maze.dfy`): the class `Maze`. It holds the cell array, the door list, the
  start point, the next free room number and `filledPoints`, and has every operation of
  `Maze.cs` as a method.
- `MazeGrids` (`maze_grid.dfy`): `GridCell`, the fine-cell rule, and the class `MazeGrid`
  with `CreateGrid`, the indexer and the camera-slot accessors.

Randomness is a parameter. Every `UnityEngine.Random.Range` call draws from a `Random`
object whose stream is arbitrary, so every property holds for every sequence of draws.

A .NET exception that a caller's input can provoke is an outcome of the operation, not a
precondition: `Status.Threw(IndexOutOfRange | ArgumentOutOfRange | InvalidOperation | Overflow)`.
The one exception to this is `CreateGrid`'s negative scale, listed under "## Left out".
This covers:

- a negative width or height in `CreateMaze`;
- the exit offset of `PlaceRoom` pointing outside the grid;
- an empty-stack `Pop` in the backtracker;
- the index error of `InitTreasures`;
- a start point outside the grid.

Two details of the code shape several properties below:

- `MakeCycles` removes walls only between two corridor cells (`Assets/Scripts/Maze.cs:454-471`),
  so it never records a door.
- `GetExitCount` counts a side as open only when the cell's own flag and the neighbour's
  facing flag are both clear (`Assets/Scripts/Maze.cs:73-82`).

Ghost out-parameters name what an operation did when its result is otherwise invisible.
They record which walls were removed, which passages were carved, which cells received
keys, and similar facts.

## Model

| member | source | states |
|---|---|---|
| Lists.RemoveFirst | Assets/Scripts/Maze.cs:297 | `List.Remove(v)`: an absent value leaves the list as it was; a present one leaves a list one shorter whose multiset has lost exactly one `v` |
| Lists.RemoveFirstAt | Assets/Scripts/Maze.cs:297 | `Remove(v)` cuts out the first occurrence of `v` and keeps the other elements in their order: with `v` first at index `i`, the result is `s[..i] + s[i+1..]` |
| Lists.RemoveFirstDistinct | Assets/Scripts/Maze.cs:297 | on a list without repetitions, `Remove(v)` keeps it without repetitions and leaves exactly the other elements |
| Lists.DrawnStep | Assets/Scripts/Maze.cs:294-297 | drawing a remaining element and `Remove`-ing it keeps the account of a draw loop: what is left and what was chosen stay without repetitions, partition the pool, and their lengths add up to the pool's |
| Lists.Copies | Assets/Scripts/Maze.cs:386 | `k` copies of a value: length `k` (0 when `k` is not positive), every element that value |
| Lists.CopiesCount | Assets/Scripts/Maze.cs:386 | the copies hold `c` exactly `k` times (none for `k <= 0`) and no other value |
| Lists.AppendCopies | Assets/Scripts/Maze.cs:386 | the `for (i < straightCoef) Add(cell)` loop appends exactly `Copies(cell, straightCoef)` to the list |
| Rand.Random.InitState | Assets/Scripts/Maze.cs:105-108 | seeding fixes the stream of draws and consumes none |
| Rand.Random.Range | Assets/Scripts/Maze.cs:137 | `Random.Range(lo, hi)` on integers returns a value in `[lo, hi)`, or `lo` when the range is empty, and consumes one draw |
| MazeCells.WithWall | Assets/Scripts/Maze.cs:12-15 | setting one wall flag changes that flag only, no other flag and nothing but the walls |
| MazeCells.AdjacentIsDistanceOne | Assets/Scripts/Maze.cs:533 | two cells are grid neighbours exactly when their Manhattan distance is 1, the distance the `RemoveWall` guard tests |
| MazeCells.FacingNeighbour | Assets/Scripts/Maze.cs:544-569 | for neighbours, the flag `RemoveWall(a, b)` clears on `a` faces `b`, and the flag it clears on `b` is the opposite side, facing `a` |
| MazeCells.DoorIndexOfRoom | Assets/Scripts/Maze.cs:534-543 | the recorded door joins `a` and `b`; it is locked iff either cell is; its index is `b`'s room number, or `a`'s when `b`'s is 0 |
| MazeCells.RemoveWallOnlyOpens | Assets/Scripts/Maze.cs:544-569 | `RemoveWall` only clears wall flags and changes nothing else in any cell |
| MazeCells.RemoveWallClearsFacingPair | Assets/Scripts/Maze.cs:544-569 | for two distinct neighbours exactly the facing pair of flags is cleared, one in each cell, and no other flag of any cell changes |
| MazeCells.RoomCellWalls | Assets/Scripts/Maze.cs:232-235 | a placed room cell has a wall on a side exactly when its neighbour on that side is outside the room rectangle |
| MazeCells.RoomCellsAgree | Assets/Scripts/Maze.cs:232-235 | two neighbouring cells of one room both have the wall between them absent |
| Carving.CarveBegins | Assets/Scripts/Maze.cs:369-373 | before the first move nothing is carved and the only change to the grid is the start cell marked visited |
| Carving.CarveShapeExtends | Assets/Scripts/Maze.cs:414-426 | a move from the start or a carved-to cell into an unvisited neighbour keeps the passages a tree rooted at the start |
| Carving.RootedExtends | Assets/Scripts/Maze.cs:425-426 | a move leaving the start or a cell already entered keeps every passage rooted at the start |
| Carving.EnteredOnceExtends | Assets/Scripts/Maze.cs:424 | a move into a cell not entered before keeps every cell entered at most once |
| Carving.OnlyOpenedExtends | Assets/Scripts/Maze.cs:423-424 | a move changes cells only by removing walls and marking the entered cell visited |
| Carving.WallOpenedByStep | Assets/Scripts/Maze.cs:423 | a flag cleared by a move is one of the two flags of the passage it cuts |
| Carving.OpenedAreCarvedExtends | Assets/Scripts/Maze.cs:423 | every flag the carve has cleared belongs to a carved passage |
| Carving.PassageAfterStep | Assets/Scripts/Maze.cs:423 | a move opens its passage from both sides and closes no open passage |
| Carving.PassagesOpenExtends | Assets/Scripts/Maze.cs:423 | all passages carved so far stay open after a move |
| Carving.VisitedExtends | Assets/Scripts/Maze.cs:424 | after a move the visited cells are exactly those of the initial grid, the start and the cells the passages enter |
| Carving.CarveExtends | Assets/Scripts/Maze.cs:414-426 | one forward move extends the carve by exactly one passage: tree shape, walls opened and cells visited all follow |
| Carving.RoomsMarkedAfterStep | Assets/Scripts/Maze.cs:423-424 | a move neither unmarks a visited room cell nor changes which cells are rooms |
| Carving.WalkBegins | Assets/Scripts/Maze.cs:369-373 | the walk starts on the start cell with an empty stack and nothing carved |
| Carving.WalkPush | Assets/Scripts/Maze.cs:423-426 | a forward move takes the entered cell off the cells still to reach, pushes it and makes it current |
| Carving.WalkPop | Assets/Scripts/Maze.cs:428-431 | a step back pops the stack and the popped cell, in the grid, becomes current |
| Reshaping.DeadEndSide | Assets/Scripts/Maze.cs:498-523 | the side `RemoveDeadEndCell` picks has its own flag clear and a neighbour in the grid; when there is none, every side facing a neighbour is walled |
| Reshaping.OpenAllOnlyOpens | Assets/Scripts/Maze.cs:450-473 | removing a list of walls only ever removes walls |
| Reshaping.RemoveWallKeepsSymmetry | Assets/Scripts/Maze.cs:544-569 | `RemoveWall` on two neighbours keeps neighbouring cells agreeing on their walls |
| Reshaping.OpenAllKeepsSymmetry | Assets/Scripts/Maze.cs:450-473 | removing any list of neighbour walls keeps neighbouring cells agreeing |
| Reshaping.CycleWallsExtend | Assets/Scripts/Maze.cs:454-471 | a wall that qualifies for `MakeCycles` when its turn comes extends the list of qualified removals |
| Reshaping.CycleProgressStep | Assets/Scripts/Maze.cs:450-473 | one draw of `MakeCycles` moves the cell from the points list to the examined list and adds the wall it removed, if any; a drawn cell that lost no wall still has none to lose afterwards |
| Reshaping.CycleWallStaysGone | Assets/Scripts/Maze.cs:453-471 | removing walls never gives a cell a closed wall to a corridor neighbour on its left or below, so a cell that had none when drawn has none later |
| Reshaping.CycleWallsStayGone | Assets/Scripts/Maze.cs:450-473 | one more removal keeps every drawn cell that lost no wall without a wall to lose |
| Reshaping.CycleWallsKeepSymmetry | Assets/Scripts/Maze.cs:435-475 | `MakeCycles` keeps neighbouring cells agreeing on their walls |
| Reshaping.OpenAllOpens | Assets/Scripts/Maze.cs:450-473 | after the removals every removed wall is open from both sides |
| Reshaping.PassageStaysOpen | Assets/Scripts/Maze.cs:544-569 | `RemoveWall(a, b)` opens the wall between `a` and `b` and closes no open passage |
| Reshaping.CloseGridOnlyCloses | Assets/Scripts/Maze.cs:498-522 | walling up a side only adds walls |
| Reshaping.CloseAllOnlyCloses | Assets/Scripts/Maze.cs:477-525 | the dead-end pass only ever adds walls |
| Reshaping.CloseAllAppend | Assets/Scripts/Maze.cs:477-486 | walling up two trails one after the other is walling up their concatenation |
| Reshaping.CloseGridKeepsSymmetry | Assets/Scripts/Maze.cs:500-521 | setting a flag and the neighbour's facing flag together keeps neighbouring cells agreeing |
| Reshaping.CloseAllKeepsSymmetry | Assets/Scripts/Maze.cs:477-525 | the dead-end pass keeps neighbouring cells agreeing on their walls |
| Reshaping.OpenTowardsShrinks | Assets/Scripts/Maze.cs:76-79 | putting walls back never opens a side for `GetExitCount` |
| Reshaping.CloseGridElsewhere | Assets/Scripts/Maze.cs:498-522 | walling up side `d` of `p` leaves every cell other than `p` and its neighbour behind `d` unchanged, and their exits too |
| Reshaping.CloseGridSeals | Assets/Scripts/Maze.cs:498-522 | walling up the one open side of a dead end leaves it with no exit |
| Reshaping.DeadEndTrailRemoves | Assets/Scripts/Maze.cs:488-525 | after `RemoveDeadEndCell(p)` every cell it could act on was actionable before, and `p` no longer is: the pass creates no new dead end |
| Reshaping.DeadEndTrailSteps | Assets/Scripts/Maze.cs:488-525 | each side the recursion walls up was the chosen side of a removable cell when its turn came |
| Reshaping.DeadEndStepsAppend | Assets/Scripts/Maze.cs:479-485 | the trails of consecutive `RemoveDeadEndCell` calls concatenate |
| Reshaping.SweepStep | Assets/Scripts/Maze.cs:479-485 | after the call on cell `(x, y)` no cell scanned so far is removable any more |
| Reshaping.ClearFlagsShrink | Assets/Scripts/Maze.cs:498-522 | each wall-up step sets a flag that was clear, so the recursion of `RemoveDeadEndCell` ends |
| Reshaping.ExitsGrow | Assets/Scripts/Maze.cs:66-82 | removing walls never takes an exit away |
| Reshaping.TopRightClearedOpens | Assets/Scripts/Maze.cs:174-175 | clearing top and right flags only removes walls |
| Reshaping.ThinStep | Assets/Scripts/Maze.cs:172-176 | one cell of the single-walls pass keeps the pass's loop state, moving to the next row |
| Reshaping.ThinStepCleared | Assets/Scripts/Maze.cs:174-175 | one step clears only top and right flags |
| Reshaping.ThinStepSettled | Assets/Scripts/Maze.cs:174-175 | after its step a cell keeps its top flag exactly when it had one before the pass and the cell above had no exit before the pass; likewise its right flag and the cell to the right; the neighbours keep their own flags |
| Reshaping.ThinKeepsExitSign | Assets/Scripts/Maze.cs:174-175 | one step of the pass changes no other cell's having an exit: it clears a flag facing a neighbour only when that neighbour already has an exit, and takes no exit away; so the exit count the loop reads for a cell not yet handled is positive exactly when it was before the pass |
| Reshaping.ExitsAheadAt | Assets/Scripts/Maze.cs:174-175 | a cell the pass has not handled yet, inside the grid or outside it, has an exit exactly when it had one before the pass |
| Reshaping.ThinNextColumn | Assets/Scripts/Maze.cs:170-172 | finishing a column of the pass moves the loop state to the next column |
| Reshaping.NonWallsKeepRooms | Assets/Scripts/Maze.cs:163-178 | a pass that changes only walls keeps the rooms and the visited marks |
| Reshaping.CarvedInGrid | Assets/Scripts/Maze.cs:414-426 | every carved passage leaves a cell of the grid and enters a cell of the grid |
| Reshaping.CarveKeepsOuter | Assets/Scripts/Maze.cs:367-433 | the backtracker leaves the flags facing out of the grid and the room marks as they were |
| Reshaping.RemoveWallKeepsOuter | Assets/Scripts/Maze.cs:544-569 | `RemoveWall` between cells of the grid leaves the outer boundary and everything but walls alone |
| Reshaping.OpenAllKeepsOuter | Assets/Scripts/Maze.cs:435-475 | `MakeCycles` leaves the outer boundary and everything but walls alone |
| Reshaping.CloseGridKeepsOuter | Assets/Scripts/Maze.cs:498-522 | walling up an inner side leaves the outer boundary and everything but walls alone |
| Reshaping.CloseAllKeepsOuter | Assets/Scripts/Maze.cs:477-486 | `RemoveDeadEnds` leaves the outer boundary and everything but walls alone |
| Reshaping.ThinnedKeepsOuter | Assets/Scripts/Maze.cs:168-178 | the single-walls pass, which never reaches the last column or row, leaves the outer boundary and everything but walls alone |
| Reshaping.KeptCompose | Assets/Scripts/Maze.cs:163-178 | keeping the boundary and non-wall marks composes across consecutive passes |
| Reshaping.ReshapeAfterCarve | Assets/Scripts/Maze.cs:163-178 | what the carve kept (boundary, rooms) and the cells it marked visited survive the passes after it |
| Mazes.ScanOrderedDistinct | Assets/Scripts/Maze.cs:281-290 | a candidate list built column by column, bottom to top, has no repetitions |
| Mazes.Placed | Assets/Scripts/Maze.cs:268-274 | the list of cells given keys is no longer than the list of doors |
| Mazes.PlacedHolds | Assets/Scripts/Maze.cs:268-274 | a cell received a key iff some door's entry names it |
| Mazes.KeyKeepsExits | Assets/Scripts/Maze.cs:356 | writing a key number changes no cell's exit count |
| Mazes.KeysLaidSkip | Assets/Scripts/Maze.cs:272 | a door that gets no key leaves the grid and `filledPoints` unchanged |
| Mazes.KeysLaidStep | Assets/Scripts/Maze.cs:272 | a key placed on an eligible, unclaimed cell extends what `InitKeys` has done: the cell holds the door's number, is claimed once, and no other cell changes |
| Mazes.RoomsDrawnExtend | Assets/Scripts/Maze.cs:134-149 | a room placed by the loop extends the record of rooms: consecutive numbers, the first `lockedCount` locked, clear of earlier rooms and of the start by one cell |
| Mazes.RoomStays | Assets/Scripts/Maze.cs:163-178 | a pass that keeps room marks keeps every placed room intact |
| Mazes.OuterWallsStay | Assets/Scripts/Maze.cs:151-178 | a pass that keeps the outer boundary keeps it at the value it was set to |
| Mazes.Maze.constructor | Assets/Scripts/Maze.cs:85-101 | a new maze has the given size, every cell has four walls and no marks, and there are no doors and no claimed points |
| Mazes.Maze.CreateMaze | Assets/Scripts/Maze.cs:84-104 | a negative width or height throws (the array allocation) and yields no maze; otherwise the maze is as the constructor makes it |
| Mazes.Maze.Cell | Assets/Scripts/Maze.cs:45-52 | the indexer returns a cell iff the coordinate is inside the grid, and that cell is the stored one |
| Mazes.Maze.DoorsCount | Assets/Scripts/Maze.cs:55-58 | the number of recorded doors |
| Mazes.Maze.Door | Assets/Scripts/Maze.cs:59-63 | a door is returned iff the index is inside the door list, and it is the door at that index |
| Mazes.Maze.ExitCount | Assets/Scripts/Maze.cs:66-82 | the exit count lies in 0..4 and is 0 outside the grid |
| Mazes.Maze.ExitCountIsOpenSides | Assets/Scripts/Maze.cs:72-82 | the exit count is the number of sides whose own flag and, when there is a neighbour, the neighbour's facing flag are both clear; it is positive iff one such side exists |
| Mazes.Maze.RemoveWall | Assets/Scripts/Maze.cs:531-570 | every cell becomes its `RemoveWall` value, with nothing changed for cells more than one step apart and both top and bottom cleared when `a == b`; one door is appended iff the guard passes and either cell is a room; symmetry is kept for `a != b` |
| Mazes.Maze.ClearFacingFlags | Assets/Scripts/Maze.cs:544-569 | the wall half of `RemoveWall` on cells at most one step apart |
| Mazes.Maze.ClearVertical | Assets/Scripts/Maze.cs:544-556 | the top flag of the lower cell and the bottom flag of the upper one are cleared (both of one cell when they coincide), no other cell changes |
| Mazes.Maze.ClearHorizontal | Assets/Scripts/Maze.cs:557-569 | the right flag of the left cell and the left flag of the right one are cleared, no other cell changes, symmetry is kept |
| Mazes.Maze.RemoveWallAt | Assets/Scripts/Maze.cs:527-530 | the public overload completes iff both coordinates are in the grid, and then changes cells and doors exactly as `RemoveWall` does; otherwise the array index throws and nothing changes |
| Mazes.Maze.CanPlaceRoom | Assets/Scripts/Maze.cs:206-216 | the answer is true iff every cell of the rectangle widened by the margin is in the grid, no room and not visited |
| Mazes.Maze.RoomOrigins | Assets/Scripts/Maze.cs:183-195 | the candidate origins are exactly those inside the strict loop bounds at which the room and its margin fit |
| Mazes.Maze.FillRoom | Assets/Scripts/Maze.cs:225-244 | every cell of the rectangle becomes a room cell with the number and lock, walled exactly on the rectangle's boundary; other cells are unchanged; the exit candidates are the rectangle's edge cells |
| Mazes.Maze.ExitNeighbours | Assets/Scripts/Maze.cs:249-256 | the neighbours listed are exactly the in-grid non-room cells beside the exit cell |
| Mazes.Maze.OpenRoomExit | Assets/Scripts/Maze.cs:246-264 | from a non-empty list an exit cell is drawn; a wall is removed exactly when the list is non-empty and the drawn cell has a neighbour in the grid that is not a room cell, and then it runs from the drawn cell to such a neighbour; the doors are the old ones followed by exactly the door `RemoveWall` records for that pair (`MakeDoor` on the cells before the removal), and no door when no wall is removed |
| Mazes.Maze.RoomExitDoor | Assets/Scripts/Maze.cs:531-540 | the door recorded for an exit from a cell of a room to a non-room neighbour carries the neighbour's room number when it has one and the room's number otherwise, and is locked when the room or the neighbour is |
| Mazes.Maze.ExitLookup | Assets/Scripts/Maze.cs:222-224 | an exit offset on one of the room's edge lines makes its cell the only exit candidate, and the lookup throws exactly when that cell is outside the grid; otherwise there is no candidate yet |
| Mazes.Maze.PlaceRoom | Assets/Scripts/Maze.cs:218-266 | the next free room number is raised to at least `roomNumber + 1` in every case; a rectangle that does not fit changes no cell and no door; an exit offset on an edge line whose cell is outside the grid throws; otherwise the room is written and the exit cell is the offset's cell, or with no offset on an edge line one of the room's edge cells; a wall from it is removed exactly when the room has an exit candidate and the drawn cell has a neighbour in the grid that was neither a room cell nor in the new room; the doors gain exactly the door recorded for it; an exit from inside the room gives a door from `e` to `n` with the neighbour's number, or `roomNumber` when it has none, locked when the room or the neighbour is |
| Mazes.Maze.BuildRoom | Assets/Scripts/Maze.cs:225-264 | the room is written with its walls, number and lock; the exit cell is drawn from the given candidates followed, when edges are collected, by the room's edge cells; a wall from it is removed exactly when there is a candidate and the drawn cell has a neighbour in the grid that was neither a room cell nor in the new room; the doors gain exactly the door of that exit; from inside the room it carries the neighbour's room number if it has one and the room's otherwise, locked when either is |
| Mazes.Maze.RoomMadeBeside | Assets/Scripts/Maze.cs:225-256 | once the rectangle is made a room, a cell has a neighbour that is not a room cell exactly when it had one outside the rectangle before, so the exit test after the rectangle pass is decided by the cells before it |
| Mazes.Maze.EdgeHasOutsideNeighbour | Assets/Scripts/Maze.cs:206-256 | an edge cell of a room whose one-cell margin was free has a neighbour in that margin, in the grid, not a room cell and outside the room, so the exit of a room placed by `AddRoom` always opens |
| Mazes.Maze.NewRoomApart | Assets/Scripts/Maze.cs:181-216 | a room written where it and its margin were free keeps clear of the earlier rooms and of the visited start, the earlier rooms stay intact, earlier room cells keep everything but walls, and new room cells lie in the room |
| Mazes.Maze.AddRoom | Assets/Scripts/Maze.cs:181-204 | the result is true iff some origin within the strict bounds fits with a one-cell margin; then the room stands there, numbered and locked as asked, outside it walls are only removed, and the doors gain exactly the door of the exit; a room of positive size always gets its exit opened from one of its edge cells and exactly one door; when the exit leaves from inside the room, that door has the neighbour's room number if it has one and `roomNumber` otherwise, and is locked when the room or the neighbour is; on false nothing changes |
| Mazes.Maze.TryRandomRoom | Assets/Scripts/Maze.cs:136-138 | sizes are drawn between minimum and maximum; only a negative drawn size can throw; a placed room keeps clear, margin included, of the earlier rooms and of the start, and those rooms stay intact; new room cells lie in the room; the doors gain only the door of its exit, at most one, and exactly one, leading out of the room, when both drawn sizes are positive; that door runs from the exit cell to its neighbour, with the neighbour's room number if it has one and `number` otherwise, locked when the room or the neighbour is; nothing is added when no room is placed |
| Mazes.Maze.PlaceRandomRoom | Assets/Scripts/Maze.cs:135-146 | one pass of the room loop: the doors recorded since the loop began grow by at most one, by exactly one for a placed room and by none for a failed attempt when the minimum sizes are positive, which also rule out a throw; with plain corridors every recorded door joins neighbouring cells and leads out of a placed room, with that room's number and lock, or out of a room cell of the grid the loop started from; corridor cells are only opened, visited marks stay, and room cells are old ones or lie in the placed rooms |
| Mazes.Maze.AddRandomRooms | Assets/Scripts/Maze.cs:131-149 | the rooms are numbered consecutively from the next free number, the first `lockedCount` are locked, each keeps its margin from the others and from the start; the loop ends with `roomCount` rooms or after 5 failures in a row; the doors gain at most one per placed room, and with positive minimum sizes nothing throws and exactly one door per placed room; with plain corridors each new door joins neighbouring cells and leads out of a placed room, carrying its number and lock, or out of a room cell that was there before; corridor cells are only opened and earlier room cells keep everything but walls |
| Mazes.Maze.ExitDoorPlaced | Assets/Scripts/Maze.cs:531-540 | with no room number or lock on corridor cells, the door an exit to a corridor cell records leaves the exit cell with that cell's room number and lock, so it belongs to the placed room around it or to a room cell that was there before |
| Mazes.Maze.DoorsPlacedExtend | Assets/Scripts/Maze.cs:135-142 | doors that come from placed rooms still do after one more room is placed, and together with the new room's doors they make the loop's door list |
| Mazes.Maze.RoomsStep | Assets/Scripts/Maze.cs:135-142 | placing one more room keeps what the room loop promises about the grid it started from: corridor cells only opened, visited marks kept, room cells old or in a placed room, old room cells intact apart from walls, corridors plain |
| Mazes.Maze.SetOuterWalls | Assets/Scripts/Maze.cs:151-161 | every side facing out of the grid gets `createOuterWalls`, no other flag and nothing else changes, symmetry is kept |
| Mazes.Maze.SetRowWalls | Assets/Scripts/Maze.cs:151-155 | the top flags of the top row and the bottom flags of the bottom row get the value |
| Mazes.Maze.SetColumnWalls | Assets/Scripts/Maze.cs:157-161 | the right flags of the right column and the left flags of the left column get the value |
| Mazes.Maze.AddCandidate | Assets/Scripts/Maze.cs:381-388 | one block of the neighbour scan appends an unvisited neighbour once, then `straightCoef` more copies when the last move went that way, and leaves what was listed before in place |
| Mazes.ScanBlockCount | Assets/Scripts/Maze.cs:381-388 | one block lists a cell `1 + straightCoef` times when it is the block's unvisited neighbour and the last move went towards it (`straightCoef` counted as 0 when not positive), once when the move went elsewhere, and never otherwise |
| Mazes.FourBlocksTimes | Assets/Scripts/Maze.cs:379-412 | the four blocks together list a cell as often as the four blocks' own counts add up to |
| Mazes.SidesAddUp | Assets/Scripts/Maze.cs:379-412 | the four blocks' counts add up to the per-cell count: once for an unvisited grid neighbour, `straightCoef` more for the one straight ahead, zero for any other cell |
| Mazes.ScanCount | Assets/Scripts/Maze.cs:379-412 | the four blocks of a cell's neighbours list each cell as often as the per-cell count says |
| Mazes.Maze.CandidateCountAt | Assets/Scripts/Maze.cs:379-412 | on the grid, the four blocks list a given cell as often as the candidate count says |
| Mazes.Maze.CandidateCountByBlocks | Assets/Scripts/Maze.cs:376-412 | the four blocks together list each neighbour as often as the candidate count says |
| Mazes.Maze.ScanNeighbours | Assets/Scripts/Maze.cs:379-412 | the scan runs the four blocks in the order left, bottom, right, top, and lists each cell as often as the candidate count says |
| Mazes.Maze.CandidateCountPositive | Assets/Scripts/Maze.cs:376-412 | a cell is listed at all exactly when it is an unvisited grid neighbour |
| Mazes.Maze.CandidateNeighbours | Assets/Scripts/Maze.cs:376-413 | a room cell has no candidates; otherwise the list holds exactly the unvisited grid neighbours, the one straight ahead `straightCoef` extra times |
| Mazes.Maze.SetVisited | Assets/Scripts/Maze.cs:370 | only the visited mark of that cell changes, symmetry is kept |
| Mazes.Maze.CarveInto | Assets/Scripts/Maze.cs:423-424 | the wall to the neighbour is removed and it is marked visited; a door is recorded iff a room cell is involved; symmetry and visited rooms are kept |
| Mazes.Maze.CarveStep | Assets/Scripts/Maze.cs:414-427 | a move happens iff a candidate exists; it enters an unvisited neighbour, records the direction of the move and changes the grid by one carve step; no door appears while room cells are visited |
| Mazes.Maze.BeginCarve | Assets/Scripts/Maze.cs:369-373 | the start cell is marked visited and the cells still to reach are the unvisited others |
| Mazes.Maze.FirstMove | Assets/Scripts/Maze.cs:369-431 | the first pass of the loop moves iff the start has a candidate, carving exactly one passage; otherwise nothing is carved |
| Mazes.Maze.RemoveWallsWithBacktracker | Assets/Scripts/Maze.cs:367-433 | the carve throws (an empty `Pop`) iff the start has no candidate, because the start is never pushed; a completed carve cuts at least one passage; the carved passages form a tree rooted at the start over previously unvisited cells, exactly their walls are opened and exactly their cells and the start become visited |
| Mazes.Maze.OpenWall | Assets/Scripts/Maze.cs:460-468 | `RemoveWall` between two corridor cells records no door |
| Mazes.Maze.CyclePoints | Assets/Scripts/Maze.cs:439-448 | the points list holds every corridor cell exactly once |
| Mazes.Maze.OpenCycleWall | Assets/Scripts/Maze.cs:453-471 | a wall is removed iff the left or the bottom wall leads to a corridor neighbour (stated both on the grid and as `HasCycleWall` on the snapshot); with one candidate that one is taken, with both either; no door is recorded |
| Mazes.Maze.DrawCycleCell | Assets/Scripts/Maze.cs:452-472 | the drawn cell is one of the points; a wall is removed iff the cell has a closed wall to a corridor neighbour on its left or below, and the grid changes by that wall |
| Mazes.Maze.CanOpenOnSnapshot | Assets/Scripts/Maze.cs:455-456 | the left/bottom test on the grid is the qualifying-wall test on the snapshot |
| Mazes.Maze.HasCycleWallOnSnapshot | Assets/Scripts/Maze.cs:454-457 | a corridor cell gets a wall removed (`i` is not 0) exactly when it has a qualifying wall on its left or below |
| Mazes.Maze.MakeCycles | Assets/Scripts/Maze.cs:435-475 | at most `count` qualifying walls are removed, each from a distinct corridor cell drawn; every drawn cell that lost no wall has no qualifying wall left; fewer than `count` only when every corridor cell was examined, so then no corridor cell that lost no wall has a qualifying wall; only walls change, no door is recorded, symmetry is kept |
| Mazes.Maze.ExitCountOnSnapshot | Assets/Scripts/Maze.cs:72-82 | the exit count of the array equals the exit count of its snapshot |
| Mazes.Maze.CloseSide | Assets/Scripts/Maze.cs:498-522 | the flag of the side and the neighbour's facing flag are set |
| Mazes.Maze.DeadEndExit | Assets/Scripts/Maze.cs:498-523 | the side tested in the order bottom, top, left, right is the dead-end side of the snapshot |
| Mazes.Maze.RemoveDeadEndCell | Assets/Scripts/Maze.cs:488-525 | nothing happens unless the cell has exactly one exit, is no room and is not the start; otherwise one clear side towards a neighbour is walled up on both cells and the pass continues from that neighbour |
| Mazes.Maze.RemoveDeadEnds | Assets/Scripts/Maze.cs:477-486 | only walls are added, each at a removable dead end; with symmetric walls, symmetry is kept and no removable dead end is left |
| Mazes.Maze.ClearSharedFlags | Assets/Scripts/Maze.cs:174-175 | the top flag is cleared iff the cell above had an exit, the right flag iff the cell to the right had one; no other cell changes |
| Mazes.Maze.ThinCell | Assets/Scripts/Maze.cs:174-175 | the single-walls step on the array is the single-walls step on its snapshot |
| Mazes.Maze.SingleWalls | Assets/Scripts/Maze.cs:168-178 | each cell but the last column and row keeps its top (right) flag exactly when it had one and the cell above (right) had no exit before the pass, the exit count read when the cell is handled agreeing with that; the neighbour keeps its own flag, so each shared wall is left recorded on one side only |
| Mazes.Maze.Reshape | Assets/Scripts/Maze.cs:164-178 | the passes after the carve keep the outer boundary, rooms and visited marks; without the single-walls pass they keep symmetry; with dead-end removal they leave no removable dead end |
| Mazes.Maze.DeadEndsIfAsked | Assets/Scripts/Maze.cs:165 | dead ends are removed only when asked for, keeping the boundary and symmetry |
| Mazes.Maze.SingleWallsIfAsked | Assets/Scripts/Maze.cs:168-178 | the single-walls pass runs only when asked for and keeps the boundary and non-wall marks |
| Mazes.Maze.PrepareMaze | Assets/Scripts/Maze.cs:119-161 | a start outside the grid throws before any change; otherwise the start is visited, the rooms stand as drawn and the boundary has the asked value |
| Mazes.Maze.CarveFrom | Assets/Scripts/Maze.cs:163 | the carve keeps the boundary and rooms and marks exactly the start and the entered cells visited |
| Mazes.Maze.CarveAndReshape | Assets/Scripts/Maze.cs:163-178 | the carve and the passes after it keep the boundary and rooms, and the visited cells are those of before, the start and the carved cells |
| Mazes.Maze.GenerateMaze | Assets/Scripts/Maze.cs:109-179 | the whole generation: outer boundary as asked, rooms as drawn, carve tree from the start, visited cells exactly those reached, and no removable dead end when asked for (see Left out) |
| Mazes.Maze.Scan | Assets/Scripts/Maze.cs:281-290 | the candidate list holds exactly the in-grid cells with an exit, not claimed and suiting the item, in scan order, so each once |
| Mazes.Maze.ScanColumn | Assets/Scripts/Maze.cs:283-290 | the inner loop of a scan appends exactly the eligible cells of its column, bottom to top, after the earlier columns, so the list stays in scan order |
| Mazes.Maze.ExitsStay | Assets/Scripts/Maze.cs:66-82 | a change that keeps every wall flag keeps every exit count |
| Mazes.Maze.InitKey | Assets/Scripts/Maze.cs:336-365 | a key is placed iff a cell with an exit, unclaimed, in a room numbered above the door index exists, or, failing that, such a corridor cell; the chosen cell gets the door index and is claimed |
| Mazes.Maze.DoorKey | Assets/Scripts/Maze.cs:270-273 | one door of `InitKeys` extends what has been done for the doors before it |
| Mazes.Maze.InitKeys | Assets/Scripts/Maze.cs:268-274 | doors with index <= 0 get no key; every key sits on a distinct, previously unclaimed cell with an exit, in a deeper room or a corridor; the claimed list grows by exactly those cells; only key numbers change |
| Mazes.Maze.InitEnemies | Assets/Scripts/Maze.cs:276-301 | `min(enemyCount, candidates)` distinct candidate cells (none for a non-positive count) get an enemy and are claimed; no other cell changes |
| Mazes.Maze.SpawnEnemies | Assets/Scripts/Maze.cs:291-298 | the loop of `InitEnemies`: `min(count, pool)` distinct pool cells (none for a non-positive count) get an enemy and are appended to `filledPoints` in the order drawn; no other cell changes |
| Mazes.Maze.SpawnTreasures | Assets/Scripts/Maze.cs:319-325 | `min(coins, pool)` distinct pool cells get a treasure and leave the pool |
| Mazes.Maze.InitTreasures | Assets/Scripts/Maze.cs:302-334 | as written: `min(coinsInOpenCount, open)` distinct open cells get a treasure in the first loop; the second loop's picks are other open cells, so treasures only land on open cells and no locked cell gets one; the index error is thrown whenever the open list is used up and a locked coin is due; nothing is claimed |
| Mazes.Maze.SpawnLockedAsWritten | Assets/Scripts/Maze.cs:327-333 | the second loop as written picks only from the open list, and throws when that list is empty and a locked coin is due |
| Mazes.Maze.InitTreasuresIntended | Assets/Scripts/Maze.cs:302-334 | corrected: `min(coins, candidates)` distinct open cells and `min(lockedCoins, candidates)` distinct locked cells get treasures |
| MazeGrids.FineIndex | Assets/Scripts/MazeGrid.cs:89-91 | the fine index `x * scaleCoef + inner` lies in the grid, and dividing it by the scale gives back the block and the offset, so no two writes share an index |
| MazeGrids.FineIndexCovers | Assets/Scripts/MazeGrid.cs:44-55 | every fine index is the fine index of one block and offset, so the pass writes every fine cell |
| MazeGrids.InheritsRoomNumber | Assets/Scripts/MazeGrid.cs:89 | every fine cell has the room number of its coarse cell |
| MazeGrids.ClosedBlocked | Assets/Scripts/MazeGrid.cs:62-65 | no fine cell of a fully walled coarse cell is walkable or a camera slot |
| MazeGrids.InteriorWalkable | Assets/Scripts/MazeGrid.cs:84-87 | fine cells strictly inside the block of an open coarse cell are walkable and no camera slot |
| MazeGrids.EdgeWalkable | Assets/Scripts/MazeGrid.cs:66-78 | a fine cell on exactly one edge of a block at least two wide is walkable iff the coarse wall on that edge is absent |
| MazeGrids.CornerWalkable | Assets/Scripts/MazeGrid.cs:66-78 | a fine corner cell is walkable iff both coarse walls meeting there are absent |
| MazeGrids.CameraSlotCorner | Assets/Scripts/MazeGrid.cs:79-82 | a fine cell is a camera slot iff it is in a block corner whose two walls are present and whose two opposite walls are absent |
| MazeGrids.MazeGrid.CreateGrid | Assets/Scripts/MazeGrid.cs:40-96 | the grid is `scaleCoef` times as wide and high as the maze, and the fine cell at every block and offset holds the rule's value for its coarse cell |
| MazeGrids.MazeGrid.FillBlock | Assets/Scripts/MazeGrid.cs:52-94 | the two inner loops fill the block of one coarse cell and keep the blocks done before |
| MazeGrids.MazeGrid.Cell | Assets/Scripts/MazeGrid.cs:31-38 | the indexer returns a cell iff the coordinate is in the grid, and it is the stored one |
| MazeGrids.MazeGrid.CameraSlotsCount | Assets/Scripts/MazeGrid.cs:20-23 | the count is the length of the camera slot list (which `NoCameraSlots` proves empty) |
| MazeGrids.MazeGrid.CameraSlot | Assets/Scripts/MazeGrid.cs:24-28 | a slot is returned only for an index inside the list, and it is an element of the list |
| MazeGrids.NoCameraSlots | Assets/Scripts/MazeGrid.cs:19-28 | nothing fills the camera slot list, so the count is 0 and every index returns null |
| MazeGrids.CreatedCell | Assets/Scripts/MazeGrid.cs:48-91 | after `CreateGrid` every fine cell holds the rule's value for the coarse cell `(fx / scale, fy / scale)` at offset `(fx % scale, fy % scale)` |

## Left out

- The door-passage loop of `CreateGrid` (`Assets/Scripts/MazeGrid.cs:97-115`) is not modelled. It works on float midpoints with `0.1f`/`0.7f` thresholds and `(int)` casts, and writes a `Debug.Log` line. `CreateGrid` is modelled up to that loop.
- `MazeSpawner.cs`, the input, movement, camera and UI scripts, and `Cell.cs` are not part of this model. They are Unity glue.
- Randomness: the distribution of `UnityEngine.Random` and the determinism of `SetSeed` are not modelled. Every draw is an arbitrary value within the documented range.
- `SpawnPortal` and `PortalDirection` are not modelled. The generator never reads or writes them.
- The `null` tests on cells are not modelled. The cell array is filled completely at creation, so a cell inside the grid is never null. Out-of-grid lookups return `None` where the source returns `null`.
- Doors and `MazeGrid` cells hold coordinates or values instead of object references. Cells never move and nothing writes through a door's cell reference, so no aliasing is lost.
- `GridCell` is a value. Within the modelled part, each fine cell is created once and never updated afterwards.
- Rand.Random.Range: requires `lo <= hi`. Every call in the generator meets this, given the room-size precondition below. Unity's behaviour for `lo > hi` is not modelled.
- Mazes.Maze.AddRandomRooms: requires `minimumRoomSize <= maximumRoomSize + 1` in each coordinate, so that the size draws have a non-empty or single-valued range. The same requirement applies to `PrepareMaze`, `TryRandomRoom` and `GenerateMaze`.
- Mazes.Maze.AddRandomRooms: where each new door comes from is stated only when, at the start of the loop, no corridor cell carries a room number or a lock (`CorridorsPlain`). A freshly created maze meets this, since `NewCell` has room number 0 and no lock. Otherwise `RemoveWall` would give the door the corridor cell's number. The count holds without the condition: at most one door per placed room, and exactly one when the minimum sizes are positive.
- Mazes.Maze.AddRoom: is modelled with its default perimeter of one cell, the only one any caller uses. `CanPlaceRoom` and `RoomOrigins` take any perimeter.
- MazeGrids.MazeGrid.CreateGrid: requires `scaleCoef >= 0`. For a negative scale the C# array allocation throws before anything is written, and that path is not modelled.
- Mazes.Maze.GenerateMaze: the "no removable dead end" result is stated only when neighbouring cells agreed on their walls before the carve. The model does not prove that room placement leaves the walls in agreement. The same condition appears in `Mazes.Maze.CarveAndReshape` and `Mazes.Maze.Reshape`.
- Mazes.Maze.GenerateMaze: connectivity of the carved maze (every corridor cell reachable from the start) is not stated. The model states only the tree shape of the carve: each passage is rooted at the start and enters a previously unvisited cell.
- Mazes.Maze.InitKeys: does not state per door that a missing key means no cell was eligible. `InitKey` states that per call, and `InitKeys` states where each placed key lies.
- Mazes.Maze.InitTreasures: the source builds the open and the locked lists in one pass. The model builds them with two scans over the same cells, which yield the same lists in the same order.
- 32-bit arithmetic: C#'s `int` is modelled as an unbounded integer. An overflow that wraps around is not captured. Examples are `roomNumber + 1` in `PlaceRoom`, `Width * scaleCoef` in `CreateGrid`, and the loop counters. Reaching one takes sizes, counts or room numbers near 2^31.

## Findings

| source | as written | input that shows it | evidently intended | confidence | as-written member | corrected member |
|---|---|---|---|---|---|---|
| Assets/Scripts/Maze.cs:327-333 | the locked-treasure loop draws an index below `lockedPoints.Count` but reads `openPoints`, then calls `lockedPoints.Remove` on an open cell, which never removes anything | `coinsInOpenCount` at least the number of open candidates, `coinsInLockedCount > 0`, at least one locked candidate: the first loop empties `openPoints`, and the second loop's `openPoints[k]` throws `ArgumentOutOfRange`. With open cells left, locked coins land on open cells and no locked cell ever gets a treasure | draw `v` from `lockedPoints` | not executed | Mazes.Maze.InitTreasures | Mazes.Maze.InitTreasuresIntended |
