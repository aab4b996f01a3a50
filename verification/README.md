# BTetris falling-piece control engine, in Dafny

This project models the rules engine of BTetris, a falling-block puzzle game.
The engine lives in `src/betris_control.c`. It works on one board record:

- the settled playfield grid `pf`, made of visible rows plus buffer rows above them;
- the falling tetromino's four cells `fpos`, its rotation state `frot` and its colour `fcol`;
- the rows touched by the last lock, `lrow_list`, and the flag `lrow_updated`, which stays set until an external line-clear pass consumes those rows.

The model covers these parts of the engine:

- the collision oracle (`betris_collisionCheck`);
- the five moves: clockwise and counter-clockwise rotation, left and right shift, and soft drop;
- the drop projector (`betris_calcGhostCoords`), which finds the ghost, meaning the resting place;
- the lock controller (`betris_lockTetromino`);
- the locking hard drop (`betris_hdrop`);
- the `MOD4` macro.

The board is an immutable datatype, and every operation is a pure function. A null board pointer becomes `BoardRef.Null`. An operation returns its status code together with the board as it leaves it.

The grid dimensions (`BETRIS_WIDTH`, `BETRIS_HEIGHT`, `BETRIS_HEIGHT_BUFF`) and the rotation table (`BETRIS_TETROMINO_ROTATE`) are defined in headers that are not part of this model. They are kept abstract in a `Rules` record: three integers and a delta function `delta(colour, rot, cell)`. Every operation takes that record as a parameter, so every proved property holds for every table and every size. The coordinate helpers `betris_addCoord` and `betris_subCoord` are defined in a header that is not part of this model either; the model takes them to add and subtract `h` and `w` cell by cell (`Geometry.AddDeltas`, `Geometry.SubDeltas`).

Modules follow the engine's components:

- `Geometry`: colours, coordinates, translations, rotation deltas and `Mod4`.
- `Playfield`: the grid and the collision oracle.
- `Board`: the board record, the status codes, and the commit-or-reject discipline the moves share.
- `Control`: the five moves.
- `Projector`: the drop projector.
- `Lock`: lock and hard drop.
- `Properties`: lemmas that relate several operations.

The central invariant is `Board.Live`: while a piece is falling, its cells are an admissible placement, meaning inside the grid and on empty cells. Every move keeps it. A hard drop keeps it. A lock that goes ahead ends it by making the piece inactive; while the previous lock's rows are pending, the lock is refused and the piece keeps falling.

Two points of the code shape the model:

- `betris_hdrop` ignores the return value of `betris_calcGhostCoords` (src/betris_control.c:242). So `Lock.HardDrop` always reports success, and with no falling piece it still locks, writing blank over the stale cells.
- `betris_collisionCheck` (src/betris_control.c:292-316) never checks that the four cells are distinct. So `Board.Live` asks only for admissibility.

## Model

| member | source | states |
|---|---|---|
| Geometry.Mod4 | src/betris_control.c:16 | The rotation state after `MOD4` always lies in [0, 3], equals its argument on [0, 3], and differs from the argument by a multiple of 4 |
| Geometry.Mod4StepInverse | src/betris_control.c:51 | For every rotation state in [0, 3], stepping forward and then back with `MOD4` returns to it, and so does stepping back and then forward |
| Geometry.DeltasCancel | src/betris_control.c:43-45 | Subtracting a state's clockwise deltas cancels adding them, cell by cell, and adding cancels subtracting, for any rotation table |
| Geometry.TranslateKeepsDistinct | src/betris_control.c:131-133 | A shift or drop of all four cells keeps them pairwise distinct exactly when they were distinct before |
| Playfield.InBoundsFrom | src/betris_control.c:295-304 | The bounds loop accepts exactly when every remaining cell has 0 <= h < HEIGHT+HEIGHT_BUFF and 0 <= w < WIDTH |
| Playfield.BlankFrom | src/betris_control.c:307-312 | The occupancy loop runs only on in-bounds cells, and accepts exactly when every remaining cell of the grid is `BETRIS_BLANK` |
| Playfield.CollisionCheck | src/betris_control.c:292-316 | The oracle returns 1 exactly when all four cells are inside the grid and empty; the grid is read only after the bounds loop accepted |
| Playfield.OutOfFieldRejected | src/betris_control.c:297-303 | A cell outside the grid makes the oracle reject, whatever the grid holds |
| Board.Attempt | src/betris_control.c:134-149 | The move commits exactly when the candidate cells are admissible, and then changes only `fpos` and the rotation state; otherwise it reports `BETRIS_COLLISION` with the board unchanged |
| Control.RotCw | src/betris_control.c:23-64 | Null board gives `BETRIS_NULL_BOARD`, an inactive piece gives `BETRIS_INACTIVE_TETROMINO`, and neither changes anything; otherwise the move succeeds exactly when the cells plus the deltas for (fcol, frot) are admissible, and then sets those cells and frot := (frot+1) mod 4; the board stays well formed and a live piece stays live |
| Control.RotCcw | src/betris_control.c:67-108 | The same guards; otherwise the move succeeds exactly when the cells minus the deltas for (fcol, (frot-1) mod 4) are admissible, and then sets those cells and frot := (frot-1) mod 4; the board stays well formed and a live piece stays live |
| Control.LeftShift | src/betris_control.c:111-150 | The same guards; otherwise the move succeeds exactly when every cell one column to the left is admissible, and then sets those cells with the rotation state and grid unchanged; a live piece stays live |
| Control.RightShift | src/betris_control.c:153-191 | The same guards; otherwise the move succeeds exactly when every cell one column to the right is admissible, and then sets those cells with the rotation state and grid unchanged; a live piece stays live |
| Control.SoftDrop | src/betris_control.c:194-236 | The same guards; otherwise the move succeeds exactly when every cell one row down is admissible, and then sets those cells; otherwise it reports a collision and does not lock |
| Control.ApplyKeeps | src/betris_control.c:23-236 | Any one move keeps the board well formed and a live piece live, and leaves the grid, the colour and the row record untouched |
| Control.RunKeepsLive | src/betris_control.c:23-236 | Over any sequence of moves the falling piece stays admissible and stays falling, and the grid and row record are untouched |
| Projector.DropLoop | src/betris_control.c:267-278 | The do-while loop ends: its result is the start moved straight down by at least one row, that result is inadmissible, and every placement strictly between the start and the result is admissible |
| Projector.CalcGhostCoords | src/betris_control.c:250-286 | The guards leave the output buffer unchanged. For an active piece, the result is the piece moved straight down by k >= 0 rows, every placement on the way down is admissible, and one row below the result is not |
| Projector.RestsAtUnique | src/betris_control.c:267-283 | The resting-place characterisation admits only one placement, so the projector's result is determined by it |
| Projector.GhostIsLowestReachable | src/betris_control.c:262-285 | If k steps down are all admissible and step k+1 is not, the projector returns the piece exactly k rows lower |
| Projector.RestingPlaceAdmissible | src/betris_control.c:280-283 | After the corrective jump, the ghost of an admissible piece is itself admissible |
| Projector.StuckPieceStays | src/betris_control.c:268-283 | A piece that cannot move down at all gets back its own cells: one decrement followed by one corrective increment |
| Projector.ProjectionIdempotent | src/betris_control.c:262-285 | Projecting again from the ghost returns the ghost |
| Projector.EmptyGridGhostReachesFloor | src/betris_control.c:267-283 | On an empty grid, the ghost of an admissible piece has every cell at row 0 or above, and at least one cell on row 0 |
| Lock.PaintFrom | src/betris_control.c:331-334 | The lock loop's writes give `fcol` to exactly the piece's cells, keep every other cell, and keep the grid's shape |
| Lock.LockTetromino | src/betris_control.c:320-343 | With rows pending nothing changes. Otherwise it sets the flag, writes fcol into exactly the four fpos cells, stores lrow_list[i] = fpos[i].h without deduplication, sets fcol to blank, and keeps fpos and frot |
| Lock.LockTwice | src/betris_control.c:322-325 | A second lock before the rows are consumed leaves the board, grid included, as after the first |
| Lock.LiveHardDropDefined | src/betris_control.c:242-245 | For an active, admissible piece, the cells the hard drop locks lie inside the grid |
| Lock.HardDrop | src/betris_control.c:239-248 | Hard drop always returns `BETRIS_SUCCESS`. An active piece lands on its resting place; it is locked there, or, with rows pending, only moved there. An inactive piece keeps its stale cells, which the lock overwrites with blank. A live piece stays live |
| Control.TranslatingMovesKeepDistinct | src/betris_control.c:131-149 | A successful left shift, right shift or soft drop keeps the four cells pairwise distinct when they were distinct before |
| Properties.RotCwThenCcw | src/betris_control.c:43-95 | After a successful clockwise rotation of a live piece, the counter-clockwise rotation succeeds and restores the original fpos and frot |
| Properties.RotCcwThenCw | src/betris_control.c:87-95 | After a successful counter-clockwise rotation of a live piece, the clockwise rotation succeeds and restores the original fpos and frot |
| Properties.ShiftsUndoEachOther | src/betris_control.c:131-183 | A successful left shift is undone by a right shift that succeeds, and the same holds with right and left swapped |
| Properties.EmptyGridLeftWall | src/betris_control.c:131-147 | On an empty grid, a left shift of a live piece collides exactly when some cell is already in column 0 |
| Properties.SoftDropOntoStack | src/betris_control.c:215-233 | A piece with a settled cell directly under one of its cells cannot soft drop: the result is a collision and the board is unchanged |
| Properties.HardDropOntoEmptyGrid | src/betris_control.c:239-248 | A hard drop onto an empty grid with no pending rows locks the piece with one cell on row 0, and records row 0 for that cell |

## Left out

- Spawning a piece, line-clear detection and collapse, clearing `lrow_updated`, the piece queue and its shuffling, scoring and gravity timing are not in the engine's code. They are external steps, and this model does not include them.
- The terminal front end `btetris-demo/tdraw.c` is not part of this model. It handles ncurses windows, menus, key input and timing, and it only reads the board to draw it.
- The contents of the rotation table and the grid dimensions are left abstract, as described above. No property depends on the dimensions being positive.
- Integer widths are not modelled: `frot` and the coordinates are unbounded integers. `MOD4(x)` is written `x & 0b0011`. On two's-complement integers this equals Dafny's Euclidean `x % 4`, including `frot - 1` when `frot` is 0. The model uses `x % 4` and does not prove the bit-level identity.
- A null pointer passed to `betris_hdrop` is undefined behaviour, because the function dereferences it without a check. `Lock.HardDrop` therefore takes a board, not a `BoardRef`.
- Lock.HardDrop requires that the cells the lock will write lie inside the grid. Writing outside the grid is undefined behaviour in the source. For a live active piece, `Lock.LiveHardDropDefined` shows that this requirement always holds.
- Lock.LockTetromino requires `fpos` to lie inside the grid when the lock goes ahead, for the same reason.
- The pairwise distinctness of the four cells is proved for shifts and drops only (`Geometry.TranslateKeepsDistinct`, applied to the moves in `Control.TranslatingMovesKeepDistinct`). Whether a rotation keeps the cells distinct depends on the contents of the rotation table, which this model leaves abstract.
- Every operation on a board requires `0 <= frot < 4` as part of `Board.WellFormed`, including the shifts and the soft drop, which never read `frot`. The range is assumed to be set up at spawn; `MOD4` keeps it, and the table lookup at src/betris_control.c:44 needs it.
- Spawn is not modelled, so nothing establishes `Live` on a newly spawned piece. The properties take it as a precondition.
