# EcoGrid grid movement in Dafny

This project models the part of EcoGrid (a Unity game) that moves an agent
across a grid of tiles:

- **Bresenham.** `GridMovement.Bresenham` turns the agent's cell and a clicked
  cell into a queue of cells, using Bresenham's line algorithm. The model is
  `Line.Bresenham`, a method with the same loop. It is proved to return
  `Line.Line`, the cells the loop enqueues after the start cell is dropped.
  `Line.LineShape` proves what that queue is:
  - one cell per unit of Chebyshev distance, each cell one unit nearer the
    end than the one before;
  - every move goes to a touching cell in the direction of the end;
  - the line stays inside the rectangle spanned by its two ends;
  - it ends on the clicked cell and never contains the start cell.

  The loop's termination is proved, with the error-term invariant that
  drives it.
- **The movement state machine.** `GridMovement.ClickToMove` and the `Move`
  coroutine form a state machine, run once per frame. A click sets the
  target and the queue. Then, when the agent is idle, one step is dequeued
  and the move to it starts, unless the grid reports that cell as `None`. At
  the end of the move the agent stands on the step, and it stops heading for
  the target when that step is the target.
  - The class `Movement.GridMovement` has the agent's fields and one method
    per part of a frame.
  - Each method is proved equal to a pure transition on the `Motion` record:
    `AfterClick`, `AfterTick`, `AfterFinish` and `Frame`.
  - Lemmas about runs of those transitions state the outcomes: reaching the
    target, being stranded by a `None` step, and the effect of clicking on
    the agent's own cell.
- **The grid.** `Grid.GridManager` holds a height-by-width matrix of tile
  prefabs. `Start` allocates it, `GenerateMatrix` fills it with the fixed
  pattern (water on row 10, a checkerboard of grass and dirt elsewhere),
  and `Start` then writes water at `[20, 15]`. `GetCellTypeInLocation`
  reports `None` outside the grid and otherwise the type of the tile's
  `CellTile` component.
- **Cell types.** `Cells.CellType` is the `CellTile.CellType` enum
  (`Assets/Scripts/CellTile.cs`, line 7).

The coordinates are whole cells (`Vectors.Pos`). Distances are Chebyshev
(`Vectors.Distance`), and "touching" means 8-adjacent (`Vectors.Adjacent`).

Four consequences of the code are worth stating outright:

- Consecutive cells of a line may differ in both coordinates: a step is a
  move to any of the 8 touching cells, and no intermediate cell is inserted
  before a diagonal move. The line from (0, 0) to (3, 4) has 4 cells
  (`Line.SteepLineExample`).
- There is no search for a way around a cell the grid reports as `None`:
  such a step is dequeued and dropped, and the agent waits for the next
  frame with the rest of the queue.
- Only `None` stops a step, so water tiles are walked on.
- Dequeueing from an empty queue while heading for a target throws an
  exception. This is modelled as the outcome `QueueEmpty`, which changes no
  state, and `Movement.NoneLastStepStrands` and `Movement.SelfClickStrands`
  show two ways to reach it.

## Model

| member | source | states |
|---|---|---|
| Line.Bresenham | Assets/Scripts/GridMovement.cs:83-128 | the loop terminates, and the queue it returns, start cell dropped, is exactly `Line(start, end)` |
| Line.Advance | Assets/Scripts/GridMovement.cs:111-123 | one pass of the loop body after the end test moves each axis when its own test on the doubled error passes, and yields the cell and error of `Next` |
| Line.LineShape | Assets/Scripts/GridMovement.cs:83-128 | the returned queue is a line (IsLine), is empty exactly when start equals end, ends on the end cell, and never holds the start cell |
| Line.LineSteps | Assets/Scripts/GridMovement.cs:103-124 | the cells enqueued in Distance + 1 iterations, after the first, number Distance(start, end); each is one unit nearer the end than the one before, touches it, moves toward the end on each axis, and lies in the start-end rectangle |
| Line.IterateInv | Assets/Scripts/GridMovement.cs:97-124 | for k up to the Chebyshev distance, the state after k iterations keeps the loop invariant (in the rectangle, exact error term) and its cell is k units nearer the end |
| Line.IterationStep | Assets/Scripts/GridMovement.cs:111-123 | iteration i + 1 moves to a touching cell toward the end, inside the rectangle, at distance Distance - 1 - i from the end |
| Line.IterateCloser | Assets/Scripts/GridMovement.cs:103-124 | after k iterations, k at most the distance, the current cell is Distance - k from the end, so the loop reaches the break after Distance iterations |
| Line.InitLemma | Assets/Scripts/GridMovement.cs:97-101 | the initial state (start cell, err = dx - dy) satisfies the loop invariant |
| Line.StepLemma | Assets/Scripts/GridMovement.cs:111-123 | from any state with the invariant that is not at the end, one iteration keeps the invariant, moves to a touching cell toward the end and is exactly one unit nearer |
| Line.StepKeepsInv | Assets/Scripts/GridMovement.cs:111-123 | one iteration keeps the invariant |
| Line.ErrStep | Assets/Scripts/GridMovement.cs:111-123 | under the error-term invariant and away from the end, at least one axis moves, only an axis with distance left moves, the updated error term keeps the invariant, and the larger remaining distance drops by one |
| Line.ErrBounds | Assets/Scripts/GridMovement.cs:101 | the error-term invariant forces the axis with the larger delta to be at least as far from the end, and forces the move onto the other axis once one axis is done |
| Line.CellStep | Assets/Scripts/GridMovement.cs:113-123 | moving by sx or sy on an axis not yet at the end stays in the rectangle and brings that axis one unit nearer |
| Line.CellMoves | Assets/Scripts/GridMovement.cs:113-123 | a move on at least one axis by sx or sy reaches a touching cell, in the direction of the end |
| Line.EnqueuedAt | Assets/Scripts/GridMovement.cs:103-106 | cell i of the queue after k iterations is the current cell after i iterations |
| Line.EnqueuedLength | Assets/Scripts/GridMovement.cs:103-106 | k iterations enqueue k cells |
| Line.SteepLineExample | Assets/Scripts/GridMovement.cs:83-128 | the line from (0, 0) to (3, 4) is (1, 1), (1, 2), (2, 3), (3, 4) |
| Grid.GridManager.constructor | Assets/Scripts/GridManager.cs:6-13 | a manager with the given sizes and prefabs and no matrix yet |
| Grid.GridManager.Start | Assets/Scripts/GridManager.cs:16-23 | a fresh height-by-width matrix; every cell holds the generated pattern, overwritten by water at [20, 15] when the grid has that cell (otherwise the write fails and `ok` is false); after a successful start the lookup is `CellTypeAt` everywhere |
| Grid.GridManager.GenerateMatrix | Assets/Scripts/GridManager.cs:25-44 | every cell [y, x] of the matrix holds `Generated(x, y)`, the prefab the branches at lines 31-40 pick |
| Grid.GeneratedPattern | Assets/Scripts/GridManager.cs:31-41 | row 10 is water; on every other row a cell is grass exactly when x + y is even and dirt exactly when x + y is odd |
| Grid.LayoutDiffersOnlyAtOverride | Assets/Scripts/GridManager.cs:21 | the grid after start-up differs from the generated pattern only at (15, 20), where dirt becomes water |
| Grid.GridManager.GetCellTypeInLocation | Assets/Scripts/GridManager.cs:67-76 | outside the grid the result is `None`; inside, it is the type of the tile's CellTile, or `None` when the tile has none |
| Grid.PassableExactlyInGrid | Assets/Scripts/GridManager.cs:67-76 | when every prefab carries a CellTile whose type is not `None`, the lookup on the started grid reports `None` exactly outside the grid |
| Movement.AfterClick | Assets/Scripts/GridMovement.cs:43-52 | a click while moving changes nothing; otherwise the target becomes the clicked cell; a click on the agent's own cell changes nothing else; any other click sets the queue to the Bresenham line and the target flag |
| Movement.ClickPath | Assets/Scripts/GridMovement.cs:49-51 | after a click on another cell the agent is ready to step, and its queue is a non-empty line to the clicked cell that ends there and does not hold the agent's cell |
| Movement.TickOutcomeOf | Assets/Scripts/GridMovement.cs:55-68 | no dequeue unless heading for a target and idle; the Dequeue throws exactly when the queue is empty; otherwise the front step is dequeued and its move started or, when the grid says `None`, dropped |
| Movement.AfterTick | Assets/Scripts/GridMovement.cs:55-68 | when a step is dequeued, the old queue is that step followed by the new queue, the agent is moving exactly when the step is not `None`, and position and target are unchanged; otherwise nothing changes |
| Movement.AfterFinish | Assets/Scripts/GridMovement.cs:154-164 | at the end of a move the agent stands on the step and is idle, and it stops heading for the target exactly when the step is the target; queue and target are unchanged |
| Movement.Frame | Assets/Scripts/GridMovement.cs:40-75 | while moving a frame changes nothing; a click on the agent's own cell only sets the target and dequeues nothing; a frame with no click is exactly the dequeue part |
| Movement.ClickFrame | Assets/Scripts/GridMovement.cs:43-68 | a click on another cell dequeues the first cell of the line in the same frame, a cell touching the agent's, and leaves the rest of the line queued |
| Movement.WalkedPrefix | Assets/Scripts/GridMovement.cs:55-164 | n steps along a queue whose first n cells are passable and not the target consume exactly those cells and leave the agent on the n-th, still heading for the target |
| Movement.ReachesTarget | Assets/Scripts/GridMovement.cs:154-160 | a queue of passable cells that reaches the target only at its end leaves the agent on the target, with the queue empty and the target flag cleared, and from then on nothing moves |
| Movement.NoneLastStepStrands | Assets/Scripts/GridMovement.cs:60-63 | when only the last cell of the queue is `None`, the agent drops it and is left heading for the target with an empty queue, so the next Dequeue throws |
| Movement.ClickReachesTarget | Assets/Scripts/GridMovement.cs:43-68 | after a click on another cell, with every cell of the line passable, Distance steps bring the agent to the clicked cell with the target flag cleared and the queue empty |
| Movement.ClickWithinGridReachesTarget | Assets/Scripts/GridMovement.cs:40-75 | on a started grid whose tiles all have a non-`None` CellTile, a click inside the grid from a cell inside the grid brings the agent to the clicked cell |
| Movement.SelfClickStrands | Assets/Scripts/GridMovement.cs:43-49 | a click on the agent's own cell between two steps replaces the target with that cell; the agent still walks the rest of the queue and ends heading for its old cell with an empty queue, so the next Dequeue throws |
| Movement.FirstStepOfClick | Assets/Scripts/GridMovement.cs:50-66 | after a click at least two cells away and one step, the agent stands on the first cell of the line, the rest of the line is queued and ends on the target, and its own cell is not in that rest |
| Movement.SelfClickAfterOneStep | Assets/Scripts/GridMovement.cs:43-49 | a click two or more cells away, one step, then a click on the agent's own cell: the agent ends on the first target with an empty queue while heading for the cell of the second click, and the next Dequeue throws |
| Movement.GridMovement.constructor | Assets/Scripts/GridMovement.cs:13-21 | a fresh agent: both flags clear, queue empty, target and next step at the origin |
| Movement.GridMovement.Click | Assets/Scripts/GridMovement.cs:43-52 | the new state is `AfterClick` of the old one, and the frame goes on unless it was a click on the agent's own cell while idle |
| Movement.GridMovement.Tick | Assets/Scripts/GridMovement.cs:55-74 | the new state is `AfterTick` of the old one and the outcome is `TickOutcomeOf` it |
| Movement.GridMovement.FinishStep | Assets/Scripts/GridMovement.cs:154-164 | the new state is `AfterFinish` of the old one |
| Movement.GridMovement.Update | Assets/Scripts/GridMovement.cs:36-75 | the new state and the outcome are those of `Frame` |

## Left out

- The interpolation of the Move coroutine (`Assets/Scripts/GridMovement.cs`, lines 135-152) uses floating point, `Time.deltaTime` and `Vector3.Lerp`. The wait at line 162 is timing. Only the discrete effects are kept: `isMoving` is set at the start of the coroutine, and at its end the position snaps to the step. `Movement.TakeStep` takes a coroutine started in a frame to finish before the next frame's dequeue.
- Mouse input and the camera (lines 43 and 46) are outside the model. A click arrives as the clicked cell, already rounded.
- The rounding of the position (lines 72-74) and the `Mathf.RoundToInt` calls in Bresenham (lines 92-95) are not modelled: positions are whole cells, on which both change nothing.
- The z coordinate is taken to be 0. Bresenham enqueues cells with z = 0 (line 105) while a target takes the agent's z (line 47), so for a click handled before the agent's first idle frame or first step, an agent placed at another z never matches that target. After its first idle frame (lines 72-73 build a position with z = 0) or its first finished step (line 154) the agent's z is 0 and targets match.
- `Vector3 ==` compares approximately in Unity; here cells are compared exactly, which agrees on whole cells.
- Gizmo drawing (`shouldDrawLine`, `gizmoPoints`, debug fields, `OnDrawGizmos`) and the `farmers` lookup in `Awake` are debugging aids and unused state.
- `gridManager.GetCellTypeInLocation` is passed to the movement functions as `classify`. `Grid.GridManager.Start` proves that after start-up it equals the pure `Grid.CellTypeAt`.
- GridMovement.Bresenham's C# `int` arithmetic can overflow on coordinates near 2^31. The model uses unbounded integers, since grid coordinates are small.
- `RenderMatrix` and `DestroyMatrix` only instantiate and destroy Unity objects. The matrix contents they read are modelled.
- The prefabs are three abstract values, and their `CellTile` components are the function `componentOf`, fixed for a manager.
- `Grid.GridManager.GetCellTypeInLocation` takes whole cells. The source takes a `Vector3` and casts its coordinates with `(int)`, which truncates fractional parts; that only matters off whole cells.
- `Grid.GridManager` sizes are natural numbers. With a negative serialized size the array allocation at line 18 throws, and that case is not modelled.
- Exceptions are modelled as outcomes: the empty-queue `Dequeue` is `QueueEmpty`, and the out-of-range write at line 21 is `Start` returning `false`.
- `Assets/Scripts/CameraMovement.cs` and `Assets/Scripts/matrix.cs` are not part of this model: the first moves the camera; the second logs the screen width and creates a green square sprite, and never reads its integer matrix.
