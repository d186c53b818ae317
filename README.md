# Fit and Figure: a verified model of the puzzle engine

Fit and Figure is a grid puzzle. A level has a square grid of cells and a set of
zones. Each zone is a list of cells with one rule:

- **equal**: every filled cell of the zone holds the same number;
- **distinct**: no number repeats among the zone's filled cells;
- **summative**: once every cell of the zone is filled, the numbers add up to a target;
- **none**: no rule at all.

The player has shapes: lists of offsets with one number per offset. The player selects a
shape, turns it by quarter turns, and places it by clicking the cell where its anchor
goes. Clicking a placed shape takes it off the board again. When every cell holds a
number, the game validates all zones. A valid grid completes the level: the progress
object scores it and keeps the best time per level. A level may also carry an authored
solution, which can be shown on a fresh grid.

This project models the engine of `fit-and-figure/src/App.js` in Dafny, one module per
concern:

- `Board` (board.dfy): positions, cells and grids as values; writing a shape's values
  onto a footprint and clearing it; the filled-cell count.
- `Zones` (zones.dfy): the zone variants, the zone factory and each variant's validate
  rule.
- `Validation` (validator.dfy): the grid validator and the completion verdict.
- `Shapes` (shapes.dfy): quarter-turn rotation, shape lookup by id and by covered cell.
- `Moves` (moves.dfy): place, remove and click as functions from one board state to the
  next, plus the board invariant they keep: a cell is filled exactly when one placed
  shape covers it.
- `Solution` (solution.dfy): what showing a level's authored solution produces.
- `Progress` (progress.dfy): the game manager, as a class with the score, completed
  levels and best times, and the leaderboard.
- `Engine` (engine.dfy): the live session, as a class. Its grid is an `array2` updated
  in place by methods, and every method is proved to leave the state that the pure
  functions above describe.

The source keeps a shape's `placed` flag and `position` in two fields that are always
set together. The model keeps them in one field, `anchor: Option<Pos>`.

## Model

| member | source | states |
|---|---|---|
| Board.EmptyGrid | fit-and-figure/src/App.js:257 | a loaded level's grid is size x size with every cell empty |
| Board.FullIffCountIsArea | fit-and-figure/src/App.js:321-332 | the count of non-empty cells is at most size*size, and it equals size*size exactly when every cell is filled |
| Board.Fits | fit-and-figure/src/App.js:287-297 | the placement test: every offset from the anchor lands inside the grid on an empty cell |
| Board.WriteCells | fit-and-figure/src/App.js:300-302 | writes each offset's paired value at anchor plus offset, in offset order, and keeps the grid's size; its meaning is given by the three WriteCells lemmas below |
| Board.ClearCells | fit-and-figure/src/App.js:386-392 | empties anchor plus offset for each offset inside the grid and keeps the grid's size; its meaning is given by the two ClearCells lemmas below |
| Board.WriteCellsElsewhere | fit-and-figure/src/App.js:300-302 | writing a shape changes no cell outside its footprint |
| Board.WriteCellsCovered | fit-and-figure/src/App.js:300-302 | after writing a shape, every footprint cell holds a value |
| Board.WriteCellsLastWins | fit-and-figure/src/App.js:300-302 | a footprint cell holds the value paired with the last offset that lands on it |
| Board.ClearCellsElsewhere | fit-and-figure/src/App.js:386-392 | clearing a shape changes no cell outside its footprint |
| Board.ClearCellsCovered | fit-and-figure/src/App.js:386-392 | clearing a shape empties every footprint cell that lies inside the grid |
| Board.RemoveRestores | fit-and-figure/src/App.js:286-302 | clearing the cells just written onto a fitting footprint gives back the original grid |
| Zones.CreateZone | fit-and-figure/src/App.js:8-19 | the tag chooses the variant: 'equal', 'distinct' and 'summative' give their own zone (the summative one keeps the target), and any other tag gives the base zone; the cells are kept |
| Zones.Validate | fit-and-figure/src/App.js:29-70 | dispatches to the rule of the zone's variant; each rule's meaning is stated by EqualRule, DistinctRule, SummativeRule, VacuousPass and UnknownTagPasses |
| Zones.ZoneValues | fit-and-figure/src/App.js:41 | the collected values are exactly the values of the zone's filled cells; the list is full length exactly when no zone cell is empty |
| Zones.EqualRule | fit-and-figure/src/App.js:40-44 | an equal zone passes exactly when any two of its filled cells hold the same value |
| Zones.DistinctRule | fit-and-figure/src/App.js:53-56 | a distinct zone passes exactly when its filled values hold no repeat, and exactly when no two of its filled cells hold the same value |
| Zones.NoRepeatsIffDistinctCells | fit-and-figure/src/App.js:54-55 | the collected values hold a repeat exactly when two filled cells of the list hold the same value |
| Zones.SummativeRule | fit-and-figure/src/App.js:66-70 | a summative zone passes while any of its cells is empty; once full, it passes exactly when the sum of its cells equals the target |
| Zones.VacuousPass | fit-and-figure/src/App.js:29-70 | a zone whose cells are all empty passes, for every variant (a summative one needs at least one cell) |
| Zones.EmptySummativeZone | fit-and-figure/src/App.js:66-69 | a summative zone over no cells passes only when its target is 0 |
| Zones.UnknownTagPasses | fit-and-figure/src/App.js:16-31 | a zone built from an unrecognised tag passes on every grid |
| Validation.Failing | fit-and-figure/src/App.js:144-146 | the failing zones are exactly the zones that do not validate, and there are no more of them than zones |
| Validation.FailingAppend | fit-and-figure/src/App.js:144-146 | filtering keeps the zones' order: the failing zones of a concatenation are the concatenation of each part's failing zones |
| Validation.GridValidator.ValidateAll | fit-and-figure/src/App.js:140-142 | every zone of the validator passes on the grid; GetInvalidZones and Judge state what it decides |
| Validation.GridValidator.GetInvalidZones | fit-and-figure/src/App.js:140-146 | the invalid zones are the zones that fail, and the list is empty exactly when validateAll holds |
| Validation.BuildZones | fit-and-figure/src/App.js:261-263 | one zone per level entry, each built by the factory from that entry's tag, cells and target |
| Validation.Judge | fit-and-figure/src/App.js:321-353 | the check reports incomplete exactly when some cell is empty, solved exactly when the grid is full and every zone passes, and otherwise the non-empty list of exactly the failing zones |
| Shapes.MaxRow | fit-and-figure/src/App.js:273 | the result is the largest row offset: no offset lies below it and one reaches it |
| Shapes.MaxCol | fit-and-figure/src/App.js:274 | the result is the largest column offset: no offset lies right of it and one reaches it |
| Shapes.Rotate | fit-and-figure/src/App.js:271-275 | one quarter turn keeps the number of offsets; RotateAt, RotateNormalized, HalfTurnAt and FourTurns state what it does to each offset |
| Shapes.RotateAt | fit-and-figure/src/App.js:273-275 | a quarter turn maps offset k, (r, c), to (c, maxRow - r) and keeps its index, so values[k] stays paired with it |
| Shapes.RotateNormalized | fit-and-figure/src/App.js:273-275 | a quarter turn of normalized offsets is normalized, and it swaps the row and column extents |
| Shapes.HalfTurnAt | fit-and-figure/src/App.js:273-275 | two quarter turns mirror each offset through the centre of the bounding box |
| Shapes.FourTurns | fit-and-figure/src/App.js:273-275 | four quarter turns give back normalized offsets unchanged and in their order |
| Shapes.JsRem | fit-and-figure/src/App.js:276 | JavaScript's remainder lies strictly between -n and n; for a >= 0 it is a mod n, and for a < 0 it is minus ((-a) mod n) |
| Shapes.Turn | fit-and-figure/src/App.js:271-276 | one rotation keeps id, values and anchor, turns the offsets a quarter, and for any angle from -90 on sets it to (angle + 90) mod 360 |
| Shapes.RotateShapes | fit-and-figure/src/App.js:270-280 | every unplaced shape with the id is turned; every other shape is unchanged; every shape keeps its id, values, anchor and number of offsets |
| Shapes.FullCircle | fit-and-figure/src/App.js:276 | four steps of +90 modulo 360 come back to any angle in [0, 360) |
| Shapes.FourTurnsShape | fit-and-figure/src/App.js:270-280 | a shape with normalized offsets and an angle in [0, 360) is back where it started after four rotations |
| Shapes.FourRotations | fit-and-figure/src/App.js:270-280 | rotating the same id four times gives back the whole shape list |
| Shapes.FindShape | fit-and-figure/src/App.js:283 | the lookup finds nothing exactly when no shape has the id, and otherwise the first index carrying it |
| Shapes.ShapeAt | fit-and-figure/src/App.js:399-406 | the result is the first placed shape whose anchor plus one of its offsets is the cell, or nothing when no placed shape covers it |
| Moves.MarkPlaced | fit-and-figure/src/App.js:305 | shapes with the id get the anchor; everything else is unchanged |
| Moves.MarkRemoved | fit-and-figure/src/App.js:395 | shapes with the id lose their anchor; everything else is unchanged |
| Moves.Place | fit-and-figure/src/App.js:282-319 | an unknown or already placed shape is ignored; the move is blocked exactly when some offset lands off the grid or on a filled cell; a move that is not done changes nothing; a done move anchors the shape |
| Moves.Remove | fit-and-figure/src/App.js:380-397 | an unknown or unplaced shape is ignored and changes nothing; otherwise the shape loses its anchor |
| Moves.Click | fit-and-figure/src/App.js:408-416 | a click on a placed shape removes it and keeps the selection; otherwise a truthy selection is placed at the cell, cleared when the placement succeeds and kept when it does not; with no selection nothing changes |
| Moves.PlaceEffect | fit-and-figure/src/App.js:286-302 | a successful placement fits, fills the whole footprint with the paired values (the last one wins on coinciding offsets) and keeps every other cell |
| Moves.RemoveEffect | fit-and-figure/src/App.js:384-392 | a successful removal empties each in-grid footprint cell and keeps every other cell |
| Moves.PlaceThenRemove | fit-and-figure/src/App.js:282-397 | placing a shape and removing it again restores the grid, and, with unique ids, the shape list |
| Moves.InitialConsistent | fit-and-figure/src/App.js:256-259 | a loaded level satisfies the board invariant |
| Moves.PlaceKeepsConsistent | fit-and-figure/src/App.js:282-319 | placing keeps the board invariant: filled exactly where one placed shape covers, footprints inside the grid, no overlap |
| Moves.RemoveKeepsConsistent | fit-and-figure/src/App.js:380-397 | removing keeps the board invariant |
| Moves.RotateKeepsConsistent | fit-and-figure/src/App.js:270-280 | rotating keeps the board invariant, since placed shapes never turn |
| Moves.ClickKeepsConsistent | fit-and-figure/src/App.js:408-416 | a click keeps the board invariant |
| Moves.ClickOnFilledCell | fit-and-figure/src/App.js:408-416 | on a consistent board a click on a filled cell finds its shape, removes it and leaves the cell empty |
| Solution.FindStep | fit-and-figure/src/App.js:439 | the step found is the first one for the shape's id, or none when no step names the id |
| Solution.Turns | fit-and-figure/src/App.js:441-442 | the loop runs for every i with 90*i below the angle and no further |
| Solution.RotateTimes | fit-and-figure/src/App.js:441-445 | n quarter turns keep the number of offsets; RotateTimesStep, RotateTimesPeriodic and NormalizedAfter state what they do |
| Solution.RotateTimesStep | fit-and-figure/src/App.js:442-445 | n + 1 turns are one quarter turn after n turns |
| Solution.RotateTimesPeriodic | fit-and-figure/src/App.js:441-445 | for normalized offsets, four extra turns change nothing |
| Solution.NormalizedAfter | fit-and-figure/src/App.js:442-445 | normalized offsets stay normalized after any number of turns |
| Solution.RotateTimesMod | fit-and-figure/src/App.js:441-445 | for normalized offsets only the number of turns modulo four matters |
| Solution.Solved | fit-and-figure/src/App.js:440-460 | a shape with a step keeps its id and values and its number of offsets, and is anchored at the step's position with the step's angle |
| Solution.SolvedCells | fit-and-figure/src/App.js:441-446 | a solved shape with normalized offsets stays normalized, and its offsets are the ones turned by the step's angle modulo four quarter turns |
| Solution.SolvedShapes | fit-and-figure/src/App.js:438-461 | each shape with a step becomes Solved by its first step: turned offsets, the step's position and angle; a shape without one is unchanged; ids, values and the number of offsets are kept |
| Solution.SolvedShape | fit-and-figure/src/App.js:439-461 | a shape with a step becomes Solved by the first step naming its id; a shape without one is returned as it was; id, values and the number of offsets are kept |
| Solution.Paint | fit-and-figure/src/App.js:436-451 | painting solved shapes in list order gives an n x n grid when it succeeds; PaintDefined, PaintCoverage and PaintLastWins state when and with what |
| Solution.SolutionGrid | fit-and-figure/src/App.js:436-461 | the grid showing the solution is n x n when it exists; SolutionDefined, SolutionShowsShapes and SolutionValue state when and with what |
| Solution.PaintDefined | fit-and-figure/src/App.js:447-451 | painting succeeds exactly when every shape with a step lands inside the grid |
| Solution.SolutionDefined | fit-and-figure/src/App.js:436-452 | showing the solution succeeds exactly when every turned shape with a step lands inside the grid at its position |
| Solution.PaintCoverage | fit-and-figure/src/App.js:447-451 | a painted cell holds a value exactly when some shape with a step lands on it |
| Solution.SolutionShowsShapes | fit-and-figure/src/App.js:436-461 | a cell of the solution grid holds a value exactly when some solved shape with a step covers it |
| Solution.PaintLastWins | fit-and-figure/src/App.js:447-451 | a painted cell holds the value paired with the last offset, of the last shape in list order, that lands on it |
| Solution.SolutionValue | fit-and-figure/src/App.js:438-461 | a cell of the solution grid lies inside the grid and holds the value paired with the last offset, of the last solved shape in list order, whose step puts it on the cell |
| Progress.NextBest | fit-and-figure/src/App.js:100-101 | a missing or zero stored time is replaced by the new time; otherwise the smaller time is kept |
| Progress.Complete | fit-and-figure/src/App.js:95-103 | the level is recorded once and scores 100 only on its first completion; its best time becomes NextBest; no other entry changes |
| Progress.CompleteTallies | fit-and-figure/src/App.js:95-99 | completing keeps the score at 100 per distinct completed level, with no level listed twice |
| Progress.CompleteTwice | fit-and-figure/src/App.js:96-99 | completing the same level again adds no points |
| Progress.BestIsMinimum | fit-and-figure/src/App.js:100-102 | with positive times, the kept best time is the minimum of all times recorded |
| Progress.ZeroTimeIsOverwritten | fit-and-figure/src/App.js:100-102 | a stored time of 0 is replaced by the next time, even a slower one |
| Progress.Insert | fit-and-figure/src/App.js:105-108 | inserting keeps the board ordered by time, then level, and adds exactly the one entry |
| Progress.GameManager.constructor | fit-and-figure/src/App.js:77-86 | a new manager has score 0, no completed levels and no best times |
| Progress.GameManager.CompleteLevel | fit-and-figure/src/App.js:95-103 | the new state is Complete of the old one, and the score stays tallied |
| Progress.GameManager.GetLeaderboard | fit-and-figure/src/App.js:105-109 | one entry per level with a best time, exactly those entries, ordered by time |
| Engine.InitialShapes | fit-and-figure/src/App.js:259 | every level shape starts unplaced at angle 0 with its offsets and values |
| Engine.CountFilled | fit-and-figure/src/App.js:322-327 | the nested loop counts exactly the filled cells of the grid |
| Engine.CanPlace | fit-and-figure/src/App.js:287-297 | the check loop answers true exactly when every offset lands inside the grid on an empty cell |
| Engine.WriteShape | fit-and-figure/src/App.js:300-302 | the write loop leaves exactly the grid of writing each offset's value in order |
| Engine.ClearShape | fit-and-figure/src/App.js:386-392 | the clear loop leaves exactly the grid with every in-grid footprint cell emptied |
| Engine.TurnBy | fit-and-figure/src/App.js:441-445 | the rotation loop turns the offsets Turns(rotation) times |
| Engine.WriteSolved | fit-and-figure/src/App.js:447-451 | the write loop succeeds exactly when every cell lands inside the grid, and then leaves the written grid |
| Engine.SolveOne | fit-and-figure/src/App.js:438-461 | one shape is solved as its step says and painted onto the grid, or found to leave it |
| Engine.BuildSolution | fit-and-figure/src/App.js:436-461 | the fresh grid and shape list are the solution grid and the solved shapes, and the build fails exactly when the solution grid is undefined |
| Engine.Puzzle.constructor | fit-and-figure/src/App.js:256-268 | loading a level gives an empty grid, unplaced shapes at angle 0, the factory's zones and no selection, on a consistent board |
| Engine.Puzzle.RotateShape | fit-and-figure/src/App.js:270-280 | the shapes become RotateShapes of the old list; grid and selection stay |
| Engine.Puzzle.ToggleSelection | fit-and-figure/src/App.js:936 | choosing the selected shape again clears the selection; any other choice selects it |
| Engine.Puzzle.PlaceShape | fit-and-figure/src/App.js:282-319 | grid, shapes and outcome are those of Place, and a successful placement clears the selection |
| Engine.Puzzle.RemoveShape | fit-and-figure/src/App.js:380-397 | grid, shapes and outcome are those of Remove; the selection stays |
| Engine.Puzzle.HandleCellClick | fit-and-figure/src/App.js:408-416 | the new session is Click of the old one |
| Engine.Puzzle.CheckCompletion | fit-and-figure/src/App.js:321-353 | the verdict is Judge of the grid, and the manager records the level with the elapsed time exactly when it is solved |
| Engine.Puzzle.ShowSolution | fit-and-figure/src/App.js:429-471 | without a solution nothing changes; when a solved shape leaves the grid nothing changes; otherwise the grid is the solution grid, the shapes are the solved shapes and the selection is cleared |

## Left out

- Engine.Puzzle.ShowSolution: the board invariant `Moves.Consistent` is not promised after showing a solution, and it is not part of `Engine.Puzzle.Valid`. Authored steps may overlap, and a placed shape without a step keeps its anchor but is not painted onto the fresh grid. Either breaks the invariant. The place, remove, rotate and click lemmas keep it whenever it holds.
- Messages, `console.log`, timers and the deferred calls are not modelled. This covers the completion check scheduled after placing or showing the solution, the game-won transition and the message reset.
- The `GameEventSystem` observer and the `GameManager` singleton plumbing are not modelled. The model passes the manager explicitly.
- The elapsed-time clock is not modelled: `CheckCompletion` takes the elapsed seconds as a parameter.
- React state, rendering and the rest of the user interface are not modelled. The one exception is the selection toggle of the shape list.
- The right-click handler is not modelled. It removes a shape, rotates it from a stale copy of the shape list, and selects it. Its effect depends on React's batching of state updates.
- The built-in level data (`LEVELS`) is not modelled: a level is a parameter.
- Zone cells outside the grid are excluded by the constructor's precondition. In the source such a cell reads as `undefined`, and `undefined` passes the `!== null` filter.
- Cell values are mathematical integers. JavaScript's floating-point numbers and non-integer values are not modelled.
- Engine.Puzzle.ShowSolution: a solved cell outside the grid makes the model reject the whole call and change nothing. In the source, a row outside the grid throws. A column at or past the size silently extends that row array. A negative column sets a non-index property on the row and leaves its length as it was.
- Engine.Puzzle.CheckCompletion: the model validates the puzzle's own zones, which are built by the same factory from the same level that the source rebuilds them from.
- A summative zone over no cells compares the empty sum 0 with its target, which is what the code does. A description of the game that calls every empty zone vacuously valid disagrees; the model follows the code (see `Zones.EmptySummativeZone`).
- A best time of 0 counts as missing, because `0` is falsy, so a later slower time replaces it. The model keeps this behaviour as written (see `Progress.ZeroTimeIsOverwritten`).
- The source's leaderboard sorts by time alone, with a stable sort over levels listed in ascending key order. The model states this as an order by time, then by level.
