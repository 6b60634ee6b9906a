# rw2group6 maze controller, modelled in Dafny

This project models the controller of a micromouse-style agent that explores
an unknown 16 by 16 grid maze. The mouse follows the left or right wall until
it stands on a goal cell. It records every wall it learns in a local map of
tri-state slots (unknown, no wall, wall). It logs the move count at which it
first reached each cell. Then it returns to (0, 0): at each cell it steps to
the open neighbour with the earliest log entry.

Modules follow the program's structure:

- `Direction`: `calculate_dir`, `dir2int` / `int2dir`, and the unit steps of the four headings.
- `LocalMap`: a `Cell` of four wall slots, with `is_wall` and `set_wall`.
- `Agent`: the `Mouse` class. It holds position, heading and move count, and has `turn_left`, `turn_right`, `turn` and `move_forward`.
- `Sensors`: `wallLeft`, `wallFront` and `wallRight`. Each reads a ground-truth maze predicate `truth(x, y, heading)` on one side of the mouse.
- `Controller`: the `Algorithm` class. It holds the grid (`array2<Cell>`, indexed `[y, x]` as in the source), the mouse and the visit log (`array2<nat>`). Its methods are `init_maze`, `update_first_vist`, `check_wall`, `detect_wall_lfr`, `update_back_wall`, `follow_wall` and `return_to_init_loc`.

The main results:

- Each single-step method states its whole new state: which slots, entries and mouse fields change, and to what. `FollowWall` states its trace of poses, its move counts and its whole visit log as functions of that trace (`MovesRun`, `LogOf`). It states the map only through the border walls and, under the soundness hypothesis below, through `Sound`. `ReturnToInitLoc` leaves map and log untouched.
- Wall following and the return are tied to reference definitions of a single pass. Under the soundness hypothesis below, the recorded trace of `FollowWall` is a run of `TruthStep`, the ladder over the maze's true walls. Every pass of `ReturnToInitLoc` follows `ReturnChoice`, the neighbour search written over a snapshot of the map and the visit log.
- Map soundness is an invariant of wall following. Assume the map agrees with the maze, the maze's two sides of every inner wall agree, and the mouse knows the side behind it. Then every step crosses only real openings, and the map stays in agreement with the maze. `Sound` states this agreement.
- The border walls written by `init_maze` survive exploration (`Borders`). So the mouse never leaves the grid.
- The choice at each cell is characterised on its own terms (`ReturnChoiceHome`, `ReturnChoiceNone`, `ReturnChoiceMin`). The mouse's trail only crosses sides the map records as open. Every cell on it after the first is the origin or a logged cell.

## Model

| member | source | states |
|---|---|---|
| Direction.CalculateDir | application/rw2_group6/rw2_group6.cpp:128-133 | for every offset from -4 to 4, the result is the heading (dir + flr) mod 4 (the wider range the code also handles is under Left out) |
| Direction.TurnInverse | application/rw2_group6/rw2_group6.cpp:128-133 | turning by o and then by -o gives back the original heading |
| Direction.TwoRightsReverse | application/rw2_group6/rw2_group6.cpp:12 | two right turns equal one turn by offset 2, which is how turn(2) is carried out |
| Direction.Dir2Int | application/rw2_group6/rw2_group6.cpp:84-88 | n, e, s, w map to the index of that character in "nesw"; any other character maps to 0, as the map's operator[] returns |
| Direction.Int2DirInverse | application/rw2_group6/rw2_group6.cpp:88 | dir2int inverts int2dir on the four headings |
| Direction.NeighborAdjacent | application/rw2_group6/rw2_group6.cpp:242-243 | the step dir_x / dir_y along a heading (the same step as move_forward) reaches a cell one row or one column away, never the cell itself |
| Direction.StepBack | application/rw2_group6/rw2_group6.cpp:242-243 | one step along a heading followed by one step along its reverse returns to the start cell |
| LocalMap.B2I | application/rw2_group6/rw2_group6.cpp:61 | true is stored as 1 (wall) and false as 0 (no wall) |
| LocalMap.NewCell | application/rw2_group6/rw2_group6.h:96 | a new cell has all four slots unknown |
| LocalMap.Cell.IsWall | application/rw2_group6/rw2_group6.cpp:53-55 | the answer is always one of -1, 0 and 1 |
| LocalMap.Cell.SetWall | application/rw2_group6/rw2_group6.cpp:58-62 | slot dir then reads 1 for true and 0 for false; the other three slots keep their values |
| LocalMap.SetWallOverwrites | application/rw2_group6/rw2_group6.cpp:61 | a second set_wall on the same slot replaces the first answer; no monotonicity is checked |
| LocalMap.SetWallIdempotent | application/rw2_group6/rw2_group6.cpp:61 | writing the value a slot already holds leaves the cell unchanged |
| Agent.Mouse.constructor | application/rw2_group6/rw2_group6.h:22 | a new mouse stands at (0, 0), faces north and has made no move |
| Agent.Mouse.TurnLeft | application/rw2_group6/rw2_group6.cpp:16-20 | the heading turns by -1; position and move count are unchanged |
| Agent.Mouse.TurnRight | application/rw2_group6/rw2_group6.cpp:21-25 | the heading turns by +1; position and move count are unchanged |
| Agent.Mouse.Turn | application/rw2_group6/rw2_group6.cpp:9-15 | offsets -1, 1 and 2 turn by that offset, and every other offset leaves the heading alone; position and move count are unchanged |
| Agent.Mouse.MoveForward | application/rw2_group6/rw2_group6.cpp:27-38 | the mouse moves one cell along its heading; the move count grows by exactly one; the heading is unchanged |
| Controller.OnBorderSides | application/rw2_group6/rw2_group6.cpp:63-82 | the sides facing out of the grid are exactly south of row 0, north of the top row, west of column 0 and east of the last column |
| Controller.Algorithm.constructor | application/rw2_group6/rw2_group6.h:127 | a new controller has a new mouse at (0, 0), every slot of the map unknown, and an all-zero visit log |
| Controller.Algorithm.InitMaze | application/rw2_group6/rw2_group6.cpp:63-82 | every outward side becomes a wall and every other slot keeps its value; the origin's log entry is 0 and no other entry changes |
| Controller.Algorithm.UpdateFirstVisit | application/rw2_group6/rw2_group6.cpp:134-140 | the entry of the mouse's cell becomes the move count only if it was 0; every other entry is unchanged |
| Controller.Algorithm.CheckWall | application/rw2_group6/rw2_group6.cpp:141-157 | true exactly when the slot at that offset from the heading holds 1; an unknown slot reads as no wall |
| Controller.Algorithm.DetectWallLfr | application/rw2_group6/rw2_group6.cpp:159-189 | every unknown left, front or right slot receives the matching sensor's answer, and those three slots are then known. Known slots, the back slot and other cells do not change. Border walls survive. At the mouse's own pose, soundness is kept, and the cell becomes fully known once its back slot is known |
| Controller.Algorithm.UpdateBackWall | application/rw2_group6/rw2_group6.cpp:228-231 | the slot behind the mouse holds the given answer and no other slot changes; writing an open side that faces back into the grid keeps the border walls, and writing the true answer keeps soundness |
| Controller.Algorithm.StaysInside | application/rw2_group6/rw2_group6.cpp:63-82 | with the border walls in place, a side not recorded as a wall leads to a cell inside the grid |
| Controller.LadderTurn | application/rw2_group6/rw2_group6.cpp:204-214 | with first_dir left or right, the turn is first_dir exactly when that side is open, front exactly when that side is a wall and the front is open, -first_dir exactly when only the opposite side of the three is open, and a reverse exactly when all three are walls |
| Controller.LogOfChanges | application/rw2_group6/rw2_group6.cpp:134-140 | along a trace, a nonzero entry never changes, and a changed entry was 0 and now holds the move count of some pass on that cell |
| Controller.LogOfFirst | application/rw2_group6/rw2_group6.cpp:134-140 | from an unlogged entry, a cell's entry is the count of the first pass on it whose count is nonzero (passes at count 0, as on the origin before the first move, leave it unlogged) |
| Controller.LogOfAway | application/rw2_group6/rw2_group6.cpp:134-140 | a cell no pass stands on keeps its entry |
| Controller.TruthStep | application/rw2_group6/rw2_group6.cpp:204-223 | one pass decided by the maze's true walls either turns around on the spot or steps to the neighbour across a side that is not a wall |
| Controller.Algorithm.CheckWallIsTruth | application/rw2_group6/rw2_group6.cpp:141-157 | when the map is sound and the current cell is fully known, check_wall answers the maze's true wall at that offset |
| Controller.Algorithm.FollowWallStep | application/rw2_group6/rw2_group6.cpp:199-223 | one step: log the cell, then apply the preferred / front / opposite / reverse ladder to the recorded walls. A reverse turn does not move and changes no slot. Otherwise the mouse moves one cell, the new back slot becomes 0 and unknown sides are sensed. Under soundness the new pose is exactly the TruthStep of the old one, soundness is kept and the move crosses no real wall |
| Controller.Algorithm.LadderStep | application/rw2_group6/rw2_group6.cpp:204-214 | the heading turns by the ladder's choice over the recorded walls, and doMove is false exactly on a reverse turn; position and move count do not change, and a side chosen for moving is not a recorded wall |
| Controller.Algorithm.AdvanceAndSense | application/rw2_group6/rw2_group6.cpp:215-223 | move_forward, update_back_wall(false), then detect_wall_lfr at the new pose: only the new cell changes, its back slot is 0, and its other unknown slots take the true answers |
| Controller.Algorithm.FollowWall | application/rw2_group6/rw2_group6.cpp:190-226 | "left" chooses the left-hand rule and anything else the right-hand rule. The trace starts at the start pose and ends at the final pose; no pose before the last is on the goal; reached is true exactly on the goal, and false only after all fuel passes. The move counts start at the old count, end at the new one and grow by one exactly on the passes that change cell. Every log entry is LogOf its old value over the trace: an entry changes only from 0, to the count of a pass on that cell, and the goal is logged on arrival. Logged entries never change, and the border walls hold. With a sound start map, a known back slot and a symmetric maze, soundness holds and every pass of the trace is the TruthStep of that hand |
| Controller.Algorithm.FollowWallPass | application/rw2_group6/rw2_group6.cpp:199-223 | one pass of the loop extends the trace by the new pose and the move counts by the new count, keeps MovesRun, and keeps the log equal to LogOf over the passes so far; under soundness the new pose is the TruthStep of the old one |
| Controller.Algorithm.LogArrival | application/rw2_group6/rw2_group6.cpp:225 | the closing update_first_vist: reached is true exactly on the goal; the log is then LogOf over the whole trace, logged entries are unchanged, and the goal's entry becomes the move count if it was 0 |
| Controller.Scan | application/rw2_group6/rw2_group6.cpp:252-276 | the search over the sides picks only an origin or a logged side |
| Controller.ScanHome | application/rw2_group6/rw2_group6.cpp:261-264 | when some side leads to the origin, the search picks the first such side |
| Controller.ScanNone | application/rw2_group6/rw2_group6.cpp:265-276 | with no side to the origin, nothing is picked exactly when no side is logged |
| Controller.ScanMin | application/rw2_group6/rw2_group6.cpp:266-274 | with no side to the origin, the pick is a logged side with the smallest entry, and the earliest of those on a tie; a later side replaces the pick only on a strictly smaller entry |
| Controller.SideAt | application/rw2_group6/rw2_group6.cpp:254-265 | a side is the origin exactly when it is open onto (0, 0), and logged exactly when it is open onto a logged cell other than the origin, offering that cell's entry |
| Controller.ReturnChoice | application/rw2_group6/rw2_group6.cpp:252-276 | the chosen side is one of left, front and right |
| Controller.ReturnChoiceOpen | application/rw2_group6/rw2_group6.cpp:252-276 | a chosen side is open onto the origin or onto a logged cell |
| Controller.ReturnChoiceHome | application/rw2_group6/rw2_group6.cpp:261-264 | a side open onto (0, 0) forces a choice, and the choice is the first such side of left, front, right |
| Controller.ReturnChoiceNone | application/rw2_group6/rw2_group6.cpp:252-276 | with no side open onto (0, 0), there is no choice exactly when no side is open onto a logged cell |
| Controller.ReturnChoiceMin | application/rw2_group6/rw2_group6.cpp:266-274 | with no side open onto (0, 0), the choice is open onto a logged cell whose entry is no larger than any other such side's, and not after it on a tie |
| Controller.StuckMeansNoSide | application/rw2_group6/rw2_group6.cpp:252-276 | when nothing is chosen, no side is open onto (0, 0) or onto a logged cell |
| Controller.FollowsChoiceOpen | application/rw2_group6/rw2_group6.cpp:277-279 | turning to the chosen side and moving crosses an open side onto the origin or a logged cell |
| Controller.ReturnRunOpen | application/rw2_group6/rw2_group6.cpp:251-283 | a trail of return passes crosses only sides the map records as open, and every cell after the first is the origin or a logged cell |
| Controller.Algorithm.LookAt | application/rw2_group6/rw2_group6.cpp:254-265 | the per-side tests of the search (recorded wall, off the grid, origin, unlogged) give exactly SideAt over the current map and log |
| Controller.Algorithm.ChooseReturnDir | application/rw2_group6/rw2_group6.cpp:252-276 | the search loop returns exactly ReturnChoice at the mouse's pose over the current map and log |
| Controller.Algorithm.ReturnStep | application/rw2_group6/rw2_group6.cpp:277-282 | the mouse moves exactly when ReturnChoice offers a side. It then turns to that side and moves one cell, with one more move, across an open side onto the origin or a logged cell. With no choice, the mouse is unchanged |
| Controller.Algorithm.ReturnToInitLoc | application/rw2_group6/rw2_group6.cpp:233-284 | a reverse turn first: the trail starts at the start cell with the reversed heading. Every pass is a ReturnPass that follows ReturnChoice and starts off the origin. Home exactly when the mouse ends at (0, 0), and at once from (0, 0). Stuck only when no side qualifies. OutOfFuel only after fuel passes. One move per pass. Map and log are untouched |

## Left out

- Simulator commands (`turnLeft`, `turnRight`, `moveForward`, `setColor`, `setWall`, `clearAllColor`) are visualisation and are not modelled. The same goes for the colour argument of `move_forward`. The simulator's mouse is taken to stand where the controller's mouse stands.
- `wallLeft` / `wallFront` / `wallRight` are the functions of `Sensors`, over a ground-truth predicate passed in as a parameter. They have no contract of their own.
- `generate_goal` draws random numbers, so it is not modelled. The goal is a parameter of `FollowWall`. No perimeter precondition is imposed, because `follow_wall` does not need one.
- `application/main.cpp` and `application/main_.cpp` are entry-point glue and are not part of this model.
- The getters `get_x`, `get_y`, `get_dir` and `get_moves` are read as the fields themselves.
- LocalMap.Cell.SetWall: the grid holds its cells by value (an `std::array` of `Cell`). So a cell is a Dafny value stored in the grid's `array2`, and `set_wall` returns the updated cell, which the caller stores back into the same grid element. The grid is still updated in place. What the model does not have is a separate mutable `m_wall` object inside each cell. The source never shares such an object.
- Agent.Mouse.MoveForward: the move count is unbounded. The 32-bit `int` overflow of `m_moves` is not modelled.
- Controller.Algorithm.FollowWall: termination is not modelled. A `fuel` bound on the number of passes stands in for the unbounded `while`, and `reached` is false when it runs out.
- Controller.Algorithm.FollowWall: without the soundness hypothesis, a pass of the trace is described only by `FollowWallStep`'s contract over the recorded walls. The intermediate maps are not recorded in the trace, so that contract is not restated pass by pass in `FollowWall`'s own ensures.
- Controller.Algorithm.ReturnToInitLoc: the same kind of `fuel` bound applies, with outcome OutOfFuel. When no side qualifies, the source reuses the previous pass's `dir_next` (0 on the first pass) and moves anyway, possibly through a wall. The model stops with outcome Stuck instead.
- Direction.CalculateDir: the source's add-then-correct-once code yields a heading exactly when -4 <= dir + flr <= 7; for example `calculate_dir(0, 5)` is 1 and `calculate_dir(3, -7)` is 0. The model requires -4 <= flr <= 4, a narrower range that leaves out those correct cases. Outside -4..7 the source returns a value outside 0..3. The controller only passes -1, 0, 1 and 2.
- Directions outside 0..3 passed to `std::array::at` would throw. The model's `Dir` type rules them out.
- The local `int dir` in `follow_wall` is never used and is not modelled.

Behaviour of the code worth noting:

- `set_wall` overwrites without any monotonicity check (see `LocalMap.SetWallOverwrites`). Knowledge is still never lost in practice, for two reasons. `detect_wall_lfr` writes only unknown slots. `update_back_wall(false)` writes the true answer when the map was sound, the maze is symmetric and the cell just left was fully known.
- `dir2int` does not fail on an unknown character: it answers 0, north.
- Walls are stored only in the current cell's slot and never mirrored to the neighbour cell. Soundness therefore needs a maze whose two sides of every inner wall agree.
- The origin's log entry is 0, which also means "not visited". A later pass over (0, 0) during exploration overwrites it with the move count. The contract of `UpdateFirstVisit` states exactly this rule.
