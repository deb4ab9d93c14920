# Black Box game in Dafny

This project models the `BlackBoxGame` class of `BlackBoxGame.py` and proves
properties of the model. Black Box is a guessing game on a 10 by 10 board:
- The outer frame (rows and columns 0 and 9) is border, and ports on it are where
  rays go in and out.
- The 8 by 8 interior hides atoms.
- A ray shot in from a port walks the board one cell at a time.
  - An atom straight under it absorbs it.
  - Two atoms on its forward diagonals send it back (a reflection).
  - One such atom turns it a quarter away from that atom (a deflection).
  - Otherwise it goes on until it reaches the border again.
- The player starts with 25 points.
  - Each port used for the first time, as entry or exit, costs one point.
  - Each wrong guess at an atom's position costs five points the first time.
  - A right guess finds one of the atoms.

The project has four modules:

- `Grid` (`grid.dfy`): coordinates, the three cell kinds (`Border`, `Empty` and
  `Atom`, the source's `'#'`, `'X'` and `'O'`), and the two-pass construction of
  the board (`BuildBoard`). It is an imperative method with nested loops, proved
  to build exactly the board the atom list describes (`IsBoardOf`).
- `Rays` (`rays.dfy`): the ray engine as pure functions.
  - `StartShootRay` gives the inward heading of an entry port.
  - `Reflection` and `Deflection` are the per-cell rules, and `Turn` applies them
    in the source's order.
  - `RayMove` and `Advance` form the walk. The walk takes the number of moves made
    so far (the source's `flag`) and the last recorded port (the source's
    `_entries_exits[-1]`, read on a reflection or an immediate return).
  - The walk ends in `Hit`, `ExitAt(port)` or `OutOfFuel`.
  - `Reaches` (the ray moves without stopping until it has made m moves and is
    in a given state) and `EndsAt` (what a state that stops the ray reports)
    describe the walk move by move. `WalkResult` shows that the walk's result
    is the one given by the first state where the ray stops.
  - Lemmas describe one cell, one step, the ends of a walk, straight lanes, and
    closed orbits that never end.
- `BlackBox` (`blackbox.dfy`): the class `BlackBoxGame`.
  - Its board and atom list are `const`: they never change after construction.
  - Its `numAtoms`, `score`, `guesses` and `entriesExits` are updated in place.
  - `Shoot` is the value-level specification of one shot, and `ShootRay` is proved
    against it.
  - The class invariant `Valid` ties the score and the atoms left to the used
    ports and guesses.
- `Scenarios` (`scenarios.dfy`): concrete games.
  - The program's reference run: score 20 and two atoms left.
  - A ray absorbed head-on.
  - Repeated shots that report the last recorded port.
  - A closed cycle of ray states, which shows that the walk needs a bound.

Behaviour of the code that the model keeps on purpose:

- A reflection, or a return to the border after exactly one move, reports the last
  recorded port, not the entry. They are the same only when the entry was just
  recorded or happens to be last (`LastOnlyEchoed`, `EchoRun`). Repeating a shot
  at once gives the same result, though: the port it reports is already recorded
  and stays last (`ShootRepeat`).
- Turns are taken before hits. The hit test looks only at the cell the ray is on,
  so a diagonal atom turns the ray before the atom straight ahead can absorb it
  (`TurnBeforeHit`).
- Deflection checks the two sides in a fixed order: the ray's left first for Down,
  Right and Left, and its right first for Up. The order never matters, because
  reflection has already caught the case of two atoms (`CellRule`).

With atoms at (5, 1), (5, 3) and (8, 1), a ray fired down column 1 from
(0, 1) is absorbed at (5, 1): no forward diagonal of column 1 above row 5 holds
an atom, so nothing turns it first (`ColumnOneAbsorbed`, `AbsorbedShot`).

## Model

| member | source | states |
|---|---|---|
| Grid.BuildBoard | BlackBoxGame.py:16-30 | the board built for an atom list is 10 by 10, border exactly on rows and columns 0 and 9, an atom exactly at the interior cells the list names, empty elsewhere |
| BlackBox.BlackBoxGame.constructor | BlackBoxGame.py:10-37 | a new game holds the atom list and its board, has all atoms left, a score of 25, and no guesses or used ports; the invariant holds |
| BlackBox.BlackBoxGame.GetAtoms | BlackBoxGame.py:39-42 | returns the atom list, which the board's atom cells agree with inside the frame |
| BlackBox.BlackBoxGame.AtomsLeft | BlackBoxGame.py:44-47 | returns the atoms left: the list's length less the distinct right guesses, between 0 and the list's length |
| BlackBox.BlackBoxGame.SetNumAtoms | BlackBoxGame.py:49-52 | one atom fewer is left; nothing else changes |
| BlackBox.BlackBoxGame.DeductScore | BlackBoxGame.py:153-156 | the score drops by the points given; nothing else changes |
| BlackBox.BlackBoxGame.GetScore | BlackBoxGame.py:158-161 | returns the score, which is 25 less one per used port and five per wrong guess, and never above 25 |
| Rays.StartShootRay | BlackBoxGame.py:59-73 | no heading exactly for the four corners and the cells off the frame; otherwise a heading whose forward diagonals lie on the grid and whose first move enters the interior |
| Rays.InwardHeadingUnique | BlackBoxGame.py:59-73 | the heading of a port is the only one leading from it into the interior: Down from row 0, Up from row 9, Right from column 0, Left from column 9 |
| Rays.Reflection | BlackBoxGame.py:102-123 | the reflection rule; its contract is carried by `ReflectionRule` and `CellRule` |
| Rays.ReflectionRule | BlackBoxGame.py:106-123 | Exit if and only if both forward diagonals of the heading hold atoms (or the heading is already Exit); otherwise the heading is unchanged |
| Rays.Deflection | BlackBoxGame.py:75-100 | the deflection rule; its contract is carried by `DeflectionRule` and `CellRule` |
| Rays.DeflectionRule | BlackBoxGame.py:79-100 | a quarter turn away from the first-checked forward-diagonal atom; away from the other diagonal when only that one holds an atom; the heading unchanged, Exit included, when neither does |
| Rays.Turn | BlackBoxGame.py:138-139 | reflection, then deflection; its contract is carried by `CellRule` and `NextWalkable` |
| Rays.CellRule | BlackBoxGame.py:138-139 | a cell's rules applied in order: two diagonal atoms send the ray back; one turns it to the side away from that atom; none lets it go straight on |
| Rays.NextWalkable | BlackBoxGame.py:138-149 | a ray that leaves a cell it has not stopped on moves to a grid cell, and never onto a corner after two moves |
| Rays.RayMove | BlackBoxGame.py:125-136 | the walk's stopping tests (an atom, the border after moves); its contract is carried by `WalkEnds`, `EndsWalk`, `WalkResult`, `WalkHits`, `WalkExits`, `LastOnlyEchoed`, `FuelMonotone`, `OrbitForever` and `Straight` |
| Rays.Advance | BlackBoxGame.py:138-151 | the walk's turn and move, or the report of a reflection; its contract is carried by the same lemmas as `RayMove` |
| Rays.WalkEnds | BlackBoxGame.py:125-151 | a walk with a result reaches, within its fuel and without stopping on the way, a state where it stops with that result: on an atom a hit, on the border after one move the last recorded port, on the border after more moves that border cell, on a reflection the last recorded port; a walk out of fuel is still moving after all its moves |
| Rays.EndsWalk | BlackBoxGame.py:125-151 | the converse: reaching such a stopping state within the fuel gives exactly its result, and still moving once the fuel is spent gives `OutOfFuel` |
| Rays.WalkResult | BlackBoxGame.py:125-151 | for every result but running out of fuel, the walk has that result if and only if it reaches, within its fuel, a state that stops it with that result |
| Rays.WalkExits | BlackBoxGame.py:129-151 | every port a walk reports is the last recorded port or a border cell that is not a corner (which one, by move count, is given by `WalkResult`) |
| Rays.WalkHits | BlackBoxGame.py:129-149 | a walk ends in a hit if and only if, within its fuel, the ray moves onto an atom cell without stopping or being sent back before it |
| Rays.LastOnlyEchoed | BlackBoxGame.py:129-151 | the last recorded port only ever comes back as the reported port: two walks that differ in it alone end alike, or each reports its own |
| Rays.EntryLastOnlyEchoed | BlackBoxGame.py:176 | the same for a ray fired at a valid entry port |
| Rays.FuelMonotone | BlackBoxGame.py:125-151 | a walk that ended within some budget ends the same way with any larger budget, so the bound decides only whether an end is reached |
| Rays.OrbitForever | BlackBoxGame.py:138-149 | a ray on a closed orbit of interior states (each one's cell rules lead to the next, the last back to the first) runs out of fuel from every state on it, however large the budget |
| Rays.PassStep | BlackBoxGame.py:138-149 | a ray on a cell with no atom under it or on its forward diagonals moves one cell straight on |
| Rays.LaneFromPasses | BlackBoxGame.py:138-149 | a lane of k cells is clear when the ray passes each of them in turn |
| Rays.Straight | BlackBoxGame.py:138-149 | a ray on a clear lane of k cells continues as the walk from the cell k ahead, k moves later, with the same heading |
| Rays.ClearLaneExit | BlackBoxGame.py:125-151 | a ray fired at a port whose lane across the board is clear leaves by the port directly opposite |
| Rays.StraightIntoAtom | BlackBoxGame.py:129-149 | a ray on a clear lane that ends on an atom is absorbed |
| Rays.HeadOnHit | BlackBoxGame.py:129-149 | the same for a ray fired at a valid entry port |
| Rays.TurnBeforeHit | BlackBoxGame.py:129-143 | with an atom straight below and one on the forward left diagonal, a downward ray turns left where it stands instead of being absorbed |
| Rays.EntryTurnEchoesLast | BlackBoxGame.py:132-151 | a ray fired at a port with an atom on a forward diagonal of the port never enters the board and reports the last recorded port |
| BlackBox.Record | BlackBoxGame.py:172-180 | a coordinate is appended to a used list unless already there: the old list is a prefix, the coordinate is in, nothing else is added, and no duplicate appears |
| BlackBox.RecordIdempotent | BlackBoxGame.py:172-173 | recording a coordinate twice is recording it once |
| BlackBox.Hits | BlackBoxGame.py:188-196 | the count of guesses that name an atom is at most the number of guesses |
| BlackBox.HitsRecord | BlackBoxGame.py:188-196 | a guess adds a hit exactly when it is new and names an atom |
| BlackBox.HitsAgree | BlackBoxGame.py:188-196 | the hit count depends only on which guesses are atoms |
| BlackBox.HitsBound | BlackBoxGame.py:188-191 | distinct guesses hit at most as many atoms as the list holds, so the atoms left are never negative |
| BlackBox.AfterFacts | BlackBoxGame.py:172-180 | recording an entry and then the reported port adds at most two ports after the old ones, exactly those two, and no duplicate |
| BlackBox.Shoot | BlackBoxGame.py:167-182 | one shot on values; its contract is carried by `ShootFacts`, `ShootFresh`, `ShootRecorded`, `ShootPorts`, `ShootRepeat` and `BlackBoxGame.ShootRay` |
| BlackBox.ShootFresh | BlackBoxGame.py:172-176 | at an entry not yet used, the entry is appended and is the port a reflection reports |
| BlackBox.ShootRecorded | BlackBoxGame.py:172-176 | at an entry already used, nothing is appended and a reflection reports the last port of the list |
| BlackBox.AfterPorts | BlackBoxGame.py:172-180 | a shot keeps the used list a list of ports |
| BlackBox.ShootFacts | BlackBoxGame.py:167-182 | a shot is invalid exactly at a non-port and then changes nothing; a valid one adds at most two ports after the old ones (its entry and the port reported) and no duplicate |
| BlackBox.ShootPorts | BlackBoxGame.py:172-180 | only ports are ever recorded as used |
| BlackBox.ShootRepeat | BlackBoxGame.py:167-182 | repeating a shot at once gives the same result and the same used ports |
| BlackBox.RepeatSame | BlackBoxGame.py:172-180 | after a walk, a second walk that ends alike, or where each reports its own last recorded port, ends alike and records nothing new |
| BlackBox.RepeatAfter | BlackBoxGame.py:172-180 | after a shot, a second shot at the same entry that ends alike or reports the last port records nothing |
| BlackBox.FreshEntryEcho | BlackBoxGame.py:172-180 | a first shot at a port whose ray is sent straight back reports the entry itself and costs exactly one point |
| BlackBox.BlackBoxGame.RecordPort | BlackBoxGame.py:172-174 | the port is recorded, one point is paid if it is new, and guesses and the atom tally are untouched |
| BlackBox.BlackBoxGame.ShootRay | BlackBoxGame.py:163-182 | result and used ports are those of Shoot; one point per newly used port, at most two; score never rises; guesses and atoms left unchanged; the invariant is kept |
| BlackBox.BlackBoxGame.GuessAtom | BlackBoxGame.py:184-197 | right exactly when the atom list names the guess; a first wrong guess costs five; a first right guess finds one atom; a repeat changes nothing; the invariant is kept |
| Scenarios.ReferenceRun | BlackBoxGame.py:200-212 | atoms (5, 1), (5, 3), (8, 1); guesses (5, 6), (5, 1), (5, 1) answer wrong, right, right and leave score 20 and two atoms |
| Scenarios.BoardCell | BlackBoxGame.py:16-30 | each cell of a built board: border on the frame, an atom where the list names it, empty elsewhere |
| Scenarios.ColumnOneBoard | BlackBoxGame.py:16-30 | the reference board's column 1 down to (5, 1) and the columns beside it |
| Scenarios.ColumnOneRows | BlackBoxGame.py:138-139 | the ray fired down column 1 passes each of rows 0 to 4 without turning |
| Scenarios.ColumnOneClear | BlackBoxGame.py:138-143 | the lane down column 1 to row 4 is clear |
| Scenarios.ColumnOneHit | BlackBoxGame.py:129-130 | the ray fired down column 1 at the reference board is absorbed at (5, 1) |
| Scenarios.ColumnOneAbsorbed | BlackBoxGame.py:167-182 | that shot in a fresh game reports a hit and records only its entry |
| Scenarios.AbsorbedShot | BlackBoxGame.py:163-182 | in a fresh reference game, the shot at (0, 1) is a hit costing one point |
| Scenarios.ColumnSixBoard | BlackBoxGame.py:16-30 | column 6 and its neighbours on the board with a lone atom at (1, 4) |
| Scenarios.ColumnSixUpper | BlackBoxGame.py:138-139 | the ray down column 6 passes rows 0 to 4 |
| Scenarios.ColumnSixLower | BlackBoxGame.py:138-139 | the ray down column 6 passes rows 5 to 8 |
| Scenarios.ColumnSixClear | BlackBoxGame.py:138-143 | column 6 is clear from border to border |
| Scenarios.ColumnThreeEcho | BlackBoxGame.py:132-134 | the ray fired at (0, 3) turns onto the border at once and reports the last recorded port |
| Scenarios.ColumnSixExit | BlackBoxGame.py:132-136 | the ray fired at (0, 6) leaves at (9, 6) |
| Scenarios.EchoFirst | BlackBoxGame.py:172-180 | the first shot at (0, 3) reports (0, 3) and records it alone |
| Scenarios.EchoCross | BlackBoxGame.py:172-180 | the shot at (0, 6) then reports (9, 6) and records both ports |
| Scenarios.EchoAgain | BlackBoxGame.py:132-134 | a second shot at (0, 3) reports (9, 6), the last recorded port, not its own entry, and records nothing |
| Scenarios.EchoRun | BlackBoxGame.py:163-182 | the three shots in a game report (0, 3), (9, 6), (9, 6) and leave score 22 |
| Scenarios.CycleDown | BlackBoxGame.py:79-100 | at (4, 5) heading down, the atom at (5, 6) turns the ray left to (4, 4) |
| Scenarios.CycleLeft | BlackBoxGame.py:79-100 | at (4, 4) heading left, the atom at (5, 3) turns the ray up to (3, 4) |
| Scenarios.CycleUp | BlackBoxGame.py:79-100 | at (3, 4) heading up, the atom at (2, 3) turns the ray right to (3, 5) |
| Scenarios.CycleRight | BlackBoxGame.py:79-100 | at (3, 5) heading right, the atom at (2, 6) turns the ray down to (4, 5) |
| Scenarios.CycleCells | BlackBoxGame.py:16-30 | the cells around the square on the board with atoms (5, 6), (2, 6), (2, 3), (5, 3) |
| Scenarios.CycleOrbit | BlackBoxGame.py:138-149 | the four states (4, 5) Down, (4, 4) Left, (3, 4) Up, (3, 5) Right form a closed orbit |
| Scenarios.ClosedCycle | BlackBoxGame.py:125-151 | on that board a ray at (4, 5) heading down, after two or more moves, never ends its walk, whatever the fuel |

## Left out

- `main` and its `print` calls: console output only. Its three guesses are kept as `ReferenceRun`.
- The `board=` constructor parameter and atom lists beyond the first: the model takes one atom list and builds a fresh board.
- Coordinates outside 0..9 for `shoot_ray`: the code does not guard them, and Python's negative indexing or an `IndexError` would decide the result. `ShootRay` requires a grid cell.
- Calling `shoot_ray` with an explicit `direction`: that path skips validation and entry charging, and can read an empty port list. Only the default path is modelled.
- The recursion limit. `ray_move` has no bound in the code, and the walk can circle for ever (`ClosedCycle`). The walk is given `RayFuel`, 1000 moves, in place of the interpreter's recursion limit. It ends in `OutOfFuel` where Python would raise `RecursionError`.
- RayMove: on `OutOfFuel` the model returns a result and keeps the entry port already charged. Python instead raises an exception out of `shoot_ray`.
- Termination is not proved, and nothing shows whether a closed cycle can be reached from a border entry.
- The atom list is shared with the caller in the source: `_atoms` is the caller's own list object, and `get_atoms` hands out that same object. A caller that appends to it changes what `guess_atom` answers, but not the board or `_num_atoms`. The model holds an immutable copy (`const atoms`), so this aliasing is not captured.
- `set_num_atoms` and `deduct_score` are public, and the model's `SetNumAtoms` and `DeductScore` neither need nor keep `Valid`. The readers `GetScore`, `AtomsLeft` and `GetAtoms` require `Valid`, so the model does not cover reading the state after a direct call to either. The source's getters have no such condition; its own calls come only from `shoot_ray` and `guess_atom`.
- Strings: the source's `'#'`, `'X'` and `'O'` cell strings and its heading strings are the `Cell` and `Direction` datatypes.
