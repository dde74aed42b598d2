# Bubble-shooter game field, modelled in Dafny

This project models the board logic of `GameField` in `main.py`, the core of a
bubble-shooter game. Bubbles rest on a staggered hexagonal lattice of rows; odd
rows are shifted right by one radius. A bubble flies in a straight line and
bounces off the side walls. It lands in the empty neighbour slot of the first
bubble it touches, the slot nearest to where it touched. Once it has landed:

- if its same-colour group has three or more members, that group is removed;
- then every bubble no longer connected to row 0 falls.

The modules follow the structure of the game:

- `Lattice` (lattice.dfy): slots, the world position of a slot centre, and the
  six neighbour candidates. Proved: the candidates are exactly the slots at
  lattice gap 1 to 5 (`NeighborIffGap`), so adjacency is symmetric. The
  squared distance of two centres is r² times their gap
  (`DistanceIsScaledGap`). The gap is zero only for equal slots
  (`GapZeroIffSame`) and at least 4 for different ones (`GapAtLeastFour`). So
  for a positive radius positions are injective, and different slot centres
  are at least two radii apart.
- `Board` (board.dfy): the jagged grid of optional bubbles. Also the
  bounds-checked read, adjacency, and the component reachable from a set of
  seeds (`Reach`, the least set closed under stepping to matching neighbours).
  `FloodGrown` specifies one call of the recursive flood fill; `Without` and
  `Listed` describe the removal passes.
- `Flight` (flight.dfy): the wall clamp, the collision scan and the
  landing-slot rule (`NearestFree`).
- `Drop` (drop.dfy): growing the board, placing the landed bubble, and the
  match-and-drop relation with its properties. Everything left hangs from
  row 0; no bubble is lost or moved twice.
- `Field` (field.dfy): class `GameField`. Its fields are the board, the flying
  bubble, its direction and the two animation lists. Its methods carry the
  loops and in-place updates of `GameField`'s Python methods, each proved
  against the functions and predicates above.

A resting bubble records its own row and column, and the invariant
`Consistent` keeps that record equal to the slot it sits in. So two slots never
hold equal bubble values, and membership of a value in a list is the same test
as the object identity that Python's `in` performs.

The class invariant `GameField.Valid` has four parts. `Shaped` says every odd
row is one shorter than row 0. `Consistent` says each bubble records its slot.
`Centred` says each resting bubble has the field's radius r and sits at the
centre of its slot, as `__init__` (main.py:169) and the landing step
(main.py:247-253) place it. The last part says the flying bubble, if any, has
radius r, as `Cannon.fire` (main.py:141) creates it. `AddEmptyRow`,
`PlaceFlying`, `Land` and `Update` keep `Valid`, so resting bubbles never
overlap (`Board.CentredApart`).

Squared distances replace square roots throughout. The square root is
monotone, so `sqrt(a) < sqrt(b)` holds exactly when `a < b`. The initial bound
of 10000 in the landing rule becomes 10⁸.

## Model

| member | source | states |
|---|---|---|
| Lattice.WorldPosition | main.py:180-186 | the centre of slot (row, col) lies, in units of the radius r, 1 + 2·col across (one more on odd rows, -1 counting as odd) and 1 + 2·row down from the scroll offset `top_pos` |
| Lattice.NeighborhoodIndexes | main.py:307-315 | the neighbour candidates are exactly six slots |
| Lattice.NeighborIffGap | main.py:307-315 | a slot is a neighbour candidate exactly when its squared distance in lattice units is 1 to 5, so the parity rule for the diagonals picks the six nearest slots |
| Lattice.NeighborSymmetric | main.py:307-315 | neighbourhood is symmetric: if b is a candidate of a, then a is a candidate of b (row parity taken as Python's `%` does, also for row -1) |
| Lattice.NeighborsDistinct | main.py:307-315 | the six candidates are pairwise different and never the slot itself |
| Lattice.DistanceIsScaledGap | main.py:180-186 | the squared distance between two slot centres is r² times their lattice gap, for any scroll offset |
| Lattice.WorldPositionInjective | main.py:180-186 | for a positive radius, different slots have different centres |
| Lattice.GapAtLeastFour | main.py:180-186 | two different slots are at least 4 apart in lattice units, that is, two radii squared |
| Lattice.DistinctSlotsApart | main.py:180-186 | for any radius r, the centres of two different slots are at least 2r apart: squared distance at least (r + r)² |
| Board.BubbleAt | main.py:299-304 | a read outside the jagged array (negative, past the last row, past the end of the row) gives None; inside, it gives the stored cell |
| Board.Without | main.py:258-259 | the board with the slots of the given bubbles nulled: same row lengths, and each cell is empty if it held one of them and unchanged otherwise (used for the group removal at main.py:258-259 and the drop at main.py:272) |
| Board.NeighborhoodIsAdjacency | main.py:317-324 | on a consistent board, the bubbles found at a resting bubble's candidates are exactly its adjacent resting bubbles |
| Board.AdjacentSymmetric | main.py:307-324 | adjacency of resting bubbles is symmetric |
| Board.ReachMatches | main.py:326-330 | everything reachable from seeds of the filter's colour is of that colour |
| Board.FloodAccumulates | main.py:326-336 | a flood fill into an accumulator that holds everything reachable from some seeds leaves it holding exactly what is reachable from those seeds and the new one |
| Board.DistinctCard | main.py:255-256 | a group without repeats has as many members as entries, so `len(group) >= 3` is a test of the component's size |
| Board.WithoutOccupied | main.py:258-259 | nulling the slots of a set of bubbles removes exactly those bubbles from the board |
| Board.ListedMembers | main.py:267-273 | the row-by-row listing of the bubbles in D holds exactly the resting bubbles that lie in D |
| Board.ListedDistinct | main.py:267-273 | on a consistent board that listing never repeats a bubble |
| Board.CentredApart | main.py:180-186 | on a consistent board whose bubbles sit at their slot centres with radius r, two different resting bubbles never overlap: their squared centre distance is at least (r1 + r2)², so they touch at most |
| Flight.Advance | main.py:232-241 | one step moves by speed 10 along the direction; the new x is the moved x when the bubble touches neither wall. Otherwise the left wall (x - r <= 0) is tested first and x is clamped to r or 330 - r. The horizontal direction is negated exactly when a clamp fires; y and the vertical direction follow the move unclamped. For 0 < 2r <= 330 the new x lies between r and 330 - r |
| Flight.Overlaps | main.py:294-295 | a resting bubble is touched when the squared distance between its centre and the query centre is at most the square of the two radii summed |
| Flight.ScanRow | main.py:291-296 | the column of the first bubble in a row, from a given column rightwards, that overlaps the query circle; None exactly when none does |
| Flight.ScanRows | main.py:290-297 | the slot of the first overlapping bubble, scanning rows from the last one up, each row left to right; None exactly when no bubble in those rows overlaps |
| Flight.CheckCollision | main.py:290-297 | None exactly when no resting bubble (row-0 bubbles included) overlaps the circle, squared centre distance at most (r1 + r2)². A result is a resting bubble that overlaps. On a consistent board, no overlapping bubble lies in a later row or earlier in its own row |
| Flight.NearestFreeUnique | main.py:348-361 | the landing rule (nearest empty candidate, first in list order on a tie, nearer than the bound) determines at most one slot |
| Drop.NewRow | main.py:340-345 | the row `add_empty_row` appends is all empty; on a shaped board its length follows the parity rule for the next row index, so the board stays shaped |
| Drop.Grown | main.py:247-248 | the board gains one row exactly when the landing row is at or past the end, and nothing else changes; afterwards a landing row up to one past the old end exists, and the added row is empty |
| Drop.Settle | main.py:249-252 | the landed bubble records the landing slot and the slot centre, and keeps its radius and colour |
| Drop.PlaceAt | main.py:253 | writing a bubble changes the landing cell and no other cell |
| Drop.GrownPreserves | main.py:247-248 | growing the board keeps its shape and consistency and adds no bubble |
| Drop.GrownCentred | main.py:247-248 | growing the board keeps every resting bubble at its slot centre with radius r |
| Drop.PlaceCentred | main.py:246-253 | writing a bubble of radius r that sits at the centre of its slot keeps every resting bubble at its slot centre |
| Drop.PlacePreserves | main.py:249-253 | writing the landed bubble into its empty slot keeps the board consistent, makes the bubble rest there and adds exactly that bubble |
| Drop.WithoutOneMore | main.py:258-259 | nulling a resting bubble's own slot is the same as removing that bubble from the board |
| Drop.AnchoredAfterDrop | main.py:263-273 | after the unconnected bubbles are removed, the board holds exactly the bubbles connected to row 0, row 0 is intact, and every remaining bubble is connected to row 0 in the new board |
| Drop.MatchAndDropValid | main.py:254-273 | the match-and-drop pass keeps the board shaped and consistent |
| Drop.MatchAndDropCentred | main.py:254-273 | the match-and-drop pass only takes bubbles off, so every bubble left stays at its slot centre with radius r |
| Drop.MatchAndDropAnchored | main.py:256-273 | after a removal pass every remaining bubble is reachable through neighbours from a row-0 bubble |
| Drop.MatchAndDropPartition | main.py:254-273 | the bubbles on the board before the pass split into those left, those deleted and those falling, pairwise disjoint. The deleted ones are the landed bubble's group, all of its colour and including it. The falling list has no repeats. Every row-0 bubble outside the group stays |
| Field.GameField.GetNeighborhood | main.py:317-324 | returns the bubbles found at the six candidates in candidate order; around a resting bubble, those are exactly its adjacent bubbles |
| Field.GameField.FindGroup | main.py:326-336 | satisfies `FloodGrown`, with these properties. A seed of another colour, or one already collected, adds nothing; otherwise the seed is added. The accumulator keeps its old prefix and gains no repeats. Only resting bubbles of the filter's colour are added. They are closed under matching neighbours, and each is reachable from the seed through bubbles that were not in the accumulator before the call. From an empty accumulator the result is exactly the seed's component, without repeats |
| Field.GameField.AddEmptyRow | main.py:338-346 | appends exactly one all-empty row, of length `len(bubbles[0])` for an even new index and one less for an odd one; earlier rows are unchanged, shape and consistency are kept, and `Valid` is kept when it held before |
| Field.GameField.FindPlace | main.py:348-361 | returns the slot the landing rule picks, or None when every empty candidate is at least the bound away (in particular when all six candidates are occupied) |
| Field.GameField.RemoveGroup | main.py:258-260 | the board afterwards has the group's bubbles removed, and the group is appended to the deleting list in order |
| Field.GameField.Connected | main.py:263-266 | flood-filling with "any" from every row-0 bubble into one accumulator collects exactly the bubbles connected to row 0, without repeats |
| Field.GameField.DropRow | main.py:268-273 | the scan of one row nulls the row's unconnected bubbles, leaves every other row alone, and appends those bubbles left to right |
| Field.GameField.DropUnconnected | main.py:267-273 | the board afterwards has every unconnected bubble removed, and they are appended to the falling list row by row, left to right |
| Field.GameField.MatchAndDropPass | main.py:254-273 | the landed bubble's group is flood-filled. Under three members nothing changes. Otherwise the group is removed and queued for deletion, and then every bubble not connected to row 0 is removed and queued to fall (`Drop.MatchAndDrop`) |
| Field.GameField.PlaceFlying | main.py:246-253 | the board grows by one row when the landing row is one past the end; the flying bubble is moved to the landing slot's centre and written into it. `Valid` is kept, and the placed bubble is at least r1 + r2 from every other resting bubble: squared distance at least (r1 + r2)² |
| Field.GameField.Land | main.py:244-274 | the landing step (`LandOutcome`). The landing slot is the one the landing rule picks. Growth, placement and the match-and-drop pass follow, and then the flying bubble is cleared. When no slot is picked, or the picked slot is outside the board after growing, an error step results and nothing changes. `Valid` is kept |
| Field.GameField.Update | main.py:231-277 | with no flying bubble nothing happens. Otherwise the bubble takes one clamped step. It keeps flying from the new position when nothing is touched, and otherwise lands next to the first bubble that the collision scan finds. The board stays valid |

## Left out

- Rendering, fonts, the display and the main loop are left out: they are I/O
  through pygame. This covers `Camera`, the `render` methods, the main loop
  and the debug highlight helpers.
- Key and mouse polling (`Camera.update`, `Cannon.update`), the trajectory
  preview and `Cannon.fire` are left out. They read input, normalise with a
  square root and draw random colours. The preview loop also need not
  terminate.
- `GameField.__init__` is not modelled. It draws random colours and renders
  debug text. Its hard-coded break at column 9 makes odd rows one shorter only
  for boards 11 wide. The model instead takes any board that is `Shaped`
  (every odd row one shorter than row 0) and `Consistent`.
- The shrink and fall animations at the top of `update` (main.py:221-229) are
  cosmetic timing, and are not modelled. The deleting and falling lists are
  modelled only as the queues that the landing step appends to.
- Scrolling (`move_field` and its trigger in `render`) is not modelled. The
  scroll offset `topPos` is a field that the modelled operations only read.
- Field.GameField.Land: when no candidate slot is picked, Python's `new_pos[0]`
  raises IndexError. When the picked slot lies right of the end of its row,
  the write at main.py:253 raises IndexError. When the picked slot is in row
  -1 or column -1, Python reads the index from the end: it writes the bubble
  into the last row, or the last column of its row, when the other index fits
  that row, and raises IndexError otherwise (for example candidate (-1, 10)
  of a bubble at (0, 10) when the last row is odd and 10 long). The model
  ends every one of these cases with `NoFreeSlot` or `OffGrid` and changes
  nothing.
- Field.GameField.FindGroup: in `find_group_recursion` the call for each
  collected bubble stays on the stack while its neighbours are explored. So a
  depth-first path longer than Python's recursion limit (1000 by default,
  minus the caller's frames) raises RecursionError; the nesting depth is that
  path's length, not the size of the group. The model's recursion has no depth
  bound.
- Field.GameField.FindGroup: Python appends into a list the caller owns. The
  model passes the accumulator in and returns the extended list; the caller
  rebinds its variable to it.
- Field.GameField.FindGroup: the order in which the new entries of the
  accumulator are appended (depth first, main.py:330-336) is not specified.
  `FloodGrown` states their set, that they do not repeat, and that the old
  prefix is kept. Only the shrink animation, which is left out, sees that
  order.
- Field.GameField.PlaceFlying: Python mutates the flying bubble object in
  place and stores that same object in the grid. The model builds the moved
  value (`Drop.Settle`) and stores it in both `flying` and the grid.
- Bubbles are values, not objects. The invariant `Consistent` makes value
  equality coincide with identity for bubbles on the board. Aliasing between
  the grid and the animation lists is not modelled.
- Floating-point rounding is not modelled: positions, radii and directions
  are exact reals.
