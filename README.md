# Game of Life automaton

A model of the cellular automaton behind a small GTK "Game of Life" desktop
program (`app.py`). The `Automaton` widget holds:

- a grid of boolean cells, indexed `cells[column][row]`;
- its dimensions;
- a play flag;
- a tick interval.

On every timer tick, while playing, it computes the next generation under
Conway's B3/S23 rule on a torus. It copies the grid, writes every cell's next
state into the copy (computed from the old grid only), and swaps the copy in.
A reset replaces the grid with an all-dead one. A click toggles one cell. A
header-bar switch flips the play flag.

The project has three modules:

- `Life` (`life.dfy`) holds the rules as pure functions on a value grid
  (`seq<seq<bool>>`):
  - the modular lookup `SafeState` and its index arithmetic `Wrap`;
  - the neighbour count over the nine-offset neighbourhood, skipping `(0, 0)`;
  - the rule, one cell's next state, and the whole next generation `Step`;
  - the reset grid and the toggled grid.
- `App` (`automaton.dfy`) is the imperative automaton. It is a class over an
  `array2<bool>` with the source's fields. A ghost field `Generation` holds the
  grid as a value, and `Valid()` ties it to the array. Every method that reads
  or writes the grid (`Tick`, `FillNext`, `NextState`, `SafeState`, `Toggle`,
  `Reset`) is proved against the `Life` functions. `Tick` may modify only the object's own fields,
  never the array holding the current generation, so the double buffering is
  part of the frame: no cell can see a value written during the same tick.
- `Patterns` (`patterns.dfy`) holds the classic behaviours as lemmas about
  `Life.Step`, on grids of any size large enough for each pattern:
  - the block is a still life;
  - the blinker oscillates with period two;
  - a lone cell dies;
  - an L-shaped corner gives birth and becomes a block;
  - an all-dead grid stays dead;
  - opposite corners are neighbours through the wrap-around.

In two places the code accepts more than a cleaner interface would, and the model follows the code:

- `reset` accepts any integers. The dimensions are stored as given. The grid
  has `max(0, n)` entries per dimension, as Python's `range(0, n)` has. Nothing
  is rejected and the old grid is not kept.
- The click handler has no bounds check. Toggling therefore requires in-range
  indices; it does not report an error.

Python's `%` with a positive divisor gives the same result as Dafny's `%`, so
`cells[column % columns][row % rows]` is modelled as written.

## Model

| member | source | states |
|---|---|---|
| Life.Wrap | app.py:55-56 | the wrapped coordinate is always a valid index; it is the identity inside the grid, and one step past either edge it lands on the opposite edge |
| Life.WrapPeriodic | app.py:55-56 | shifting a coordinate by a whole grid size does not change its wrapped value |
| Life.SafeState | app.py:54-57 | the lookup is defined for every pair of integers; inside the grid it reads the cell itself, and one step past an edge it reads the cell on the opposite edge |
| Life.SafeStateTorus | app.py:54-57 | the grid is a torus: moving a whole width or height in either direction reads the same cell |
| Life.Neighborhood | app.py:31-35 | the nine offsets in the source's visiting order, (0, 0) fifth |
| Life.Contribution | app.py:38-42 | each offset adds at most one to the count, and the offset `(0, 0)` adds nothing |
| Life.CountAlive | app.py:37-42 | a count over a list of offsets is at most the list's length, and strictly less when the list contains `(0, 0)` |
| Life.CountAliveSnoc | app.py:38-42 | helper for the loop proof, not a separate fact about the source: the definition of `CountAlive` unfolded at one point, so visiting one more offset adds exactly that offset's contribution, which is what the loop accumulates |
| Life.NeighborCount | app.py:31-42 | the neighbour count lies in 0..8 |
| Life.NeighborCountExplicit | app.py:31-42 | the count is the sum over the eight offsets other than `(0, 0)` |
| Life.NoSelfCount | app.py:39-41 | with at least two columns and two rows, a cell's own state never enters its neighbour count |
| Life.SingleCellCountsItself | app.py:54-57 | on a 1x1 grid the wrapped lookup reaches the cell itself, so a live cell counts 8 neighbours and dies |
| Life.Rule | app.py:44-52 | B3/S23 as two if-and-only-if statements: a live cell stays alive exactly with 2 or 3 neighbours, and a dead cell comes alive exactly with 3 |
| Life.NextState | app.py:29-52 | a cell is alive next exactly when it has 3 neighbours, or it is alive and has 2 |
| Life.Step | app.py:21-25 | the next generation has the same dimensions as the current one |
| Life.StepAt | app.py:22-24 | helper for the loop proof, not a separate fact about the source: the definition of `Step` unfolded at one cell, so each cell of the next generation is that cell's next state computed on the current generation |
| Life.ResetGrid | app.py:94 | the reset grid has the requested size and every cell is dead |
| Life.Toggled | app.py:66 | toggling negates exactly the chosen cell and keeps the size and every other cell |
| Life.ToggleTwice | app.py:66 | toggling the same cell twice restores the grid |
| App.Automaton.constructor | app.py:8-15 | a new automaton has no cells, zero rows and columns, is paused, and ticks every 100 ms |
| App.Automaton.Tick | app.py:18-27 | when paused nothing changes; when playing the grid becomes a fresh array holding `Life.Step` of the old generation, with the same dimensions, play flag and tick; it always asks to be called again |
| App.Automaton.FillNext | app.py:21-24 | the nested loops write every cell's next state into the copy, reading only the current grid |
| App.Automaton.NextState | app.py:29-52 | the loop over the neighbourhood, skipping `(0, 0)`, followed by the rule, computes exactly `Life.NextState` of the current generation |
| App.Automaton.SafeState | app.py:54-57 | the modular array lookup returns exactly `Life.SafeState` of the current generation |
| App.Automaton.Toggle | app.py:66 | the array flips one cell and the generation becomes `Life.Toggled` of the old one |
| App.Automaton.Reset | app.py:91-94 | the dimensions are stored as given, the grid becomes a fresh all-dead array of `max(0, n)` in each dimension, and the play flag and tick are kept; rows and columns default to 50 |
| App.Automaton.Accelerate | app.py:97-98 | the tick interval becomes the argument and nothing else changes |
| App.Automaton.SwitchPlaying | app.py:133-134 | the play flag is negated and nothing else changes |
| Patterns.PatternCount | app.py:31-42 | the neighbour count of a cell of a pattern is the number of live cells among its eight wrapped neighbours |
| Patterns.PatternNext | app.py:44-52 | the next state of a cell of a pattern is the rule applied to that count |
| Patterns.StepPattern | app.py:21-25 | a pattern steps to the pattern of the cells that the rule keeps or makes alive |
| Patterns.BlockStillLife | app.py:21-52 | a 2x2 block is unchanged by a step |
| Patterns.BlinkerTurns | app.py:21-52 | a horizontal blinker becomes vertical |
| Patterns.BlinkerReturns | app.py:21-52 | a vertical blinker becomes horizontal again, so two steps restore the horizontal blinker |
| Patterns.LiveAroundSingle | app.py:31-52 | on a grid of at least 3x3, a single live cell is seen at most once around any cell and not at all from itself, so nothing is alive next |
| Patterns.LoneCellDies | app.py:21-52 | a lone live cell anywhere on a grid of at least 3x3 dies, leaving an all-dead grid |
| Patterns.EmptyPattern | app.py:94 | the pattern with no live cells is the reset grid |
| Patterns.DeadStaysDead | app.py:21-52 | an all-dead grid stays all dead |
| Patterns.CornerBirth | app.py:41-51 | the dead cell inside an L of three live cells has exactly three neighbours and is born |
| Patterns.CornerBecomesBlock | app.py:21-52 | the L of three cells becomes a 2x2 block in one step |
| Patterns.CornersAreNeighbors | app.py:38-57 | through the wrap-around, a live cell at one corner is the only neighbour of the opposite corner, on any grid of at least 3x3 |

## Left out

- Widget plumbing is not modelled: the GTK base classes, signal connections, `queue_draw` and the application window.
- Drawing (`do_draw`, `_draw_square`) is not modelled: it only reads the grid and needs a graphics context.
- Timer scheduling in `accelerate` is not modelled: the `_tick_id` field, `GLib.source_remove` and `GLib.timeout_add` belong to the event loop. Only the recorded interval is.
- The click handler's pixel-to-cell mapping is not modelled. It divides the widget's allocation, truncates floating-point coordinates, and has no bounds check. It also depends on the widget's size.
- App.Automaton.Toggle: requires in-range indices. In the source, a click on the far edge indexes one past the end and raises an error, and Python's negative indices are not modelled.
- App.Automaton.SafeState: requires positive dimensions. The source would divide by zero, but it is only reached from cells that exist, so both dimensions are then positive.
- `deepcopy` is modelled as allocating a fresh array initialised from the current one. The copy's contents are overwritten before use.
- The `Application` class is not modelled, except that its switch callback flips the play flag. That flip is `App.Automaton.SwitchPlaying`, attached to the automaton it changes.
- Arguments that are not integers (Python would accept any object) are not modelled.
- Life.NoSelfCount: stated only for grids of at least 2x2. On a single column or row, the wrapped lookup reaches the cell itself (see `Life.SingleCellCountsItself`).
