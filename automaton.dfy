/** The automaton object: a grid of cells updated in place, a play flag and a
    tick interval, with the operations the user interface invokes on it. */
module App {
  import Life

  /** The number of indices in `range(0, n)`: none when `n` is negative. */
  function Extent(n: int): nat {
    if n < 0 then 0 else n
  }

  class Automaton {
    /** `cells[column, row]`, true for a live cell. */
    var cells: array2<bool>
    var rows: int
    var columns: int
    var playing: bool
    /** The interval between ticks, in milliseconds. */
    var tick: int
    /** The current generation as a value: `Generation[column][row] == cells[column, row]`. */
    ghost var Generation: Life.Grid

    /** The grid has one column per index of `range(0, columns)`, each with one
        cell per index of `range(0, rows)`, and holds `Generation`. */
    ghost predicate Valid()
      reads this, cells
    {
      && cells.Length0 == Extent(columns)
      && cells.Length1 == Extent(rows)
      && Life.IsGrid(Generation, cells.Length0, cells.Length1)
      && forall c, r :: 0 <= c < cells.Length0 && 0 <= r < cells.Length1 ==> Generation[c][r] == cells[c, r]
    }

    /** A new automaton: no cells, paused, ticking every 100 milliseconds. */
    constructor ()
      ensures Valid() && fresh(cells)
      ensures Generation == [] && rows == 0 && columns == 0
      ensures !playing && tick == 100
    {
      cells := new bool[0, 0];
      rows := 0;
      columns := 0;
      playing := false;
      tick := 100;
      Generation := [];
    }

    /** One generation on: nothing happens while paused; otherwise every cell
        of a fresh copy receives its next state, computed from the current
        grid only, and the copy becomes the grid. The method may not write the
        current grid at all (its frame is `this`, not `cells`), so no cell sees
        a value updated during the same tick. Always asks to be called again. */
    method Tick() returns (again: bool)
      requires Valid()
      modifies this
      ensures Valid() && again
      ensures rows == old(rows) && columns == old(columns)
      ensures playing == old(playing) && tick == old(tick)
      ensures !playing ==> cells == old(cells) && Generation == old(Generation)
      ensures playing ==> fresh(cells)
      ensures playing ==> Generation == Life.Step(old(Generation), Extent(columns), Extent(rows))
    {
      if !playing {
        return true;
      }
      var current := cells;
      var next := new bool[current.Length0, current.Length1]((c, r)
        requires 0 <= c < current.Length0 && 0 <= r < current.Length1 reads current => current[c, r]);
      FillNext(next);
      cells := next;
      Generation := Life.Step(Generation, Extent(columns), Extent(rows));
      return true;
    }

    /** The loops of a tick: write every cell's next state into `next`, a
        buffer of the grid's size distinct from it, reading only the grid. */
    method FillNext(next: array2<bool>)
      requires Valid() && next != cells
      requires next.Length0 == cells.Length0 && next.Length1 == cells.Length1
      modifies next
      ensures forall c, r :: 0 <= c < next.Length0 && 0 <= r < next.Length1 ==>
        next[c, r] == Life.Step(Generation, Extent(columns), Extent(rows))[c][r]
    {
      ghost var width, height := Extent(columns), Extent(rows);
      ghost var h := Life.Step(Generation, width, height);
      for column := 0 to Extent(columns)
        invariant forall c, r :: 0 <= c < column && 0 <= r < height ==> next[c, r] == h[c][r]
      {
        for row := 0 to Extent(rows)
          invariant forall c, r :: 0 <= c < column && 0 <= r < height ==> next[c, r] == h[c][r]
          invariant forall r :: 0 <= r < row ==> next[column, r] == h[column][r]
        {
          var alive := NextState(column, row);
          assert width == columns && height == rows;
          Life.StepAt(Generation, width, height, column, row);
          next[column, row] := alive;
        }
      }
    }

    /** The state of an in-range cell in the next generation: counts the live
        cells among its eight wrapped neighbours, skipping the offset (0, 0),
        and applies the rule. */
    method NextState(column: int, row: int) returns (alive: bool)
      requires Valid() && 0 <= column < columns && 0 <= row < rows
      ensures alive == Life.NextState(Generation, columns, rows, column, row)
    {
      var isAlive := cells[column, row];
      var neighborhood := Life.Neighborhood;
      var neighbors := 0;
      for i := 0 to |neighborhood|
        invariant neighbors == Life.CountAlive(Generation, columns, rows, column, row, neighborhood[..i])
      {
        var neighbor := neighborhood[i];
        assert neighborhood[..i + 1] == neighborhood[..i] + [neighbor];
        Life.CountAliveSnoc(Generation, columns, rows, column, row, neighborhood[..i], neighbor);
        if neighbor.0 == 0 && neighbor.1 == 0 {
          assert neighbor == (0, 0);
          continue;
        }
        var neighborAlive := SafeState(column + neighbor.0, row + neighbor.1);
        assert Life.Contribution(Generation, columns, rows, column, row, neighbor) == Life.Bit(neighborAlive);
        if neighborAlive {
          neighbors := neighbors + 1;
        }
      }
      assert neighborhood[..|neighborhood|] == neighborhood;
      alive := Life.Rule(isAlive, neighbors);
    }

    /** The wrapped lookup on the grid itself. */
    function SafeState(column: int, row: int): (alive: bool)
      reads this, cells
      requires Valid() && columns > 0 && rows > 0
      ensures alive == Life.SafeState(Generation, columns, rows, column, row)
    {
      cells[column % columns, row % rows]
    }

    /** Flip one in-range cell; nothing else changes. */
    method Toggle(column: int, row: int)
      requires Valid() && 0 <= column < columns && 0 <= row < rows
      modifies this`Generation, cells
      ensures Valid()
      ensures Generation == Life.Toggled(old(Generation), columns, rows, column, row)
    {
      cells[column, row] := !cells[column, row];
      Generation := Life.Toggled(Generation, columns, rows, column, row);
    }

    /** Replace the grid by an all-dead one of `columns` columns of `rows`
        cells; the dimensions are stored as given. */
    method Reset(rows: int := 50, columns: int := 50)
      modifies this
      ensures Valid() && fresh(cells)
      ensures this.rows == rows && this.columns == columns
      ensures Generation == Life.ResetGrid(Extent(columns), Extent(rows))
      ensures playing == old(playing) && tick == old(tick)
    {
      this.rows := rows;
      this.columns := columns;
      cells := new bool[Extent(columns), Extent(rows)]((c, r) => false);
      Generation := Life.ResetGrid(Extent(columns), Extent(rows));
    }

    /** Record a new tick interval. */
    method Accelerate(tick: int)
      requires Valid()
      modifies this`tick
      ensures Valid()
      ensures this.tick == tick
    {
      this.tick := tick;
    }

    /** The play/pause switch: flips `playing` and touches nothing else. */
    method SwitchPlaying()
      requires Valid()
      modifies this`playing
      ensures Valid()
      ensures playing == !old(playing)
    {
      playing := !playing;
    }
  }
}
