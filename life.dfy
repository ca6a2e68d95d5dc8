/** The rules of Conway's Game of Life on a toroidal grid, as pure functions.
    A generation is indexed `g[column][row]`, `true` meaning alive. These
    functions are the specification of the imperative automaton in App. */
module Life {

  type Grid = seq<seq<bool>>

  /** `g` has exactly `columns` columns, each holding `rows` cells. */
  predicate IsGrid(g: Grid, columns: nat, rows: nat) {
    |g| == columns && forall c :: 0 <= c < columns ==> |g[c]| == rows
  }

  /** Every cell of `g` is dead. */
  predicate AllDead(g: Grid) {
    forall c, r :: 0 <= c < |g| && 0 <= r < |g[c]| ==> !g[c][r]
  }

  /** A coordinate taken modulo the grid size (Python's `%` with a positive
      divisor, which agrees with Dafny's): always a valid index, the identity
      inside the grid, and wrapping one step past either edge to the other. */
  function Wrap(i: int, n: int): (k: int)
    requires n > 0
    ensures 0 <= k < n
    ensures -1 <= i <= n ==> k == (if i == -1 then n - 1 else if i == n then 0 else i)
  {
    i % n
  }

  /** An index is determined by any decomposition `i == q * n + k` with `0 <= k < n`. */
  lemma WrapUnique(i: int, n: int, q: int, k: int)
    requires n > 0 && 0 <= k < n && i == q * n + k
    ensures Wrap(i, n) == k
  {
    var d, m := i / n, i % n;
    assert i == d * n + m;
    assert q * n - d * n == (q - d) * n;
    if q > d {
      MultipleAtLeast(q - d, n);
    } else if q < d {
      MultipleAtLeast(d - q, n);
    }
  }

  lemma MultipleAtLeast(a: int, n: int)
    requires a >= 1 && n > 0
    ensures a * n >= n
  {
    assert a * n == (a - 1) * n + n;
  }

  /** Wrapping is periodic: shifting by a whole grid size lands on the same index. */
  lemma WrapPeriodic(i: int, n: int)
    requires n > 0
    ensures Wrap(i + n, n) == Wrap(i, n) && Wrap(i - n, n) == Wrap(i, n)
  {
    var q, k := i / n, i % n;
    assert i == q * n + k;
    WrapUnique(i + n, n, q + 1, k);
    WrapUnique(i - n, n, q - 1, k);
  }

  /** The wrapped lookup: defined for every pair of integers; inside the grid
      it reads the cell itself, and one step past an edge it reads the cell on
      the opposite edge. */
  function SafeState(g: Grid, columns: nat, rows: nat, column: int, row: int): (alive: bool)
    requires IsGrid(g, columns, rows) && columns > 0 && rows > 0
    ensures 0 <= column < columns && 0 <= row < rows ==> alive == g[column][row]
    ensures -1 <= column <= columns && -1 <= row <= rows ==>
      alive == g[if column == -1 then columns - 1 else if column == columns then 0 else column]
                [if row == -1 then rows - 1 else if row == rows then 0 else row]
  {
    g[Wrap(column, columns)][Wrap(row, rows)]
  }

  /** The grid is a torus: moving a whole grid size in either direction reads the same cell. */
  lemma SafeStateTorus(g: Grid, columns: nat, rows: nat, column: int, row: int)
    requires IsGrid(g, columns, rows) && columns > 0 && rows > 0
    ensures SafeState(g, columns, rows, column + columns, row) == SafeState(g, columns, rows, column, row)
    ensures SafeState(g, columns, rows, column - columns, row) == SafeState(g, columns, rows, column, row)
    ensures SafeState(g, columns, rows, column, row + rows) == SafeState(g, columns, rows, column, row)
    ensures SafeState(g, columns, rows, column, row - rows) == SafeState(g, columns, rows, column, row)
  {
    WrapPeriodic(column, columns);
    WrapPeriodic(row, rows);
  }

  /** The nine offsets of the neighbourhood, in the order the automaton visits
      them; `(0, 0)` is the cell itself and is skipped when counting. */
  const Neighborhood: seq<(int, int)> := [
    (-1, -1), (0, -1), (1, -1),
    (-1,  0), (0,  0), (1,  0),
    (-1,  1), (0,  1), (1,  1)
  ]

  function Bit(b: bool): nat { if b then 1 else 0 }

  /** What one offset adds to a neighbour count: nothing for `(0, 0)`, the
      cell itself; otherwise one when the wrapped cell at that offset is alive. */
  function Contribution(g: Grid, columns: nat, rows: nat, column: int, row: int,
                        offset: (int, int)): (n: nat)
    requires IsGrid(g, columns, rows) && columns > 0 && rows > 0
    ensures n <= 1
    ensures offset == (0, 0) ==> n == 0
  {
    if offset == (0, 0) then 0
    else Bit(SafeState(g, columns, rows, column + offset.0, row + offset.1))
  }

  /** Number of live cells reached from `(column, row)` through `offsets`,
      skipping the offset `(0, 0)`; counts the offsets from last to first so
      that a loop over a prefix of the list accumulates exactly this value. */
  function CountAlive(g: Grid, columns: nat, rows: nat, column: int, row: int,
                      offsets: seq<(int, int)>): (n: nat)
    requires IsGrid(g, columns, rows) && columns > 0 && rows > 0
    ensures n <= |offsets|
    ensures (0, 0) in offsets ==> n < |offsets|
    decreases |offsets|
  {
    if offsets == [] then 0
    else
      var init, last := offsets[..|offsets| - 1], offsets[|offsets| - 1];
      assert offsets == init + [last];
      CountAlive(g, columns, rows, column, row, init) + Contribution(g, columns, rows, column, row, last)
  }

  /** Counting one more offset adds that offset's contribution. */
  lemma CountAliveSnoc(g: Grid, columns: nat, rows: nat, column: int, row: int,
                       offsets: seq<(int, int)>, offset: (int, int))
    requires IsGrid(g, columns, rows) && columns > 0 && rows > 0
    ensures CountAlive(g, columns, rows, column, row, offsets + [offset]) ==
            CountAlive(g, columns, rows, column, row, offsets) + Contribution(g, columns, rows, column, row, offset)
  {
  }

  /** The neighbour count of a cell: between 0 and 8. */
  function NeighborCount(g: Grid, columns: nat, rows: nat, column: int, row: int): (n: nat)
    requires IsGrid(g, columns, rows) && columns > 0 && rows > 0
    ensures n <= 8
  {
    assert Neighborhood[4] == (0, 0);
    CountAlive(g, columns, rows, column, row, Neighborhood)
  }

  /** The neighbour count is the sum over the eight surrounding offsets; the
      offset `(0, 0)`, the cell itself, never enters the sum. */
  lemma {:induction false} NeighborCountExplicit(g: Grid, columns: nat, rows: nat, column: int, row: int)
    requires IsGrid(g, columns, rows) && columns > 0 && rows > 0
    ensures NeighborCount(g, columns, rows, column, row) ==
      Contribution(g, columns, rows, column, row, (-1, -1)) +
      Contribution(g, columns, rows, column, row, (0, -1)) +
      Contribution(g, columns, rows, column, row, (1, -1)) +
      Contribution(g, columns, rows, column, row, (-1, 0)) +
      Contribution(g, columns, rows, column, row, (1, 0)) +
      Contribution(g, columns, rows, column, row, (-1, 1)) +
      Contribution(g, columns, rows, column, row, (0, 1)) +
      Contribution(g, columns, rows, column, row, (1, 1))
  {
    var N := Neighborhood;
    var P0: seq<(int, int)> := [];
    var P1, P2, P3 := P0 + [N[0]], P0 + [N[0], N[1]], P0 + [N[0], N[1], N[2]];
    var P4, P5 := P3 + [N[3]], P3 + [N[3], N[4]];
    var P6, P7, P8 := P5 + [N[5]], P5 + [N[5], N[6]], P5 + [N[5], N[6], N[7]];
    assert P2 == P1 + [N[1]] && P3 == P2 + [N[2]] && P5 == P4 + [N[4]];
    assert P7 == P6 + [N[6]] && P8 == P7 + [N[7]] && N == P8 + [N[8]];
    CountAliveSnoc(g, columns, rows, column, row, P0, N[0]);
    CountAliveSnoc(g, columns, rows, column, row, P1, N[1]);
    CountAliveSnoc(g, columns, rows, column, row, P2, N[2]);
    CountAliveSnoc(g, columns, rows, column, row, P3, N[3]);
    CountAliveSnoc(g, columns, rows, column, row, P4, N[4]);
    CountAliveSnoc(g, columns, rows, column, row, P5, N[5]);
    CountAliveSnoc(g, columns, rows, column, row, P6, N[6]);
    CountAliveSnoc(g, columns, rows, column, row, P7, N[7]);
    CountAliveSnoc(g, columns, rows, column, row, P8, N[8]);
  }

  /** Conway's B3/S23 rule: a live cell survives with 2 or 3 neighbours, a dead
      cell is born with exactly 3, and every other cell is dead next. */
  function Rule(isAlive: bool, neighbors: int): (alive: bool)
    ensures isAlive ==> (alive <==> neighbors == 2 || neighbors == 3)
    ensures !isAlive ==> (alive <==> neighbors == 3)
  {
    if isAlive && neighbors < 2 then false
    else if isAlive && neighbors in [2, 3] then true
    else if isAlive && neighbors > 3 then false
    else if !isAlive && neighbors == 3 then true
    else false
  }

  /** The state of an in-range cell in the next generation. */
  function NextState(g: Grid, columns: nat, rows: nat, column: int, row: int): (alive: bool)
    requires IsGrid(g, columns, rows)
    requires 0 <= column < columns && 0 <= row < rows
    ensures alive <==> NeighborCount(g, columns, rows, column, row) == 3 ||
                       (g[column][row] && NeighborCount(g, columns, rows, column, row) == 2)
  {
    Rule(g[column][row], NeighborCount(g, columns, rows, column, row))
  }

  /** With at least two columns and two rows, no offset other than `(0, 0)`
      wraps back onto the cell, so updating the cell leaves that offset's
      contribution unchanged. */
  lemma ContributionIgnoresSelf(g: Grid, columns: nat, rows: nat, column: int, row: int,
                                b: bool, offset: (int, int))
    requires IsGrid(g, columns, rows) && columns >= 2 && rows >= 2
    requires 0 <= column < columns && 0 <= row < rows
    requires -1 <= offset.0 <= 1 && -1 <= offset.1 <= 1
    ensures IsGrid(g[column := g[column][row := b]], columns, rows)
    ensures Contribution(g[column := g[column][row := b]], columns, rows, column, row, offset) ==
            Contribution(g, columns, rows, column, row, offset)
  {
  }

  /** With at least two columns and two rows, a cell's own state does not
      influence its neighbour count: no wrapped neighbour is the cell itself. */
  lemma NoSelfCount(g: Grid, columns: nat, rows: nat, column: int, row: int, b: bool)
    requires IsGrid(g, columns, rows) && columns >= 2 && rows >= 2
    requires 0 <= column < columns && 0 <= row < rows
    ensures IsGrid(g[column := g[column][row := b]], columns, rows)
    ensures NeighborCount(g[column := g[column][row := b]], columns, rows, column, row) ==
            NeighborCount(g, columns, rows, column, row)
  {
    var h := g[column := g[column][row := b]];
    NeighborCountExplicit(g, columns, rows, column, row);
    NeighborCountExplicit(h, columns, rows, column, row);
    ContributionIgnoresSelf(g, columns, rows, column, row, b, (-1, -1));
    ContributionIgnoresSelf(g, columns, rows, column, row, b, (0, -1));
    ContributionIgnoresSelf(g, columns, rows, column, row, b, (1, -1));
    ContributionIgnoresSelf(g, columns, rows, column, row, b, (-1, 0));
    ContributionIgnoresSelf(g, columns, rows, column, row, b, (1, 0));
    ContributionIgnoresSelf(g, columns, rows, column, row, b, (-1, 1));
    ContributionIgnoresSelf(g, columns, rows, column, row, b, (0, 1));
    ContributionIgnoresSelf(g, columns, rows, column, row, b, (1, 1));
  }

  /** On a single column the wrapped lookup reaches the cell itself: a lone
      live cell on a 1x1 grid is its own eight neighbours. */
  lemma SingleCellCountsItself()
    ensures NeighborCount([[true]], 1, 1, 0, 0) == 8
    ensures !NextState([[true]], 1, 1, 0, 0)
  {
    NeighborCountExplicit([[true]], 1, 1, 0, 0);
  }

  /** The next generation: every cell's next state computed from `g` alone. */
  function Step(g: Grid, columns: nat, rows: nat): (next: Grid)
    requires IsGrid(g, columns, rows)
    ensures IsGrid(next, columns, rows)
  {
    seq(columns, c requires 0 <= c < columns =>
      seq(rows, r requires 0 <= r < rows => NextState(g, columns, rows, c, r)))
  }

  /** Two grids of the same size with the same cells are the same grid. */
  lemma GridEquality(a: Grid, b: Grid, columns: nat, rows: nat)
    requires IsGrid(a, columns, rows) && IsGrid(b, columns, rows)
    requires forall c, r :: 0 <= c < columns && 0 <= r < rows ==> a[c][r] == b[c][r]
    ensures a == b
  {
    forall c | 0 <= c < columns ensures a[c] == b[c] {
      assert forall r :: 0 <= r < rows ==> a[c][r] == b[c][r];
    }
  }

  /** Each cell of the next generation is that cell's next state in `g`. */
  lemma StepAt(g: Grid, columns: nat, rows: nat, column: int, row: int)
    requires IsGrid(g, columns, rows)
    requires 0 <= column < columns && 0 <= row < rows
    ensures Step(g, columns, rows)[column][row] == NextState(g, columns, rows, column, row)
  {
  }

  /** A fresh all-dead grid of the given size. */
  function ResetGrid(columns: nat, rows: nat): (g: Grid)
    ensures IsGrid(g, columns, rows)
    ensures AllDead(g)
  {
    seq(columns, _ => seq(rows, _ => false))
  }

  /** `g` with one in-range cell flipped. */
  function Toggled(g: Grid, columns: nat, rows: nat, column: int, row: int): (h: Grid)
    requires IsGrid(g, columns, rows)
    requires 0 <= column < columns && 0 <= row < rows
    ensures IsGrid(h, columns, rows)
    ensures h[column][row] == !g[column][row]
    ensures forall c, r :: 0 <= c < columns && 0 <= r < rows && (c, r) != (column, row) ==>
      h[c][r] == g[c][r]
  {
    g[column := g[column][row := !g[column][row]]]
  }

  /** Flipping the same cell twice restores the original grid. */
  lemma ToggleTwice(g: Grid, columns: nat, rows: nat, column: int, row: int)
    requires IsGrid(g, columns, rows)
    requires 0 <= column < columns && 0 <= row < rows
    ensures Toggled(Toggled(g, columns, rows, column, row), columns, rows, column, row) == g
  {
    var h := Toggled(Toggled(g, columns, rows, column, row), columns, rows, column, row);
    forall c | 0 <= c < columns ensures h[c] == g[c] { }
  }
}
