/** Classic Game of Life patterns, stated as facts about one step of the rules. */
module Patterns {
  import opened Life

  /** The grid of the given size whose live cells are exactly `live`. */
  function Pattern(columns: nat, rows: nat, live: set<(int, int)>): (g: Grid)
    ensures IsGrid(g, columns, rows)
    ensures forall c, r :: 0 <= c < columns && 0 <= r < rows ==> (g[c][r] <==> (c, r) in live)
  {
    seq(columns, c => seq(rows, r => (c, r) in live))
  }

  /** The index one step `d` (-1, 0 or 1) from an in-range index `i`, wrapping at both edges. */
  function Adjacent(i: int, d: int, n: nat): int {
    if i + d == -1 then n - 1 else if i + d == n then 0 else i + d
  }

  /** How many of the eight wrapped cells around `(column, row)` are in `live`. */
  function LiveAround(live: set<(int, int)>, columns: nat, rows: nat, column: int, row: int): nat {
    var west, east := Adjacent(column, -1, columns), Adjacent(column, 1, columns);
    var north, south := Adjacent(row, -1, rows), Adjacent(row, 1, rows);
    Bit((west, north) in live) + Bit((column, north) in live) + Bit((east, north) in live) +
    Bit((west, row) in live) + Bit((east, row) in live) +
    Bit((west, south) in live) + Bit((column, south) in live) + Bit((east, south) in live)
  }

  /** One offset's contribution to a neighbour count in a pattern: whether
      the wrapped cell at that offset is one of the live cells. */
  lemma PatternContribution(columns: nat, rows: nat, live: set<(int, int)>, column: int, row: int,
                            dc: int, dr: int)
    requires 0 <= column < columns && 0 <= row < rows
    requires -1 <= dc <= 1 && -1 <= dr <= 1 && (dc, dr) != (0, 0)
    ensures Contribution(Pattern(columns, rows, live), columns, rows, column, row, (dc, dr)) ==
            Bit((Adjacent(column, dc, columns), Adjacent(row, dr, rows)) in live)
  {
  }

  /** The contributions of the four offsets visited before `(0, 0)`. */
  lemma PatternCountBefore(columns: nat, rows: nat, live: set<(int, int)>, column: int, row: int)
    requires 0 <= column < columns && 0 <= row < rows
    ensures
      var g := Pattern(columns, rows, live);
      var west, east := Adjacent(column, -1, columns), Adjacent(column, 1, columns);
      var north := Adjacent(row, -1, rows);
      Contribution(g, columns, rows, column, row, (-1, -1)) +
      Contribution(g, columns, rows, column, row, (0, -1)) +
      Contribution(g, columns, rows, column, row, (1, -1)) +
      Contribution(g, columns, rows, column, row, (-1, 0)) ==
      Bit((west, north) in live) + Bit((column, north) in live) + Bit((east, north) in live) +
      Bit((west, row) in live)
  {
    assert Adjacent(column, 0, columns) == column && Adjacent(row, 0, rows) == row;
    PatternContribution(columns, rows, live, column, row, -1, -1);
    PatternContribution(columns, rows, live, column, row, 0, -1);
    PatternContribution(columns, rows, live, column, row, 1, -1);
    PatternContribution(columns, rows, live, column, row, -1, 0);
  }

  /** The contributions of the four offsets visited after `(0, 0)`. */
  lemma PatternCountAfter(columns: nat, rows: nat, live: set<(int, int)>, column: int, row: int)
    requires 0 <= column < columns && 0 <= row < rows
    ensures
      var g := Pattern(columns, rows, live);
      var west, east := Adjacent(column, -1, columns), Adjacent(column, 1, columns);
      var south := Adjacent(row, 1, rows);
      Contribution(g, columns, rows, column, row, (1, 0)) +
      Contribution(g, columns, rows, column, row, (-1, 1)) +
      Contribution(g, columns, rows, column, row, (0, 1)) +
      Contribution(g, columns, rows, column, row, (1, 1)) ==
      Bit((east, row) in live) +
      Bit((west, south) in live) + Bit((column, south) in live) + Bit((east, south) in live)
  {
    assert Adjacent(column, 0, columns) == column && Adjacent(row, 0, rows) == row;
    PatternContribution(columns, rows, live, column, row, 1, 0);
    PatternContribution(columns, rows, live, column, row, -1, 1);
    PatternContribution(columns, rows, live, column, row, 0, 1);
    PatternContribution(columns, rows, live, column, row, 1, 1);
  }

  /** The neighbour count of a cell of a pattern is the number of live cells
      among the eight wrapped cells around it. */
  lemma PatternCount(columns: nat, rows: nat, live: set<(int, int)>, column: int, row: int)
    requires 0 <= column < columns && 0 <= row < rows
    ensures NeighborCount(Pattern(columns, rows, live), columns, rows, column, row) ==
            LiveAround(live, columns, rows, column, row)
  {
    NeighborCountExplicit(Pattern(columns, rows, live), columns, rows, column, row);
    PatternCountBefore(columns, rows, live, column, row);
    PatternCountAfter(columns, rows, live, column, row);
  }

  /** The next state of a cell of a pattern: the rule applied to whether it
      is live and to the live cells around it. */
  lemma PatternNext(columns: nat, rows: nat, live: set<(int, int)>, column: int, row: int)
    requires 0 <= column < columns && 0 <= row < rows
    ensures NextState(Pattern(columns, rows, live), columns, rows, column, row) ==
            Rule((column, row) in live, LiveAround(live, columns, rows, column, row))
  {
    PatternCount(columns, rows, live, column, row);
  }

  /** A pattern steps to the pattern of the cells that the rule keeps or makes alive. */
  lemma StepPattern(columns: nat, rows: nat, live: set<(int, int)>, next: set<(int, int)>)
    requires forall c, r :: 0 <= c < columns && 0 <= r < rows ==>
      (Rule((c, r) in live, LiveAround(live, columns, rows, c, r)) <==> (c, r) in next)
    ensures Step(Pattern(columns, rows, live), columns, rows) == Pattern(columns, rows, next)
  {
    var g := Pattern(columns, rows, live);
    forall c, r | 0 <= c < columns && 0 <= r < rows
      ensures Step(g, columns, rows)[c][r] == Pattern(columns, rows, next)[c][r]
    {
      StepAt(g, columns, rows, c, r);
      PatternNext(columns, rows, live, c, r);
    }
    GridEquality(Step(g, columns, rows), Pattern(columns, rows, next), columns, rows);
  }

  const Block: set<(int, int)> := {(1, 1), (2, 1), (1, 2), (2, 2)}

  /** A 2x2 block with a dead border is a still life. */
  lemma BlockStillLife(columns: nat, rows: nat)
    requires columns >= 4 && rows >= 4
    ensures Step(Pattern(columns, rows, Block), columns, rows) == Pattern(columns, rows, Block)
  {
    forall c, r | 0 <= c < columns && 0 <= r < rows
      ensures Rule((c, r) in Block, LiveAround(Block, columns, rows, c, r)) <==> (c, r) in Block
    {
    }
    StepPattern(columns, rows, Block, Block);
  }

  const Horizontal: set<(int, int)> := {(2, 1), (3, 1), (4, 1)}
  const Vertical: set<(int, int)> := {(3, 0), (3, 1), (3, 2)}

  /** The blinker: three cells in a row turn into three in a column ... */
  lemma BlinkerTurns(columns: nat, rows: nat)
    requires columns >= 7 && rows >= 7
    ensures Step(Pattern(columns, rows, Horizontal), columns, rows) == Pattern(columns, rows, Vertical)
  {
    forall c, r | 0 <= c < columns && 0 <= r < rows
      ensures Rule((c, r) in Horizontal, LiveAround(Horizontal, columns, rows, c, r)) <==> (c, r) in Vertical
    {
    }
    StepPattern(columns, rows, Horizontal, Vertical);
  }

  /** ... and back: the blinker oscillates with period two. */
  lemma BlinkerReturns(columns: nat, rows: nat)
    requires columns >= 7 && rows >= 7
    ensures Step(Pattern(columns, rows, Vertical), columns, rows) == Pattern(columns, rows, Horizontal)
    ensures Step(Step(Pattern(columns, rows, Horizontal), columns, rows), columns, rows) ==
            Pattern(columns, rows, Horizontal)
  {
    forall c, r | 0 <= c < columns && 0 <= r < rows
      ensures Rule((c, r) in Vertical, LiveAround(Vertical, columns, rows, c, r)) <==> (c, r) in Horizontal
    {
    }
    StepPattern(columns, rows, Vertical, Horizontal);
    BlinkerTurns(columns, rows);
  }

  /** On a side of at least three cells, the index itself and the indices
      before and after it (wrapped) are three different indices. */
  lemma AdjacentDistinct(i: int, n: nat)
    requires n >= 3 && 0 <= i < n
    ensures Adjacent(i, -1, n) != i && Adjacent(i, 1, n) != i
    ensures Adjacent(i, -1, n) != Adjacent(i, 1, n)
  {
  }

  /** Around a cell of a grid of at least 3x3, a single live cell is seen at
      most once, and not at all from the cell itself, so no cell is alive
      in the next generation. */
  lemma LiveAroundSingle(columns: nat, rows: nat, column: int, row: int, c: int, r: int)
    requires columns >= 3 && rows >= 3
    requires 0 <= c < columns && 0 <= r < rows
    ensures LiveAround({(column, row)}, columns, rows, c, r) <= 1
    ensures (c, r) == (column, row) ==> LiveAround({(column, row)}, columns, rows, c, r) == 0
    ensures !Rule((c, r) in {(column, row)}, LiveAround({(column, row)}, columns, rows, c, r))
  {
  }

  /** A lone live cell, anywhere on a grid of at least 3x3, dies and leaves an
      all-dead grid: it does not count itself, and no other cell sees three. */
  lemma LoneCellDies(columns: nat, rows: nat, column: int, row: int)
    requires columns >= 3 && rows >= 3
    requires 0 <= column < columns && 0 <= row < rows
    ensures Step(Pattern(columns, rows, {(column, row)}), columns, rows) == ResetGrid(columns, rows)
  {
    forall c, r | 0 <= c < columns && 0 <= r < rows
      ensures !Rule((c, r) in {(column, row)}, LiveAround({(column, row)}, columns, rows, c, r))
    {
      LiveAroundSingle(columns, rows, column, row, c, r);
    }
    StepPattern(columns, rows, {(column, row)}, {});
    EmptyPattern(columns, rows);
  }

  /** The pattern with no live cells is the grid a reset produces. */
  lemma EmptyPattern(columns: nat, rows: nat)
    ensures Pattern(columns, rows, {}) == ResetGrid(columns, rows)
  {
    GridEquality(Pattern(columns, rows, {}), ResetGrid(columns, rows), columns, rows);
  }

  /** An all-dead grid, as a reset leaves it, stays dead: nothing is born
      without three live neighbours. */
  lemma DeadStaysDead(columns: nat, rows: nat)
    ensures Step(ResetGrid(columns, rows), columns, rows) == ResetGrid(columns, rows)
  {
    forall c, r | 0 <= c < columns && 0 <= r < rows
      ensures !Rule((c, r) in {}, LiveAround({}, columns, rows, c, r))
    {
    }
    EmptyPattern(columns, rows);
    StepPattern(columns, rows, {}, {});
  }

  const Corner: set<(int, int)> := {(1, 1), (2, 1), (1, 2)}

  /** Birth: the cell (2, 2), dead in an L-shaped corner of three live
      cells, has exactly those three as neighbours, so it comes alive. */
  lemma CornerBirth(columns: nat, rows: nat)
    requires columns >= 4 && rows >= 4
    ensures NeighborCount(Pattern(columns, rows, Corner), columns, rows, 2, 2) == 3
    ensures !Pattern(columns, rows, Corner)[2][2]
    ensures Step(Pattern(columns, rows, Corner), columns, rows)[2][2]
  {
    PatternCount(columns, rows, Corner, 2, 2);
    StepAt(Pattern(columns, rows, Corner), columns, rows, 2, 2);
  }

  /** The three corner cells survive and nothing else appears, so the corner
      becomes a block. */
  lemma CornerBecomesBlock(columns: nat, rows: nat)
    requires columns >= 4 && rows >= 4
    ensures Step(Pattern(columns, rows, Corner), columns, rows) == Pattern(columns, rows, Block)
  {
    forall c, r | 0 <= c < columns && 0 <= r < rows
      ensures Rule((c, r) in Corner, LiveAround(Corner, columns, rows, c, r)) <==> (c, r) in Block
    {
    }
    StepPattern(columns, rows, Corner, Block);
  }

  /** Wrap-around: the corners (0, 0) and (columns - 1, rows - 1) are
      neighbours, whatever the grid's size. */
  lemma CornersAreNeighbors(columns: nat, rows: nat)
    requires columns >= 3 && rows >= 3
    ensures NeighborCount(Pattern(columns, rows, {(0, 0)}), columns, rows, columns - 1, rows - 1) == 1
    ensures NeighborCount(Pattern(columns, rows, {(columns - 1, rows - 1)}), columns, rows, 0, 0) == 1
  {
    PatternCount(columns, rows, {(0, 0)}, columns - 1, rows - 1);
    PatternCount(columns, rows, {(columns - 1, rows - 1)}, 0, 0);
  }
}
