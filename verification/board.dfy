/** The 6×6 board as a value: its cells, the empty board, single-cell updates and cell counts. */
module Board {

  /** The three states of a cell: `'empty'`, `'star'` and `'circle'`. */
  datatype Cell = Empty | Star | Circle

  /** Row `r`, column `c` is on the 6×6 board. */
  predicate InBoard(r: int, c: int) {
    0 <= r < 6 && 0 <= c < 6
  }

  /** A grid of exactly 6 rows of 6 cells. */
  predicate IsBoard(g: seq<seq<Cell>>) {
    |g| == 6 && forall i :: 0 <= i < 6 ==> |g[i]| == 6
  }

  /** `create_empty_board`: six fresh rows of six `'empty'` cells. */
  function EmptyBoard(): (g: seq<seq<Cell>>)
    ensures IsBoard(g)
    ensures forall r, c :: InBoard(r, c) ==> g[r][c] == Empty
  {
    seq(6, _ => seq(6, _ => Empty))
  }

  /** The grid with cell (r, c) replaced by `v`. */
  function SetCell(g: seq<seq<Cell>>, r: int, c: int, v: Cell): (h: seq<seq<Cell>>)
    requires IsBoard(g) && InBoard(r, c)
    ensures IsBoard(h) && h[r][c] == v
    ensures forall i, j :: InBoard(i, j) && (i != r || j != c) ==> h[i][j] == g[i][j]
  {
    g[r := g[r][c := v]]
  }

  /** Two boards with the same cells are the same board. */
  lemma BoardsEqual(g: seq<seq<Cell>>, h: seq<seq<Cell>>)
    requires IsBoard(g) && IsBoard(h)
    requires forall r, c :: InBoard(r, c) ==> g[r][c] == h[r][c]
    ensures g == h
  {
    forall r | 0 <= r < 6 ensures g[r] == h[r] {
      assert forall c :: 0 <= c < 6 ==> g[r][c] == h[r][c];
    }
  }

  /** Number of cells equal to `v` among the first `n` cells of `row`. */
  function Tally(row: seq<Cell>, v: Cell, n: nat): (k: nat)
    requires n <= |row|
    ensures k <= n
  {
    if n == 0 then 0 else Tally(row, v, n - 1) + (if row[n - 1] == v then 1 else 0)
  }

  /** Number of cells equal to `v` in the first `n` rows of `g`. */
  function TallyRows(g: seq<seq<Cell>>, v: Cell, n: nat): nat
    requires n <= |g|
  {
    if n == 0 then 0 else TallyRows(g, v, n - 1) + Tally(g[n - 1], v, |g[n - 1]|)
  }

  /** Number of cells of `g` equal to `v` (`count_empty_squares` for `Empty`, `count_stars` for `Star`). */
  function Count(g: seq<seq<Cell>>, v: Cell): nat {
    TallyRows(g, v, |g|)
  }

  /** Every cell is counted under exactly one of the three states. */
  lemma {:induction false} TallyPartition(row: seq<Cell>, n: nat)
    requires n <= |row|
    ensures Tally(row, Empty, n) + Tally(row, Star, n) + Tally(row, Circle, n) == n
  {
    if n > 0 {
      TallyPartition(row, n - 1);
    }
  }

  lemma {:induction false} TallyRowsPartition(g: seq<seq<Cell>>, n: nat)
    requires n <= |g|
    requires forall i :: 0 <= i < |g| ==> |g[i]| == 6
    ensures TallyRows(g, Empty, n) + TallyRows(g, Star, n) + TallyRows(g, Circle, n) == 6 * n
  {
    if n > 0 {
      TallyRowsPartition(g, n - 1);
      TallyPartition(g[n - 1], 6);
    }
  }

  /** The counts of a board lie in [0, 36]; empty and star cells together are at most 36. */
  lemma CountsBounded(g: seq<seq<Cell>>)
    requires IsBoard(g)
    ensures Count(g, Empty) + Count(g, Star) + Count(g, Circle) == 36
    ensures Count(g, Empty) <= 36 && Count(g, Star) <= 36
    ensures Count(g, Empty) + Count(g, Star) <= 36
  {
    TallyRowsPartition(g, 6);
  }

  /** If every `v`-cell of `h` is a `v`-cell of `g`, then `h` has no more `v`-cells than `g`. */
  lemma {:induction false} TallyMonotone(row: seq<Cell>, row': seq<Cell>, v: Cell, n: nat)
    requires n <= |row| && n <= |row'|
    requires forall j :: 0 <= j < n && row'[j] == v ==> row[j] == v
    ensures Tally(row', v, n) <= Tally(row, v, n)
  {
    if n > 0 {
      TallyMonotone(row, row', v, n - 1);
    }
  }

  lemma {:induction false} TallyRowsMonotone(g: seq<seq<Cell>>, h: seq<seq<Cell>>, v: Cell, n: nat)
    requires n <= |g| && n <= |h|
    requires forall i :: 0 <= i < n ==> |g[i]| == |h[i]|
    requires forall i, j :: 0 <= i < n && 0 <= j < |h[i]| && h[i][j] == v ==> g[i][j] == v
    ensures TallyRows(h, v, n) <= TallyRows(g, v, n)
  {
    if n > 0 {
      TallyRowsMonotone(g, h, v, n - 1);
      TallyMonotone(g[n - 1], h[n - 1], v, |g[n - 1]|);
    }
  }

  /** A board whose `v`-cells are among those of `g` has at most as many of them. */
  lemma CountMonotone(g: seq<seq<Cell>>, h: seq<seq<Cell>>, v: Cell)
    requires IsBoard(g) && IsBoard(h)
    requires forall r, c :: InBoard(r, c) && h[r][c] == v ==> g[r][c] == v
    ensures Count(h, v) <= Count(g, v)
  {
    TallyRowsMonotone(g, h, v, 6);
  }

  /** A row with no `v`-cell has a tally of zero. */
  lemma {:induction false} TallyAbsent(row: seq<Cell>, v: Cell, n: nat)
    requires n <= |row|
    requires forall j :: 0 <= j < n ==> row[j] != v
    ensures Tally(row, v, n) == 0
  {
    if n > 0 {
      TallyAbsent(row, v, n - 1);
    }
  }

  lemma {:induction false} TallyRowsAbsent(g: seq<seq<Cell>>, v: Cell, n: nat)
    requires n <= |g|
    requires forall i, j :: 0 <= i < n && 0 <= j < |g[i]| ==> g[i][j] != v
    ensures TallyRows(g, v, n) == 0
  {
    if n > 0 {
      TallyRowsAbsent(g, v, n - 1);
      TallyAbsent(g[n - 1], v, |g[n - 1]|);
    }
  }

  /** The empty board has 36 empty cells and no star or circle. */
  lemma EmptyBoardCounts()
    ensures Count(EmptyBoard(), Empty) == 36
    ensures Count(EmptyBoard(), Star) == 0 && Count(EmptyBoard(), Circle) == 0
  {
    var g := EmptyBoard();
    TallyRowsAbsent(g, Star, 6);
    TallyRowsAbsent(g, Circle, 6);
    CountsBounded(g);
  }

  /** Changing one cell changes a row's tally by at most the old and the new value of that cell. */
  lemma {:induction false} TallySet(row: seq<Cell>, c: int, v: Cell, w: Cell, n: nat)
    requires n <= |row| && 0 <= c < |row|
    ensures Tally(row[c := v], w, n) + (if c < n && row[c] == w then 1 else 0)
         == Tally(row, w, n) + (if c < n && v == w then 1 else 0)
  {
    if n > 0 {
      TallySet(row, c, v, w, n - 1);
    }
  }

  lemma {:induction false} TallyRowsSet(g: seq<seq<Cell>>, r: int, c: int, v: Cell, w: Cell, n: nat)
    requires n <= |g| && 0 <= r < |g| && 0 <= c < |g[r]|
    ensures TallyRows(g[r := g[r][c := v]], w, n) + (if r < n && g[r][c] == w then 1 else 0)
         == TallyRows(g, w, n) + (if r < n && v == w then 1 else 0)
  {
    if n > 0 {
      TallyRowsSet(g, r, c, v, w, n - 1);
      if n - 1 == r {
        TallySet(g[r], c, v, w, |g[r]|);
      }
    }
  }

  /** Turning an empty cell into a star adds one star and removes one empty cell. */
  lemma CountAfterPlacing(g: seq<seq<Cell>>, r: int, c: int)
    requires IsBoard(g) && InBoard(r, c) && g[r][c] == Empty
    ensures Count(SetCell(g, r, c, Star), Star) == Count(g, Star) + 1
    ensures Count(SetCell(g, r, c, Star), Empty) == Count(g, Empty) - 1
  {
    TallyRowsSet(g, r, c, Star, Star, 6);
    TallyRowsSet(g, r, c, Star, Empty, 6);
  }
}
