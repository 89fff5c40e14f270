/**
 * The engine as the program runs it: a game state object whose 6×6 board is an array updated in
 * place, with the counting loops, the row-major ray walk, and `place_star`, `apply_direction`,
 * `check_winner` and `undo_move` as methods. Each method is proved to do exactly what the
 * corresponding function in Rules describes.
 */
module GameService {
  import opened Board
  import opened Lists
  import opened Rays
  import opened Rules

  /** The cells of a 6×6 array as a board value (the `[row[:] for row in board]` copy). */
  function GridOf(b: array2<Cell>): (g: seq<seq<Cell>>)
    reads b
    requires b.Length0 == 6 && b.Length1 == 6
    ensures IsBoard(g)
  {
    seq(6, r requires 0 <= r < 6 reads b => seq(6, c requires 0 <= c < 6 reads b => b[r, c]))
  }

  /** The accumulator loop shared by `count_empty_squares` and `count_stars`. */
  method CountCells(b: array2<Cell>, v: Cell) returns (count: int)
    requires b.Length0 == 6 && b.Length1 == 6
    ensures count == Count(GridOf(b), v)
  {
    ghost var g := GridOf(b);
    count := 0;
    for row := 0 to 6
      invariant count == TallyRows(g, v, row)
    {
      for col := 0 to 6
        invariant count == TallyRows(g, v, row) + Tally(g[row], v, col)
      {
        if b[row, col] == v {
          count := count + 1;
        }
      }
    }
  }

  /** `count_empty_squares`: the number of empty cells, between 0 and 36. */
  method CountEmptySquares(b: array2<Cell>) returns (count: int)
    requires b.Length0 == 6 && b.Length1 == 6
    ensures count == Count(GridOf(b), Empty)
    ensures 0 <= count <= 36
  {
    count := CountCells(b, Empty);
    CountsBounded(GridOf(b));
  }

  /** `count_stars`: the number of stars, between 0 and 36. */
  method CountStars(b: array2<Cell>) returns (count: int)
    requires b.Length0 == 6 && b.Length1 == 6
    ensures count == Count(GridOf(b), Star)
    ensures 0 <= count <= 36
  {
    count := CountCells(b, Star);
    CountsBounded(GridOf(b));
  }

  // ---------------------------------------------------------------------------------------
  // The ray walk of `apply_direction`, in place

  /** Some star among the first `n` cells in row-major order lights (r, c). */
  ghost predicate LitBefore(g: seq<seq<Cell>>, dr: int, dc: int, r: int, c: int, n: int)
    requires IsBoard(g)
  {
    exists sr, sc :: InBoard(sr, sc) && sr * 6 + sc < n && g[sr][sc] == Star && Beyond(sr, sc, dr, dc, r, c)
  }

  /** The board once the stars among the first `n` cells, in row-major order, have cast their rays. */
  ghost function CastUpTo(g: seq<seq<Cell>>, dr: int, dc: int, n: int): (h: seq<seq<Cell>>)
    requires IsBoard(g)
    ensures IsBoard(h)
  {
    seq(6, r requires 0 <= r < 6 =>
      seq(6, c requires 0 <= c < 6 =>
        if g[r][c] == Empty && LitBefore(g, dr, dc, r, c, n) then Circle else g[r][c]))
  }

  /** Taking the star at (row, col) into account adds exactly its own ray. */
  lemma LitBeforeNext(g: seq<seq<Cell>>, dr: int, dc: int, r: int, c: int, row: int, col: int)
    requires IsBoard(g) && InBoard(row, col)
    ensures LitBefore(g, dr, dc, r, c, row * 6 + col + 1)
        <==> LitBefore(g, dr, dc, r, c, row * 6 + col) || (g[row][col] == Star && Beyond(row, col, dr, dc, r, c))
  {
    if LitBefore(g, dr, dc, r, c, row * 6 + col + 1) {
      var sr, sc :| InBoard(sr, sc) && sr * 6 + sc < row * 6 + col + 1 && g[sr][sc] == Star && Beyond(sr, sc, dr, dc, r, c);
      if sr * 6 + sc == row * 6 + col {
        assert sr == row && sc == col;
      }
    }
  }

  /** Counting all 36 cells is the same as counting every star. */
  lemma LitBeforeAll(g: seq<seq<Cell>>, dr: int, dc: int, r: int, c: int)
    requires IsBoard(g)
    ensures LitBefore(g, dr, dc, r, c, 36) <==> Lit(g, dr, dc, r, c)
  {
    if Lit(g, dr, dc, r, c) {
      var sr, sc :| InBoard(sr, sc) && g[sr][sc] == Star && Beyond(sr, sc, dr, dc, r, c);
      assert sr * 6 + sc < 36;
    }
  }

  /** Before the scan no ray has been cast. */
  lemma CastUpToNone(g: seq<seq<Cell>>, dr: int, dc: int)
    requires IsBoard(g)
    ensures CastUpTo(g, dr, dc, 0) == g
  {
    BoardsEqual(CastUpTo(g, dr, dc, 0), g);
  }

  /** A cell that holds no star adds nothing when the scan passes it. */
  lemma CastUpToSkip(g: seq<seq<Cell>>, dr: int, dc: int, row: int, col: int, n: int)
    requires IsBoard(g) && InBoard(row, col) && g[row][col] != Star && n == row * 6 + col
    ensures CastUpTo(g, dr, dc, n + 1) == CastUpTo(g, dr, dc, n)
  {
    forall r, c | InBoard(r, c) ensures CastUpTo(g, dr, dc, n + 1)[r][c] == CastUpTo(g, dr, dc, n)[r][c] {
      LitBeforeNext(g, dr, dc, r, c, row, col);
    }
    BoardsEqual(CastUpTo(g, dr, dc, n + 1), CastUpTo(g, dr, dc, n));
  }

  /** After all 36 cells the scan has cast exactly the rays `CastRays` describes. */
  lemma CastUpToAll(g: seq<seq<Cell>>, dr: int, dc: int)
    requires IsBoard(g) && IsUnit(dr, dc)
    ensures CastUpTo(g, dr, dc, 36) == CastRays(g, dr, dc)
  {
    forall r, c | InBoard(r, c) ensures CastUpTo(g, dr, dc, 36)[r][c] == CastRays(g, dr, dc)[r][c] {
      LitBeforeAll(g, dr, dc, r, c);
    }
    BoardsEqual(CastUpTo(g, dr, dc, 36), CastRays(g, dr, dc));
  }

  /** One more step of the walk: the covered stretch of the ray grows by the cell just visited. */
  lemma WalkStep(row: int, col: int, dr: int, dc: int, cr: int, cc: int, r: int, c: int)
    requires IsUnit(dr, dc) && Beyond(row, col, dr, dc, cr, cc)
    ensures (Beyond(row, col, dr, dc, r, c) && !Beyond(cr, cc, dr, dc, r, c))
        <==> (Beyond(row, col, dr, dc, r, c) && !Beyond(cr - dr, cc - dc, dr, dc, r, c)) || (r == cr && c == cc)
  {
  }

  /** Once the walk has left the board, the rest of the ray holds no board cell. */
  lemma WalkExit(row: int, col: int, dr: int, dc: int, cr: int, cc: int, r: int, c: int)
    requires IsUnit(dr, dc) && InBoard(row, col) && Beyond(row, col, dr, dc, cr, cc)
    requires !InBoard(cr, cc) && InBoard(r, c)
    ensures !Beyond(cr - dr, cc - dc, dr, dc, r, c)
  {
  }

  /** Steps left before the walk along one coordinate leaves the board. */
  function Remaining(x: int, delta: int): int {
    if delta > 0 then 6 - x else if delta < 0 then x + 1 else 0
  }

  /**
   * The walk from (row, col) has reached (cr, cc), a cell strictly beyond it on its ray. This is
   * `Beyond` under the name the walk's invariants use: kept as a predicate of its own, the loop
   * invariants and step lemmas mention one atom instead of `Beyond`'s three conjuncts, which keeps
   * the proofs of the methods that call the walk small.
   */
  ghost predicate OnRay(row: int, col: int, dr: int, dc: int, cr: int, cc: int) {
    Beyond(row, col, dr, dc, cr, cc)
  }

  /** `start` once the ray of (row, col) has been walked up to and including (lr, lc): every empty
      cell on that stretch has become a circle. */
  ghost function RayUpTo(start: seq<seq<Cell>>, dr: int, dc: int, row: int, col: int, lr: int, lc: int): (h: seq<seq<Cell>>)
    requires IsBoard(start)
    ensures IsBoard(h)
  {
    seq(6, r requires 0 <= r < 6 =>
      seq(6, c requires 0 <= c < 6 =>
        if start[r][c] == Empty && Beyond(row, col, dr, dc, r, c) && !Beyond(lr, lc, dr, dc, r, c)
        then Circle else start[r][c]))
  }

  /** Before the first step nothing has been walked, and the first cell visited is on the ray. */
  lemma RayStart(start: seq<seq<Cell>>, dr: int, dc: int, row: int, col: int)
    requires IsBoard(start) && IsUnit(dr, dc)
    ensures RayUpTo(start, dr, dc, row, col, row, col) == start
    ensures OnRay(row, col, dr, dc, row + dr, col + dc)
  {
    BoardsEqual(RayUpTo(start, dr, dc, row, col, row, col), start);
  }

  /**
   * One step of the walk: the stretch walked up to (cr, cc) is the stretch walked up to the
   * previous cell with (cr, cc) marked; the walk then moves one cell on, towards the edge.
   */
  lemma RayAdvance(start: seq<seq<Cell>>, dr: int, dc: int, row: int, col: int, lr: int, lc: int, cr: int, cc: int)
    requires IsBoard(start) && IsUnit(dr, dc) && OnRay(row, col, dr, dc, cr, cc) && InBoard(cr, cc)
    requires cr == lr + dr && cc == lc + dc
    ensures var prev := RayUpTo(start, dr, dc, row, col, lr, lc);
      RayUpTo(start, dr, dc, row, col, cr, cc) == SetCell(prev, cr, cc, if prev[cr][cc] == Empty then Circle else prev[cr][cc])
    ensures OnRay(row, col, dr, dc, cr + dr, cc + dc)
    ensures 0 <= Remaining(cr + dr, dr) + Remaining(cc + dc, dc) < Remaining(cr, dr) + Remaining(cc, dc)
  {
    var prev := RayUpTo(start, dr, dc, row, col, lr, lc);
    var next := SetCell(prev, cr, cc, if prev[cr][cc] == Empty then Circle else prev[cr][cc]);
    forall r, c | InBoard(r, c) ensures RayUpTo(start, dr, dc, row, col, cr, cc)[r][c] == next[r][c] {
      WalkStep(row, col, dr, dc, cr, cc, r, c);
    }
    BoardsEqual(RayUpTo(start, dr, dc, row, col, cr, cc), next);
  }

  /** When the walk has left the board, the star at (row, col) has added exactly its ray. */
  lemma RayDone(g: seq<seq<Cell>>, dr: int, dc: int, row: int, col: int, n: int, lr: int, lc: int, cr: int, cc: int)
    requires IsBoard(g) && IsUnit(dr, dc) && InBoard(row, col) && g[row][col] == Star && n == row * 6 + col
    requires OnRay(row, col, dr, dc, cr, cc) && !InBoard(cr, cc) && cr == lr + dr && cc == lc + dc
    ensures RayUpTo(CastUpTo(g, dr, dc, n), dr, dc, row, col, lr, lc) == CastUpTo(g, dr, dc, n + 1)
  {
    var start := CastUpTo(g, dr, dc, n);
    forall r, c | InBoard(r, c) ensures RayUpTo(start, dr, dc, row, col, lr, lc)[r][c] == CastUpTo(g, dr, dc, n + 1)[r][c] {
      WalkExit(row, col, dr, dc, cr, cc, r, c);
      LitBeforeNext(g, dr, dc, r, c, row, col);
    }
    BoardsEqual(RayUpTo(start, dr, dc, row, col, lr, lc), CastUpTo(g, dr, dc, n + 1));
  }

  /** The body of the walk: the visited cell (cr, cc), if empty, becomes a circle. */
  method MarkIfEmpty(b: array2<Cell>, ghost start: seq<seq<Cell>>, row: int, col: int, dr: int, dc: int,
                     ghost lr: int, ghost lc: int, cr: int, cc: int)
    requires b.Length0 == 6 && b.Length1 == 6 && IsBoard(start) && IsUnit(dr, dc)
    requires OnRay(row, col, dr, dc, cr, cc) && InBoard(cr, cc) && cr == lr + dr && cc == lc + dc
    requires GridOf(b) == RayUpTo(start, dr, dc, row, col, lr, lc)
    modifies b
    ensures GridOf(b) == RayUpTo(start, dr, dc, row, col, cr, cc)
    ensures OnRay(row, col, dr, dc, cr + dr, cc + dc)
    ensures 0 <= Remaining(cr + dr, dr) + Remaining(cc + dc, dc) < Remaining(cr, dr) + Remaining(cc, dc)
  {
    ghost var before := GridOf(b);
    RayAdvance(start, dr, dc, row, col, lr, lc, cr, cc);
    if b[cr, cc] == Empty {
      b[cr, cc] := Circle;
    }
    BoardsEqual(GridOf(b), SetCell(before, cr, cc, if before[cr][cc] == Empty then Circle else before[cr][cc]));
  }

  /** The ray of the star at (row, col), as the `while` loop of `apply_direction` walks it. */
  method WalkRay(b: array2<Cell>, ghost g: seq<seq<Cell>>, ghost n: int, row: int, col: int, dr: int, dc: int)
    requires b.Length0 == 6 && b.Length1 == 6 && IsBoard(g) && IsUnit(dr, dc)
    requires InBoard(row, col) && g[row][col] == Star && n == row * 6 + col
    requires GridOf(b) == CastUpTo(g, dr, dc, n)
    modifies b
    ensures GridOf(b) == CastUpTo(g, dr, dc, n + 1)
  {
    ghost var start := GridOf(b);
    RayStart(start, dr, dc, row, col);
    var cr, cc := row + dr, col + dc;
    ghost var lr, lc := row, col;
    while 0 <= cr < 6 && 0 <= cc < 6
      invariant OnRay(row, col, dr, dc, cr, cc) && cr == lr + dr && cc == lc + dc
      invariant GridOf(b) == RayUpTo(start, dr, dc, row, col, lr, lc)
      decreases Remaining(cr, dr) + Remaining(cc, dc)
    {
      MarkIfEmpty(b, start, row, col, dr, dc, lr, lc, cr, cc);
      lr, lc := cr, cc;
      cr, cc := cr + dr, cc + dc;
    }
    RayDone(g, dr, dc, row, col, n, lr, lc, cr, cc);
  }

  /** The scan reaches cell (row, col): a star there casts its ray, any other cell adds nothing. */
  method ScanCell(b: array2<Cell>, ghost g: seq<seq<Cell>>, ghost n: int, row: int, col: int, dr: int, dc: int)
    requires b.Length0 == 6 && b.Length1 == 6 && IsBoard(g) && IsUnit(dr, dc)
    requires InBoard(row, col) && n == row * 6 + col
    requires GridOf(b) == CastUpTo(g, dr, dc, n)
    modifies b
    ensures GridOf(b) == CastUpTo(g, dr, dc, n + 1)
  {
    assert b[row, col] == GridOf(b)[row][col];
    if b[row, col] == Star {
      WalkRay(b, g, n, row, col, dr, dc);
    } else {
      CastUpToSkip(g, dr, dc, row, col, n);
    }
  }

  /**
   * The nested loops of `apply_direction`: for each star, in row-major order, walk from the next
   * cell along (dr, dc) until the walk leaves the board, turning each empty cell into a circle.
   * Whatever the order, the result is the declarative `CastRays`.
   */
  method CastRaysInPlace(b: array2<Cell>, dr: int, dc: int)
    requires b.Length0 == 6 && b.Length1 == 6 && IsUnit(dr, dc)
    modifies b
    ensures GridOf(b) == CastRays(old(GridOf(b)), dr, dc)
  {
    ghost var g := GridOf(b);
    ghost var n := 0;
    CastUpToNone(g, dr, dc);
    for row := 0 to 6
      invariant n == row * 6 && GridOf(b) == CastUpTo(g, dr, dc, n)
    {
      for col := 0 to 6
        invariant n == row * 6 + col && GridOf(b) == CastUpTo(g, dr, dc, n)
      {
        ScanCell(b, g, n, row, col, dr, dc);
        n := n + 1;
      }
    }
    CastUpToAll(g, dr, dc);
  }

  // ---------------------------------------------------------------------------------------
  // The game state object

  /** A game in progress (`GameState`), operated on by the engine's methods. */
  class GameState {
    var board: array2<Cell>
    var currentPlayer: int
    var gamePhase: Phase
    var round: int
    var availableDirections: seq<string>
    var winner: Option<int>
    var starsPlaced: int
    var gameHistory: seq<HistoryEntry>
    var settings: Settings

    /** The board is 6×6 and so is every board kept in the history. */
    ghost predicate Valid()
      reads this
    {
      board.Length0 == 6 && board.Length1 == 6
      && forall i :: 0 <= i < |gameHistory| ==> IsBoard(gameHistory[i].snapshot.board)
    }

    /** `create_game_state_snapshot`: a copy of every field but the history, sharing nothing with the object. */
    function TakeSnapshot(): (s: Snapshot)
      reads this, board
      requires Valid()
      ensures IsBoard(s.board) && forall r, c :: InBoard(r, c) ==> s.board[r][c] == board[r, c]
      ensures s.currentPlayer == currentPlayer && s.gamePhase == gamePhase && s.round == round
      ensures s.availableDirections == availableDirections && s.winner == winner
      ensures s.starsPlaced == starsPlaced && s.settings == settings
    {
      Snapshot(GridOf(board), currentPlayer, gamePhase, round, availableDirections, winner, starsPlaced, settings)
    }

    /** The object as a game value. */
    ghost function Model(): Game
      reads this, board
      requires Valid()
    {
      Game(TakeSnapshot(), gameHistory)
    }

    /** `create_new_game`, with the settings-model defaults passed in. */
    constructor (requested: Option<Settings>, defaults: Settings)
      ensures Valid() && fresh(board)
      ensures Model() == NewGame(requested, defaults)
      ensures Consistent(Model())
    {
      board := new Cell[6, 6]((_, _) => Empty);
      currentPlayer := 1;
      gamePhase := PlacementPhase;
      round := 1;
      availableDirections := AllDirections;
      winner := None;
      starsPlaced := 0;
      gameHistory := [];
      settings := if requested.Some? then requested.value else defaults;
      new;
      BoardsEqual(GridOf(board), EmptyBoard());
      NewGameIsConsistent(requested, defaults);
    }

    /** `place_star`. */
    method PlaceStar(row: int, col: int) returns (ok: bool, message: string)
      requires Valid()
      modifies this, board
      ensures Valid() && board == old(board)
      ensures (Reply(ok, message), Model()) == Rules.PlaceStar(old(Model()), row, col)
      ensures old(Consistent(Model())) ==> Consistent(Model())
    {
      PlaceStarKeepsConsistent(Model(), row, col);
      var error := PlaceStarError(TakeSnapshot(), row, col);
      if error.Some? {
        return false, error.value;
      }
      ghost var before := TakeSnapshot();
      gameHistory := gameHistory + [HistoryEntry(TakeSnapshot(), PlaceAction(row, col))];
      board[row, col] := Star;
      currentPlayer := 2;
      gamePhase := DirectionPhase;
      starsPlaced := starsPlaced + 1;
      ok, message := true, StarPlaced;
      BoardsEqual(GridOf(board), SetCell(before.board, row, col, Star));
    }

    /** `check_winner` on the current state. */
    method CheckWinner() returns (w: Option<int>)
      requires Valid()
      ensures w == Rules.CheckWinner(TakeSnapshot())
    {
      if round > settings.numberOfRounds {
        var emptyCount := CountEmptySquares(board);
        if emptyCount >= settings.emptySquaresToWin {
          w := Some(1);
        } else {
          w := Some(2);
        }
      } else {
        w := None;
      }
    }

    /** `apply_direction`. */
    method ApplyDirection(direction: string) returns (ok: bool, message: string)
      requires Valid()
      modifies this, board
      ensures Valid() && board == old(board)
      ensures (Reply(ok, message), Model()) == Rules.ApplyDirection(old(Model()), direction)
      ensures old(Consistent(Model())) ==> Consistent(Model())
    {
      ApplyDirectionKeepsConsistent(Model(), direction);
      var error := ApplyDirectionError(TakeSnapshot(), direction);
      if error.Some? {
        return false, error.value;
      }
      gameHistory := gameHistory + [HistoryEntry(TakeSnapshot(), DirectionAction(direction))];
      DirectionTable();
      var (dRow, dCol) := DirectionVectors[direction];
      CastRaysInPlace(board, dRow, dCol);
      availableDirections := RemoveFirst(availableDirections, direction);
      currentPlayer := 1;
      gamePhase := PlacementPhase;
      round := round + 1;
      var w := CheckWinner();
      if w != None {
        winner := w;
      }
      ok, message := true, DirectionApplied;
    }

    /** `undo_move`. */
    method UndoMove() returns (ok: bool, message: string)
      requires Valid()
      modifies this
      ensures Valid()
      ensures if ok then fresh(board) else board == old(board)
      ensures (Reply(ok, message), Model()) == Rules.Undo(old(Model()))
      ensures old(Consistent(Model())) ==> Consistent(Model())
    {
      UndoKeepsConsistent(Model());
      if |gameHistory| == 0 {
        return false, NoMovesToUndo;
      }
      if winner != None {
        return false, CannotUndoFinished;
      }
      var last := gameHistory[|gameHistory| - 1];
      gameHistory := gameHistory[..|gameHistory| - 1];
      var saved := last.snapshot;
      board := new Cell[6, 6]((r, c) requires 0 <= r < 6 && 0 <= c < 6 => saved.board[r][c]);
      currentPlayer := saved.currentPlayer;
      gamePhase := saved.gamePhase;
      round := saved.round;
      availableDirections := saved.availableDirections;
      winner := saved.winner;
      starsPlaced := saved.starsPlaced;
      ok, message := true, MoveUndone;
      BoardsEqual(GridOf(board), saved.board);
    }
  }
}
