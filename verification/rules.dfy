/**
 * The game's rules on values: a game is its current state plus the stack of snapshots taken
 * before each move. Each operation validates in a fixed order and either returns the first
 * failing check's message with the game untouched, or succeeds with the update stated in its
 * contract. The class in game_service.dfy is proved to follow these functions.
 */
module Rules {
  import opened Board
  import opened Lists
  import opened Rays

  datatype Option<T> = None | Some(value: T)

  /** `gamePhase`: `'placement'` (Player 1 places a star) or `'direction'` (Player 2 picks a direction). */
  datatype Phase = PlacementPhase | DirectionPhase

  datatype Settings = Settings(numberOfRounds: int, emptySquaresToWin: int)

  /** `create_game_state_snapshot`: every field of the game except its history and timestamps. */
  datatype Snapshot = Snapshot(
    board: seq<seq<Cell>>,
    currentPlayer: int,
    gamePhase: Phase,
    round: int,
    availableDirections: seq<string>,
    winner: Option<int>,
    starsPlaced: int,
    settings: Settings)

  /** A history entry: the snapshot taken before a move, and the move's label. */
  datatype HistoryEntry = HistoryEntry(snapshot: Snapshot, action: string)

  datatype Game = Game(current: Snapshot, history: seq<HistoryEntry>)

  /** The `(success, message)` pair each operation returns. */
  datatype Reply = Reply(ok: bool, message: string)

  const NotPlayer1Turn := "Not Player 1's turn"
  const NotPlacementPhase := "Not in placement phase"
  const GameFinished := "Game is already finished"
  const InvalidPosition := "Invalid position"
  const PositionNotEmpty := "Position is not empty"
  const StarPlaced := "Star placed successfully"
  const NotPlayer2Turn := "Not Player 2's turn"
  const NotDirectionPhase := "Not in direction phase"
  const DirectionNotAvailable := "Direction not available"
  const InvalidDirection := "Invalid direction"
  const DirectionApplied := "Direction applied successfully"
  const NoMovesToUndo := "No moves to undo"
  const CannotUndoFinished := "Cannot undo after game is finished"
  const MoveUndone := "Move undone successfully"

  function Digit(n: int): char
    requires 0 <= n < 10
  {
    (('0' as int) + n) as char
  }

  /** The label `f"Star placed at ({row}, {col})"` of a star placed on the board. */
  function PlaceAction(row: int, col: int): string
    requires InBoard(row, col)
  {
    "Star placed at (" + [Digit(row)] + ", " + [Digit(col)] + ")"
  }

  /** The label `f"Direction selected: {direction}"`. */
  function DirectionAction(direction: string): string {
    "Direction selected: " + direction
  }

  /** `check_winner`: no winner until `round` exceeds the number of rounds; then Player 1 wins
      when enough cells are still empty, and Player 2 otherwise. */
  function CheckWinner(s: Snapshot): (w: Option<int>)
    ensures w == None <==> s.round <= s.settings.numberOfRounds
    ensures w == Some(1) <==> s.round > s.settings.numberOfRounds && Count(s.board, Empty) >= s.settings.emptySquaresToWin
    ensures w == Some(2) <==> s.round > s.settings.numberOfRounds && Count(s.board, Empty) < s.settings.emptySquaresToWin
  {
    if s.round > s.settings.numberOfRounds then
      if Count(s.board, Empty) >= s.settings.emptySquaresToWin then Some(1) else Some(2)
    else
      None
  }

  /** The first of `place_star`'s checks that fails, in the order the checks are made. */
  function PlaceStarError(s: Snapshot, row: int, col: int): (e: Option<string>)
    requires IsBoard(s.board)
    ensures e == None <==> s.currentPlayer == 1 && s.gamePhase == PlacementPhase && s.winner == None
                           && InBoard(row, col) && s.board[row][col] == Empty
    ensures s.currentPlayer != 1 ==> e == Some(NotPlayer1Turn)
    ensures s.currentPlayer == 1 && s.gamePhase != PlacementPhase ==> e == Some(NotPlacementPhase)
    ensures s.currentPlayer == 1 && s.gamePhase == PlacementPhase && s.winner != None ==> e == Some(GameFinished)
    ensures (s.currentPlayer == 1 && s.gamePhase == PlacementPhase && s.winner == None
             && !InBoard(row, col)) ==> e == Some(InvalidPosition)
    ensures (s.currentPlayer == 1 && s.gamePhase == PlacementPhase && s.winner == None && InBoard(row, col)
             && s.board[row][col] != Empty) ==> e == Some(PositionNotEmpty)
  {
    if s.currentPlayer != 1 then Some(NotPlayer1Turn)
    else if s.gamePhase != PlacementPhase then Some(NotPlacementPhase)
    else if s.winner != None then Some(GameFinished)
    else if row < 0 || row >= 6 || col < 0 || col >= 6 then Some(InvalidPosition)
    else if s.board[row][col] != Empty then Some(PositionNotEmpty)
    else None
  }

  /** `place_star` on a game value. */
  function PlaceStar(g: Game, row: int, col: int): (res: (Reply, Game))
    requires IsBoard(g.current.board)
    ensures res.0.ok <==> PlaceStarError(g.current, row, col) == None
    ensures !res.0.ok ==> res == (Reply(false, PlaceStarError(g.current, row, col).value), g)
    ensures res.0.ok ==>
      var s, s' := g.current, res.1.current;
      && res.0.message == StarPlaced
      && res.1.history == g.history + [HistoryEntry(s, PlaceAction(row, col))]
      && IsBoard(s'.board) && s'.board[row][col] == Star
      && (forall r, c :: InBoard(r, c) && (r != row || c != col) ==> s'.board[r][c] == s.board[r][c])
      && s' == s.(board := s'.board, currentPlayer := 2, gamePhase := DirectionPhase, starsPlaced := s.starsPlaced + 1)
  {
    var s := g.current;
    match PlaceStarError(s, row, col)
    case Some(message) => (Reply(false, message), g)
    case None =>
      var s' := s.(board := SetCell(s.board, row, col, Star), currentPlayer := 2,
                   gamePhase := DirectionPhase, starsPlaced := s.starsPlaced + 1);
      (Reply(true, StarPlaced), Game(s', g.history + [HistoryEntry(s, PlaceAction(row, col))]))
  }

  /** The first of `apply_direction`'s checks that fails, in the order the checks are made. */
  function ApplyDirectionError(s: Snapshot, direction: string): (e: Option<string>)
    ensures e == None <==> s.currentPlayer == 2 && s.gamePhase == DirectionPhase && s.winner == None
                           && direction in s.availableDirections && direction in DirectionVectors
    ensures s.currentPlayer != 2 ==> e == Some(NotPlayer2Turn)
    ensures s.currentPlayer == 2 && s.gamePhase != DirectionPhase ==> e == Some(NotDirectionPhase)
    ensures s.currentPlayer == 2 && s.gamePhase == DirectionPhase && s.winner != None ==> e == Some(GameFinished)
    ensures (s.currentPlayer == 2 && s.gamePhase == DirectionPhase && s.winner == None
             && direction !in s.availableDirections) ==> e == Some(DirectionNotAvailable)
    ensures (s.currentPlayer == 2 && s.gamePhase == DirectionPhase && s.winner == None
             && direction in s.availableDirections && direction !in DirectionVectors) ==> e == Some(InvalidDirection)
  {
    if s.currentPlayer != 2 then Some(NotPlayer2Turn)
    else if s.gamePhase != DirectionPhase then Some(NotDirectionPhase)
    else if s.winner != None then Some(GameFinished)
    else if direction !in s.availableDirections then Some(DirectionNotAvailable)
    else if direction !in DirectionVectors then Some(InvalidDirection)
    else None
  }

  /** `apply_direction` on a game value. */
  ghost function ApplyDirection(g: Game, direction: string): (res: (Reply, Game))
    requires IsBoard(g.current.board)
    ensures res.0.ok <==> ApplyDirectionError(g.current, direction) == None
    ensures !res.0.ok ==> res == (Reply(false, ApplyDirectionError(g.current, direction).value), g)
    ensures res.0.ok ==>
      var s, s' := g.current, res.1.current;
      var (dr, dc) := DirectionVectors[direction];
      && IsUnit(dr, dc)
      && res.0.message == DirectionApplied
      && res.1.history == g.history + [HistoryEntry(s, DirectionAction(direction))]
      && s'.board == CastRays(s.board, dr, dc)
      && s'.availableDirections == RemoveFirst(s.availableDirections, direction)
      && s'.currentPlayer == 1 && s'.gamePhase == PlacementPhase
      && s'.round == s.round + 1
      && s'.winner == CheckWinner(s')
      && s'.starsPlaced == s.starsPlaced && s'.settings == s.settings
  {
    var s := g.current;
    match ApplyDirectionError(s, direction)
    case Some(message) => (Reply(false, message), g)
    case None =>
      DirectionTable();
      var (dr, dc) := DirectionVectors[direction];
      var s1 := s.(board := CastRays(s.board, dr, dc),
                   availableDirections := RemoveFirst(s.availableDirections, direction),
                   currentPlayer := 1, gamePhase := PlacementPhase, round := s.round + 1);
      var w := CheckWinner(s1);
      var s' := if w != None then s1.(winner := w) else s1;
      (Reply(true, DirectionApplied), Game(s', g.history + [HistoryEntry(s, DirectionAction(direction))]))
  }

  /** `undo_move` on a game value: pops the last snapshot and restores everything but the settings. */
  function Undo(g: Game): (res: (Reply, Game))
    ensures res.0.ok <==> g.history != [] && g.current.winner == None
    ensures g.history == [] ==> res == (Reply(false, NoMovesToUndo), g)
    ensures g.history != [] && g.current.winner != None ==> res == (Reply(false, CannotUndoFinished), g)
    ensures res.0.ok ==>
      var last := g.history[|g.history| - 1].snapshot;
      && res.0.message == MoveUndone
      && res.1.history == g.history[..|g.history| - 1]
      && res.1.current == last.(settings := g.current.settings)
  {
    if g.history == [] then
      (Reply(false, NoMovesToUndo), g)
    else if g.current.winner != None then
      (Reply(false, CannotUndoFinished), g)
    else
      var last := g.history[|g.history| - 1];
      (Reply(true, MoveUndone), Game(last.snapshot.(settings := g.current.settings), g.history[..|g.history| - 1]))
  }

  /** `create_new_game`: an empty board, Player 1 to place, round 1, all eight directions, no
      winner, no stars, no history; the requested settings, or the defaults when none are given. */
  function NewGame(requested: Option<Settings>, defaults: Settings): (g: Game)
    ensures g.history == [] && g.current.board == EmptyBoard()
    ensures g.current.settings == if requested.Some? then requested.value else defaults
    ensures g.current.currentPlayer == 1 && g.current.gamePhase == PlacementPhase && g.current.round == 1
    ensures g.current.availableDirections == AllDirections && g.current.winner.None? && g.current.starsPlaced == 0
  {
    var settings := if requested.Some? then requested.value else defaults;
    Game(Snapshot(EmptyBoard(), 1, PlacementPhase, 1, AllDirections, None, 0, settings), [])
  }

  // ---------------------------------------------------------------------------------------
  // Invariants

  /**
   * What every reachable state satisfies: the player matches the phase; the star count on the
   * board equals `starsPlaced`, which is the number of completed direction turns (`round - 1`)
   * plus one while Player 2 is to move; each direction turn has used up one of the eight
   * directions, none twice; a winner exists only after the last round, and only in the
   * placement phase.
   */
  ghost predicate ConsistentSnapshot(s: Snapshot) {
    && IsBoard(s.board)
    && (s.currentPlayer == 1 || s.currentPlayer == 2)
    && (s.gamePhase == PlacementPhase <==> s.currentPlayer == 1)
    && s.round >= 1
    && s.starsPlaced == Count(s.board, Star)
    && s.starsPlaced == (if s.gamePhase == PlacementPhase then s.round - 1 else s.round)
    && NoDuplicates(s.availableDirections)
    && (forall d :: d in s.availableDirections ==> d in DirectionVectors)
    && |s.availableDirections| + s.round == |AllDirections| + 1
    && (s.winner != None ==> s.winner == CheckWinner(s) && s.gamePhase == PlacementPhase)
  }

  /** The current state and every snapshot are consistent, and every snapshot carries the game's settings. */
  ghost predicate Consistent(g: Game) {
    && ConsistentSnapshot(g.current)
    && forall i :: 0 <= i < |g.history| ==>
         ConsistentSnapshot(g.history[i].snapshot) && g.history[i].snapshot.settings == g.current.settings
  }

  lemma NewGameIsConsistent(requested: Option<Settings>, defaults: Settings)
    ensures Consistent(NewGame(requested, defaults))
  {
    EmptyBoardCounts();
    DirectionTable();
  }

  lemma PlaceStarKeepsConsistent(g: Game, row: int, col: int)
    requires IsBoard(g.current.board)
    ensures Consistent(g) ==> Consistent(PlaceStar(g, row, col).1)
  {
    var (reply, g') := PlaceStar(g, row, col);
    if reply.ok && Consistent(g) {
      CountAfterPlacing(g.current.board, row, col);
      assert g'.current.board == SetCell(g.current.board, row, col, Star);
    }
  }

  lemma ApplyDirectionKeepsConsistent(g: Game, direction: string)
    requires IsBoard(g.current.board)
    ensures Consistent(g) ==> Consistent(ApplyDirection(g, direction).1)
  {
    var (reply, g') := ApplyDirection(g, direction);
    if reply.ok && Consistent(g) {
      var (dr, dc) := DirectionVectors[direction];
      CastRaysCounts(g.current.board, dr, dc);
      RemoveFirstFromDistinct(g.current.availableDirections, direction);
      assert forall i :: 0 <= i < |g.history| ==> g'.history[i] == g.history[i];
    }
  }

  lemma UndoKeepsConsistent(g: Game)
    ensures Consistent(g) ==> Consistent(Undo(g).1)
  {
    var (reply, g') := Undo(g);
    if reply.ok && Consistent(g) {
      var last := g.history[|g.history| - 1].snapshot;
      assert last.(settings := g.current.settings) == last;
    }
  }

  /** Once a winner is set, no move is accepted: placing reports the finished game, choosing a
      direction reports that it is not Player 2's turn, and undo is refused. */
  lemma FinishedGameIsFrozen(g: Game, row: int, col: int, direction: string)
    requires Consistent(g) && g.current.winner != None
    ensures PlaceStar(g, row, col) == (Reply(false, GameFinished), g)
    ensures ApplyDirection(g, direction) == (Reply(false, NotPlayer2Turn), g)
    ensures Undo(g).1 == g && !Undo(g).0.ok
  {
  }

  /** In a consistent game two of `apply_direction`'s refusals never happen: every offered
      direction is known, so "Invalid direction" cannot be reported, and a finished game is
      already back at Player 1, so "Game is already finished" cannot be reported either. */
  lemma UnreachableDirectionMessages(g: Game, direction: string)
    requires Consistent(g)
    ensures ApplyDirection(g, direction).0.message != InvalidDirection
    ensures ApplyDirection(g, direction).0.message != GameFinished
  {
  }

  // ---------------------------------------------------------------------------------------
  // Undo restores exactly

  /** Undoing a star placement gives back the game as it was before. */
  lemma UndoRevertsPlaceStar(g: Game, row: int, col: int)
    requires IsBoard(g.current.board) && PlaceStar(g, row, col).0.ok
    ensures Undo(PlaceStar(g, row, col).1) == (Reply(true, MoveUndone), g)
  {
    var g' := PlaceStar(g, row, col).1;
    assert g'.history[..|g'.history| - 1] == g.history;
  }

  /** Undoing a direction that did not end the game gives back the game as it was before. */
  lemma UndoRevertsApplyDirection(g: Game, direction: string)
    requires IsBoard(g.current.board) && ApplyDirection(g, direction).0.ok
    requires ApplyDirection(g, direction).1.current.winner == None
    ensures Undo(ApplyDirection(g, direction).1) == (Reply(true, MoveUndone), g)
  {
    var g' := ApplyDirection(g, direction).1;
    assert g'.history[..|g'.history| - 1] == g.history;
  }

  /** A move made through the public operations. */
  datatype Move = Place(row: int, col: int) | Choose(direction: string)

  ghost function Play(g: Game, m: Move): (res: (Reply, Game))
    requires IsBoard(g.current.board)
    ensures IsBoard(res.1.current.board)
    ensures res.0.ok ==> g.current.winner == None
  {
    match m
    case Place(row, col) => PlaceStar(g, row, col)
    case Choose(direction) => ApplyDirection(g, direction)
  }

  /** The game after playing `ms` in order, or `None` as soon as one move is refused. */
  ghost function PlayAll(g: Game, ms: seq<Move>): Option<Game>
    requires IsBoard(g.current.board)
    decreases |ms|
  {
    if ms == [] then Some(g)
    else
      var (reply, g') := Play(g, ms[0]);
      if reply.ok then PlayAll(g', ms[1..]) else None
  }

  /** The game after `n` successive undos, or `None` as soon as one is refused. */
  function UndoTimes(g: Game, n: nat): Option<Game> {
    if n == 0 then Some(g)
    else
      match UndoTimes(g, n - 1)
      case None => None
      case Some(h) =>
        var (reply, h') := Undo(h);
        if reply.ok then Some(h') else None
  }

  /** N accepted moves that leave no winner, followed by N undos, return to the starting game. */
  lemma {:induction false} UndoAllMoves(g: Game, ms: seq<Move>)
    requires IsBoard(g.current.board)
    requires PlayAll(g, ms).Some? && PlayAll(g, ms).value.current.winner == None
    ensures UndoTimes(PlayAll(g, ms).value, |ms|) == Some(g)
    decreases |ms|
  {
    if ms != [] {
      var (reply, g1) := Play(g, ms[0]);
      var rest := ms[1..];
      var last := PlayAll(g, ms).value;
      assert PlayAll(g1, rest) == Some(last);
      UndoAllMoves(g1, rest);
      if rest != [] {
        assert Play(g1, rest[0]).0.ok;
      }
      assert g1.current.winner == None;
      match ms[0]
      case Place(row, col) => UndoRevertsPlaceStar(g, row, col);
      case Choose(direction) => UndoRevertsApplyDirection(g, direction);
    }
  }

  /** From a new game, N accepted moves that leave no winner are undone by N undos, and a
      further undo is refused with "No moves to undo". */
  lemma UndoToNewGame(requested: Option<Settings>, defaults: Settings, ms: seq<Move>)
    requires PlayAll(NewGame(requested, defaults), ms).Some?
    requires PlayAll(NewGame(requested, defaults), ms).value.current.winner == None
    ensures UndoTimes(PlayAll(NewGame(requested, defaults), ms).value, |ms|) == Some(NewGame(requested, defaults))
    ensures Undo(NewGame(requested, defaults)) == (Reply(false, NoMovesToUndo), NewGame(requested, defaults))
  {
    UndoAllMoves(NewGame(requested, defaults), ms);
  }
}
