# Star game engine: verified model

This project models `GameService`, the rules engine of a two-player game played on a fixed 6×6 board.
Every cell is empty, a star or a circle.

- **Player 1 places a star** on an empty cell.
- **Player 2 picks a direction.** The choice comes from a shrinking list of the eight compass directions. Every star then casts a ray that way. Each empty cell strictly beyond a star on that ray becomes a circle. Rays pass through stars and circles.
- **Turns alternate.** Once the round counter passes the configured number of rounds, the winner is decided by comparing the number of empty cells with a threshold.
- **Undo.** Every accepted move first pushes a snapshot of the state, and undo pops it.

The project has five modules:

- `Lists` models Python's `list.remove` on sequences.
- `Board` holds the board as a value: its cells, the empty board, single-cell updates and cell counts, with their bounds and how they change.
- `Rays` holds the direction table and a declarative, order-free description of ray casting (`CastRays`).
- `Rules` describes each operation on immutable game values. Each function either refuses with the message of the first failing check and leaves the game unchanged, or returns the updated game. It also holds the state invariant `Consistent` (phase/player agreement, `starsPlaced` equals the stars on the board and the completed turns, directions used once) and the undo lemmas.
- `GameService` is the engine as the program runs it. A `GameState` object keeps its board in a 6×6 array, and its methods `PlaceStar`, `ApplyDirection`, `CheckWinner` and `UndoMove` update its fields in place. The counting loops and the row-major ray walk are methods with loop invariants. Each method is proved to produce exactly the reply and the new state that the matching `Rules` function gives. It is also proved to keep `Consistent`.

`create_new_game` (backend/game_service.py:171-180) fills in only the board and the settings; every other field takes the default of the state model, which is not part of this project. The model assumes these defaults: Player 1, placement phase, round 1, the eight directions in the order N, S, E, W, NE, NW, SE, SW, no winner, no stars, no history. `Rules.NewGame` states them in its contract. The default settings are a parameter (`defaults`) of `NewGame` and of the `GameState` constructor.

Two consequences of the order of the checks:

- **`apply_direction` after a win.** Only `apply_direction` sets the winner (backend/game_service.py:114-115), and by then it has handed the turn to Player 1 (line 108). So a later `apply_direction` is refused by its first check, with "Not Player 2's turn" (lines 70-71), and never with "Game is already finished". `Rules.FinishedGameIsFrozen` and `Rules.UnreachableDirectionMessages` state this.
- **Undo after a win.** `undo_move` refuses whenever a winner is set (lines 154-155), so a finished game cannot be left by any operation. `Rules.FinishedGameIsFrozen` states this too.

## Model

| member | source | states |
|---|---|---|
| Rays.DirectionTable | backend/game_service.py:7-16 | The table has exactly the eight codes N, S, E, W, NE, NW, SE, SW, with no duplicates. Each vector is a distinct unit step. |
| Board.EmptyBoard | backend/game_service.py:19-20 | The new board is 6×6 and every cell is empty. |
| Board.EmptyBoardCounts | backend/game_service.py:19-20 | The empty board has 36 empty cells, no star and no circle. |
| Board.SetCell | backend/game_service.py:60 | Assigning one cell changes that cell to the new value and leaves the other 35 unchanged. |
| GameService.GameState.TakeSnapshot | backend/game_service.py:23-33 | The snapshot is a copy of the board cells and of every field except the history. It is a value that shares nothing with the live array. |
| Rules.PlaceStarError | backend/game_service.py:37-50 | The checks run in order: player 1, placement phase, no winner, position on the board, cell empty. The first one that fails gives its message. No error is reported exactly when all five hold. |
| Rules.PlaceStar | backend/game_service.py:36-66 | On failure the reply carries the first failing check's message and the game is unchanged. On success exactly one entry, the pre-move snapshot labelled "Star placed at (r, c)", is pushed, and only that cell becomes a star. The player becomes 2, the phase becomes direction and `starsPlaced` goes up by one. Nothing else changes. |
| GameService.GameState.PlaceStar | backend/game_service.py:36-66 | The in-place method returns the reply and reaches the state that `Rules.PlaceStar` gives from the old state. It keeps the same board array and preserves `Consistent`. |
| Rules.ApplyDirectionError | backend/game_service.py:70-83 | The checks run in order: player 2, direction phase, no winner, code in the available list, code in the table. An unknown code that is not in the list therefore reports "Direction not available". No error is reported exactly when all five hold. |
| Rules.ApplyDirection | backend/game_service.py:69-117 | On failure the game is unchanged and the first failing check's message is returned. On success: the pre-move snapshot is pushed; the board becomes `CastRays` of the old board along the code's vector; the first occurrence of the code is removed from the available directions; the player becomes 1 and the phase placement; the round goes up by exactly one; the winner becomes `check_winner` of the new state; stars and settings stay as they were. |
| GameService.GameState.ApplyDirection | backend/game_service.py:69-117 | The in-place method returns the reply and reaches the state that `Rules.ApplyDirection` gives from the old state. It keeps the same board array and preserves `Consistent`. |
| Rays.CastRays | backend/game_service.py:93-105 | After casting, a cell is a circle exactly when it was a circle, or it was empty and lies strictly beyond some star along the vector. It is a star exactly when it was a star. It is empty exactly when it was empty and no star's ray reaches it. |
| Rays.BeyondIsWalk | backend/game_service.py:98-105 | "Strictly beyond a star along the vector" is the same as "reached after k ≥ 1 steps of the walk from that star". |
| GameService.MarkIfEmpty | backend/game_service.py:102-103 | A visited cell that is empty becomes a circle, and no other cell changes. The walked stretch of the ray then extends to that cell. |
| GameService.WalkRay | backend/game_service.py:97-105 | The `while` walk of one star starts on the next cell and ends when it leaves the board. It takes the board from "stars before this one in row-major order have cast" to "this star has cast too". |
| GameService.CastRaysInPlace | backend/game_service.py:95-105 | The nested row-major loops leave the array equal to `CastRays` of its old contents. So the scan order does not matter. |
| Rays.CastRaysCounts | backend/game_service.py:102-103 | Casting rays never creates or removes a star, and it never adds an empty cell. |
| Rays.CastRaysIdempotent | backend/game_service.py:93-105 | Casting the same direction a second time changes nothing. |
| Rays.SouthFromCorner | backend/game_service.py:93-105 | A lone star at (0, 0) cast south turns the rest of column 0 into circles and leaves every other cell as it was. |
| Lists.RemoveFirst | backend/game_service.py:107 | `list.remove` drops the first occurrence of the element and keeps the others in order. |
| Lists.RemoveFirstFromDistinct | backend/game_service.py:107 | On a list without duplicates, the result is one shorter, still has no duplicates, and holds exactly the other elements. |
| Rules.CheckWinner | backend/game_service.py:120-129 | The result is null exactly when round ≤ numberOfRounds. Otherwise it is 1 exactly when the empty count is at least emptySquaresToWin, and 2 exactly when the count is below it. |
| GameService.GameState.CheckWinner | backend/game_service.py:120-129 | On the live object the method returns `Rules.CheckWinner` of the current snapshot. |
| GameService.CountEmptySquares | backend/game_service.py:132-138 | The accumulator loop returns the number of empty cells, which lies in [0, 36]. |
| GameService.CountStars | backend/game_service.py:141-147 | The accumulator loop returns the number of stars, which lies in [0, 36]. |
| Board.CountsBounded | backend/game_service.py:132-147 | The empty, star and circle counts of a board add up to 36. So empty and star cells together number at most 36. |
| Board.CountAfterPlacing | backend/game_service.py:60-63 | Turning an empty cell into a star adds exactly one star and removes exactly one empty cell. |
| Rules.Undo | backend/game_service.py:150-168 | With no history the reply is "No moves to undo", and this check comes first. With a winner set the reply is "Cannot undo after game is finished". Both refusals leave the game unchanged. Otherwise exactly one entry is popped and every snapshotted field is restored from it. The settings are kept. |
| GameService.GameState.UndoMove | backend/game_service.py:150-168 | The in-place method returns the reply and reaches the state that `Rules.Undo` gives. On success it installs a fresh board array copied from the snapshot. It preserves `Consistent`. |
| Rules.NewGame | backend/game_service.py:171-180 | A new game has an empty board and no history. It uses the requested settings, or the defaults when none are given. Every other field takes its assumed default: Player 1, placement phase, round 1, all eight directions, no winner, no stars. |
| GameService.GameState.constructor | backend/game_service.py:171-180 | The new object is the value `Rules.NewGame` gives, and it is `Consistent`. |
| Rules.NewGameIsConsistent | backend/game_service.py:171-180 | A new game satisfies the invariant: player and phase agree, the board's star count equals `starsPlaced`, and the eight directions are distinct. |
| Rules.PlaceStarKeepsConsistent | backend/game_service.py:52-63 | `place_star` preserves the invariant. Among other things, the star count on the board stays equal to `starsPlaced`. |
| Rules.ApplyDirectionKeepsConsistent | backend/game_service.py:85-115 | `apply_direction` preserves the invariant. No star is written, one direction is used up, and the winner is recorded only in the placement phase. |
| Rules.UndoKeepsConsistent | backend/game_service.py:157-165 | `undo_move` preserves the invariant, because it restores a snapshot that satisfied it. |
| Rules.FinishedGameIsFrozen | backend/game_service.py:43-44 | Once a winner is set, `place_star` fails with "Game is already finished", `apply_direction` fails with "Not Player 2's turn", and undo is refused. None of them changes the game. |
| Rules.UnreachableDirectionMessages | backend/game_service.py:76-83 | In a consistent game `apply_direction` never reports "Invalid direction" or "Game is already finished". |
| Rules.UndoRevertsPlaceStar | backend/game_service.py:52-63 | An undo right after an accepted star placement succeeds and gives back the game exactly as it was before. |
| Rules.UndoRevertsApplyDirection | backend/game_service.py:85-115 | An undo right after an accepted direction that decided no winner succeeds and gives back the game exactly as it was before. |
| Rules.UndoAllMoves | backend/game_service.py:150-168 | Play N accepted moves that leave no winner. Then N undos return to the starting game. |
| Rules.UndoToNewGame | backend/game_service.py:150-152 | From a new game, N accepted moves without a winner are undone by N undos. One more undo reports "No moves to undo". |

## Left out

- Timestamps: `createdAt`, `updatedAt` and the history entries' `timestamp` are wall-clock values that no logic reads, so they are not modelled.
- The settings and state models (`GameSettings`, `GameState`, `GameHistoryEntry`) are not part of this model. Their field defaults enter as assumed defaults, stated in `Rules.NewGame`'s contract, or as the `defaults` parameter. Their validation and `settings.dict()` are not modelled. A snapshot keeps the settings as a value.
- The HTTP layer (`backend/main.py`), the in-memory game registry and `server.js` are not modelled. They are transport and storage plumbing.
- GameService.WalkRay and GameService.CastRaysInPlace require a unit step. The only caller, `apply_direction`, passes a vector from the direction table, and `Rays.DirectionTable` proves every such vector is a unit step.
- Lists.RemoveFirst: its contract gives the result as the two slices around the first occurrence. It does not state the equivalent multiset equation.
- Rules.UndoAllMoves: it covers move sequences that end without a winner. Once a winner is set, the code refuses every undo.
- `if winner:` in `apply_direction` tests truthiness. The winner is 1, 2 or null, so this is the same as testing for non-null, and the model writes it that way.
- Aliasing: Python's snapshot copies the rows and the direction list. In the model snapshots are values, so no snapshot can alias the live state.
