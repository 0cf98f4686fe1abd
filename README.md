# Snakes and Ladders turn engine, in Dafny

This project models the turn engine of a browser Snakes-and-Ladders game and
proves properties of it. The engine has four parts:

- the snake and ladder tables and the cell-to-grid arithmetic of the board,
- a player's position and its step-by-step `move`,
- the `Game` object that runs one roll from guard to turn advancement,
- the two computations of the UI: the ordinal ("1st", "12th", "22nd") in the
  rank announcement, and the rank shown on the scoreboard.

These are the modules:

- `JsNumber` (js_number.dfy) models JavaScript's `%`, which truncates toward zero,
  and the conversion of an integer to decimal text.
- `Board` (board.dfy) holds the default tables, well-formedness, the transport
  lookup (a snake head first, then a ladder bottom), `getGridPosition` and its inverse.
- `Players` (player.dfy) holds the `Player` class with its `position` field. `Move`
  is the source's `for` loop. The specification function `Walk` describes it, and its closed form is proved.
- `Turn` (turn.dfy) is the turn engine as a pure function on a `GameState` value.
  It covers `handleRoll`, `processTurn`, `nextTurn`'s skip loop, `handlePlayerFinish`
  and `endGame`. The lemmas about it state the rules of a turn. They also prove an
  invariant that every roll keeps: once the game is over, the finish order is a
  duplicate-free permutation of the seats.
- `Game` (game.dfy) holds the `Game` class, with the fields `players`,
  `finishedPlayers`, `currentPlayerIndex`, `isProcessingTurn` and `gameEnded`.
  Every method is proved to change the state exactly as the matching `Turn` function does.
- `UI` (ui.dfy) holds `getOrdinal`, proved equal to the English ordinal for every
  non-negative number, and the scoreboard rank `finishedPlayers.indexOf(p) + 1`.

Players are identified by seat index. `finishedPlayers` is a sequence of seat
indices. The source compares `Player` objects instead, and every seat holds a
distinct object (the class invariant `Valid`), so the two are equivalent. The
die's value is an input in 1..6. Sounds, sleeps and the rank modal's
acknowledgement have no effect on the state, and neither do UI updates as long as
the UI has a corner for every seat (at most four; see "## Left out"). Each
`await` is a sequential step.

Quirks of the source that the model keeps as they are:

- The ladder 80 -> 100 puts a player on 100 without finishing, because the
  finish check runs before the transport. The next roll bounces back to
  `100 - roll` (`LadderToFinishDoesNotFinish`, `BounceFromFinish`).
- The ladder at cell 1 can never fire (`LadderAtOneNeverFires`).
- The early return on game over leaves `isProcessingTurn` set. Every later roll
  is ignored (`GameOverKeepsGuard`).
- `start` does not reset `isProcessingTurn`.
- The snake and ladder lookups are JavaScript conditions, so a table value of 0
  would count as "no transport".
- Rolling with an empty seating reads the position of `undefined`, which throws.
  The model abandons the turn with the guard still set.

Two more behaviours of the source, also kept:

- `start` accepts any list of names: there is no roster-size check (js/Game.js:28-34).
- The survivor of the decisive finish is appended to `finishedPlayers` (js/Game.js:176-179).

## Model

| member | source | states |
|---|---|---|
| JsNumber.JsRem | js/UI.js:226 | JavaScript `%` on a positive divisor: the remainder has the dividend's sign, is smaller than the divisor in size, and completes the truncated quotient |
| JsNumber.NatToString | js/UI.js:227 | the decimal text of a number is a non-empty string of digits without a leading zero |
| JsNumber.NumberToString | js/UI.js:227 | the text of an integer, as `n + "..."` converts it, starts with `-` exactly when `n` is negative; the rest is a non-empty run of digits without a leading zero that reads back as `|n|` |
| JsNumber.NatToStringRoundTrip | js/UI.js:227 | reading the decimal text of `n` back gives `n` |
| Board.DefaultBoardWellFormed | js/Board.js:8-33 | every snake goes down, every ladder goes up, no cell is both a snake head and a ladder bottom, and every cell is in 1..100 |
| Board.DefaultBoardHasNoChains | js/Board.js:9-33 | no destination of the default tables is itself a snake head or a ladder bottom |
| Board.Lookup | js/Game.js:139-142 | a missing key and a value of 0 both read as no transport; otherwise the result is the table's value |
| Board.TransportFrom | js/Game.js:138-151 | a transport fires only from a table key and never to 0; a truthy snake entry wins, and otherwise (no key or a 0 entry) the ladder table decides |
| Board.TransportOnWellFormed | js/Game.js:138-151 | on a well-formed board a transport exists exactly at a snake head or a ladder bottom; the snake is taken first, it goes down, a ladder goes up, and the destination is on the board |
| Board.GetGridPosition | js/Board.js:67-81 | for a cell in 1..100 both the row and the column are in 1..10 |
| Board.GridPositionRoundTrip | js/Board.js:67-81 | `CellAt` recovers every cell 1..100 from its grid slot |
| Board.CellAtRoundTrip | js/Board.js:67-81 | every slot of the 10x10 grid is the slot of exactly one cell in 1..100 |
| Board.GridPositionInjective | js/Board.js:51-81 | distinct cells built by `generateGrid` get distinct grid slots |
| Board.GridRowBands | js/Board.js:69-70 | cells 1-10 are exactly those on row 10, and cells 91-100 exactly those on row 1 |
| Board.GridSuccessorAdjacent | js/Board.js:73-79 | consecutive cells are grid neighbours: sideways inside a band of ten, straight up from a band's last cell |
| Board.GridCorners | js/Board.js:73-79 | cell 1 is at column 1 of row 10, cells 10 and 11 are both in column 10, and cell 100 is at row 1, column 1 |
| Players.Step | js/Player.js:26-37 | one loop iteration from a cell on the board moves to a neighbouring cell and never above 100 or below 1 |
| Players.Walk | js/Player.js:26-37 | any number of iterations from a cell on the board stays within 1..100 |
| Players.WalkClosedForm | js/Player.js:24-43 | from a cell up to 100, `k` steps reach `p + k` when that is at most 100, and past 100 the position alternates between 99 and 100 |
| Players.WalkExact | js/Player.js:26-31 | without overshoot, `move(k)` ends exactly `k` cells further on |
| Players.WalkStaysOnBoard | js/Player.js:27-37 | from a cell in 1..100, `move` never ends above 100 nor below the start (or 99, when starting on 99 or 100) |
| Players.StepAtFinish | js/Player.js:37 | a step taken while at 100 goes to 99 |
| Players.Player.constructor | js/Player.js:2-10 | a new player has its id and name and stands on cell 1 |
| Players.Player.Move | js/Player.js:24-43 | the loop leaves the position that `steps` iterations of the step rule give; `move(0)` and negative counts leave it unchanged |
| Players.Player.MoveTo | js/Player.js:46-49 | the position becomes exactly the target; id and name are constant |
| Players.Player.SetPosition | js/Player.js:52-55 | the position becomes exactly the given cell; id and name are constant |
| Turn.Started | js/Game.js:28-34 | `start` seats `n` players, and a roll is accepted afterwards exactly when the guard is clear and there is at least one seat |
| Turn.Scan | js/Game.js:129-133 | the skip loop ends on a seat index in range |
| Turn.NextTurnIndex | js/Game.js:124-136 | `nextTurn` picks an index in `[0, players.length)` |
| Turn.NextTurnIndexFindsUnfinished | js/Game.js:124-136 | while some seat is unfinished, `nextTurn` picks an unfinished seat, and every seat it passes in cyclic order after the current one is finished |
| Turn.NextTurnIndexAllFinished | js/Game.js:127-135 | when every seat is finished the scan stops after one lap, on the seat after the current one |
| Turn.FirstUnfinished | js/Game.js:176 | `find` returns the lowest seat not in the finish order, or nothing when every seat is in it |
| Turn.EndGame | js/Game.js:172-182 | the game is over; the finish order grows by at most one seat, and by one exactly when some seat is missing from it, that seat being new and in range; nothing else changes |
| Turn.HandlePlayerFinish | js/Game.js:153-170 | the player is appended to the finish order; the game is over afterwards exactly when it was or the order has reached `players.length - 1`; positions, seat and guard are unchanged |
| Turn.MovedPosition | js/Game.js:72-92 | from a cell not above 100 a roll's movement never ends above 100 |
| Turn.ApplyTransport | js/Game.js:100-102 | the position changes only on a table key, and on a well-formed board it stays in 1..100 |
| Turn.AdvanceTurn | js/Game.js:104-121 | the guard is released and only the current seat may change, staying in range; it changes only when the game runs and there is no bonus turn |
| Turn.ProcessTurn | js/Game.js:60-122 | only the current player moves, the finish order only grows (by at most two), and a finished game stays finished |
| Turn.HandleRoll | js/Game.js:44-58 | a roll keeps the seating and moves only the current player. The finish order only grows and a game over is final. The roll that ends the game leaves the guard set |
| Turn.RollIgnoredWhileBusy | js/Game.js:44-45 | a roll while a turn is in progress or after game over changes nothing |
| Turn.FinishedPlayerOnlyPasses | js/Game.js:63-70 | a current player already in the finish order does not move; the turn passes on and the guard is released |
| Turn.MovedPositionLaw | js/Game.js:72-92 | without overshoot the position before the finish check is `start + roll`; with overshoot it is `200 - start - roll`, which lies in 94..99 from a cell on the board |
| Turn.LandingOnFinish | js/Game.js:94-116 | landing on 100 does no transport and appends the player to the finish order once (ranked `length`); the game ends on that turn exactly when at most one player is left; otherwise the turn passes on, even after a 6 |
| Turn.LandingElsewhere | js/Game.js:99-116 | any other landing applies at most one transport and leaves the finish order alone; a 6 keeps the current player, any other roll calls `nextTurn` |
| Turn.GameOverKeepsGuard | js/Game.js:97 | the turn that ends the game leaves `isProcessingTurn` set, and every later roll is ignored |
| Turn.StartedConsistent | js/Game.js:28-34 | the state after `start` satisfies the turn invariant |
| Turn.EndGameAppendsSurvivor | js/Game.js:172-180 | with one seat missing from the finish order, `endGame` appends exactly that seat last, making the order duplicate-free and complete |
| Turn.HandleRollConsistent | js/Game.js:44-122 | every roll keeps the invariant: the finish order is duplicate-free; during play the current seat is unfinished and the threshold has not been reached; after game over every seat is ranked |
| Turn.CurrentPlayerNeverFinished | js/Game.js:63-70 | in a reachable state the defensive "already finished" branch is never taken |
| Turn.FinalStandings | js/Game.js:161-180 | after game over `finishedPlayers` is a duplicate-free permutation of all seats |
| Turn.MovedPositionOnBoard | js/Game.js:76-91 | from a cell on the board, a roll's movement ends in 2..100 |
| Turn.HandleRollOnBoard | js/Game.js:60-102 | on a well-formed board every position stays in 1..100 |
| Turn.LadderToFinishDoesNotFinish | js/Game.js:94-102 | reaching 80 on the default board climbs the ladder to 100 without finishing or ending the game |
| Turn.BounceFromFinish | js/Game.js:76-89 | from 100 there are no forward steps and a roll lands on `100 - roll` |
| Turn.LadderAtOneNeverFires | js/Board.js:24 | a movement from a cell on the board never ends on cell 1, so its ladder is never used |
| Game.Game.constructor | js/Game.js:9-21 | a new game has no players, an empty finish order, seat 0 and both flags clear |
| Game.Game.Start | js/Game.js:28-38 | one fresh player per name, all on cell 1; the finish order is empty, seat 0 is current and the game is running; the turn guard is unchanged |
| Game.Game.GetCurrentPlayer | js/Game.js:40-42 | the player in the current seat, or `undefined` past the end of the seating |
| Game.Game.HandleRoll | js/Game.js:44-58 | the state after a roll is that of the turn engine: no change while busy or over, else the turn is processed under the guard |
| Game.Game.ProcessTurn | js/Game.js:60-122 | the state after a turn is exactly the turn engine's |
| Game.Game.MovePlayer | js/Game.js:75-92 | only the current player's position changes, to the movement law's value |
| Game.Game.AdvanceTurn | js/Game.js:104-121 | a bonus turn after a 6 unless the player just finished, otherwise `nextTurn`; the guard is released |
| Game.Game.NextTurn | js/Game.js:124-136 | the loop sets `currentPlayerIndex` to the skip scan's result |
| Game.Game.CheckEntityInteractions | js/Game.js:138-151 | only the player's position changes, to the destination of its single transport |
| Game.Game.HandlePlayerFinish | js/Game.js:153-170 | the seat is appended and ranked the new length; the game ends once the finish order reaches `players.length - 1` |
| Game.Game.EndGame | js/Game.js:172-182 | the game is over and the first unfinished seat, if any, is appended last |
| UI.SuffixAt | js/UI.js:227 | reading the suffix array is defined exactly for indexes 0..3 and then yields a non-empty, hence truthy, suffix |
| UI.OrdinalSuffix | js/UI.js:225-227 | the `||` chain always yields one of "th", "st", "nd", "rd" |
| UI.GetOrdinal | js/UI.js:224-228 | the result is the decimal `n` followed by one of the four suffixes |
| UI.OrdinalSuffixIsEnglish | js/UI.js:225-227 | for every non-negative `n` the suffix is the English one: "th" for 11-13 of each hundred, else by the last digit |
| UI.OrdinalIsEnglish | js/UI.js:224-228 | `getOrdinal(n)` is the English ordinal of every non-negative `n` |
| UI.OrdinalOfNegative | js/UI.js:226-227 | a negative number always gets "th" |
| UI.OrdinalExamples | js/UI.js:225-227 | 1st, 2nd, 3rd, 4th, 11th, 12th, 13th, 21st, 22nd |
| UI.IndexOf | js/UI.js:126 | `indexOf` is -1 exactly when absent, else the first position of the value |
| UI.ScoreboardRank | js/UI.js:126 | the rank is 0 exactly for a player not in the finish order, otherwise the player's first position in it plus one |
| UI.RankOfAppended | js/UI.js:125-126 | a player appended to the finish order is shown with the order's length at that point, whatever follows |
| UI.RanksFollowFinishOrder | js/UI.js:125-126 | in a duplicate-free finish order the ranks are 1, 2, 3, ... in finish order |
| UI.ScoreboardShowsFinishRank | js/Game.js:153-156 | the scoreboard shows a player who just reached 100 with the rank `handlePlayerFinish` assigned |

## Left out

- Audio (js/Audio.js): Web Audio synthesis with floating-point envelopes. The `AudioContext` resume in `handleRoll` is left out too.
- The die (js/Dice.js): it uses `Math.random`, CSS transforms and timers. The roll is an input in 1..6.
- js/main.js: DOM bootstrapping only.
- Board drawing: `init`, the DOM side of `generateGrid`, `getCellCenter` and the SVG snakes and ladders (floating-point geometry).
- Player visuals: `createToken`, `updatePositionVisuals`, the token colour and the back reference to the game.
- The rest of js/UI.js: event binding, modals, scoreboard HTML, theme toggle and confetti. Only `getOrdinal` and the scoreboard rank rule are modelled.
- Timing and concurrency: each `await` (sleeps, step animation, the rank modal) is a sequential step. A turn is one atomic transition, so a click arriving during an `await` is seen only through the guard flags.
- Presentation effects: the step, transport, rank and game-over notifications are not recorded. `HandlePlayerFinish` returns the rank it would announce.
- JavaScript numbers are unbounded integers here. Non-integer, `NaN` and `undefined` inputs are not modelled. In the turn engine `undefined` arises only with an empty seating, which is modelled as an aborted turn; the missing UI corner beyond four seats is described below.
- Turn.HandleRoll: with more than four seats the source
  throws on every turn: `updateScoreboard` reads `this.corners[p.id]`, and there are
  only four corners (js/UI.js:16-21, 123, 134). It is called at js/Game.js:66, 105, 117
  and 158. So the first roll stops part-way with `isProcessingTurn` still set, and every
  later roll is ignored. The model assumes every seat has a corner and does not capture
  this abort. It applies to `start` too (js/Game.js:36-37), but there the state is
  already complete when the exception is thrown.
- Game.Game.HandleRoll: proved equal to `Turn.HandleRoll`, so it leaves out the same abort with more than four seats.
- Game.Game.NextTurn: requires a non-empty seating. With none the source would compute `NaN`, but no caller reaches it, because `processTurn` throws first.
- Turn.NextTurnIndex: requires at least one seat, for the same reason.
- Turn.MovedPosition: only the final position of an overshooting move is kept. The intermediate assignments (the walk to 100, then 100 itself) are carried out by `Game.Game.MovePlayer`, which is proved to end in the same place.
