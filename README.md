# Minesweeper rules engine in Dafny

This project models the `Game` class of `minesweeper.js` without its DOM.
The model covers:

- the board of squares keyed by (x, y) and the list of mines;
- mine placement by rejection sampling, with the random draws passed in;
- the neighbour lookups and the mine count;
- a left click, which either loses the game or reveals squares through the cascade of `generateSquareCounters`;
- the right-click flag toggle;
- the check that every square has been played;
- the loss, which disables input and schedules the other mines to be shown;
- restart.

Each square's class list becomes three booleans: `isMine` for `type == 'mine'`, `active` for the `active` class (revealed or flagged), and `hasFlag` for the `has-flag` class.

The project has four modules:

- `Board` (board.dfy): positions, the eight directions, the neighbour lookups, the mine count and the counter colour.
- `Placement` (placement.dfy): the draws, generateMine, generateNewMine and generateMines as functions over a sequence of candidates, plus the off-by-one finding below.
- `Rules` (rules.dfy): the pure rules the methods are proved against:
  - the invariant `Consistent`;
  - reveal paths and `AfterReveal`, the board after a click on a safe square;
  - the cascade's step predicates;
  - the mines a loss schedules, and their timeouts;
  - the flag toggle.
- `Minesweeper` (game.dfy): the class `Game`. Its fields `squares`, `mines` and `inputDisabled` are updated in place by methods that follow the source's methods. There are three exceptions:
  - generateMine and generateNewMine are functions of `Placement`, and the class's generateMines loop is proved against them.
  - validSquare and mineExists are class functions. Together they give the acceptance test `Placement.Accepts`.
  - Three loops become methods of their own: the forEach callback of generateSquareCounters (`VisitSurround`), the forEach loops of minesInTouch (`CountMinesIn`) and of triggeredMine (`ScheduleMines`). The default case of clickedSquare also becomes its own method (`RevealSquare`).

The cascade has two methods:

- `Game.GenerateSquareCounters` is the recursive method.
- `Game.VisitSurround` is its per-neighbour callback.

Both are proved against the definition `Rules.AfterReveal`: a square becomes active exactly when it was active before, or when a reveal path from the clicked square reaches it. A reveal path passes only through inactive squares, and every square on the path except the last has no mine around it.

The code has no Playing/Won/Lost state and no error results, and the model follows the code:

- Winning only calls `endGame`, which logs. Input stays enabled after a win.
- The listeners silently ignore clicks that their guards turn away (`Response.Ignored`).

## Model

| member | source | states |
|---|---|---|
| Minesweeper.Game.constructor | minesweeper.js:4-31 | Each option left undefined takes its default (18, 14, 40). The layout covers exactly 1..width by 1..height. The mines are those placement yields. Each square is a mine exactly when its key is among the mines. Input is enabled. |
| Minesweeper.GenerateLayout | minesweeper.js:90-125 | The keys are exactly the positions 1..width by 1..height, and every square is blank. |
| Minesweeper.Game.GenerateMines | minesweeper.js:128-140 | The new mine list and the completion flag are those of `PlaceMines` on the same candidates. Exactly the squares of the new mines become mines, and the invariant is kept. |
| Placement.PlacementFacts | minesweeper.js:128-140 | Placement keeps the earlier mines first. It adds at most `count` mines, and exactly `count` when it completes. Every added mine is a drawn candidate on the board, and the mines stay pairwise distinct. |
| Placement.PlaceMines | minesweeper.js:128-140 | Defines the placement that the class's generateMines loop is proved against: `count` rounds of generateNewMine, each appending the accepted candidate. `PlacementFacts` states its properties. |
| Placement.PlaceStep | minesweeper.js:130-137 | One loop round: the accepted candidate is appended, and placement continues with one mine fewer on the remaining draws. |
| Placement.PlaceStall | minesweeper.js:130-137 | When no remaining candidate is accepted, placement stops there, incomplete, with the mines placed so far. |
| Placement.GenerateMineAsWritten | minesweeper.js:179-190 | As written, a draw in range lands on the board only inside the first width-1 columns and height-1 rows. |
| Placement.GenerateMine | minesweeper.js:179-190 | Corrected, a draw is in range exactly when its square is on the board. |
| Placement.CandidatesAsWritten | minesweeper.js:179-190 | One candidate per draw. From in-range draws, every candidate that is on the board avoids the last column and row. |
| Placement.Candidates | minesweeper.js:179-190 | One corrected candidate per draw. From in-range draws, every candidate is a square of the board. |
| Placement.Accepts | minesweeper.js:196 | Defines generateNewMine's test: the candidate is a square of the board and not already a mine. `Game.CandidateAccepted` ties it to the class's validSquare and mineExists. |
| Minesweeper.Game.ValidSquare | minesweeper.js:163-165 | A key is a square exactly when it lies in 1..width by 1..height. |
| Minesweeper.Game.MineExists | minesweeper.js:167-177 | A key is in the mine list exactly when its square's type is mine. |
| Minesweeper.Game.CandidateAccepted | minesweeper.js:196 | The negation of the rejection test, `validSquare && !mineExists` on the game, is `Placement.Accepts` on the game's width, height and mines. |
| Placement.GenerateNewMine | minesweeper.js:192-202 | The result is the first candidate that validSquare and mineExists accept, with all earlier candidates rejected. None means no candidate is accepted. |
| Placement.CorrectedCandidatesCoverBoard | minesweeper.js:179-190 | With the corrected generateMine, a square is on the board exactly when some in-range draw yields it. |
| Placement.CorrectedPlacementCanProgress | minesweeper.js:192-202 | With the corrected generateMine, while fewer than width*height distinct mines are placed, some draw is accepted. |
| Placement.AsWrittenAvoidsLastColumnAndRow | minesweeper.js:181-196 | As written, every mine placed lies in 1..width-1 by 1..height-1. |
| Placement.AsWrittenNeedsRoom | minesweeper.js:181-196 | As written, placement completes only if totalMines <= (width-1)*(height-1). |
| Placement.AsWrittenStallsOnTwoByTwo | minesweeper.js:181-182 | As written, 2 mines on a 2 by 2 board never finish placing, whatever the draws. |
| Placement.AsWrittenCannotProgress | minesweeper.js:181-196 | As written, with one mine at (1, 1) on a 2 by 2 board, no draw is accepted although three squares are free. |
| Placement.DistinctWithin | minesweeper.js:163-177 | Distinct squares inside a width by height rectangle number at most width*height. |
| Minesweeper.MineStep | minesweeper.js:135-136 | Adding an accepted mine and marking its square keeps the invariant. It also keeps the squares equal to the layout with exactly the mines marked. |
| Rules.AddMine | minesweeper.js:135-136 | Adding an on-board square that is not yet a mine, and marking it, keeps `Consistent`. |
| Minesweeper.Game.GetSquare | minesweeper.js:368-370 | The result is None (null) exactly outside 1..width by 1..height. Otherwise it is the square at (x, y). |
| Minesweeper.Game.GetSquareNeighbour | minesweeper.js:328-366 | The result is the square one step away in the given direction, or None when off the board. |
| Minesweeper.Game.SquareSurrounds | minesweeper.js:313-326 | The eight lookups, in the source's order of directions. |
| Board.Neighbour | minesweeper.js:328-370 | Defines getSquareNeighbour on a board keyed by exactly the rectangle: the square one step away, or None off the board. `NeighbourIff` states what it means. |
| Board.Surrounds | minesweeper.js:313-326 | Defines squareSurrounds on the rectangle: the eight lookups in the source's order. `SurroundsAreTouching` states what they hold. |
| Board.SurroundsAreTouching | minesweeper.js:313-326 | The squares among the eight lookups are exactly the squares of the board that touch the given square. |
| Board.DirectionTo | minesweeper.js:328-366 | Every square touching another is one of its eight offsets. |
| Board.NeighbourIff | minesweeper.js:313-370 | b is among a's neighbours exactly when b is on the board and touches a. |
| Board.NeighbourSymmetric | minesweeper.js:313-370 | For squares on the board, b is a neighbour of a exactly when a is a neighbour of b. |
| Board.CountMines | minesweeper.js:291-303 | The count is at most the number of lookups. It is zero exactly when no lookup is a square holding a mine. |
| Board.CountMinesStep | minesweeper.js:295-301 | One more lookup adds one exactly when it is a square holding a mine. |
| Minesweeper.CountMinesIn | minesweeper.js:291-303 | The loop computes `CountMines` of the lookups. |
| Board.MineCount | minesweeper.js:283-307 | minesInTouch lies in 0..8. It is 0 exactly when no neighbour on the board is a mine. Its value, the number of touching squares that are mines, is stated by `MineCountIsTouchingMines`. |
| Board.CountMinesIsMinesAmong | minesweeper.js:291-303 | Over lookups that name each square at most once, the loop's count is the number of distinct squares among them that are mines. |
| Board.SurroundsDistinct | minesweeper.js:313-326 | The eight lookups of squareSurrounds name eight different squares. |
| Board.MineCountIsTouchingMines | minesweeper.js:283-307 | minesInTouch is exactly the number of squares of the board that touch the square and are mines. |
| Minesweeper.Game.MinesInTouch | minesweeper.js:283-307 | The result is `MineCount` of the square, and at most 8. |
| Minesweeper.Game.SquareTouchesMine | minesweeper.js:309-311 | True exactly when some neighbour on the board is a mine, which is exactly when the count is non-zero. |
| Board.ZeroCountMeansNoTouchingMine | minesweeper.js:416-422 | No square touching a zero-count square is a mine, so the cascade never enters a mine from one. |
| Board.CounterClass | minesweeper.js:378-400 | The colour is blue exactly when the count is not 2 to 5. |
| Minesweeper.Game.ShowSquareCounter | minesweeper.js:372-405 | Only that square becomes active. The count shown is `MineCount`, and the colour is `CounterClass` of it. |
| Minesweeper.Game.GenerateSquareCounters | minesweeper.js:407-429 | The cascade's invariant holds between the board before and after the call: it only activates squares reachable from the click, and every newly active zero-count square has all its neighbours active. The call also leaves every neighbour of `p` active. |
| Rules.SettledUpToStep | minesweeper.js:412-427 | After one more direction's callback, that neighbour is active, and the neighbours of the earlier directions stay active. |
| Rules.SettledUpToAll | minesweeper.js:412-427 | Once all eight directions have been visited, every neighbour on the board is active. |
| Minesweeper.Game.VisitSurround | minesweeper.js:412-427 | On one neighbour: the board only grows, the cascade's invariant is kept, and that neighbour ends up active. |
| Rules.EnterSquare | minesweeper.js:420-422 | Marking a reachable inactive square active keeps the board reachable-only and strictly shrinks the set of inactive squares (the termination measure). |
| Rules.CounterStep | minesweeper.js:418-419 | Showing the counter of a reachable square with a non-zero count keeps the cascade's invariant. |
| Rules.ReturnStep | minesweeper.js:420-423 | After the recursive call returns, the invariant holds from the earlier board, and the entered square is active. |
| Rules.ExtendReach | minesweeper.js:412-422 | A reveal path to a zero-count square extends to any inactive square touching it. |
| Rules.RevealNeverReachesMine | minesweeper.js:416-422 | From a safe clicked square, the cascade never reaches a mine. |
| Rules.CascadeIsAfterReveal | minesweeper.js:407-429 | Suppose a board grown only by reachable squares has the start active and is closed under the cascade. Then it equals `AfterReveal`: every reachable square is active, and no other square changed. |
| Rules.AfterReveal | minesweeper.js:267-277 | The board after the default case of clickedSquare. Only `active` changes, and only upward. The clicked square becomes active. |
| Rules.RevealFromClick | minesweeper.js:272-275 | After the cascade from the clicked square, marking the clicked square active yields `AfterReveal`. |
| Rules.CountedSquareReachesOnlyItself | minesweeper.js:269-270 | From a square that touches a mine, only that square is reachable. |
| Rules.CountedSquareRevealsOnlyItself | minesweeper.js:269-275 | Clicking a square that touches a mine activates that square alone. |
| Minesweeper.Game.RevealSquare | minesweeper.js:267-277 | The default case of clickedSquare leaves the board equal to `AfterReveal` of the click. |
| Rules.AfterRevealKeepsRules | minesweeper.js:258-281 | Revealing from a safe square keeps `Consistent` and keeps no mine on show. Flagged squares are untouched. |
| Minesweeper.Game.ClickedSquare | minesweeper.js:258-281 | A mine loses: input is disabled, the mine is shown, and the other unresolved mines are scheduled. Any other square yields `AfterReveal`. The invariant is kept either way. |
| Minesweeper.Game.CheckAllSquares | minesweeper.js:142-161 | The result is true exactly when every square is active; flagged squares count. |
| Rules.AllActiveMeansMinesFlagged | minesweeper.js:142-161 | While no mine is on show, all squares active implies every mine is flagged, whatever else is flagged. |
| Minesweeper.Game.DisableInput | minesweeper.js:455-458 | Input becomes disabled; the board is unchanged. |
| Minesweeper.Game.EnableInput | minesweeper.js:460-463 | Input becomes enabled; the board is unchanged. |
| Minesweeper.Game.ShowMine | minesweeper.js:512-518 | Only that mine's square becomes active. |
| Minesweeper.ScheduleMines | minesweeper.js:494-508 | The loop's timeouts are `Timers` of the mines that are not active or carry a flag, in mine order. |
| Rules.Unresolved | minesweeper.js:494-508 | A mine is scheduled exactly when it is on the board and either not active or flagged. |
| Rules.UnresolvedStep | minesweeper.js:496-506 | One more mine is scheduled exactly when it is not active or carries a flag. |
| Rules.TimersRunTimeout | minesweeper.js:486-506 | The timers follow triggeredMine's running `timeout`: one per scheduled mine, in order, the first after 150 ms and each later one 150 ms after the one before. |
| Rules.TimersAppend | minesweeper.js:500-505 | The next mine scheduled gets one more delay than the last. |
| Rules.LossSchedulesEveryOtherMine | minesweeper.js:494-508 | After the hit mine is shown, the scheduled mines are exactly every other mine, flagged ones included, in order. |
| Rules.LossAfterShow | minesweeper.js:488-508 | On a board with no mine on show, a click on an inactive mine schedules every other mine. |
| Rules.WithoutLength | minesweeper.js:494-508 | Among distinct mines, the scheduled list has one mine fewer than the mine list. |
| Rules.MinesShownBeforeOverlay | minesweeper.js:490-506 | With at most totalMines mines, every scheduled timeout fires before the overlay's delay of 150*totalMines. |
| Minesweeper.Game.TriggeredMine | minesweeper.js:479-510 | Input is disabled, and only the hit square becomes active. The timers schedule every other mine, and the overlay waits 150*totalMines ms. |
| Minesweeper.Game.AddFlag | minesweeper.js:448-453 | The square becomes active and flagged. |
| Minesweeper.Game.RemoveFlag | minesweeper.js:441-446 | The square becomes neither active nor flagged. |
| Minesweeper.Game.ToggleFlag | minesweeper.js:431-439 | The square becomes `Toggled` of itself; nothing else changes. |
| Rules.Toggled | minesweeper.js:431-453 | A toggle flips the flag, makes `active` follow the flag, and keeps the type. |
| Rules.ToggleTwiceRestores | minesweeper.js:431-453 | On any square the right-click guard admits, toggling twice restores it. |
| Minesweeper.Game.Restart | minesweeper.js:61-88 | Every square is reset, and the mines are placed anew. Input is enabled once placement completes. The dimensions are unchanged because they are constants. |
| Minesweeper.Game.Click | minesweeper.js:208-232 | A click plays exactly when input is enabled and the target is an inactive square. A click restarts exactly when the target is the retry button. Anything else is ignored and changes nothing. A played click either loses or yields `AfterReveal`, and reports whether all squares are active. A loss activates only the clicked mine and schedules every other mine. A restart leaves the keys, blank squares except the newly placed mines, placement's completion flag, and input enabled when placement completes and otherwise unchanged. |
| Minesweeper.Game.ContextMenu | minesweeper.js:234-254 | A flag toggle happens exactly when input is enabled and the square is not active or carries a flag. Otherwise nothing changes. |

## Left out

- DOM and presentation: element creation, sizes, the even/odd and nobg classes, `innerHTML` markup, the background colour from `randomColour`, and the overlay element with its animation. These are presentation only.
- Timers: `setTimeout` is not fired. The loss returns the schedule (mine, delay) and the overlay's delay instead.
- `endGame` is left out. It only writes to the console; the model reports `allPlayed` instead.
- `Math.random` is replaced by the sequence of draws passed to the constructor, restart and generateMines.
- Minesweeper.Game.GenerateMines: places mines with the corrected generateMine (rx+1, ry+1) of the Findings below. On the same draws the source places (rx, ry), so the class does not reproduce the source's mine positions. The as-written behaviour is modelled by `Placement.GenerateMineAsWritten` and the lemmas about it.
- Minesweeper.Game.GenerateMines: when no candidate can be accepted, the source's generateNewMine calls itself without end. The call is not a tail call, so it stops with a RangeError (stack overflow), which aborts generateMines with the mines placed so far. The model reaches this when the draws run out, and returns `complete == false` with those mines.
- Minesweeper.Game.constructor: when placement does not complete, the source's constructor throws. The model returns the object with the mines placed so far.
- Minesweeper.Game.Restart: when placement does not complete, the source's restart throws after resetting the squares and removing the overlay. `enableInput` is never reached, so input stays as it was. The model matches: `complete == false` and `inputDisabled` unchanged.
- Minesweeper.Game.GenerateMines: requires every square to be inactive, which holds at both of the source's call sites (init and restart). It is needed to keep "no mine on show".
- Minesweeper.Game.Restart: the source can only be reached through the overlay's retry button and removes that overlay. The model accepts `RetryButton` at any time. A pending loss timeout that fires after a restart is not modelled.
- Minesweeper.Game.RevealSquare: states `OnBoard` and `AfterReveal` only. That the invariant is kept is stated by `Rules.AfterRevealKeepsRules`, which `ClickedSquare` uses.
- Event objects, `preventDefault` and `getAttribute` are left out. The target is a `Target` value, and the listener guards are branches of `Click` and `ContextMenu`.
- The getters `getWidth`, `getHeight`, `getTotalMines` and `getSquareSize` become the constant fields. `squareSize` is presentation only.
- Integers are unbounded. The source's numbers never come near 2^53 for a board of the sizes used.

## Findings

| source | as written | input that shows it | evidently intended | confidence | as-written member | corrected member |
|---|---|---|---|---|---|---|
| minesweeper.js:181-182 | `generateMine` draws x in 0..width-1 and y in 0..height-1 and uses them directly as keys. The board counts from 1, so column `width` and row `height` never get a mine, and draws with a 0 are always rejected. | A 2 by 2 board with 2 mines: only (1, 1) can ever be accepted, so placement never finishes for any draws. | Draws shifted by one (x+1, y+1), so that every square can become a mine. The game uses this corrected `GenerateMine`. | high, not executed | Placement.AsWrittenStallsOnTwoByTwo | Placement.CorrectedPlacementCanProgress |
