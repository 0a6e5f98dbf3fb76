# Snake game state model

A Dafny model of the game-state core of the browser Snake game in `script.js`:
the `SnakeGame` object with its fields (`gameRunning`, `gamePaused`, `score`,
`level`, `speed`, `snake`, `direction`, `nextDirection`, `apple`,
`currentSnakeColor`), the `keydown` handler, `startGame`, `togglePause`, the
`gameLoop` guard, the tick `update`, the rejection-sampling `generateApple`,
`checkLevelUp`, `increaseSpeed`, `changeSnakeColor`, `gameOver` and
`resetGame`, on the fixed 40 x 50 board.

Four modules, one per file:

- `Seqs` (`seqs.dfy`): `Option`, removal of a value from a sequence, and
  pigeonhole lemmas on integers in both directions.
- `Board` (`board.dfy`): cells, the board bounds, the `FirstFree`
  specification of the apple loop, the loop itself (`DrawApple`), the proof
  that a snake shorter than the board leaves a free cell that the random
  stream eventually draws, and the proof that a snake as long as the board
  covers every cell.
- `Rules` (`rules.dfy`): the game rules as values. `Steer` is the arrow-key
  filter. `LevelFor`, `NextSpeed` and `SpeedAt` are the level and speed rule.
  `AvailableColors` and `BackgroundFor` are the colour choices. `Reset` is the
  round after `resetGame`. `Step` is one `update`. `Inv` is what holds between
  ticks, and the lemmas prove what a tick does.
- `Game` (`game.dfy`): the class `SnakeGame`. It holds the same fields and
  updates them in place. The methods that may tick (`HandleKey`,
  `StartGame`, `TogglePause`, `GameLoop`, `Update`) are proved to leave the
  fields as `Step` of the fields before them when they tick, or as `Steer`
  says when an arrow key only buffers a turn, and to keep `Inv`. `GameOver`
  and `ResetGame` set the fields to `Reset(draws)`, which establishes `Inv`
  from any state. The helpers that run partway
  through a tick (`GenerateApple`, `CheckLevelUp`, `IncreaseSpeed`,
  `ChangeSnakeColor`) are proved to change only their own fields, as the
  matching function of `Board` or `Rules` says; `Inv` does not hold in the middle of a
  tick, so they neither need nor promise it.

`Math.random` is a parameter. The apple loop reads a sequence `draws` of
cells; `RandomStream(draws)` says every draw is on the board and every cell
occurs in it (a random source that eventually hits every cell). The colour
change reads an index `pick` below the number of other colours. Each method
takes the ones it may use: the methods that may tick take both (a tick that
needs neither ignores them), `GenerateApple`, `GameOver` and `ResetGame` take
`draws`, `CheckLevelUp` and `ChangeSnakeColor` take `pick`, and
`IncreaseSpeed` takes neither.

## Model

| member | source | states |
|---|---|---|
| Board.FirstFree | script.js:192-203 | the apple the do-while loop settles on is a drawn cell the snake does not occupy, and there is none exactly when every draw is occupied |
| Board.FirstFreeIsFirst | script.js:194-201 | every draw before the chosen one is occupied by the snake (rejection sampling keeps the first free draw) |
| Board.DrawApple | script.js:194-201 | the do-while loop over the draws returns exactly FirstFree's cell |
| Board.StreamFindsFreeCell | script.js:192-203 | with a random stream and a snake shorter than the 2000 cells, the loop ends and the apple is on the board and off the snake |
| Board.FreeCellExists | script.js:192-203 | a snake shorter than 40 x 50 cells leaves some board cell free |
| Board.DistinctCellsFit | script.js:192-203 | a snake of distinct cells on the board has at most 40 x 50 segments |
| Board.FullSnakeCoversBoard | script.js:192-203 | a snake of distinct board cells with 40 x 50 segments occupies every cell, so no draw is free |
| Rules.Steer | script.js:72-93 | an arrow becomes the buffered direction exactly when it lies on the other axis from the committed direction; otherwise the buffered direction stays |
| Rules.SteerKeepsHeading | script.js:72-93 | after any key the buffered direction is a unit step equal or perpendicular to the committed one, never its reverse |
| Rules.SteerKeepsInv | script.js:66-99 | a key press while running keeps every invariant of the game state |
| Rules.LevelFor | script.js:207 | the level is the 100-point band of the score plus one |
| Rules.LevelRisesByAtMostOne | script.js:206-210 | ten more points never lower the level and raise it by at most one |
| Rules.NextSpeed | script.js:217-219 | the new interval is 50 or 90% of the old, at least both, and below the old one while that is above 50 |
| Rules.SpeedAt | script.js:217-219 | the interval reached level by level from 150 stays between 50 and 150 |
| Rules.SpeedNeverRises | script.js:217-219 | a higher level never has a longer interval |
| Rules.AvailableColors | script.js:221-224 | the colours to choose from are exactly the palette minus the current colour, five of them |
| Rules.BackgroundFor | script.js:226-229 | the background is one of the three classes, `level-N` for levels 1 to 3 |
| Rules.BackgroundCycles | script.js:226-229 | the background repeats every three levels |
| Rules.LeveledUp | script.js:206-224 | `checkLevelUp` with `increaseSpeed` and `changeSnakeColor` on the state; it has no contract of its own, and LevelUpRestoresRule states what it does |
| Rules.Step | script.js:130-164 | one `update` on the state, with its outcome (moved, ate, crashed, or hung in `generateApple`); it has no ensures of its own and requires only a non-empty snake and the random inputs; HangsExactlyOnFullBoard, StepPreservesInv, CrashIsReset, TickMovesOneCell and TickIsMonotone state what it does |
| Rules.HangsExactlyOnFullBoard | script.js:153-158 | a tick hangs in the apple loop exactly when the snake eats with 1999 segments, so the grown snake fills the board; every other tick returns |
| Rules.InitialStateIsValid | script.js:8-28 | the constructor's fields satisfy every invariant |
| Rules.Reset | script.js:241-256 | the reset round satisfies every invariant, with score 0, level 1, speed 150, the three-segment snake heading right, the green colour and a drawn apple |
| Rules.LevelUpRestoresRule | script.js:206-224 | after an apple, `checkLevelUp` restores level = floor(score/100)+1 and the speed rule, raises the level by at most one, never lengthens the interval, changes the colour on a level-up and changes nothing else |
| Rules.EatKeepsInv | script.js:153-158 | a tick that eats keeps every invariant |
| Rules.MoveKeepsInv | script.js:153-163 | a tick that does not eat keeps every invariant |
| Rules.StepPreservesInv | script.js:130-164 | every tick keeps the snake on the board, without repeated cells, connected and grown by one segment per apple, the apple free, the buffered direction not a reversal, and level and speed following the score |
| Rules.NeckIsSafe | script.js:130-137 | the next head is never the second segment, so reversing into the neck cannot happen |
| Rules.CrashIsReset | script.js:139-150 | a tick crashes exactly when the new head leaves the board or lands on any current segment, the tail included, and then the state is the reset round |
| Rules.TickMovesOneCell | script.js:130-164 | a tick that does not crash commits the buffered direction and moves the head one cell; eating adds exactly one segment in front of all old ones, 10 points and a new free apple; otherwise the tail is dropped and length, score, apple, level and speed stay |
| Rules.TickIsMonotone | script.js:206-219 | between crashes the level never falls and rises by at most one, the interval never grows and stays at least 50, and a level-up changes the colour |
| Rules.ExampleFirstApple | script.js:130-158 | from the starting snake with the apple just ahead, the first tick eats it: score 10, four segments, the head on the old apple |
| Game.SnakeGame.constructor | script.js:2-28 | the new object is the initial state, valid, not running and not paused |
| Game.SnakeGame.HandleKey | script.js:66-99 | Space starts a stopped game and ticks; other keys leave a stopped game untouched; while running an arrow only rewrites `nextDirection` by Steer, and Space flips the pause, ticking once on resume |
| Game.SnakeGame.StartGame | script.js:102-107 | the game runs unpaused and the loop's first tick has happened |
| Game.SnakeGame.TogglePause | script.js:109-117 | the pause flips; pausing changes nothing else, resuming a running game ticks once |
| Game.SnakeGame.GameLoop | script.js:119-123 | a running, unpaused game ticks once; otherwise nothing changes |
| Game.SnakeGame.Update | script.js:130-164 | the fields become Step of the old fields, the game stops exactly on a crash, and the invariants hold |
| Game.SnakeGame.EatApple | script.js:153-158 | the apple branch of a tick: ten more points, the apple moved to the first free draw off the grown snake, then level, speed and colour as LeveledUp says; nothing else changes |
| Game.SnakeGame.GenerateApple | script.js:192-204 | the apple becomes the first draw off the snake; only the apple changes |
| Game.SnakeGame.CheckLevelUp | script.js:206-215 | level, speed and colour change as LeveledUp says; nothing else changes |
| Game.SnakeGame.IncreaseSpeed | script.js:217-219 | the interval becomes max(50, 0.9 x interval), at least 50, and not longer than before when it was at least 50 |
| Game.SnakeGame.ChangeSnakeColor | script.js:221-224 | the colour becomes the picked one of the other colours, so it always differs from the old one |
| Game.SnakeGame.GameOver | script.js:231-239 | the game stops and every field is the reset round; the pause flag stays |
| Game.SnakeGame.ResetGame | script.js:241-256 | every field returns to its initial value with a new drawn apple, and the invariants hold |

## Left out

- Rendering and the DOM: `createBoard`, `render`, `getCell`, `showOverlay`, `hideOverlay`, `updateDisplay`, the `document.body.className` write in `changeBackground`, `init` and the `DOMContentLoaded` bootstrap. They only display the state. `BackgroundFor` models the class name `changeBackground` computes.
- Timers: the `setTimeout` rescheduling in `gameLoop` is not modelled. `GameLoop` is one guarded call; a run of the game is a sequence of such calls. Two cases leave two pending timer chains in the browser, and that doubling is not modelled: a pause and resume within one interval, and a Space press within one interval after a game over (the tick that ended the game still schedules its `setTimeout`, `startGame` opens a second chain, and the old timer then finds the game running and ticks).
- `Math.random`: its distribution is not modelled; the draws and the colour index are parameters, restricted as described above.
- Game.SnakeGame.Update, Game.SnakeGame.HandleKey, Game.SnakeGame.StartGame, Game.SnakeGame.TogglePause and Game.SnakeGame.GameLoop require that a tick from the current fields returns (`Step` is not `Hung`): a method must terminate, and `generateApple` never returns once the grown snake fills the board. By HangsExactlyOnFullBoard this excludes only a 1999-segment snake about to eat; `HandleKey` excludes that state for every key, arrows included, which the browser would still accept.
- Rules.StepPreservesInv, Rules.CrashIsReset, Rules.TickMovesOneCell, Rules.TickIsMonotone, Rules.EatKeepsInv and Rules.MoveKeepsInv take the same condition (`CanStep`): they describe every tick except that hang, whose outcome `Hung` is characterised by HangsExactlyOnFullBoard instead.
- Game.SnakeGame.IncreaseSpeed and Rules.NextSpeed: `speed` is a Dafny `real`; the floating-point rounding of `speed * 0.9` is not modelled.
- `cellSize` and the colour names as CSS strings: the snake colours are an enumeration of the six `snake-*` classes and the backgrounds one of the three `level-*` classes.
- Rules.AvailableColors: the filter of the palette is written out as a table per colour; its contract states which colours it holds and how many, not their order.
