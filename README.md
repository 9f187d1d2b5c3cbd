# SimonGame click state machine

A Dafny model of the `SimonGame` React component of a single-screen colour
memory game. The component keeps five pieces of state: the header `message`,
the `level`, the target colour `randomColor`, the last click
`userClickedColor` and the flag `gameStarted`. It reacts to one event, a
click on one of four colour buttons (`green`, `red`, `yellow`, `blue`):

- a click before the game starts begins level 1 (`startLevel1`);
- a click on the target colour advances one level and draws a new target;
- any other click ends the game with "Game Over!".

`decimal.dfy` (module `Decimal`) renders a level number as decimal text, the
way a JavaScript template literal does, and proves that the text reads back
as the same number. `simon_game.dfy` (module `SimonGame`) holds:

- the state as a datatype `GameState`;
- the transition functions `AfterStart` and `AfterClick`;
- the invariant `Inv` with the lemmas about clicks;
- the component as a class `Game`. Its methods update the five fields in
  place and are proved against `AfterStart` and `AfterClick`.

React state setters do not take effect until the next render. So every
read inside the handler sees the state from before the click: `level + 1`
in the correct-guess branch uses the old level, and the comparison uses the
old target. `Math.random()` is replaced by a draw index `idx` with
`0 <= idx < 4`, which makes each transition deterministic.

Because `startLevel1` never writes `level`, the header "Level 1" agrees with
the level only because every other way into the not-started state sets
`level` to 1. `ReachableInv` proves that this holds in every state
reachable from mount, combining `InitialInv` with the inductive step
`ReplayPreservesInv`.

## Model

| member | source | states |
|---|---|---|
| SimonGame.Game.constructor | src/SimonGame.js:17-21 | the initial state: message "Press a key to start", level 1, empty target and last click, not started; it satisfies the invariant |
| SimonGame.Initial | src/SimonGame.js:17-21 | the mount state is not started, keeps the invariant, and its header announces no level |
| SimonGame.InitialInv | src/SimonGame.js:17-21 | the initial state satisfies the invariant and has exactly the five initial values |
| SimonGame.GetRandomColor | src/SimonGame.js:22-30 | a draw index in [0,4) always yields one of the four button colours, never "" |
| SimonGame.DrawInjective | src/SimonGame.js:22-27 | distinct draw indexes give distinct colours, so a uniform index gives a uniform colour |
| SimonGame.DrawCovers | src/SimonGame.js:22-27 | every one of the four colours is produced by some draw index |
| SimonGame.NextLevelText | src/SimonGame.js:77 | the header `Level ${n} ` after a correct click ends in a space, has at least 8 characters, differs from "Level 1", and announces exactly level n |
| SimonGame.LevelMessage | src/SimonGame.js:37 | the header while level n is played ("Level 1" at level 1, `Level ${n} ` otherwise) announces exactly level n |
| SimonGame.AfterStart | src/SimonGame.js:33-42 | after startLevel1 the game runs with a target among the buttons, an empty last click and a header announcing level 1, while the level is left as it was; from a stopped state that keeps the invariant the result keeps it |
| SimonGame.AfterClick | src/SimonGame.js:59-86 | not started: the startLevel1 state, level kept; started: the click is recorded, and the game keeps running exactly when the colour matches the old target, in which case level becomes old level + 1, the header `Level ${old level + 1} ` and the target the new draw; otherwise level 1, "Game Over!" and the old target |
| SimonGame.Game.StartLevel1 | src/SimonGame.js:33-42 | draws the target, shows "Level 1", sets started and clears the last click; level is left unchanged; from a valid not-started state the invariant holds afterwards |
| SimonGame.Game.HandleButtonClick | src/SimonGame.js:59-86 | the new state is `AfterClick` of the old one, the invariant is kept, and each of the three branches sets exactly the fields the handler sets, using the pre-click level and target |
| SimonGame.ClickBeforeStart | src/SimonGame.js:33-40 | a click while not started sets started, "Level 1", empty last click and a target among the buttons, keeps the level, and gives the same state whatever colour was clicked |
| SimonGame.CorrectClick | src/SimonGame.js:70-78 | a click on the target while playing raises the level by exactly 1, shows "Level " + (old level + 1) + " ", records the click, draws a new target among the buttons and keeps playing |
| SimonGame.WrongClick | src/SimonGame.js:70-85 | a click on any other colour while playing shows "Game Over!", resets level to 1, stops the game, records the click and keeps the old target |
| SimonGame.ClickPreservesInv | src/SimonGame.js:59-86 | every click keeps the invariant: level >= 1; target "" or a button; when not started, level 1 and the message is the prompt or "Game Over!"; when playing, the target is a button and the message is "Level 1" at level 1 and "Level n " otherwise |
| SimonGame.ClickedColorIsButton | src/SimonGame.js:70 | after one click on a button colour, a last click that was "" or a button colour is still "" or a button colour |
| SimonGame.ReplayClickedColorIsButton | src/SimonGame.js:133-148 | when every click comes from one of the four buttons, every sequence of clicks keeps the last click "" or a button colour |
| SimonGame.ReplayPreservesInv | src/SimonGame.js:59-86 | any sequence of clicks from a state that keeps the invariant ends in a state that keeps it |
| SimonGame.ReachableInv | src/SimonGame.js:33-42 | every state reachable from mount keeps the whole invariant: level >= 1, level == 1 and the prompt or "Game Over!" when not started, a target "" or a button, and while playing a target among the buttons and a header matching the level |
| SimonGame.StreakLevel | src/SimonGame.js:73-78 | k consecutive correct clicks while playing raise the level by exactly k and the game keeps running |
| SimonGame.MessageShowsLevel | src/SimonGame.js:104 | in every state that keeps the invariant, the header announces the current level while playing and announces no level otherwise |
| Decimal.NatToString | src/SimonGame.js:77 | the decimal text of a level is a non-empty run of digits with no leading zero, and is a single digit exactly below 10 |
| Decimal.ParseNatToString | src/SimonGame.js:77 | reading the decimal text of n back gives n |
| Decimal.NatToStringInjective | src/SimonGame.js:77 | different levels have different decimal texts |

## Left out

- `flashColor` (src/SimonGame.js:44-57): looks up DOM elements, toggles a CSS class and clears it with a 2-second `setTimeout`. These are visual side effects and a deferred callback.
- The `useEffect` re-flash when the target changes (src/SimonGame.js:88-92). This is React effect scheduling. The model also leaves out that line 79 flashes the old target, since that only affects the display.
- `Math.random()` (src/SimonGame.js:26): floating point and nondeterminism. Each click takes the draw index as a parameter instead. The uniform spread of colours is only covered by `DrawInjective` and `DrawCovers`, not as a probability.
- `console.log` calls (src/SimonGame.js:28, 71): output only.
- JSX rendering, Bootstrap classes and the CSS import (src/SimonGame.js:13, 94-157). `LevelShown` reads the header text, but the model does not render it.
- `level` is an unbounded natural number. The source uses a JavaScript number, which would lose precision only after about 2^53 correct clicks.
- SimonGame.Game.HandleButtonClick: accepts any colour string. The buttons pass only their own four colours (src/SimonGame.js:133-148), and that restriction appears only in `ClickedColorIsButton` and `ReplayClickedColorIsButton`, not in the invariant.
