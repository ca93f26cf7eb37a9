# MemoryGame in Dafny

A model of the game logic of MemoryGame, a small React application with two games and a shell that hosts them. Every transition is a function on Dafny values. The Memory Table component and the shell are also classes, whose methods update the state fields as their handlers do. The Colour Filler component is the datatype `ColorFillerGame` (the reducer's history, the chosen picture and the preview flag), and its handlers are functions on it.

- **Colour Filler** (`ColorFiller.dfy`). This holds the picture catalog (Butterfly and Flower, five positions each) and the undo/redo history reducer. The reducer handles SET_COLOR, UNDO, REDO, START_GAME, END_GAME and REVEAL_HINT over a past/present/future triple of snapshots. The component's event handlers and its completion effect are included too. The effect ends the game and reports the elapsed time when every position holds its picture's target colour.
  - The history laws are proved: UNDO and REDO lose no snapshot and invert each other. After `n` colour assignments, `n` UNDOs restore the start and `n` REDOs then restore the end.
  - So are the effect of each action, and the progress and safety of hints.
  - Finally, the invariant of every reachable component state is proved, and so is what follows from it.
- **Memory Table** (`MemoryTable.dfy`). A `size × size` grid holds the numbers `1..size²` in shuffled order. After a reveal phase the player clicks them in ascending order. A wrong click clears the selection, and three helps are granted per game.
  - The transitions are functions on a `Table` value, the whole component state: difficulty, round, help display and help count.
  - The class `MemoryTable` carries the component's four state fields. Each method updates them as the handler does, and its contract ties the new state to the transition function.
  - Proved facts:
    - every reachable board holds a permutation of `1..size²`;
    - the selection is always `[1..k]`;
    - the expected number is always on the board;
    - clicking the remaining numbers in order wins;
    - the click right after the win is ignored. A stale reveal timeout can still start the round again, and the next click then reports a second win (`StaleRevealReReports`);
    - at most three helps take effect.
- **Time display** (`Text.dfy`, `Timer.dfy`, `App.dfy`). `formatTime` shows a time as minutes, a colon and two-digit seconds. The model builds on `toString` for non-negative integers and `padStart`. Reading the text back recovers the seconds, so the display loses nothing but the fraction of a second. The shell's version, in milliseconds, agrees with the timer's version, in seconds.
- **Session shell** (`App.dfy`). The shell tracks the selected game and the completion banner. The banner shows only when the reported time is truthy, so a time of 0 shows no banner.

The records of `src/types.ts` and JavaScript's truthiness tests live in `Types.dfy`.

Clock readings (`Date.now()`) are parameters named `now`. The two random choices are also parameters:

- **Hint pick.** REVEAL_HINT receives a natural number `pick` and paints the unpainted position at `pick % count`. That reaches every index `Math.floor(Math.random() * count)` can produce, and no other.
- **Shuffle.** `initializeGame` sorts `1..n` with a random comparator. It receives an index permutation `perm`, and cell `i` holds `perm[i] + 1`. `EveryOrderIsAShuffle` shows that every order of `1..n` arises this way.

### Behaviour of the code worth knowing

- **Choosing a colour arms nothing.** `handleColorSelect` dispatches SET_COLOR with the empty id (src/components/ColorFillerGame.tsx:188) and never sets `selectedColor`.
  - While a game runs, it records a history frame that repeats the present (`ColorSelectOnlyRecords`).
  - Clicking a position never paints anything, because no colour is ever armed (`PositionClickIgnored`).
- **Hints paint Butterfly colours.** REVEAL_HINT takes the colour from the first catalog picture that has the id (src/components/ColorFillerGame.tsx:121-122). That is always the Butterfly (`HintColorFromButterfly`), so a Flower game can never be completed (`FlowerNeverCompletes`).
- **Reset keeps `helpCount`.** The Memory Table reset clears the difficulty and the round but leaves the help count and the help display as they are (`ResetKeeps`). Three helps per game (src/components/MemoryTable.tsx:22) are restored only by `initializeGame` (src/components/MemoryTable.tsx:40).
- **No timeout is cancelled.** The reveal and help timeouts can fire after a reset or a new game. The model lets them fire at any point, and the invariant holds regardless (`StepKeeps`).
- **Completion can be reported more than once.** Neither game guarantees a single report.
  - Memory Table: a stale reveal after the win restarts the round with all but the last number selected (`StaleRevealReReports`).
  - Colour Filler: END_GAME changes only the present, so UNDO after a win reached by a hint brings back a running snapshot. Replaying the hint wins again (`UndoReplayReReports`).

## Model

| member | source | states |
|---|---|---|
| GameTypes.OrZero | src/components/ColorFillerGame.tsx:167 | the fallback to 0 of a nullable number: the number when it is truthy, otherwise 0 |
| ColorFiller.Paint | src/components/ColorFillerGame.tsx:58-60 | the position map of SET_COLOR and REVEAL_HINT (also lines 128-130); specified by `SetColorRecords`, `PaintUnknownId` and `PaintOne` |
| ColorFiller.Record | src/components/ColorFillerGame.tsx:133-137 | push the present, install the new one, clear the future; specified by `SetColorRecords`, `RecordingRun` and `HintFillsOneUnpainted` |
| ColorFiller.HintColor | src/components/ColorFillerGame.tsx:121-124 | the colour a hint paints; specified by `HintColorIsTarget` and `HintColorFromButterfly` |
| ColorFiller.Reducer | src/components/ColorFillerGame.tsx:53-142 | `gameReducer`; specified action by action by `SetColorRecords`, `UndoConserves`, `RedoConserves`, `StartGameResets`, `EndGameStops`, `HintFillsOneUnpainted` and `HintProgress`, and as a whole by `UndoAllRecorded` and `ReducerStepKeepsReachable` |
| ColorFiller.HandleImageSelect | src/components/ColorFillerGame.tsx:172-183 | `handleImageSelect`; specified by `ImageSelectStarts` |
| ColorFiller.HandleColorSelect | src/components/ColorFillerGame.tsx:185-189 | `handleColorSelect`; specified by `ColorSelectOnlyRecords` |
| ColorFiller.HandlePositionClick | src/components/ColorFillerGame.tsx:191-197 | `handlePositionClick`; specified by `PositionClickIgnored` |
| ColorFiller.Handle | src/components/ColorFillerGame.tsx:172-236 | every user event, including the hint, undo, redo, start and reset buttons; specified by `HandleKeepsReachable` |
| ColorFiller.CompletionEffect | src/components/ColorFillerGame.tsx:154-170 | the completion effect; specified by `CompletionCondition`, `WrongColorNeverCompletes`, `CompletionKeepsReachable` and `UndoReplayReReports` |
| ColorFiller.FindPosition | src/components/ColorFillerGame.tsx:122 | `find` by id returns a position of the list that carries the id |
| ColorFiller.FindPositionFirst | src/components/ColorFillerGame.tsx:122 | `find` fails exactly when no position carries the id, and otherwise returns the first one that does |
| ColorFiller.FindImageContaining | src/components/ColorFillerGame.tsx:121 | the picture found is in the catalog and has a position with the id |
| ColorFiller.FindImageContainingFirst | src/components/ColorFillerGame.tsx:121 | the picture found is the first one with the id; if none is found, no picture has it |
| ColorFiller.FindImageById | src/components/ColorFillerGame.tsx:159 | the picture found has the requested id, and none is found exactly when no picture has it |
| ColorFiller.Uncolored | src/components/ColorFillerGame.tsx:117 | the filtered list holds exactly the positions with an empty colour |
| ColorFiller.ImagesWellFormed | src/components/ColorFillerGame.tsx:8-31 | every catalog position has an id and a target colour |
| ColorFiller.HintColorIsTarget | src/components/ColorFillerGame.tsx:121-124 | a hint colour is the target colour of some catalog position with that id, and is never empty in a well-formed catalog |
| ColorFiller.Cursor | src/types.ts:16-20 | a history built from a snapshot list and an index has exactly those snapshots, with the present at that index |
| ColorFiller.UndoConserves | src/components/ColorFillerGame.tsx:69-80 | UNDO keeps the snapshot list and moves the present one back; on an empty past it changes nothing |
| ColorFiller.RedoConserves | src/components/ColorFillerGame.tsx:81-92 | REDO keeps the snapshot list and moves the present one forward; on an empty future it changes nothing |
| ColorFiller.UndoThenRedo | src/components/ColorFillerGame.tsx:69-92 | REDO after UNDO restores the history |
| ColorFiller.RedoThenUndo | src/components/ColorFillerGame.tsx:69-92 | UNDO after REDO restores the history |
| ColorFiller.RepeatUndo | src/components/ColorFillerGame.tsx:69-80 | `n` UNDOs move the present `n` snapshots back |
| ColorFiller.RepeatRedo | src/components/ColorFillerGame.tsx:81-92 | `n` REDOs move the present `n` snapshots forward |
| ColorFiller.RecordingRun | src/components/ColorFillerGame.tsx:55-68 | colour assignments append one frame each, keep the old snapshots as a prefix and clear the future |
| ColorFiller.UndoAllRecorded | src/components/ColorFillerGame.tsx:55-92 | after `n` colour assignments, `n` UNDOs restore the starting past and present, and `n` REDOs then restore the final history |
| ColorFiller.SetColorRecords | src/components/ColorFillerGame.tsx:55-68 | SET_COLOR pushes the present, clears the future, and repaints exactly the positions with the payload id, changing nothing else |
| ColorFiller.PaintUnknownId | src/components/ColorFillerGame.tsx:58-60 | the map paints nothing when no position carries the id |
| ColorFiller.SetColorUnknownIdOnlyRecords | src/components/ColorFillerGame.tsx:55-68 | SET_COLOR with an id no position has records a frame equal to the present and changes no position |
| ColorFiller.StartGameResets | src/components/ColorFillerGame.tsx:93-105 | START_GAME empties past and future and installs the payload, started at `now`, with no end time and no colour |
| ColorFiller.EndGameStops | src/components/ColorFillerGame.tsx:106-115 | END_GAME stamps the end time, stops the game, and leaves the history and everything else as it was |
| ColorFiller.HintWhenAllPainted | src/components/ColorFillerGame.tsx:117-118 | REVEAL_HINT with no empty position returns the state unchanged |
| ColorFiller.PaintOne | src/components/ColorFillerGame.tsx:128-130 | with distinct ids, painting an id changes exactly the one position carrying it |
| ColorFiller.HintFillsOneUnpainted | src/components/ColorFillerGame.tsx:116-138 | REVEAL_HINT either changes nothing, or records a frame and paints exactly one position that was empty, with the hint colour of its id |
| ColorFiller.UncoloredAfterFill | src/components/ColorFillerGame.tsx:117 | filling one empty position leaves one empty position fewer |
| ColorFiller.HintPaintCount | src/components/ColorFillerGame.tsx:120-130 | painting the hint colour onto the drawn empty position leaves one empty position fewer |
| ColorFiller.HintProgress | src/components/ColorFillerGame.tsx:116-138 | when every id has a hint colour, each REVEAL_HINT on a board with an empty position fills exactly one, and records a frame |
| ColorFiller.FramesAfterStep | src/components/ColorFillerGame.tsx:53-142 | every action but START_GAME yields snapshots that are old snapshots or the new present |
| ColorFiller.ReducerKeepsNoColorArmed | src/components/ColorFillerGame.tsx:53-142 | if no snapshot has a selected colour, no action introduces one |
| ColorFiller.ReducerKeepsIds | src/components/ColorFillerGame.tsx:53-142 | every action but START_GAME keeps the ids of every snapshot |
| ColorFiller.ReducerKeepsHintPainted | src/components/ColorFillerGame.tsx:53-142 | hints, UNDO, REDO, END_GAME and empty-id SET_COLOR keep every painted colour a hint colour |
| ColorFiller.Blank | src/components/ColorFillerGame.tsx:177 | the picture's positions, in order, with every colour emptied |
| ColorFiller.ImageSelectStarts | src/components/ColorFillerGame.tsx:172-183 | choosing a catalog picture starts a fresh history on its blanked positions, with the preview shown; an unknown picture id changes nothing |
| ColorFiller.ColorSelectOnlyRecords | src/components/ColorFillerGame.tsx:185-189 | choosing a colour while a game runs records a frame equal to the present; otherwise it does nothing |
| ColorFiller.CompletionCondition | src/components/ColorFillerGame.tsx:154-170 | the effect reports exactly when the game runs, has no end time, and every position is painted with its target colour; it then reports the time since the start (0 when there is none) and dispatches END_GAME, and a rerun of the effect on its own result does not report |
| ColorFiller.UndoReplayReReports | src/components/ColorFillerGame.tsx:106-170 | after a win reached by a hint, UNDO and the same hint rebuild the winning snapshot with the game running, and the effect reports a second win, timed from the same start |
| ColorFiller.WrongColorNeverCompletes | src/components/ColorFillerGame.tsx:160-165 | one position differing from its target is enough to prevent completion |
| ColorFiller.InitialReachable | src/components/ColorFillerGame.tsx:150-152 | the initial component state satisfies the invariant |
| ColorFiller.ReducerStepKeepsReachable | src/components/ColorFillerGame.tsx:53-142 | every action the component can dispatch, other than START_GAME, keeps the invariant |
| ColorFiller.HandleKeepsReachable | src/components/ColorFillerGame.tsx:172-236 | every user event keeps the invariant: no colour armed, only hint colours painted, and the snapshots carrying the chosen picture's ids |
| ColorFiller.CompletionKeepsReachable | src/components/ColorFillerGame.tsx:154-170 | the completion effect keeps the invariant |
| ColorFiller.PositionClickIgnored | src/components/ColorFillerGame.tsx:191-197 | in every reachable state a position click dispatches nothing |
| ColorFiller.HintMismatchNeverCompletes | src/components/ColorFillerGame.tsx:116-170 | a picture whose first target colour is not the hint colour of its id is never completed from a reachable state |
| ColorFiller.CatalogIds | src/components/ColorFillerGame.tsx:8-31 | both pictures use exactly the ids "1" to "5" |
| ColorFiller.HintColorFromButterfly | src/components/ColorFillerGame.tsx:121-122 | for every catalog id the hint searches the Butterfly, so hints paint Butterfly colours |
| ColorFiller.FlowerHintsWrong | src/components/ColorFillerGame.tsx:8-31 | on the Flower every hint colour differs from the target colour |
| ColorFiller.FlowerNeverCompletes | src/components/ColorFillerGame.tsx:154-170 | a Flower game is never completed from a reachable state |
| MemoryTable.GetDifficultySize | src/components/MemoryTable.tsx:24-31 | the side is 3 exactly for "intermediate", 4 exactly for "expert", and 2 otherwise |
| MemoryTable.DifficultySizes | src/components/MemoryTable.tsx:24-31 | beginner, intermediate and expert get sides 2, 3 and 4 |
| MemoryTable.Iota | src/components/MemoryTable.tsx:36 | `Array.from` yields `n` numbers with `i + 1` at index `i` |
| MemoryTable.Shuffle | src/components/MemoryTable.tsx:36-37 | the shuffled board has `n` cells, cell `i` holding the number at position `perm[i]` of `1..n` |
| MemoryTable.ShufflePermutes | src/components/MemoryTable.tsx:36-37 | the shuffled board holds the same multiset as `1..n` |
| MemoryTable.EveryOrderIsAShuffle | src/components/MemoryTable.tsx:36-37 | every ordering of `1..n` is produced by some index permutation |
| MemoryTable.Initialize | src/components/MemoryTable.tsx:33-50 | `initializeGame`; specified by `InitializeEstablishes` |
| MemoryTable.Reveal | src/components/MemoryTable.tsx:52-59 | the reveal timeout's body; specified by `RevealKeeps` and `StaleRevealReReports` |
| MemoryTable.Click | src/components/MemoryTable.tsx:62-86 | `handleCellClick`; specified by `ClickGuard`, `ClickOutcome`, `ClickKeeps`, `ReclickResets`, `LastClickWins` and `RightClicksWin` |
| MemoryTable.Help | src/components/MemoryTable.tsx:88-98 | `handleHelp`; specified by `HelpSpends` |
| MemoryTable.HelpOver | src/components/MemoryTable.tsx:94-96 | the help timeout's body; specified by `HelpOverKeeps` |
| MemoryTable.Reset | src/components/MemoryTable.tsx:169-179 | the reset button; specified by `ResetKeeps` |
| MemoryTable.Step | src/components/MemoryTable.tsx:52-98 | one event of a round; specified by `StepKeeps` |
| MemoryTable.Play | src/components/MemoryTable.tsx:52-98 | a sequence of events; specified by `PlayKeeps` and `RightClicksWin` |
| MemoryTable.InitialInvariant | src/components/MemoryTable.tsx:11-22 | the initial component state satisfies the invariant |
| MemoryTable.InitializeEstablishes | src/components/MemoryTable.tsx:33-50 | initialisation from any state deals a permutation of the grid's numbers, selects nothing, shows the numbers, leaves the round unstarted, restores three helps, and establishes the invariant |
| MemoryTable.RevealKeeps | src/components/MemoryTable.tsx:52-59 | the reveal timeout hides the numbers, starts the round at `now`, changes nothing else, and keeps the invariant |
| MemoryTable.ClickGuard | src/components/MemoryTable.tsx:63 | a click before the round starts, or while the numbers show, changes nothing |
| MemoryTable.ClickOutcome | src/components/MemoryTable.tsx:62-86 | during play the expected number extends the selection to `[1..k+1]`, or on the last cell ends the round and reports the time since the start (0 when there is none); any other click clears the selection; the board never changes |
| MemoryTable.ClickKeeps | src/components/MemoryTable.tsx:62-86 | a click keeps the invariant and the help count |
| MemoryTable.ReclickResets | src/components/MemoryTable.tsx:68-85 | clicking a number already found clears the selection |
| MemoryTable.ExpectedNumberOnBoard | src/components/MemoryTable.tsx:65-68 | the number expected next is always on the board |
| MemoryTable.CompletionIsFinal | src/components/MemoryTable.tsx:71-75 | after the winning click the round is stopped, and the click right after it is ignored |
| MemoryTable.StaleRevealReReports | src/components/MemoryTable.tsx:52-75 | a reveal timeout firing after the win restarts the round with all but the last number selected, so clicking the last number again reports a second win, timed from the stale reveal |
| MemoryTable.HelpSpends | src/components/MemoryTable.tsx:88-98 | a help takes effect only when one is left and the round is in play; it then shows the numbers and spends one help; otherwise nothing changes |
| MemoryTable.HelpOverKeeps | src/components/MemoryTable.tsx:94-96 | the help timeout hides the numbers again and keeps the invariant |
| MemoryTable.ResetKeeps | src/components/MemoryTable.tsx:169-179 | reset forgets the difficulty and the round, keeps the help count, and keeps the invariant |
| MemoryTable.StepKeeps | src/components/MemoryTable.tsx:52-98 | every event keeps the invariant; only a help that takes effect lowers the count, by one |
| MemoryTable.PlayKeeps | src/components/MemoryTable.tsx:22-98 | over any event sequence the invariant holds, and the helps that take effect are what the count loses, so at most three per game |
| MemoryTable.RightClickAdvances | src/components/MemoryTable.tsx:68-77 | a right click that is not the last keeps the round in play with one more number found |
| MemoryTable.LastClickWins | src/components/MemoryTable.tsx:71-75 | the right click on the last number reports the time since the start |
| MemoryTable.RightClicksWin | src/components/MemoryTable.tsx:62-86 | clicking the cells of the missing numbers in ascending order wins, and the last click reports the time since the start |
| MemoryTable.MemoryTable.constructor | src/components/MemoryTable.tsx:11-22 | the component starts with no difficulty, the empty round, three helps and the help hidden |
| MemoryTable.MemoryTable.InitializeGame | src/components/MemoryTable.tsx:33-50 | the fields become the initialised board, and the invariant holds |
| MemoryTable.MemoryTable.RevealExpired | src/components/MemoryTable.tsx:52-59 | the fields become the revealed board, and the invariant holds |
| MemoryTable.MemoryTable.HandleCellClick | src/components/MemoryTable.tsx:62-86 | the fields and the reported time are those of the click transition, and the invariant holds |
| MemoryTable.MemoryTable.HandleHelp | src/components/MemoryTable.tsx:88-92 | the fields become those of the help transition, and the invariant holds |
| MemoryTable.MemoryTable.HelpExpired | src/components/MemoryTable.tsx:94-96 | the help display is switched off, and the invariant holds |
| MemoryTable.MemoryTable.ResetGame | src/components/MemoryTable.tsx:169-179 | the fields become those of the reset transition, and the invariant holds |
| Text.NatToString | src/components/Timer.tsx:25 | `toString` of a non-negative integer is a non-empty string of decimal digits, with no leading zero except for 0 itself, and one digit exactly below 10 |
| Text.NatToStringValue | src/components/Timer.tsx:25 | the digits of `toString` read back as the number |
| Text.Fill | src/components/Timer.tsx:25 | the filler is `len` copies of the pad character |
| Text.PadStart | src/components/Timer.tsx:25 | `padStart` leaves a string of at least that length as it is, and otherwise prepends pad characters to reach the length |
| Text.TwoDigits | src/components/Timer.tsx:25 | a number below 100, padded to two, is two digits that read back as the number |
| Timer.FormatTime | src/components/Timer.tsx:22-26 | `formatTime(seconds)`; specified by `FormatShape`, `FormatParse` and `FormatInjective` |
| Timer.ParseTime | src/components/Timer.tsx:22-26 | the inverse of the display, the independent definition `FormatParse` checks it against |
| Timer.FormatShape | src/components/Timer.tsx:22-26 | the display is the minutes without leading zeros, a colon, and two digits holding the seconds below 60 |
| Timer.FormatParse | src/components/Timer.tsx:22-26 | reading the display back gives the seconds |
| Timer.FormatInjective | src/components/Timer.tsx:22-26 | different times are displayed differently |
| Timer.FormatZero | src/components/Timer.tsx:22-26 | 0 seconds show as "0:00" |
| Timer.FormatMinuteFive | src/components/Timer.tsx:22-26 | 65 seconds show as "1:05" |
| Timer.FormatHour | src/components/Timer.tsx:22-26 | 3600 seconds show as "60:00": minutes are not capped |
| App.FormatTime | src/App.tsx:22-27 | `formatTime(ms)`; specified by `AgreesWithTimer` and `FormatTimeReadsBack` |
| App.Complete | src/App.tsx:12-15 | `handleGameComplete`; specified by `CompleteShowsBanner` and `HandlersIdempotent` |
| App.Dismiss | src/App.tsx:17-20 | `handleReset`; specified by `DismissHidesBanner` and `HandlersIdempotent` |
| App.BannerVisible | src/App.tsx:31 | the banner's condition; specified by `CompleteShowsBanner` and `DismissHidesBanner` |
| App.AgreesWithTimer | src/App.tsx:22-27 | the shell's millisecond display equals the timer's display of the whole seconds |
| App.FormatTimeReadsBack | src/App.tsx:22-27 | the shell's display reads back as the whole seconds elapsed |
| App.FormatTimeExample | src/App.tsx:22-27 | every time from 65000 ms up to 66000 ms (exclusive) shows as "1:05" |
| App.FormatTimeUnderASecond | src/App.tsx:22-27 | any time below one second shows as "0:00" |
| App.CompleteShowsBanner | src/App.tsx:12-15 | after a completion the banner shows exactly when the time is non-zero; it holds that time, and the selected game is unchanged |
| App.DismissHidesBanner | src/App.tsx:17-20 | after a reset no banner shows, the time is cleared, and the selected game is unchanged |
| App.HandlersIdempotent | src/App.tsx:12-20 | both handlers are idempotent, and a reset after a completion equals a reset alone |
| App.App.constructor | src/App.tsx:8-10 | no game is selected and no banner is pending |
| App.App.HandleGameComplete | src/App.tsx:12-15 | the fields become those of the completion transition |
| App.App.HandleReset | src/App.tsx:17-20 | the fields become those of the reset transition |
| App.App.SelectGame | src/App.tsx:53 | the chosen game is selected and nothing else changes |
| App.App.BackToGames | src/App.tsx:57 | the selection is cleared and nothing else changes |
| App.App.PlayAnotherGame | src/App.tsx:39-43 | the shell is back in its initial state |
| App.App.ShowsBanner | src/App.tsx:31 | the banner is rendered exactly when the flag is set and the completion time is truthy |

## Left out

- Rendering is not modelled: the JSX, styling, icons and the components `GameSelection`, `GameControls` and `ColorPalette`. Their callbacks appear only as the events they trigger.
- React's scheduling is not modelled. State updates apply at once, and the completion effect is a function the caller applies after a change. Its dependency list is not modelled; `CompletionCondition` shows that a second run cannot report again.
- The timers (`setTimeout` of 5000 and 2000 ms, the timer's `setInterval`) are not modelled as timers. Their bodies are the events `RevealExpired`, `HelpExpired` and `PreviewOver`, which may occur at any point. Delays and cancellation are not modelled.
- The elapsed-seconds count the timer keeps, from `Date.now()` and `setInterval`, is not modelled because it depends on the clock. Only its display, `formatTime`, is.
- The probability distribution of `Math.random` is not modelled, nor whether the random comparator can yield every order. The model admits every pick and every permutation.
- `ColorFiller.Reducer` takes the picture catalog as a parameter, and the component's catalog is `Images`. Lemmas that hold for any catalog are stated that way.
- The unused local `newState` in `handleColorSelect` is not modelled.
- Numbers are unbounded integers. JavaScript numbers are doubles, and the model ignores their precision limits.
- Timer.FormatTime and App.FormatTime are stated only for non-negative times. A negative time, from a clock set back, is not modelled.
- App.App.SelectGame does not model `GameSelection`'s choice among its buttons; any game type may be selected.
- ColorFiller.CompletionEffect uses one clock reading, `now`, both for END_GAME's end time (src/components/ColorFillerGame.tsx:111) and for the reported time (line 167). The source reads `Date.now()` separately for each, so the two may differ by the time between the calls.
- Neither game promises to report completion once. `StaleRevealReReports` and `UndoReplayReReports` show a second report; the shell simply shows the latest time.
