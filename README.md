# FossSweeper game engine in Dafny

This project models `fsweep::Model`, the minesweeper game-state engine of FossSweeper, and proves properties of that model.

A game holds the following state:
- a configuration: grid width, grid height and bomb count, with the difficulty derived from those three numbers;
- a row-major grid of buttons, each with a display state (untouched, down, flagged, questioned) and a bomb bit;
- a game state (None before the first click, Playing, Dead, Cool);
- a flag counter;
- a game time;
- the question-marks option.

The engine changes that state in place through these operations:
- the primary click, which places the bombs lazily on the first click and flood fills from bomb-free buttons;
- the alt click, which cycles a button through flag and question mark;
- the area click, which presses a 3 x 3 block;
- the timer;
- the question-marks option;
- new game, with or without a new configuration.

A game can also be restored from explicit state, with one character per button.

The modules are:

| file | module | contents |
|---|---|---|
| counting.dfy | Counting | `Count` of the elements that satisfy a predicate, lemmas about it, and a counting loop |
| config.dfy | Config | `GameDifficulty`, `GameConfiguration` and the preset constants |
| button.dfy | Buttons | `ButtonState`, `Button`, and the one-character button encoding with its inverse |
| grid.dfy | Grid | row-major coordinates, the eight neighbours, adjacent-bomb counts, and bomb placement |
| fill.dfy | Fill | the worklist flood fill and its exact specification |
| clicks.dfy | Clicks | pressing one button, pressing a 3 x 3 block, the alt-click cycle, and clearing question marks |
| engine.dfy | Engine | `GameState` and the class `Model` |

`Model` is a class whose methods update its fields. `Model.Valid()` is its invariant:
- the configuration is playable;
- the grid has `width * height` buttons;
- the flag counter equals the number of flagged buttons.

Every method preserves `Valid()`.

The algorithms are methods over `seq<Button>`, each proved against a specification predicate:
- flood fill (`Fill.FloodFill`);
- bomb placement (`Grid.PlaceBombs`);
- the area click (`Clicks.AreaPress`);
- clearing question marks (`Clicks.ClearQuestions`).

The engine's random number generator is replaced by a nondeterministic choice (`:|`) in `PlaceBombs`. Every property proved about the first click therefore holds for every possible bomb layout.

## Model

| member | source | states |
|---|---|---|
| Config.GameConfiguration.GameDifficulty | modules/test/src/model_test.cpp:70-76 | the difficulty is Beginner exactly when the triple is the beginner preset, Intermediate exactly when it is the intermediate preset, and Custom otherwise |
| Config.FromDifficulty | modules/test/src/model_test.cpp:164-173 | a preset configuration is playable and reports its own preset as its difficulty |
| Config.ExplicitTripleIsCustom | modules/test/src/model_test.cpp:60 | an explicit 8 x 8 configuration whose bomb count is not the preset's, such as 2 bombs, reports Custom |
| Buttons.DecodeButton | modules/test/src/model_test.cpp:89-135 | each of the eight characters decodes to its (state, bomb) pair; each state and the bomb bit hold exactly for the characters that carry them |
| Buttons.EncodeButton | modules/test/src/model_test.cpp:89-135 | every button has a character in the encoding, and decoding that character gives the button back |
| Buttons.EncodeDecodeButton | modules/test/src/model_test.cpp:89-135 | encoding a decoded character gives the character back, so the encoding is a bijection on the eight characters |
| Buttons.DecodeButtons | modules/test/src/model_test.cpp:60-80 | a button string decodes to a grid of the same length that decodes character i into button i |
| Buttons.DecodeEncodeButtons | modules/test/src/model_test.cpp:60-135 | decoding an encoded grid gives the grid back |
| Buttons.EncodeDecodeButtons | modules/test/src/model_test.cpp:60-135 | encoding a decoded string gives the string back |
| Buttons.DecodedFlagCount | modules/test/src/model_test.cpp:137 | the decoded grid has as many flagged buttons as the string has `f` and `c` characters |
| Grid.Idx | modules/test/src/model_test.cpp:89-135 | button (x, y) of a `w`-wide grid is row-major position `y * w + x`, which lies inside the grid |
| Grid.IdxInjective | modules/test/src/model_test.cpp:89-135 | distinct coordinates on the grid have distinct row-major positions |
| Grid.NeighbourOffset | modules/test/src/model_test.cpp:437-445 | each of the eight neighbours of a button is reached by one of the eight neighbour offsets |
| Grid.AdjacentBombs | modules/test/src/model_test.cpp:437-445 | the number on a pressed bomb-free button, which decides whether the flood fill expands from it, is at most 8. Together with `AdjacentBombsZero`, it is zero exactly when no on-grid neighbour holds a bomb |
| Grid.AdjacentBombsZero | modules/test/src/model_test.cpp:437-445 | a button has zero adjacent bombs exactly when none of its on-grid neighbours holds a bomb |
| Grid.PlaceBombs | modules/test/src/model_test.cpp:286-302 | the layout has one entry per button, exactly `count` bombs, and no bomb on the excluded (clicked) button |
| Grid.WithBombs | modules/test/src/model_test.cpp:286-302 | installing a layout gives a grid whose bombs are exactly the layout, whose display states are unchanged, and whose bomb count is the layout's |
| Counting.CountMatching | modules/test/src/model_test.cpp:288-295 | the counting loop returns the number of elements satisfying the predicate |
| Counting.CountUpdate | modules/test/src/model_test.cpp:514 | overwriting one element changes the count by the change in that element alone |
| Counting.CountComplement | modules/test/src/model_test.cpp:41-45 | the elements satisfying a predicate and those satisfying its negation add up to the length |
| Fill.FloodFill | modules/test/src/model_test.cpp:437-445 | the worklist fill from a pressed bomb-free button terminates with `FillResult`. Only untouched bomb-free buttons become down. The pressed buttons are exactly those listed in a reachability witness. Every pressed button with no adjacent bombs has no untouched neighbour left |
| Fill.PressNeighbours | modules/test/src/model_test.cpp:437-445 | one worklist step presses every untouched neighbour of a region member that has no adjacent bombs and appends each to the worklist and the witness. The fill invariant is kept, and the member ends expanded: none of its neighbours is left untouched |
| Fill.FillPathInClosed | modules/test/src/model_test.cpp:437-445 | every button of a reachability witness lies in every closed region that holds the start |
| Fill.FillIsLeastClosed | modules/test/src/model_test.cpp:437-445 | the pressed region is closed: every untouched neighbour of a member with no adjacent bombs is a member. It also lies inside every closed region holding the start. So the fill presses exactly the connected region with no adjacent bombs plus its numbered border |
| Clicks.Press | modules/test/src/model_test.cpp:319-324 | pressing a bomb leaves it down and changes nothing else; pressing a bomb-free button flood fills from it |
| Clicks.PressedAdvances | modules/test/src/model_test.cpp:422-435 | a press only turns untouched or questioned buttons down, leaves the pressed button down with its bomb bit, and leaves every other bomb untouched |
| Clicks.AdvancesKeeps | modules/test/src/model_test.cpp:374-406 | a sequence of presses keeps the bomb layout, every flagged button, every down button and the flag count |
| Clicks.AreaCellInjective | modules/test/src/model_test.cpp:628-639 | the nine steps of an area click visit nine distinct buttons |
| Clicks.AreaStepOf | modules/test/src/model_test.cpp:628-639 | every button of the 3 x 3 block is visited at some step |
| Clicks.AreaPress | modules/test/src/model_test.cpp:619-669 | the nine presses of the block run in order, each a `Press` of a button still pressable at its turn. Every non-flagged on-grid block button ends down. The reported hit holds exactly when a press uncovered a bomb |
| Clicks.AreaPressed | modules/test/src/model_test.cpp:619-669 | after an area click every on-grid, non-flagged block button is down. A bomb was hit exactly when some block button was pressable and held a bomb. Bombs, flagged buttons and the flag count are unchanged |
| Clicks.AltNext | modules/test/src/model_test.cpp:485-575 | a down button stays down; exactly an untouched button becomes flagged; the questioned state is only entered when question marks are enabled |
| Clicks.AltCycleWithQuestions | modules/test/src/model_test.cpp:495-526 | with question marks on, alt clicks cycle untouched, flagged, questioned, untouched |
| Clicks.AltCycleWithoutQuestions | modules/test/src/model_test.cpp:553-574 | with question marks off, alt clicks cycle untouched, flagged, untouched |
| Clicks.ClearQuestions | modules/test/src/model_test.cpp:744-751 | every questioned button becomes untouched and every other button is kept; none is left questioned; bombs and the flag count are kept |
| Engine.FreshButtons | modules/test/src/model_test.cpp:177-195 | a new grid of `n` buttons is all untouched and bomb-free, with no flags, no bombs and `n` buttons left |
| Engine.ButtonsLeft | modules/test/src/model_test.cpp:41-45 | the buttons left are the buttons not down, and there are none exactly when every button is down |
| Engine.Model.constructor | modules/test/src/model_test.cpp:26-53 | a default game is beginner, has question marks off, is in state None with time 0, has no flags, the preset's bombs left and `width * height` buttons left |
| Engine.Model.Restore | modules/test/src/model_test.cpp:56-137 | a restored game has the given configuration, option, state and time, and one decoded button per character. Button (x, y) is the decoding of character `y * width + x`. The flag counter is the number of `f`/`c` characters |
| Engine.Model.GetButton | modules/test/src/model_test.cpp:89-135 | the button at (x, y) is one of the grid's buttons |
| Engine.Model.GetFlagCount | modules/test/src/model_test.cpp:34 | the flag count is the number of flagged buttons |
| Engine.Model.GetBombsLeft | modules/test/src/model_test.cpp:36-39 | bombs left is the bomb count minus the number of flagged buttons |
| Engine.Model.GetButtonsLeft | modules/test/src/model_test.cpp:41-45 | buttons left is the number of buttons minus the down ones, and it is zero exactly when every button is down |
| Engine.Model.NewGame | modules/test/src/model_test.cpp:141-197 | a new game keeps the configuration and the option; it sets state None, time 0 and no flags; every button becomes untouched and bomb-free |
| Engine.Model.NewGameWith | modules/test/src/model_test.cpp:200-263 | the same, with the new configuration and a grid of its size |
| Engine.Model.ClickButton | modules/test/src/model_test.cpp:266-447 | a click that cannot press changes nothing. That covers a game that has ended, an off-grid button, and a flagged or down button. Otherwise the clicked button ends down. A first click places exactly `bombCount` bombs, none on the clicked button, starts the game and presses on that layout. A click while playing keeps the bombs, presses, and ends the game exactly when the button held a bomb |
| Engine.Model.AltClickButton | modules/test/src/model_test.cpp:450-577 | outside Playing, or off the grid, nothing changes. Otherwise only the clicked button changes, to its next state in the cycle. The flag counter goes up by one on entering Flagged and down by one on leaving it |
| Engine.Model.AreaClickButton | modules/test/src/model_test.cpp:579-672 | outside Playing, or with the centre off the grid, nothing changes. While playing on an on-grid centre, the block is pressed as `AreaPress` states, and every non-flagged on-grid block button ends down. The game ends exactly when a bomb was hit |
| Engine.Model.UpdateTime | modules/test/src/model_test.cpp:674-715 | the time grows by the delta while playing and is unchanged otherwise; nothing else changes |
| Engine.Model.SetQuestionsEnabled | modules/test/src/model_test.cpp:717-753 | the option takes the new value. Enabling changes no button. Disabling turns every questioned button untouched and keeps all others, the bombs and the flag counter |

## Left out

- Win detection: no rule moves the game into `Cool`, because the test suite exercises no such transition. `Cool` is reached only by restoring a game, and every click is a no-op in that state.
- Bomb-count clamping: `NewGameWith` and `Restore` require a playable configuration (`GameConfiguration.Valid()`: a non-empty grid with fewer bombs than buttons), because the test suite exercises no clamping of other configurations.
- `Config.FromDifficulty` requires a preset: a `Custom` difficulty has no dimensions of its own.
- The preset numbers (8 x 8 with 10 bombs, 16 x 16 with 40 bombs) are named constants holding the classic values. The only size the code fixes is Beginner's 8 x 8.
- Random bomb placement: replaced by a nondeterministic choice, so no distribution is modelled.
- Adjacent-bomb counts are computed from the bomb layout when needed, not stored in each button.
- `Engine.Model.Restore` requires a string of exactly `width * height` characters drawn from the eight-letter encoding, because the test suite restores no other strings.
- `Engine.Model.NewGameWith` is the overload of `NewGame` that takes a configuration; Dafny has no overloading.
- `Engine.Model.AltClickButton`: in state None the alt click changes nothing. This follows the default-model scenario, which shows no effect on an alt click before the first primary click.
- `Engine.Model.AreaClickButton` checks no flagged-neighbour count and does not require a pressed centre, because the scenario that presses the block around an untouched button shows no such check. Flagged buttons in the block are left flagged, because nothing shows the engine pressing a flagged button. After a bomb is hit, the rest of the block is still pressed.
- `Engine.Model.GetButtonsLeft` counts the buttons that are not down. Flagged and questioned buttons count as left.
- Rendering, input handling, the wall-clock timer behind `UpdateTime`, persistence and localisation are not part of this model.
- `GameTime` is an unbounded natural number; the engine's integer width is not modelled.
