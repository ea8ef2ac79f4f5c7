/** The game-state engine: one configuration, a row-major grid of buttons, the game
    state, the flag counter, the game time and the questions option, changed in
    place by the player's clicks, the timer and the new-game and option calls. */
module Engine {
  import opened Counting
  import opened Config
  import opened Buttons
  import opened Grid
  import opened Fill
  import opened Clicks

  /** None: no click yet (bombs not placed); Playing; Dead: a bomb was pressed; Cool: won. */
  datatype GameState = None | Playing | Dead | Cool

  /** A grid of `n` default buttons: untouched and bomb-free. */
  function FreshButtons(n: nat): (b: seq<Button>)
    ensures |b| == n
    ensures forall i :: 0 <= i < n ==> b[i] == Fresh
    ensures Count(b, IsFlagged) == 0 && Count(b, HasBomb) == 0
    ensures Count(b, IsUp) == n
  {
    var b := seq(n, _ => Fresh);
    CountNone(b, IsFlagged);
    CountNone(b, HasBomb);
    CountAll(b, IsUp);
    b
  }

  /** A primary click at (x, y) does something: the game has not ended, (x, y) is on
      the grid, and the button there is untouched or questioned. */
  predicate CanPress(gameState: GameState, config: GameConfiguration, buttons: seq<Button>, x: int, y: int)
    requires |buttons| == config.ButtonCount()
  {
    && (gameState == GameState.None || gameState == Playing)
    && InBounds(config.buttonsWide, config.buttonsTall, x, y)
    && Pressable(buttons[Idx(config.buttonsWide, config.buttonsTall, x, y)])
  }

  class Model {
    var config: GameConfiguration
    var buttons: seq<Button>
    var gameState: GameState
    var flagCount: int
    var gameTime: nat
    var questionsEnabled: bool

    /** The configuration is playable, the grid has one button per cell, and the flag
        counter is the number of flagged buttons. */
    ghost predicate Valid()
      reads this
    {
      && config.Valid()
      && |buttons| == config.ButtonCount()
      && flagCount == Count(buttons, IsFlagged)
    }

    /** A beginner game, questions disabled, not yet started. */
    constructor ()
      ensures Valid()
      ensures config == FromDifficulty(Default) && config.GameDifficulty() == Default
      ensures !questionsEnabled && gameState == GameState.None && gameTime == 0
      ensures buttons == FreshButtons(config.ButtonCount())
      ensures GetFlagCount() == 0
      ensures GetBombsLeft() == BeginnerBombCount
      ensures GetButtonsLeft() == BeginnerButtonsWide * BeginnerButtonsTall
    {
      config := FromDifficulty(Default);
      questionsEnabled := false;
      gameState := GameState.None;
      gameTime := 0;
      flagCount := 0;
      buttons := FreshButtons(BeginnerButtonsWide * BeginnerButtonsTall);
    }

    /** Restores a game from explicit state: each character of `s` is one button, in
        row-major order; the flag counter is recounted from the grid. */
    constructor Restore(config: GameConfiguration, questionsEnabled: bool, gameState: GameState, gameTime: nat, s: string)
      requires config.Valid()
      requires |s| == config.ButtonCount() && IsButtonString(s)
      ensures Valid()
      ensures this.config == config && this.questionsEnabled == questionsEnabled
      ensures this.gameState == gameState && this.gameTime == gameTime
      ensures buttons == DecodeButtons(s)
      ensures forall x, y :: InBounds(config.buttonsWide, config.buttonsTall, x, y) ==>
        GetButton(x, y) == DecodeButton(s[y * config.buttonsWide + x])
      ensures flagCount == Count(s, IsFlagChar)
    {
      this.config := config;
      this.questionsEnabled := questionsEnabled;
      this.gameState := gameState;
      this.gameTime := gameTime;
      var b := DecodeButtons(s);
      var n := CountMatching(b, IsFlagged);
      DecodedFlagCount(s);
      buttons := b;
      flagCount := n;
    }

    /** The button at (x, y). */
    function GetButton(x: int, y: int): (b: Button)
      reads this
      requires Valid() && InBounds(config.buttonsWide, config.buttonsTall, x, y)
      ensures b in buttons
    {
      buttons[Idx(config.buttonsWide, config.buttonsTall, x, y)]
    }

    /** The flag counter: the number of flagged buttons. */
    function GetFlagCount(): (n: int)
      reads this
      requires Valid()
      ensures n == Count(buttons, IsFlagged) && n >= 0
    {
      flagCount
    }

    /** The bomb counter shown to the player: bombs minus flags, negative when the
        player has placed more flags than there are bombs. */
    function GetBombsLeft(): (n: int)
      reads this
      requires Valid()
      ensures n == config.bombCount - Count(buttons, IsFlagged)
      ensures n <= config.bombCount
    {
      config.bombCount - flagCount
    }

    /** The buttons not yet pressed. */
    function GetButtonsLeft(): (n: nat)
      reads this
      requires Valid()
      ensures n == |buttons| - Count(buttons, IsDown)
      ensures n == 0 <==> forall i :: 0 <= i < |buttons| ==> buttons[i].state == Down
    {
      ButtonsLeft(buttons);
      Count(buttons, IsUp)
    }

    /** A new game with the same configuration and questions option. */
    method NewGame()
      requires Valid()
      modifies this
      ensures Valid()
      ensures config == old(config) && questionsEnabled == old(questionsEnabled)
      ensures gameState == GameState.None && gameTime == 0 && flagCount == 0
      ensures buttons == FreshButtons(config.ButtonCount())
    {
      gameState := GameState.None;
      gameTime := 0;
      flagCount := 0;
      buttons := FreshButtons(config.ButtonCount());
    }

    /** A new game with configuration `config`, keeping the questions option. */
    method NewGameWith(config: GameConfiguration)
      requires Valid() && config.Valid()
      modifies this
      ensures Valid()
      ensures this.config == config && questionsEnabled == old(questionsEnabled)
      ensures gameState == GameState.None && gameTime == 0 && flagCount == 0
      ensures buttons == FreshButtons(config.ButtonCount())
    {
      this.config := config;
      gameState := GameState.None;
      gameTime := 0;
      flagCount := 0;
      buttons := FreshButtons(config.ButtonCount());
    }

    /** Primary click. Before the first click the bombs are placed, never under
        (x, y), and the game starts. The button is then pressed: a bomb ends the game,
        a bomb-free button is flood filled. After the game has ended, and on flagged or
        pressed buttons, nothing happens. */
    method ClickButton(x: int, y: int)
      requires Valid()
      modifies this
      ensures Valid()
      ensures config == old(config) && questionsEnabled == old(questionsEnabled) && gameTime == old(gameTime)
      ensures !CanPress(old(gameState), config, old(buttons), x, y) ==>
        buttons == old(buttons) && gameState == old(gameState)
      ensures CanPress(old(gameState), config, old(buttons), x, y) ==>
        buttons[Idx(config.buttonsWide, config.buttonsTall, x, y)].state == Down
      ensures CanPress(old(gameState), config, old(buttons), x, y) && old(gameState) == GameState.None ==>
        && Count(buttons, HasBomb) == config.bombCount
        && !buttons[Idx(config.buttonsWide, config.buttonsTall, x, y)].hasBomb
        && gameState == Playing
        && PressedAt(WithBombs(old(buttons), Bombs(buttons)), config.buttonsWide, config.buttonsTall, x, y, buttons)
      ensures CanPress(old(gameState), config, old(buttons), x, y) && old(gameState) == Playing ==>
        && Bombs(buttons) == Bombs(old(buttons))
        && gameState == (if old(buttons)[Idx(config.buttonsWide, config.buttonsTall, x, y)].hasBomb then Dead else Playing)
        && PressedAt(old(buttons), config.buttonsWide, config.buttonsTall, x, y, buttons)
    {
      var w, h := config.buttonsWide, config.buttonsTall;
      if CanPress(gameState, config, buttons, x, y) {
        var i := Idx(w, h, x, y);
        var start := buttons;
        if gameState == GameState.None {
          var layout := PlaceBombs(|buttons|, i, config.bombCount);
          start := WithBombs(buttons, layout);
          CountPointwise(start, IsFlagged, buttons, IsFlagged);
          gameState := Playing;
        }
        var b := Press(start, w, h, x, y);
        PressedAdvances(start, w, h, x, y, b);
        AdvancesKeeps(start, b);
        CountPointwise(b, HasBomb, start, HasBomb);
        if start[i].hasBomb {
          gameState := Dead;
        }
        buttons := b;
      }
    }

    /** Alt click: while playing, steps the button at (x, y) through the flag and
        question cycle and keeps the flag counter in step. */
    method AltClickButton(x: int, y: int)
      requires Valid()
      modifies this
      ensures Valid()
      ensures config == old(config) && questionsEnabled == old(questionsEnabled)
      ensures gameState == old(gameState) && gameTime == old(gameTime)
      ensures !(old(gameState) == Playing && InBounds(config.buttonsWide, config.buttonsTall, x, y)) ==>
        buttons == old(buttons) && flagCount == old(flagCount)
      ensures old(gameState) == Playing && InBounds(config.buttonsWide, config.buttonsTall, x, y) ==>
        var i := Idx(config.buttonsWide, config.buttonsTall, x, y);
        && buttons == old(buttons)[i := Button(AltNext(old(buttons)[i].state, questionsEnabled), old(buttons)[i].hasBomb)]
        && flagCount == old(flagCount) + (if old(buttons)[i].state == ButtonState.None then 1 else 0)
                                        - (if old(buttons)[i].state == Flagged then 1 else 0)
    {
      var w, h := config.buttonsWide, config.buttonsTall;
      if gameState == Playing && InBounds(w, h, x, y) {
        var i := Idx(w, h, x, y);
        var s := buttons[i].state;
        var next := Button(AltNext(s, questionsEnabled), buttons[i].hasBomb);
        CountUpdate(buttons, i, next, IsFlagged);
        buttons := buttons[i := next];
        if s == ButtonState.None {
          flagCount := flagCount + 1;
        } else if s == Flagged {
          flagCount := flagCount - 1;
        }
      }
    }

    /** Area click: while playing, presses the 3 x 3 block centred on the on-grid
        button (x, y); a bomb in the block ends the game, and the rest of the block is
        still pressed. Off the grid nothing happens. */
    method AreaClickButton(x: int, y: int)
      requires Valid()
      modifies this
      ensures Valid()
      ensures config == old(config) && questionsEnabled == old(questionsEnabled) && gameTime == old(gameTime)
      ensures !(old(gameState) == Playing && InBounds(config.buttonsWide, config.buttonsTall, x, y)) ==>
        buttons == old(buttons) && gameState == old(gameState)
      ensures old(gameState) == Playing && InBounds(config.buttonsWide, config.buttonsTall, x, y) ==>
        exists hit :: AreaInv(old(buttons), config.buttonsWide, config.buttonsTall, x, y, 9, buttons, hit) &&
          gameState == (if hit then Dead else Playing)
      ensures old(gameState) == Playing && InBounds(config.buttonsWide, config.buttonsTall, x, y) ==>
        forall cx, cy ::
          (InBlock(x, y, cx, cy) && InBounds(config.buttonsWide, config.buttonsTall, cx, cy) &&
           old(buttons)[Idx(config.buttonsWide, config.buttonsTall, cx, cy)].state != Flagged) ==>
          buttons[Idx(config.buttonsWide, config.buttonsTall, cx, cy)].state == Down
    {
      var w, h := config.buttonsWide, config.buttonsTall;
      if gameState == Playing && InBounds(w, h, x, y) {
        var b, hit := AreaPress(buttons, w, h, x, y);
        AreaPressed(buttons, w, h, x, y, b, hit);
        buttons := b;
        if hit {
          gameState := Dead;
        }
      }
    }

    /** Adds `delta` to the game time while the game is being played. */
    method UpdateTime(delta: nat)
      requires Valid()
      modifies this
      ensures Valid()
      ensures config == old(config) && buttons == old(buttons) && gameState == old(gameState)
      ensures flagCount == old(flagCount) && questionsEnabled == old(questionsEnabled)
      ensures gameTime == old(gameTime) + (if old(gameState) == Playing then delta else 0)
    {
      if gameState == Playing {
        gameTime := gameTime + delta;
      }
    }

    /** Sets the questions option; disabling it turns every questioned button back into
        an untouched one and leaves the flags alone. */
    method SetQuestionsEnabled(enabled: bool)
      requires Valid()
      modifies this
      ensures Valid()
      ensures questionsEnabled == enabled
      ensures config == old(config) && gameState == old(gameState) && gameTime == old(gameTime)
      ensures flagCount == old(flagCount) && Bombs(buttons) == Bombs(old(buttons))
      ensures enabled ==> buttons == old(buttons)
      ensures !enabled ==> forall i :: 0 <= i < |buttons| ==>
        buttons[i] == (if old(buttons)[i].state == Questioned then Button(ButtonState.None, old(buttons)[i].hasBomb) else old(buttons)[i])
    {
      questionsEnabled := enabled;
      if !enabled {
        buttons := ClearQuestions(buttons);
      }
    }
  }

  /** The not-down buttons are all buttons but the down ones, and there are none
      exactly when every button is down. */
  lemma ButtonsLeft(b: seq<Button>)
    ensures Count(b, IsUp) == |b| - Count(b, IsDown)
    ensures Count(b, IsUp) == 0 <==> forall i :: 0 <= i < |b| ==> b[i].state == Down
  {
    CountComplement(b, IsDown, IsUp);
    if Count(b, IsUp) == 0 {
      forall i | 0 <= i < |b|
        ensures b[i].state == Down
      {
        if b[i].state != Down {
          CountUpdate(b, i, Button(Down, false), IsUp);
        }
      }
    } else {
      CountShort(b, IsDown);
    }
  }
}
