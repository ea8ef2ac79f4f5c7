/** The game configuration: grid width and height in buttons, the number of bombs, and
    the difficulty, which is derived from those three numbers. */
module Config {

  datatype GameDifficulty = Beginner | Intermediate | Custom

  /** The default difficulty is the beginner preset. */
  const Default: GameDifficulty := Beginner

  const BeginnerButtonsWide: nat := 8
  const BeginnerButtonsTall: nat := 8
  const BeginnerBombCount: nat := 10

  const IntermediateButtonsWide: nat := 16
  const IntermediateButtonsTall: nat := 16
  const IntermediateBombCount: nat := 40

  datatype GameConfiguration = GameConfiguration(buttonsWide: nat, buttonsTall: nat, bombCount: nat)
  {
    /** The number of buttons on the grid. */
    function ButtonCount(): nat {
      buttonsWide * buttonsTall
    }

    /** A playable configuration: a non-empty grid with at least one bomb-free button. */
    predicate Valid() {
      buttonsWide > 0 && buttonsTall > 0 && bombCount < ButtonCount()
    }

    /** The difficulty is recomputed from the triple: a preset when the triple is
        exactly that preset's, Custom otherwise. */
    function GameDifficulty(): (d: GameDifficulty)
      ensures d == Beginner <==>
        (buttonsWide, buttonsTall, bombCount) == (BeginnerButtonsWide, BeginnerButtonsTall, BeginnerBombCount)
      ensures d == Intermediate <==>
        (buttonsWide, buttonsTall, bombCount) == (IntermediateButtonsWide, IntermediateButtonsTall, IntermediateBombCount)
    {
      if (buttonsWide, buttonsTall, bombCount) == (BeginnerButtonsWide, BeginnerButtonsTall, BeginnerBombCount) then
        Beginner
      else if (buttonsWide, buttonsTall, bombCount) == (IntermediateButtonsWide, IntermediateButtonsTall, IntermediateBombCount) then
        Intermediate
      else
        Custom
    }
  }

  /** The configuration of a named preset, which reports that preset as its difficulty. */
  function FromDifficulty(d: GameDifficulty): (c: GameConfiguration)
    requires d != Custom
    ensures c.Valid()
    ensures c.GameDifficulty() == d
  {
    if d == Beginner then
      GameConfiguration(BeginnerButtonsWide, BeginnerButtonsTall, BeginnerBombCount)
    else
      GameConfiguration(IntermediateButtonsWide, IntermediateButtonsTall, IntermediateBombCount)
  }

  /** A Beginner-sized grid with a bomb count other than the preset's is Custom: the
      explicit 8 x 8 configuration with 2 bombs is one. */
  lemma ExplicitTripleIsCustom(bombs: nat)
    requires bombs != BeginnerBombCount
    ensures GameConfiguration(8, 8, bombs).GameDifficulty() == Custom
    ensures GameConfiguration(8, 8, bombs).ButtonCount() == BeginnerButtonsWide * BeginnerButtonsTall
  {
  }
}
