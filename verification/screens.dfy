/** The screens of the game and the transitions their buttons trigger.
    Hit-testing a mouse release against a button's rectangle is left to the
    user interface; here an event is simply the button that was released. */
module Screens {
  import opened Placement

  datatype Screen = Menu | ChooseDifficulty | Game | Pause | Win | Lose | Quit

  /** Every button drawn by the menu, the difficulty menu and the end-of-game
      screen. */
  datatype Button = Play | Exit | Easy | Medium | Hard | PlayAgain | ChangeDifficulty

  predicate IsPreset(b: Button) {
    b == Easy || b == Medium || b == Hard
  }

  predicate IsEnd(s: Screen) {
    s == Win || s == Lose
  }

  /** Columns of the three presets: 8x8, 16x16 and 25x16. */
  function PresetColumns(b: Button): (c: int)
    requires IsPreset(b)
    ensures b == Easy ==> c == 8
    ensures b == Medium ==> c == 16
    ensures b == Hard ==> c == 25
    ensures 1 <= c <= 100
  {
    match b
    case Easy => 8
    case Medium => 16
    case Hard => 25
  }

  /** Rows of the three presets. */
  function PresetRows(b: Button): (r: int)
    requires IsPreset(b)
    ensures b == Easy ==> r == 8
    ensures b == Medium || b == Hard ==> r == 16
    ensures 1 <= r <= 100
  {
    if b == Easy then 8 else 16
  }

  /** The mine count of a preset, derived from the density as the game does:
      10, 40 and 62.  The hard preset's button promises 63. */
  function PresetBombs(b: Button): (n: int)
    requires IsPreset(b)
    ensures b == Easy ==> n == 10
    ensures b == Medium ==> n == 40
    ensures b == Hard ==> n == 62
  {
    BombCount(PresetColumns(b) * PresetRows(b))
  }

  /** The button starts a new game on a freshly generated field: a preset
      on the difficulty menu, or "Play again" after a game. */
  predicate Regenerates(s: Screen, b: Button) {
    (s == ChooseDifficulty && IsPreset(b)) || (IsEnd(s) && b == PlayAgain)
  }

  /** The screen after button b is released on screen s.  A button that is
      not drawn on s changes nothing. */
  function Step(s: Screen, b: Button): (r: Screen)
    ensures (r == Game && s != Game) <==> Regenerates(s, b)
    ensures IsEnd(r) ==> r == s
    ensures r == Pause ==> s == Pause
    ensures s == Game || s == Pause || s == Quit ==> r == s
    ensures IsEnd(s) && r != s ==> r == Game || r == ChooseDifficulty || r == Quit
    ensures r == Menu ==> s == Menu
  {
    match s
    case Menu =>
      if b == Play then ChooseDifficulty else if b == Exit then Quit else s
    case ChooseDifficulty =>
      if IsPreset(b) then Game else s
    case Win | Lose =>
      if b == PlayAgain then Game
      else if b == ChangeDifficulty then ChooseDifficulty
      else if b == Exit then Quit
      else s
    case _ => s
  }

  /** Columns and rows after button b on screen s: only a preset on the
      difficulty menu changes them. */
  function NextColumns(s: Screen, b: Button, columns: int): (c: int)
    ensures s != ChooseDifficulty || !IsPreset(b) ==> c == columns
  {
    if s == ChooseDifficulty && IsPreset(b) then PresetColumns(b) else columns
  }

  function NextRows(s: Screen, b: Button, rows: int): (r: int)
    ensures s != ChooseDifficulty || !IsPreset(b) ==> r == rows
  {
    if s == ChooseDifficulty && IsPreset(b) then PresetRows(b) else rows
  }

  /** From the menu, any sequence of buttons reaches a game only through the
      difficulty menu. */
  lemma {:induction false} GameOnlyAfterDifficulty(s: Screen, bs: seq<Button>)
    requires s == Menu || s == ChooseDifficulty
    ensures Run(s, bs) == Game ==>
      exists k :: 0 <= k < |bs| && Run(s, bs[..k]) == ChooseDifficulty && IsPreset(bs[k])
    decreases |bs|
  {
    if bs != [] {
      var s' := Step(s, bs[0]);
      if s' == Game {
        assert Run(s, bs[..0]) == s;
      } else if s' == Menu || s' == ChooseDifficulty {
        GameOnlyAfterDifficulty(s', bs[1..]);
        if Run(s, bs) == Game {
          var k :| 0 <= k < |bs[1..]| && Run(s', bs[1..][..k]) == ChooseDifficulty && IsPreset(bs[1..][k]);
          assert bs[..k + 1] == [bs[0]] + bs[1..][..k];
          assert Run(s, bs[..k + 1]) == ChooseDifficulty;
        }
      } else {
        QuitIsFinal(bs[1..]);
      }
    }
  }

  /** The screen after a sequence of button releases. */
  function Run(s: Screen, bs: seq<Button>): Screen
    decreases |bs|
  {
    if bs == [] then s else Run(Step(s, bs[0]), bs[1..])
  }

  /** Once the game quits, no button brings it back. */
  lemma {:induction false} QuitIsFinal(bs: seq<Button>)
    ensures Run(Quit, bs) == Quit
  {
    if bs != [] {
      QuitIsFinal(bs[1..]);
    }
  }
}
