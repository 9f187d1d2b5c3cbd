/** The click-driven state machine of the SimonGame component: five pieces of
    state and one event, a click on one of the four colour buttons. */
module SimonGame {
  import opened Decimal

  /** The four colour buttons, in the order the random draw indexes them. */
  const Buttons: seq<string> := ["green", "red", "yellow", "blue"]

  const Prompt: string := "Press a key to start"
  const GameOverText: string := "Game Over!"
  const Level1Text: string := "Level 1"

  /** The component's state; `userClickedColor` is the player's last click and
      `randomColor` the target the player must match ("" before the first draw). */
  datatype GameState = GameState(
    message: string,
    level: nat,
    randomColor: string,
    userClickedColor: string,
    gameStarted: bool)

  /** The state at mount: not started, so it keeps the invariant with level 1. */
  function Initial(): (s: GameState)
    ensures Inv(s) && !s.gameStarted && LevelShown(s.message) == None
  {
    var s := GameState(Prompt, 1, "", "", false);
    assert s.message[..6][0] != 'L';
    s
  }

  /** The colour for a draw index; the random draw `floor(random * 4)` becomes
      the parameter idx. */
  function GetRandomColor(idx: nat): (c: string)
    requires idx < |Buttons|
    ensures c in Buttons && c != ""
  {
    Buttons[idx]
  }

  /** The header after a correct click: note the trailing space. It
      announces level n and no other. */
  function NextLevelText(n: nat): (m: string)
    ensures |m| >= 8 && m[|m| - 1] == ' ' && m != Level1Text
    ensures LevelShown(m) == Some(n)
  {
    var d := NatToString(n);
    var m := "Level " + d + " ";
    assert m[..6] == "Level ";
    assert m[6..|m| - 1] == d;
    ParseNatToString(n);
    m
  }

  /** What the header says while level n is being played: it announces
      exactly level n. */
  function LevelMessage(n: nat): (m: string)
    ensures LevelShown(m) == Some(n)
  {
    if n == 1 then Level1Text else NextLevelText(n)
  }

  /** The state after startLevel1 with draw idx: the game runs with a target
      among the buttons and the header announces level 1, but the level is
      left as it was; so the invariant survives only from a stopped state. */
  function AfterStart(s: GameState, idx: nat): (t: GameState)
    requires idx < |Buttons|
    ensures t.gameStarted && t.randomColor in Buttons && t.userClickedColor == ""
    ensures t.level == s.level && LevelShown(t.message) == Some(1)
    ensures Inv(s) && !s.gameStarted ==> Inv(t)
  {
    s.(randomColor := GetRandomColor(idx), message := Level1Text,
       gameStarted := true, userClickedColor := "")
  }

  /** The state after handleButtonClick(color) with draw idx. Every read sees
      the state from before the click, as React's state setters do. */
  function AfterClick(s: GameState, color: string, idx: nat): (t: GameState)
    requires idx < |Buttons|
    ensures !s.gameStarted ==> t == AfterStart(s, idx)
    ensures t.gameStarted <==> !s.gameStarted || color == s.randomColor
    ensures s.gameStarted ==> t.userClickedColor == color
    ensures s.gameStarted && t.gameStarted ==>
              t.level == s.level + 1 && t.message == NextLevelText(s.level + 1)
              && t.randomColor == GetRandomColor(idx)
    ensures s.gameStarted && !t.gameStarted ==>
              t.level == 1 && t.message == GameOverText && t.randomColor == s.randomColor
  {
    if !s.gameStarted then
      AfterStart(s, idx)
    else if color == s.randomColor then
      s.(userClickedColor := color, level := s.level + 1,
         message := NextLevelText(s.level + 1), randomColor := GetRandomColor(idx))
    else
      s.(userClickedColor := color, message := GameOverText, level := 1, gameStarted := false)
  }

  /** The invariant every reachable state keeps. */
  ghost predicate Inv(s: GameState) {
    && s.level >= 1
    && (s.randomColor == "" || s.randomColor in Buttons)
    && (!s.gameStarted ==> s.level == 1 && (s.message == Prompt || s.message == GameOverText))
    && (s.gameStarted ==> s.randomColor in Buttons && s.message == LevelMessage(s.level))
  }

  // ---------------------------------------------------------------------------
  // The colour draw

  /** Distinct draw indexes give distinct colours, so a uniform index gives a
      uniform colour. */
  lemma DrawInjective(i: nat, j: nat)
    requires i < |Buttons| && j < |Buttons|
    ensures GetRandomColor(i) == GetRandomColor(j) ==> i == j
  {
  }

  /** Every colour can be drawn. */
  lemma DrawCovers(c: string)
    requires c in Buttons
    ensures exists idx: nat :: idx < |Buttons| && GetRandomColor(idx) == c
  {
    var idx :| 0 <= idx < |Buttons| && Buttons[idx] == c;
    assert GetRandomColor(idx) == c;
  }

  // ---------------------------------------------------------------------------
  // One click

  lemma InitialInv()
    ensures Inv(Initial())
    ensures Initial().message == Prompt && Initial().level == 1
    ensures Initial().randomColor == "" && Initial().userClickedColor == ""
    ensures !Initial().gameStarted
  {
  }

  /** A click before the start begins level 1, whatever the colour clicked. */
  lemma ClickBeforeStart(s: GameState, color: string, other: string, idx: nat)
    requires idx < |Buttons| && !s.gameStarted
    ensures var t := AfterClick(s, color, idx);
      && t.gameStarted && t.message == Level1Text && t.userClickedColor == ""
      && t.randomColor in Buttons && t.level == s.level
      && t == AfterClick(s, other, idx)
  {
  }

  /** A correct click raises the level by exactly one and draws a new target. */
  lemma CorrectClick(s: GameState, idx: nat)
    requires idx < |Buttons| && s.gameStarted
    ensures var t := AfterClick(s, s.randomColor, idx);
      && t.level == s.level + 1
      && t.message == "Level " + NatToString(s.level + 1) + " "
      && t.userClickedColor == s.randomColor
      && t.randomColor == GetRandomColor(idx) && t.randomColor in Buttons
      && t.gameStarted
  {
  }

  /** A wrong click ends the game and keeps the target. */
  lemma WrongClick(s: GameState, color: string, idx: nat)
    requires idx < |Buttons| && s.gameStarted && color != s.randomColor
    ensures var t := AfterClick(s, color, idx);
      && t.message == GameOverText && t.level == 1 && !t.gameStarted
      && t.userClickedColor == color && t.randomColor == s.randomColor
  {
  }

  /** Every click keeps the invariant. */
  lemma ClickPreservesInv(s: GameState, color: string, idx: nat)
    requires idx < |Buttons| && Inv(s)
    ensures Inv(AfterClick(s, color, idx))
  {
  }

  /** The last click recorded is always "" or one of the buttons, since the
      buttons only ever pass their own colour. */
  lemma ClickedColorIsButton(s: GameState, color: string, idx: nat)
    requires idx < |Buttons| && color in Buttons
    requires s.userClickedColor == "" || s.userClickedColor in Buttons
    ensures var t := AfterClick(s, color, idx);
      t.userClickedColor == "" || t.userClickedColor in Buttons
  {
  }

  // ---------------------------------------------------------------------------
  // Sequences of clicks

  /** One click: the button pressed and the draw index the click uses. */
  datatype Press = Press(color: string, draw: nat)

  predicate DrawsInRange(ps: seq<Press>) {
    forall i :: 0 <= i < |ps| ==> ps[i].draw < |Buttons|
  }

  /** The state after the presses ps, in order, starting from s. */
  function Replay(s: GameState, ps: seq<Press>): GameState
    requires DrawsInRange(ps)
    decreases |ps|
  {
    if ps == [] then s else Replay(AfterClick(s, ps[0].color, ps[0].draw), ps[1..])
  }

  /** Every state reachable from the initial one keeps the invariant: in
      particular level >= 1, and level == 1 whenever the game is not started,
      which is why "Level 1" from startLevel1 agrees with the level. */
  lemma {:induction false} ReplayPreservesInv(s: GameState, ps: seq<Press>)
    requires DrawsInRange(ps) && Inv(s)
    ensures Inv(Replay(s, ps))
    decreases |ps|
  {
    if ps != [] {
      ClickPreservesInv(s, ps[0].color, ps[0].draw);
      ReplayPreservesInv(AfterClick(s, ps[0].color, ps[0].draw), ps[1..]);
    }
  }

  lemma ReachableInv(ps: seq<Press>)
    requires DrawsInRange(ps)
    ensures Inv(Replay(Initial(), ps))
    ensures var t := Replay(Initial(), ps);
      && t.level >= 1
      && (!t.gameStarted ==> t.level == 1)
      && (t.gameStarted ==> t.randomColor in Buttons && t.message == LevelMessage(t.level))
  {
    InitialInv();
    ReplayPreservesInv(Initial(), ps);
  }

  /** True if every press comes from one of the four buttons. */
  predicate FromButtons(ps: seq<Press>) {
    forall i :: 0 <= i < |ps| ==> ps[i].color in Buttons
  }

  /** When every click comes from a button, every state reachable from mount
      records as its last click "" or a button colour. */
  lemma {:induction false} ReplayClickedColorIsButton(s: GameState, ps: seq<Press>)
    requires DrawsInRange(ps) && FromButtons(ps)
    requires s.userClickedColor == "" || s.userClickedColor in Buttons
    ensures Replay(s, ps).userClickedColor == "" || Replay(s, ps).userClickedColor in Buttons
    decreases |ps|
  {
    if ps != [] {
      ClickedColorIsButton(s, ps[0].color, ps[0].draw);
      ReplayClickedColorIsButton(AfterClick(s, ps[0].color, ps[0].draw), ps[1..]);
    }
  }

  predicate AllDraws(draws: seq<nat>) {
    forall i :: 0 <= i < |draws| ==> draws[i] < |Buttons|
  }

  /** The state after the player matches the target once per entry of draws. */
  function Streak(s: GameState, draws: seq<nat>): GameState
    requires AllDraws(draws)
    decreases |draws|
  {
    if draws == [] then s else Streak(AfterClick(s, s.randomColor, draws[0]), draws[1..])
  }

  /** The level counts consecutive correct rounds: k correct clicks in a row
      while playing raise the level by k, and the game goes on. */
  lemma {:induction false} StreakLevel(s: GameState, draws: seq<nat>)
    requires AllDraws(draws) && s.gameStarted
    ensures var t := Streak(s, draws);
      t.level == s.level + |draws| && t.gameStarted
    decreases |draws|
  {
    if draws != [] {
      StreakLevel(AfterClick(s, s.randomColor, draws[0]), draws[1..]);
    }
  }

  // ---------------------------------------------------------------------------
  // What the header shows

  /** The level a header text announces, if it announces one. */
  function LevelShown(m: string): Option<nat> {
    if m == Level1Text then Some(1)
    else if |m| >= 8 && m[..6] == "Level " && m[|m| - 1] == ' ' && IsDigits(m[6..|m| - 1])
    then Some(ParseDecimal(m[6..|m| - 1]))
    else None
  }

  datatype Option<T> = None | Some(value: T)

  /** In every state that keeps the invariant the header announces the current
      level exactly while the game is running, and no level otherwise. */
  lemma MessageShowsLevel(s: GameState)
    requires Inv(s)
    ensures LevelShown(s.message) == if s.gameStarted then Some(s.level) else None
  {
  }

  // ---------------------------------------------------------------------------
  // The component

  class Game {
    var message: string
    var level: nat
    var randomColor: string
    var userClickedColor: string
    var gameStarted: bool

    function State(): GameState
      reads this
    {
      GameState(message, level, randomColor, userClickedColor, gameStarted)
    }

    ghost predicate Valid()
      reads this
    {
      Inv(State())
    }

    constructor ()
      ensures Valid()
      ensures message == Prompt && level == 1 && randomColor == "" && userClickedColor == ""
      ensures !gameStarted
      ensures State() == Initial()
    {
      message := Prompt;
      level := 1;
      randomColor := "";
      userClickedColor := "";
      gameStarted := false;
    }

    /** startLevel1: draws the first target and shows "Level 1"; it does not
        touch the level. */
    method StartLevel1(idx: nat)
      requires idx < |Buttons|
      modifies this
      ensures randomColor == GetRandomColor(idx) && message == Level1Text
      ensures gameStarted && userClickedColor == "" && level == old(level)
      ensures State() == AfterStart(old(State()), idx)
      ensures old(Valid()) && !old(gameStarted) ==> Valid()
    {
      var newRandomColor := GetRandomColor(idx);
      randomColor := newRandomColor;
      message := Level1Text;
      gameStarted := true;
      userClickedColor := "";
    }

    /** handleButtonClick(color), with idx the draw the click uses. */
    method HandleButtonClick(color: string, idx: nat)
      requires idx < |Buttons| && Valid()
      modifies this
      ensures Valid()
      ensures State() == AfterClick(old(State()), color, idx)
      ensures !old(gameStarted) ==> gameStarted && message == Level1Text && level == 1
                                    && userClickedColor == "" && randomColor in Buttons
      ensures old(gameStarted) && color == old(randomColor) ==>
                gameStarted && level == old(level) + 1
                && message == NextLevelText(old(level) + 1)
                && userClickedColor == color && randomColor == GetRandomColor(idx)
      ensures old(gameStarted) && color != old(randomColor) ==>
                !gameStarted && level == 1 && message == GameOverText
                && userClickedColor == color && randomColor == old(randomColor)
    {
      ClickPreservesInv(State(), color, idx);
      if !gameStarted {
        StartLevel1(idx);
        return;
      }

      userClickedColor := color;

      if color == randomColor {
        var next := level + 1;
        level := next;
        message := NextLevelText(next);
        randomColor := GetRandomColor(idx);
      } else {
        message := GameOverText;
        level := 1;
        gameStarted := false;
      }
    }
  }
}
