/** Whole games played roll by roll from a new game: the gutter game, the
    all-spares game and the perfect game. Each is described by the state it
    reaches after any number of its rolls; one roll is proved to move from
    one such state to the next, and the final state gives the score. */
module GameScenarios {
  import opened BowlingErrors
  import opened FrameRules
  import opened FrameLemmas
  import opened GameRules
  import opened GameLemmas

  /** The outcomes of a sequence of rolls and the game they leave behind. */
  datatype Trace = Trace(outcomes: seq<Outcome>, state: GameState)

  /** Ten frames, the tenth flag only at index 9, and the index in 0..9:
      all a sequence of rolls needs to be played. */
  predicate Framed(g: GameState)
  {
    |g.frames| == MaxFrameCount && 0 <= g.currentFrameIndex < MaxFrameCount &&
    forall i :: 0 <= i < MaxFrameCount ==> g.frames[i].isTenthFrame == (i == MaxFrameCount - 1)
  }

  /** Every roll keeps a game framed: the index only moves on from a frame
      that is not the tenth. */
  lemma RollGameKeepsFramed(g: GameState, pins: int)
    requires Framed(g)
    ensures Framed(RollGame(g, pins).state)
  {
  }

  /** Rolls each pin count in turn, whatever the outcome of the roll before,
      as a caller that catches every error does. */
  function Play(g: GameState, rolls: seq<int>): (t: Trace)
    requires Framed(g)
    ensures Framed(t.state)
    ensures |t.outcomes| == |rolls|
    decreases |rolls|
  {
    if rolls == [] then Trace([], g)
    else
      RollGameKeepsFramed(g, rolls[0]);
      var first := RollGame(g, rolls[0]);
      var rest := Play(first.state, rolls[1..]);
      Trace([first.outcome] + rest.outcomes, rest.state)
  }

  /** `n` rolls of `x` pins. */
  function Repeat(n: nat, x: int): (r: seq<int>)
    ensures |r| == n && forall i :: 0 <= i < n ==> r[i] == x
  {
    if n == 0 then [] else Repeat(n - 1, x) + [x]
  }

  /** `v` kept within 0..cap. */
  function Clamp(v: int, cap: nat): nat
  {
    if v <= 0 then 0 else if v >= cap then cap else v
  }

  /** `k` kept below the number of frames. */
  function Capped(k: nat): nat
  {
    if k < MaxFrameCount then k else MaxFrameCount - 1
  }

  lemma {:induction false} RepeatSum(n: nat, x: int)
    ensures Sum(Repeat(n, x)) == n * x
  {
    if n > 0 {
      assert Repeat(n - 1, x) + [x] == Repeat(n, x);
      SumAppend(Repeat(n - 1, x), x);
      RepeatSum(n - 1, x);
    }
  }

  /** What the frame rules see in a run of equal rolls. */
  lemma RepeatFacts(n: nat, x: int)
    ensures Repeat(n, x) + [x] == Repeat(n + 1, x)
    ensures Sum(Repeat(n, x)) == n * x
    ensures HasStrike(Repeat(n, x)) <==> n > 0 && x == MaxPinsCount
    ensures HasSpare(Repeat(n, x)) <==> n > 1 && x + x == MaxPinsCount
  {
    RepeatSum(n, x);
    if n > 0 && x == MaxPinsCount {
      assert Repeat(n, x)[0] == MaxPinsCount;
    }
  }

  /** The last two of a run of equal rolls. */
  lemma RepeatLastTwo(n: nat, x: int)
    ensures Sum(LastTwo(Repeat(n, x))) == (if n < 2 then n else 2) * x
  {
    var m := if n < 2 then n else 2;
    assert LastTwo(Repeat(n, x)) == Repeat(m, x);
    RepeatSum(m, x);
  }

  /** `n` successful rolls. */
  function Passes(n: nat): (r: seq<Outcome>)
    ensures |r| == n && forall i :: 0 <= i < n ==> r[i] == Pass
  {
    seq(n, _ => Pass)
  }

  /** The first roll of a run of equal rolls, taken on its own. */
  lemma PlayFirst(g: GameState, pins: int, n: nat, o: Outcome, h: GameState)
    requires Framed(g)
    requires RollGame(g, pins) == Step(o, h)
    ensures Framed(h)
    ensures var rest := Play(h, Repeat(n, pins));
            Play(g, Repeat(n + 1, pins)) == Trace([o] + rest.outcomes, rest.state)
  {
    RollGameKeepsFramed(g, pins);
    var rolls := Repeat(n + 1, pins);
    assert rolls[1..] == Repeat(n, pins);
    assert rolls != [] && rolls[0] == pins;
  }

  /** Each roll of `pins` moves from `states[j]` to `states[j + 1]` with
      outcome `outcomes[j]`. */
  ghost predicate Moves(states: seq<GameState>, outcomes: seq<Outcome>, pins: int)
  {
    |states| == |outcomes| + 1 &&
    forall j {:trigger outcomes[j]} :: 0 <= j < |outcomes| ==>
      0 <= states[j].currentFrameIndex < |states[j].frames| &&
      RollGame(states[j], pins) == Step(outcomes[j], states[j + 1])
  }

  /** The moves after the first. */
  lemma MovesTail(states: seq<GameState>, outcomes: seq<Outcome>, pins: int)
    requires Moves(states, outcomes, pins) && outcomes != []
    ensures Moves(states[1..], outcomes[1..], pins)
  {
    var rest, later := states[1..], outcomes[1..];
    forall j | 0 <= j < |later|
      ensures 0 <= rest[j].currentFrameIndex < |rest[j].frames|
      ensures RollGame(rest[j], pins) == Step(later[j], rest[j + 1])
    {
      assert later[j] == outcomes[j + 1];
      assert rest[j] == states[j + 1] && rest[j + 1] == states[j + 1 + 1];
    }
  }

  /** The first move of a run, taken on its own. */
  lemma PlayHead(states: seq<GameState>, outcomes: seq<Outcome>, pins: int)
    requires Moves(states, outcomes, pins) && outcomes != [] && Framed(states[0])
    ensures Framed(states[1]) && Moves(states[1..], outcomes[1..], pins)
    ensures var rest := Play(states[1], Repeat(|outcomes| - 1, pins));
            Play(states[0], Repeat(|outcomes|, pins)) ==
            Trace(outcomes[..1] + rest.outcomes, rest.state)
  {
    assert 0 <= states[0].currentFrameIndex < |states[0].frames| &&
           RollGame(states[0], pins) == Step(outcomes[0], states[1]);
    PlayFirst(states[0], pins, |outcomes| - 1, outcomes[0], states[1]);
    MovesTail(states, outcomes, pins);
    assert outcomes[..1] == [outcomes[0]];
  }

  /** Playing a run of rolls of `pins` through `states`. */
  lemma {:induction false} PlayRun(states: seq<GameState>, outcomes: seq<Outcome>, pins: int)
    requires Moves(states, outcomes, pins) && Framed(states[0])
    ensures Play(states[0], Repeat(|outcomes|, pins)) == Trace(outcomes, states[|outcomes|])
    decreases |outcomes|
  {
    if outcomes != [] {
      PlayHead(states, outcomes, pins);
      PlayRun(states[1..], outcomes[1..], pins);
      assert outcomes[..1] + outcomes[1..] == outcomes;
    }
  }

  /** What one roll of valid pins does, read off frame by frame: the tenth
      frame is not finished, every frame other than the current one becomes
      what the bonus offer makes of it, the current one is not offered
      anything and then records the roll, and the index follows the
      too-many-pins check. */
  ghost predicate StepsTo(g: GameState, pins: int, next: GameState, o: Outcome)
  {
    |g.frames| == MaxFrameCount && 0 <= g.currentFrameIndex < MaxFrameCount &&
    !g.frames[MaxFrameCount - 1].Finished() &&
    0 <= pins <= MaxPinsCount &&
    |next.frames| == MaxFrameCount &&
    (forall i {:trigger OfferBonus(g.frames[i], pins)} ::
       0 <= i < MaxFrameCount && i != g.currentFrameIndex ==>
       OfferBonus(g.frames[i], pins) == next.frames[i]) &&
    OfferBonus(g.frames[g.currentFrameIndex], pins) == g.frames[g.currentFrameIndex] &&
    g.frames[g.currentFrameIndex].Rolled(pins) == next.frames[g.currentFrameIndex] &&
    o == CheckIfTooManyPins(next.frames[g.currentFrameIndex].isTenthFrame,
                            next.frames[g.currentFrameIndex].rolls) &&
    next.currentFrameIndex ==
      if o.Pass? then NextFrameIndex(next.frames, g.currentFrameIndex) else g.currentFrameIndex
  }

  /** A roll described frame by frame is the roll the game makes. */
  lemma RollStep(g: GameState, pins: int, next: GameState, o: Outcome)
    requires StepsTo(g, pins, next, o)
    ensures RollGame(g, pins) == Step(o, next)
  {
    var k := g.currentFrameIndex;
    assert CheckIfGameIsOver(g.frames) == Pass;
    var offered := OfferBonusToAll(g.frames, pins);
    assert offered[k] == g.frames[k];
    StepsToFrames(g, pins, next, o);
  }

  /** The frames after a roll described frame by frame. */
  lemma StepsToFrames(g: GameState, pins: int, next: GameState, o: Outcome)
    requires StepsTo(g, pins, next, o)
    ensures var k := g.currentFrameIndex;
            OfferBonusToAll(g.frames, pins)[k := g.frames[k].Rolled(pins)] == next.frames
  {
    var k := g.currentFrameIndex;
    var offered := OfferBonusToAll(g.frames, pins);
    var recorded := offered[k := g.frames[k].Rolled(pins)];
    forall i | 0 <= i < MaxFrameCount
      ensures recorded[i] == next.frames[i]
    {
      if i != k {
        assert recorded[i] == OfferBonus(g.frames[i], pins);
      }
    }
  }

  /** Half of the next roll count. */
  lemma HalfStep(m: nat)
    ensures (m + 1) / 2 == if m % 2 == 1 then m / 2 + 1 else m / 2
    ensures m == 2 * (m / 2) + m % 2 && m % 2 < 2
  {
  }

  /** The sum of frame scores that are all equal. */
  lemma {:induction false} TotalScoreOfEqualFrames(frames: seq<FrameState>, c: int)
    requires forall i :: 0 <= i < |frames| ==> frames[i].Score() == c
    ensures TotalScore(frames) == c * |frames|
    decreases |frames|
  {
    if frames != [] {
      var n := |frames| - 1;
      TotalScoreOfEqualFrames(frames[..n], c);
      assert c * n + c == c * |frames|;
    }
  }

  // The gutter game.

  /** A frame holding `n` rolls of 0. */
  function ZeroFrame(isTenthFrame: bool, n: nat): FrameState
  {
    FrameState(isTenthFrame, Repeat(n, 0), 0, 0, 0, 0, n > 0)
  }

  /** Frame `i` after `m` rolls of 0. */
  function GutterFrame(i: int, m: nat): FrameState
  {
    ZeroFrame(i == MaxFrameCount - 1, Clamp(m - 2 * i, 2))
  }

  /** Frames 0 to `n - 1` of the gutter game after `m` rolls. */
  function GutterFrames(m: nat, n: nat): (r: seq<FrameState>)
    ensures |r| == n
  {
    if n == 0 then [] else GutterFrames(m, n - 1) + [GutterFrame(n - 1, m)]
  }

  lemma {:induction false} GutterFramesAt(m: nat, n: nat)
    ensures forall i :: 0 <= i < n ==> GutterFrames(m, n)[i] == GutterFrame(i, m)
  {
    if n > 0 {
      GutterFramesAt(m, n - 1);
    }
  }

  /** The gutter game after `m` rolls of 0. */
  function GutterGame(m: nat): GameState
  {
    GameState(GutterFrames(m, MaxFrameCount), Capped(m / 2))
  }

  lemma ZeroFrameFacts(isTenthFrame: bool, n: nat)
    requires n <= 2
    ensures ZeroFrame(isTenthFrame, n).Finished() <==> n == 2
    ensures ZeroFrame(isTenthFrame, n).Score() == 0
    ensures OfferBonus(ZeroFrame(isTenthFrame, n), 0) == ZeroFrame(isTenthFrame, n)
  {
    RepeatFacts(n, 0);
  }

  lemma ZeroFrameRolled(isTenthFrame: bool, n: nat)
    requires n < 2
    ensures ZeroFrame(isTenthFrame, n).Rolled(0) == ZeroFrame(isTenthFrame, n + 1)
    ensures CheckIfTooManyPins(isTenthFrame, Repeat(n + 1, 0)) == Pass
  {
    assert ZeroFrame(isTenthFrame, n).Rolled(0) == ZeroFrame(isTenthFrame, n + 1) by {
      RepeatFacts(n, 0);
      RepeatFacts(n + 1, 0);
    }
    assert CheckIfTooManyPins(isTenthFrame, Repeat(n + 1, 0)) == Pass by {
      RepeatFacts(n + 1, 0);
      RepeatLastTwo(n + 1, 0);
    }
  }

  /** A roll of 0 leaves every frame but the current one as it is. */
  lemma GutterFrameOffered(i: nat, m: nat)
    requires i < MaxFrameCount && m < 2 * MaxFrameCount && i != m / 2
    ensures OfferBonus(GutterFrame(i, m), 0) == GutterFrame(i, m + 1)
  {
    var k := m / 2;
    assert 2 * k <= m <= 2 * k + 1;
    var n := if i < k then 2 else 0;
    assert GutterFrame(i, m) == ZeroFrame(i == MaxFrameCount - 1, n) == GutterFrame(i, m + 1);
    ZeroFrameFacts(i == MaxFrameCount - 1, n);
  }

  /** Every frame but the current one, offered a roll of 0. */
  lemma GutterOthersOffered(m: nat)
    requires m < 2 * MaxFrameCount
    ensures var g, next := GutterGame(m), GutterGame(m + 1);
            forall i {:trigger OfferBonus(g.frames[i], 0)} ::
              0 <= i < MaxFrameCount && i != g.currentFrameIndex ==>
              OfferBonus(g.frames[i], 0) == next.frames[i]
  {
    var g, next := GutterGame(m), GutterGame(m + 1);
    GutterFramesAt(m, MaxFrameCount);
    GutterFramesAt(m + 1, MaxFrameCount);
    forall i | 0 <= i < MaxFrameCount && i != g.currentFrameIndex
      ensures OfferBonus(g.frames[i], 0) == next.frames[i]
    {
      GutterFrameOffered(i, m);
    }
  }

  /** A roll of 0 goes to the current frame of the gutter game, which is
      not offered it, and passes the too-many-pins check. */
  lemma GutterCurrentFrame(m: nat)
    requires m < 2 * MaxFrameCount
    ensures var k := m / 2;
            k < MaxFrameCount &&
            OfferBonus(GutterFrame(k, m), 0) == GutterFrame(k, m) &&
            GutterFrame(k, m).Rolled(0) == GutterFrame(k, m + 1) &&
            CheckIfTooManyPins(k == MaxFrameCount - 1, GutterFrame(k, m + 1).rolls) == Pass &&
            (GutterFrame(k, m + 1).Finished() <==> m == 2 * k + 1)
  {
    var k := m / 2;
    var tenth := k == MaxFrameCount - 1;
    var n := m - 2 * k;
    assert n == 0 || n == 1;
    var f, h := ZeroFrame(tenth, n), ZeroFrame(tenth, n + 1);
    assert GutterFrame(k, m) == f && GutterFrame(k, m + 1) == h;
    assert OfferBonus(f, 0) == f by {
      ZeroFrameFacts(tenth, n);
    }
    assert f.Rolled(0) == h && CheckIfTooManyPins(tenth, h.rolls) == Pass by {
      ZeroFrameRolled(tenth, n);
    }
    assert h.Finished() <==> n + 1 == 2 by {
      ZeroFrameFacts(tenth, n + 1);
    }
  }

  /** The tenth frame stays open until the last roll of the game. */
  lemma GutterTenthOpen(m: nat)
    requires m < 2 * MaxFrameCount
    ensures !GutterFrame(MaxFrameCount - 1, m).Finished()
  {
    var last := Clamp(m - 2 * (MaxFrameCount - 1), 2);
    assert !ZeroFrame(true, last).Finished() by {
      assert last < 2;
      ZeroFrameFacts(true, last);
    }
    assert GutterFrame(MaxFrameCount - 1, m) == ZeroFrame(true, last);
  }

  /** The tenth frame of the gutter game stays open until its last roll. */
  lemma GutterTenthOpenInGame(m: nat)
    requires m < 2 * MaxFrameCount
    ensures !GutterGame(m).frames[MaxFrameCount - 1].Finished()
  {
    GutterFramesAt(m, MaxFrameCount);
    GutterTenthOpen(m);
  }

  /** The current frame of the gutter game takes the roll. */
  lemma GutterCurrentInGame(m: nat)
    requires m < 2 * MaxFrameCount
    ensures var g, next := GutterGame(m), GutterGame(m + 1);
            var k := g.currentFrameIndex;
            OfferBonus(g.frames[k], 0) == g.frames[k] &&
            g.frames[k].Rolled(0) == next.frames[k] &&
            CheckIfTooManyPins(next.frames[k].isTenthFrame, next.frames[k].rolls) == Pass &&
            next.currentFrameIndex == NextFrameIndex(next.frames, k)
  {
    var k := m / 2;
    GutterFramesAt(m, MaxFrameCount);
    GutterFramesAt(m + 1, MaxFrameCount);
    assert GutterGame(m).frames[k] == GutterFrame(k, m);
    assert GutterGame(m + 1).frames[k] == GutterFrame(k, m + 1);
    GutterCurrentFrame(m);
    HalfStep(m);
  }

  /** A roll of 0 in the gutter game, frame by frame. */
  lemma GutterStepsTo(m: nat)
    requires m < 2 * MaxFrameCount
    ensures StepsTo(GutterGame(m), 0, GutterGame(m + 1), Pass)
  {
    GutterOthersOffered(m);
    GutterTenthOpenInGame(m);
    GutterCurrentInGame(m);
  }

  /** One roll of 0 moves the gutter game on by one roll, successfully. */
  lemma GutterStep(m: nat)
    requires m < 2 * MaxFrameCount
    ensures RollGame(GutterGame(m), 0) == Step(Pass, GutterGame(m + 1))
  {
    GutterStepsTo(m);
    RollStep(GutterGame(m), 0, GutterGame(m + 1), Pass);
  }

  /** Before any roll, the gutter game is a new game. */
  lemma GutterStart()
    ensures GutterGame(0) == NewGame()
  {
    GutterFramesAt(0, MaxFrameCount);
    forall i | 0 <= i < MaxFrameCount
      ensures GutterGame(0).frames[i] == NewGame().frames[i]
    {
      assert Repeat(0, 0) == [];
      assert NewGame().frames[i] == NewFrameState(i == MaxFrameCount - 1);
    }
  }

  /** The gutter game after each of the first `n` rolls and before them. */
  function GutterStates(n: nat): (r: seq<GameState>)
    ensures |r| == n + 1
  {
    seq(n + 1, j requires 0 <= j => GutterGame(j))
  }

  /** Each of the first `n` rolls of 0 moves the gutter game on by one. */
  lemma GutterMoves(n: nat)
    requires n <= 2 * MaxFrameCount
    ensures Moves(GutterStates(n), Passes(n), 0)
  {
    var states, outcomes := GutterStates(n), Passes(n);
    forall j | 0 <= j < n
      ensures 0 <= states[j].currentFrameIndex < |states[j].frames|
      ensures RollGame(states[j], 0) == Step(outcomes[j], states[j + 1])
    {
      GutterStep(j);
    }
  }

  /** Twenty rolls of 0 from a new game pass through the gutter game. */
  lemma GutterPlayed()
    ensures Framed(NewGame())
    ensures Play(NewGame(), Repeat(2 * MaxFrameCount, 0)) ==
            Trace(Passes(2 * MaxFrameCount), GutterGame(2 * MaxFrameCount))
  {
    GutterStart();
    GutterMoves(2 * MaxFrameCount);
    PlayRun(GutterStates(2 * MaxFrameCount), Passes(2 * MaxFrameCount), 0);
  }

  /** After twenty rolls of 0 every frame is finished and scores 0. */
  lemma GutterGameOver()
    ensures var g := GutterGame(2 * MaxFrameCount);
            0 <= g.currentFrameIndex < |g.frames| &&
            GameScore(g) == Success(0) &&
            RollGame(g, 0).outcome == Fail(GameIsOver)
  {
    var g := GutterGame(2 * MaxFrameCount);
    GutterFramesAt(2 * MaxFrameCount, MaxFrameCount);
    forall i | 0 <= i < MaxFrameCount
      ensures g.frames[i].Score() == 0 && g.frames[i].Finished()
    {
      assert g.frames[i] == ZeroFrame(i == MaxFrameCount - 1, 2);
      ZeroFrameFacts(i == MaxFrameCount - 1, 2);
    }
    TotalScoreOfEqualFrames(g.frames, 0);
  }

  /** Twenty rolls of 0 from a new game all succeed and score 0, and the
      game is then over. */
  lemma GutterGameScoresZero()
    ensures Framed(NewGame())
    ensures var t := Play(NewGame(), Repeat(2 * MaxFrameCount, 0));
            (forall i :: 0 <= i < |t.outcomes| ==> t.outcomes[i] == Pass) &&
            GameScore(t.state) == Success(0) &&
            RollGame(t.state, 0).outcome == Fail(GameIsOver)
  {
    GutterPlayed();
    GutterGameOver();
  }

  // The all-spares game.

  /** A frame holding `n` rolls of 5, credited its spare bonus of 5 or not. */
  function FiveFrame(isTenthFrame: bool, n: nat, credited: bool): FrameState
  {
    FrameState(isTenthFrame, Repeat(n, 5), 0, if credited then 5 else 0,
               0, if credited then 1 else 0, n == 1 || credited)
  }

  /** Frame `i` after `m` rolls of 5: a frame before the tenth is credited
      its spare bonus by the roll after its second. */
  function SpareFrame(i: int, m: nat): FrameState
  {
    if i < MaxFrameCount - 1 then FiveFrame(false, Clamp(m - 2 * i, 2), m >= 2 * i + 3)
    else FiveFrame(true, Clamp(m - 2 * i, 3), false)
  }

  /** Frames 0 to `n - 1` of the all-spares game after `m` rolls. */
  function SpareFrames(m: nat, n: nat): (r: seq<FrameState>)
    ensures |r| == n
  {
    if n == 0 then [] else SpareFrames(m, n - 1) + [SpareFrame(n - 1, m)]
  }

  lemma {:induction false} SpareFramesAt(m: nat, n: nat)
    ensures forall i :: 0 <= i < n ==> SpareFrames(m, n)[i] == SpareFrame(i, m)
  {
    if n > 0 {
      SpareFramesAt(m, n - 1);
    }
  }

  /** The all-spares game after `m` rolls of 5. */
  function SpareGame(m: nat): GameState
  {
    GameState(SpareFrames(m, MaxFrameCount), Capped(m / 2))
  }

  lemma FiveFrameFacts(isTenthFrame: bool, n: nat, credited: bool)
    requires n <= 3
    ensures FiveFrame(isTenthFrame, n, credited).Finished() <==> n == if isTenthFrame then 3 else 2
    ensures FiveFrame(isTenthFrame, n, credited).Score() == 5 * n + if credited then 5 else 0
  {
    RepeatFacts(n, 5);
  }

  lemma FiveFrameCredited()
    ensures OfferBonus(FiveFrame(false, 2, false), 5) == FiveFrame(false, 2, true)
    ensures OfferBonus(FiveFrame(false, 2, true), 5) == FiveFrame(false, 2, true)
  {
    RepeatFacts(2, 5);
  }

  lemma FiveFrameRolled(isTenthFrame: bool, n: nat)
    requires n < if isTenthFrame then 3 else 2
    ensures FiveFrame(isTenthFrame, n, false).Rolled(5) == FiveFrame(isTenthFrame, n + 1, false)
    ensures CheckIfTooManyPins(isTenthFrame, Repeat(n + 1, 5)) == Pass
  {
    assert FiveFrame(isTenthFrame, n, false).Rolled(5) == FiveFrame(isTenthFrame, n + 1, false) by {
      RepeatFacts(n, 5);
      RepeatFacts(n + 1, 5);
    }
    assert CheckIfTooManyPins(isTenthFrame, Repeat(n + 1, 5)) == Pass by {
      RepeatFacts(n + 1, 5);
      RepeatLastTwo(n + 1, 5);
    }
  }

  /** What a roll of 5 does to a frame of the all-spares game other than
      the current one: the frame just completed is credited its bonus. */
  lemma SpareFrameOffered(i: nat, m: nat)
    requires i < MaxFrameCount && i != Capped(m / 2) && m < 2 * MaxFrameCount + 1
    ensures OfferBonus(SpareFrame(i, m), 5) == SpareFrame(i, m + 1)
  {
    var k := m / 2;
    assert 2 * k <= m <= 2 * k + 1;
    if i < k {
      assert i < MaxFrameCount - 1 && m >= 2 * i + 2;
      if m == 2 * i + 2 {
        assert SpareFrame(i, m) == FiveFrame(false, 2, false);
      } else {
        assert SpareFrame(i, m) == FiveFrame(false, 2, true);
      }
      assert SpareFrame(i, m + 1) == FiveFrame(false, 2, true);
      FiveFrameCredited();
    } else {
      assert m < 2 * i;
      var f := FiveFrame(i == MaxFrameCount - 1, 0, false);
      assert SpareFrame(i, m) == f && SpareFrame(i, m + 1) == f;
      FiveFrameFacts(i == MaxFrameCount - 1, 0, false);
    }
  }

  /** Every frame but the current one, offered a roll of 5. */
  lemma SpareOthersOffered(m: nat)
    requires m < 2 * MaxFrameCount + 1
    ensures var g, next := SpareGame(m), SpareGame(m + 1);
            forall i {:trigger OfferBonus(g.frames[i], 5)} ::
              0 <= i < MaxFrameCount && i != g.currentFrameIndex ==>
              OfferBonus(g.frames[i], 5) == next.frames[i]
  {
    var g, next := SpareGame(m), SpareGame(m + 1);
    SpareFramesAt(m, MaxFrameCount);
    SpareFramesAt(m + 1, MaxFrameCount);
    forall i | 0 <= i < MaxFrameCount && i != g.currentFrameIndex
      ensures OfferBonus(g.frames[i], 5) == next.frames[i]
    {
      SpareFrameOffered(i, m);
    }
  }

  /** A roll of 5 goes to the current frame of the all-spares game, which
      is not offered it, and passes the too-many-pins check. */
  lemma SpareCurrentFrame(m: nat)
    requires m < 2 * MaxFrameCount + 1
    ensures var k := Capped(m / 2);
            OfferBonus(SpareFrame(k, m), 5) == SpareFrame(k, m) &&
            SpareFrame(k, m).Rolled(5) == SpareFrame(k, m + 1) &&
            CheckIfTooManyPins(k == MaxFrameCount - 1, SpareFrame(k, m + 1).rolls) == Pass
  {
    var k := Capped(m / 2);
    var tenth := k == MaxFrameCount - 1;
    var n := m - 2 * k;
    assert 0 <= n < if tenth then 3 else 2;
    var f, h := FiveFrame(tenth, n, false), FiveFrame(tenth, n + 1, false);
    assert SpareFrame(k, m) == f && SpareFrame(k, m + 1) == h;
    FiveFrameFacts(tenth, n, false);
    FiveFrameRolled(tenth, n);
  }

  /** The roll of 5 finishes the current frame of the all-spares game on
      its second roll, or on the third in the tenth frame. */
  lemma SpareCurrentFinished(m: nat)
    requires m < 2 * MaxFrameCount + 1
    ensures var k := Capped(m / 2);
            SpareFrame(k, m + 1).Finished() <==>
              (k < MaxFrameCount - 1 && m == 2 * k + 1) || m == 2 * MaxFrameCount
  {
    var k := Capped(m / 2);
    var tenth := k == MaxFrameCount - 1;
    var n := m - 2 * k;
    assert 0 <= n < if tenth then 3 else 2;
    assert SpareFrame(k, m + 1) == FiveFrame(tenth, n + 1, false);
    FiveFrameFacts(tenth, n + 1, false);
  }

  /** The tenth frame stays open until the last roll of the game. */
  lemma SpareTenthOpen(m: nat)
    requires m < 2 * MaxFrameCount + 1
    ensures !SpareFrame(MaxFrameCount - 1, m).Finished()
  {
    var last := Clamp(m - 2 * (MaxFrameCount - 1), 3);
    assert !FiveFrame(true, last, false).Finished() by {
      assert last < 3;
      FiveFrameFacts(true, last, false);
    }
    assert SpareFrame(MaxFrameCount - 1, m) == FiveFrame(true, last, false);
  }

  /** The tenth frame of the all-spares game stays open until its last roll. */
  lemma SpareTenthOpenInGame(m: nat)
    requires m < 2 * MaxFrameCount + 1
    ensures !SpareGame(m).frames[MaxFrameCount - 1].Finished()
  {
    SpareFramesAt(m, MaxFrameCount);
    SpareTenthOpen(m);
  }

  /** The current frame of the all-spares game takes the roll. */
  lemma SpareCurrentInGame(m: nat)
    requires m < 2 * MaxFrameCount + 1
    ensures var g, next := SpareGame(m), SpareGame(m + 1);
            var k := g.currentFrameIndex;
            OfferBonus(g.frames[k], 5) == g.frames[k] &&
            g.frames[k].Rolled(5) == next.frames[k] &&
            CheckIfTooManyPins(next.frames[k].isTenthFrame, next.frames[k].rolls) == Pass &&
            next.currentFrameIndex == NextFrameIndex(next.frames, k)
  {
    var k := Capped(m / 2);
    SpareFramesAt(m, MaxFrameCount);
    SpareFramesAt(m + 1, MaxFrameCount);
    assert SpareGame(m).frames[k] == SpareFrame(k, m);
    assert SpareGame(m + 1).frames[k] == SpareFrame(k, m + 1);
    SpareCurrentFrame(m);
    SpareCurrentFinished(m);
    HalfStep(m);
  }

  /** A roll of 5 in the all-spares game, frame by frame. */
  lemma SpareStepsTo(m: nat)
    requires m < 2 * MaxFrameCount + 1
    ensures StepsTo(SpareGame(m), 5, SpareGame(m + 1), Pass)
  {
    SpareOthersOffered(m);
    SpareTenthOpenInGame(m);
    SpareCurrentInGame(m);
  }

  /** One roll of 5 moves the all-spares game on by one roll, successfully. */
  lemma SpareStep(m: nat)
    requires m < 2 * MaxFrameCount + 1
    ensures RollGame(SpareGame(m), 5) == Step(Pass, SpareGame(m + 1))
  {
    SpareStepsTo(m);
    RollStep(SpareGame(m), 5, SpareGame(m + 1), Pass);
  }

  /** Before any roll, the all-spares game is a new game. */
  lemma SparesStart()
    ensures SpareGame(0) == NewGame()
  {
    SpareFramesAt(0, MaxFrameCount);
    forall i | 0 <= i < MaxFrameCount
      ensures SpareGame(0).frames[i] == NewGame().frames[i]
    {
      assert Repeat(0, 5) == [];
      assert NewGame().frames[i] == NewFrameState(i == MaxFrameCount - 1);
    }
  }

  /** The all-spares game after each of the first `n` rolls and before them. */
  function SpareStates(n: nat): (r: seq<GameState>)
    ensures |r| == n + 1
  {
    seq(n + 1, j requires 0 <= j => SpareGame(j))
  }

  /** Each of the first `n` rolls of 5 moves the all-spares game on by one. */
  lemma SparesMoves(n: nat)
    requires n <= 2 * MaxFrameCount + 1
    ensures Moves(SpareStates(n), Passes(n), 5)
  {
    var states, outcomes := SpareStates(n), Passes(n);
    forall j | 0 <= j < n
      ensures 0 <= states[j].currentFrameIndex < |states[j].frames|
      ensures RollGame(states[j], 5) == Step(outcomes[j], states[j + 1])
    {
      SpareStep(j);
    }
  }

  /** Twenty-one rolls of 5 from a new game pass through the all-spares
      game. */
  lemma SparesPlayed()
    ensures Framed(NewGame())
    ensures Play(NewGame(), Repeat(2 * MaxFrameCount + 1, 5)) ==
            Trace(Passes(2 * MaxFrameCount + 1), SpareGame(2 * MaxFrameCount + 1))
  {
    SparesStart();
    SparesMoves(2 * MaxFrameCount + 1);
    PlayRun(SpareStates(2 * MaxFrameCount + 1), Passes(2 * MaxFrameCount + 1), 5);
  }

  /** After twenty-one rolls of 5 every frame is finished and scores 15. */
  lemma SparesGameOver()
    ensures var g := SpareGame(2 * MaxFrameCount + 1);
            0 <= g.currentFrameIndex < |g.frames| &&
            GameScore(g) == Success(150) &&
            RollGame(g, 5).outcome == Fail(GameIsOver)
  {
    var g := SpareGame(2 * MaxFrameCount + 1);
    SpareFramesAt(2 * MaxFrameCount + 1, MaxFrameCount);
    forall i | 0 <= i < MaxFrameCount
      ensures g.frames[i].Score() == 15 && g.frames[i].Finished()
    {
      if i < MaxFrameCount - 1 {
        assert g.frames[i] == FiveFrame(false, 2, true);
        FiveFrameFacts(false, 2, true);
      } else {
        assert g.frames[i] == FiveFrame(true, 3, false);
        FiveFrameFacts(true, 3, false);
      }
    }
    TotalScoreOfEqualFrames(g.frames, 15);
  }

  /** Twenty-one rolls of 5 from a new game (a spare in every frame and a
      bonus roll in the tenth) all succeed and score 150, and the game is
      then over. */
  lemma AllSparesScores150()
    ensures Framed(NewGame())
    ensures var t := Play(NewGame(), Repeat(2 * MaxFrameCount + 1, 5));
            (forall i :: 0 <= i < |t.outcomes| ==> t.outcomes[i] == Pass) &&
            GameScore(t.state) == Success(150) &&
            RollGame(t.state, 5).outcome == Fail(GameIsOver)
  {
    SparesPlayed();
    SparesGameOver();
  }

  // The perfect game.

  /** A frame before the tenth holding `n` rolls of 10 and credited `c`
      strike bonuses of 10. */
  function StrikeFrame(n: nat, c: nat): FrameState
  {
    FrameState(false, Repeat(n, 10), 10 * c, 0, c, 0, c == 2)
  }

  /** The tenth frame holding `n` rolls of 10. */
  function TenthOfTens(n: nat): FrameState
  {
    FrameState(true, Repeat(n, 10), 0, 0, 0, 0, false)
  }

  /** Frame `i` after `m` rolls of 10: a frame before the tenth is a strike
      credited with the next two rolls; the tenth frame collects rolls and
      no bonus. */
  function PerfectFrame(i: int, m: nat): FrameState
  {
    if i < MaxFrameCount - 1 then StrikeFrame(Clamp(m - i, 1), Clamp(m - i - 1, 2))
    else TenthOfTens(Clamp(m - i, 3))
  }

  /** The outcome of roll `m` of the perfect game: only the twelfth is
      refused. */
  function PerfectOutcome(m: nat): Outcome
  {
    if m == MaxFrameCount + 1 then Fail(TooManyPinsInFrame) else Pass
  }

  /** Frames 0 to `n - 1` of the perfect game after `m` rolls. */
  function PerfectFrames(m: nat, n: nat): (r: seq<FrameState>)
    ensures |r| == n
  {
    if n == 0 then [] else PerfectFrames(m, n - 1) + [PerfectFrame(n - 1, m)]
  }

  lemma {:induction false} PerfectFramesAt(m: nat, n: nat)
    ensures forall i :: 0 <= i < n ==> PerfectFrames(m, n)[i] == PerfectFrame(i, m)
  {
    if n > 0 {
      PerfectFramesAt(m, n - 1);
    }
  }

  /** The perfect game after `m` rolls of 10. */
  function PerfectGame(m: nat): GameState
  {
    GameState(PerfectFrames(m, MaxFrameCount), Capped(m))
  }

  lemma StrikeFrameFacts(n: nat, c: nat)
    requires n <= 1 && c <= 2 && (c > 0 ==> n == 1)
    ensures StrikeFrame(n, c).Finished() <==> n == 1
    ensures StrikeFrame(n, c).Score() == 10 * n + 10 * c
    ensures OfferBonus(StrikeFrame(n, c), 10) ==
            if n == 1 && c < 2 then StrikeFrame(1, c + 1) else StrikeFrame(n, c)
  {
    RepeatFacts(n, 10);
  }

  lemma StrikeFrameRolled()
    ensures StrikeFrame(0, 0).Rolled(10) == StrikeFrame(1, 0)
    ensures CheckIfTooManyPins(false, Repeat(1, 10)) == Pass
  {
    RepeatFacts(0, 10);
    RepeatFacts(1, 10);
    RepeatLastTwo(1, 10);
  }

  lemma TenthOfTensFacts(n: nat)
    requires n <= 3
    ensures TenthOfTens(n).Finished() <==> n == 3
    ensures TenthOfTens(n).Score() == 10 * n
  {
    RepeatFacts(n, 10);
  }

  lemma TenthOfTensRolled(n: nat)
    requires n < 3
    ensures TenthOfTens(n).Rolled(10) == TenthOfTens(n + 1)
    ensures CheckIfTooManyPins(true, Repeat(n + 1, 10)) ==
            if n + 1 == 3 then Fail(TooManyPinsInFrame) else Pass
  {
    assert TenthOfTens(n).Rolled(10) == TenthOfTens(n + 1) by {
      RepeatFacts(n, 10);
      RepeatFacts(n + 1, 10);
    }
    assert CheckIfTooManyPins(true, Repeat(n + 1, 10)) ==
           if n + 1 == 3 then Fail(TooManyPinsInFrame) else Pass by {
      RepeatFacts(n + 1, 10);
      RepeatLastTwo(n + 1, 10);
      assert Repeat(n + 1, 10)[0] == MaxPinsCount;
    }
  }

  /** What a roll of 10 does to a frame of the perfect game other than the
      current one: a strike still owed a bonus is credited it. */
  lemma PerfectFrameOffered(i: nat, m: nat)
    requires i < MaxFrameCount && i != Capped(m) && m < MaxFrameCount + 2
    ensures OfferBonus(PerfectFrame(i, m), 10) == PerfectFrame(i, m + 1)
  {
    if i < Capped(m) {
      var c := if m == i + 1 then 0 else if m == i + 2 then 1 else 2;
      assert PerfectFrame(i, m) == StrikeFrame(1, c);
      assert PerfectFrame(i, m + 1) == StrikeFrame(1, if c < 2 then c + 1 else 2);
      StrikeFrameFacts(1, c);
    } else if i < MaxFrameCount - 1 {
      assert PerfectFrame(i, m) == StrikeFrame(0, 0) == PerfectFrame(i, m + 1);
      StrikeFrameFacts(0, 0);
    } else {
      assert PerfectFrame(i, m) == TenthOfTens(0) == PerfectFrame(i, m + 1);
      TenthOfTensFacts(0);
    }
  }

  /** Every frame but the current one, offered a roll of 10. */
  lemma PerfectOthersOffered(m: nat)
    requires m < MaxFrameCount + 2
    ensures var g, next := PerfectGame(m), PerfectGame(m + 1);
            forall i {:trigger OfferBonus(g.frames[i], 10)} ::
              0 <= i < MaxFrameCount && i != g.currentFrameIndex ==>
              OfferBonus(g.frames[i], 10) == next.frames[i]
  {
    var g, next := PerfectGame(m), PerfectGame(m + 1);
    PerfectFramesAt(m, MaxFrameCount);
    PerfectFramesAt(m + 1, MaxFrameCount);
    forall i | 0 <= i < MaxFrameCount && i != g.currentFrameIndex
      ensures OfferBonus(g.frames[i], 10) == next.frames[i]
    {
      PerfectFrameOffered(i, m);
    }
  }

  /** A roll of 10 goes to the current frame of the perfect game, which is
      not offered it; the too-many-pins check fails only on the twelfth. */
  lemma PerfectCurrentFrame(m: nat)
    requires m < MaxFrameCount + 2
    ensures var k := Capped(m);
            OfferBonus(PerfectFrame(k, m), 10) == PerfectFrame(k, m) &&
            PerfectFrame(k, m).Rolled(10) == PerfectFrame(k, m + 1) &&
            CheckIfTooManyPins(k == MaxFrameCount - 1, PerfectFrame(k, m + 1).rolls) ==
              (if m == MaxFrameCount + 1 then Fail(TooManyPinsInFrame) else Pass) &&
            (PerfectFrame(k, m + 1).Finished() <==> k < MaxFrameCount - 1 || m == MaxFrameCount + 1)
  {
    var k := Capped(m);
    if k < MaxFrameCount - 1 {
      var f, h := StrikeFrame(0, 0), StrikeFrame(1, 0);
      assert PerfectFrame(k, m) == f && PerfectFrame(k, m + 1) == h;
      assert OfferBonus(f, 10) == f by {
        StrikeFrameFacts(0, 0);
      }
      assert h.Finished() by {
        StrikeFrameFacts(1, 0);
      }
      assert f.Rolled(10) == h && CheckIfTooManyPins(false, h.rolls) == Pass by {
        StrikeFrameRolled();
      }
    } else {
      var n := m - k;
      var f, h := TenthOfTens(n), TenthOfTens(n + 1);
      assert PerfectFrame(k, m) == f && PerfectFrame(k, m + 1) == h;
      assert OfferBonus(f, 10) == f by {
        TenthOfTensFacts(n);
      }
      assert h.Finished() <==> n + 1 == 3 by {
        TenthOfTensFacts(n + 1);
      }
      assert f.Rolled(10) == h &&
             CheckIfTooManyPins(true, h.rolls) == if n + 1 == 3 then Fail(TooManyPinsInFrame) else Pass by {
        TenthOfTensRolled(n);
      }
    }
  }

  /** The tenth frame stays open until the last roll of the game. */
  lemma PerfectTenthOpen(m: nat)
    requires m < MaxFrameCount + 2
    ensures !PerfectFrame(MaxFrameCount - 1, m).Finished()
  {
    var last := Clamp(m - (MaxFrameCount - 1), 3);
    assert !TenthOfTens(last).Finished() by {
      assert last < 3;
      TenthOfTensFacts(last);
    }
    assert PerfectFrame(MaxFrameCount - 1, m) == TenthOfTens(last);
  }

  /** The tenth frame of the perfect game stays open until its last roll. */
  lemma PerfectTenthOpenInGame(m: nat)
    requires m < MaxFrameCount + 2
    ensures !PerfectGame(m).frames[MaxFrameCount - 1].Finished()
  {
    PerfectFramesAt(m, MaxFrameCount);
    PerfectTenthOpen(m);
  }

  /** The current frame of the perfect game takes the roll. */
  lemma PerfectCurrentInGame(m: nat)
    requires m < MaxFrameCount + 2
    ensures var g, next := PerfectGame(m), PerfectGame(m + 1);
            var k := g.currentFrameIndex;
            OfferBonus(g.frames[k], 10) == g.frames[k] &&
            g.frames[k].Rolled(10) == next.frames[k] &&
            PerfectOutcome(m) == CheckIfTooManyPins(next.frames[k].isTenthFrame, next.frames[k].rolls) &&
            next.currentFrameIndex == if PerfectOutcome(m).Pass? then NextFrameIndex(next.frames, k) else k
  {
    var k := Capped(m);
    PerfectFramesAt(m, MaxFrameCount);
    PerfectFramesAt(m + 1, MaxFrameCount);
    assert PerfectGame(m).frames[k] == PerfectFrame(k, m);
    assert PerfectGame(m + 1).frames[k] == PerfectFrame(k, m + 1);
    PerfectCurrentFrame(m);
  }

  /** A roll of 10 in the perfect game, frame by frame. */
  lemma PerfectStepsTo(m: nat)
    requires m < MaxFrameCount + 2
    ensures StepsTo(PerfectGame(m), 10, PerfectGame(m + 1), PerfectOutcome(m))
  {
    PerfectOthersOffered(m);
    PerfectTenthOpenInGame(m);
    PerfectCurrentInGame(m);
  }

  /** One roll of 10 moves the perfect game on by one roll; the twelfth is
      refused by the tenth-frame check although it is recorded. */
  lemma PerfectStep(m: nat)
    requires m < MaxFrameCount + 2
    ensures RollGame(PerfectGame(m), 10) == Step(PerfectOutcome(m), PerfectGame(m + 1))
  {
    PerfectStepsTo(m);
    RollStep(PerfectGame(m), 10, PerfectGame(m + 1), PerfectOutcome(m));
  }

  /** Before any roll, the perfect game is a new game. */
  lemma PerfectStart()
    ensures PerfectGame(0) == NewGame()
  {
    PerfectFramesAt(0, MaxFrameCount);
    forall i | 0 <= i < MaxFrameCount
      ensures PerfectGame(0).frames[i] == NewGame().frames[i]
    {
      assert Repeat(0, 10) == [];
      assert NewGame().frames[i] == NewFrameState(i == MaxFrameCount - 1);
    }
  }

  /** The perfect game after each of the first `n` rolls and before them. */
  function PerfectStates(n: nat): (r: seq<GameState>)
    ensures |r| == n + 1
  {
    seq(n + 1, j requires 0 <= j => PerfectGame(j))
  }

  /** The outcomes of the first `n` rolls of 10. */
  function PerfectOutcomes(n: nat): (r: seq<Outcome>)
    ensures |r| == n && forall j :: 0 <= j < n ==> r[j] == PerfectOutcome(j)
  {
    seq(n, j requires 0 <= j => PerfectOutcome(j))
  }

  /** Each of the first `n` rolls of 10 moves the perfect game on by one. */
  lemma PerfectMoves(n: nat)
    requires n <= MaxFrameCount + 2
    ensures Moves(PerfectStates(n), PerfectOutcomes(n), 10)
  {
    var states, outcomes := PerfectStates(n), PerfectOutcomes(n);
    forall j | 0 <= j < n
      ensures 0 <= states[j].currentFrameIndex < |states[j].frames|
      ensures RollGame(states[j], 10) == Step(outcomes[j], states[j + 1])
    {
      PerfectStep(j);
    }
  }

  /** Eleven successes, then `tooManyPinsInFrame`. */
  lemma PerfectOutcomesSpelled()
    ensures PerfectOutcomes(MaxFrameCount + 2) ==
            Passes(MaxFrameCount + 1) + [Fail(TooManyPinsInFrame)]
  {
    var r, s := PerfectOutcomes(MaxFrameCount + 2), Passes(MaxFrameCount + 1) + [Fail(TooManyPinsInFrame)];
    forall j | 0 <= j < MaxFrameCount + 2
      ensures r[j] == s[j]
    {
    }
  }

  /** Twelve rolls of 10 from a new game pass through the perfect game. */
  lemma PerfectPlayed()
    ensures Framed(NewGame())
    ensures Play(NewGame(), Repeat(MaxFrameCount + 2, 10)) ==
            Trace(Passes(MaxFrameCount + 1) + [Fail(TooManyPinsInFrame)],
                  PerfectGame(MaxFrameCount + 2))
  {
    PerfectStart();
    PerfectMoves(MaxFrameCount + 2);
    PlayRun(PerfectStates(MaxFrameCount + 2), PerfectOutcomes(MaxFrameCount + 2), 10);
    PerfectOutcomesSpelled();
  }

  /** After twelve rolls of 10 every frame is finished and scores 30. */
  lemma PerfectGameOver()
    ensures var g := PerfectGame(MaxFrameCount + 2);
            0 <= g.currentFrameIndex < |g.frames| &&
            GameScore(g) == Success(300) &&
            RollGame(g, 10).outcome == Fail(GameIsOver)
  {
    var g := PerfectGame(MaxFrameCount + 2);
    PerfectFramesAt(MaxFrameCount + 2, MaxFrameCount);
    forall i | 0 <= i < MaxFrameCount
      ensures g.frames[i].Score() == 30 && g.frames[i].Finished()
    {
      if i < MaxFrameCount - 1 {
        assert g.frames[i] == StrikeFrame(1, 2);
        StrikeFrameFacts(1, 2);
      } else {
        assert g.frames[i] == TenthOfTens(3);
        TenthOfTensFacts(3);
      }
    }
    TotalScoreOfEqualFrames(g.frames, 30);
  }

  /** Twelve rolls of 10 from a new game: the first eleven succeed, the
      twelfth is refused with `tooManyPinsInFrame`, yet it is recorded, so
      the game is over and the score reads 300. */
  lemma PerfectGameTwelfthRollRefused()
    ensures Framed(NewGame())
    ensures var t := Play(NewGame(), Repeat(MaxFrameCount + 2, 10));
            (forall i :: 0 <= i < MaxFrameCount + 1 ==> t.outcomes[i] == Pass) &&
            t.outcomes[MaxFrameCount + 1] == Fail(TooManyPinsInFrame) &&
            GameScore(t.state) == Success(300) &&
            RollGame(t.state, 10).outcome == Fail(GameIsOver)
  {
    PerfectPlayed();
    PerfectTrace(Play(NewGame(), Repeat(MaxFrameCount + 2, 10)));
  }

  /** What the trace of the perfect game says, roll by roll. */
  lemma PerfectTrace(t: Trace)
    requires t == Trace(Passes(MaxFrameCount + 1) + [Fail(TooManyPinsInFrame)],
                        PerfectGame(MaxFrameCount + 2))
    ensures (forall i :: 0 <= i < MaxFrameCount + 1 ==> t.outcomes[i] == Pass) &&
            t.outcomes[MaxFrameCount + 1] == Fail(TooManyPinsInFrame) &&
            GameScore(t.state) == Success(300) &&
            RollGame(t.state, 10).outcome == Fail(GameIsOver)
  {
    PerfectGameOver();
    var passes := Passes(MaxFrameCount + 1);
    forall i | 0 <= i < MaxFrameCount + 1
      ensures t.outcomes[i] == Pass
    {
      assert t.outcomes[i] == passes[i];
    }
  }
}
