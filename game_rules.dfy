/** The game as a pure state machine over frame snapshots: what one roll and
    one score query do to the ten frames and the index of the current frame. */
module GameRules {
  import opened BowlingErrors
  import opened FrameRules

  /** A game has ten frames; the last of them is the tenth frame. */
  const MaxFrameCount := 10

  datatype GameState = GameState(frames: seq<FrameState>, currentFrameIndex: int)

  /** The outcome of one roll together with the game it leaves behind. */
  datatype Step = Step(outcome: Outcome, state: GameState)

  /** The game as constructed by default: ten new frames, of which only the
      one at index 9 is the tenth frame, and frame 0 in progress. */
  function NewGame(): (g: GameState)
    ensures |g.frames| == MaxFrameCount && g.currentFrameIndex == 0
    ensures forall i :: 0 <= i < |g.frames| ==>
              g.frames[i].isTenthFrame == (i == MaxFrameCount - 1) && g.frames[i].rolls == []
  {
    var frames := seq(MaxFrameCount, i => NewFrameState(i == MaxFrameCount - 1));
    assert forall i :: 0 <= i < |frames| ==> frames[i] == NewFrameState(i == MaxFrameCount - 1);
    GameState(frames, 0)
  }

  /** How many frames are finished, like `filter { $0.isFinished }.count`. */
  function FinishedCount(frames: seq<FrameState>): (n: nat)
    ensures n <= |frames|
    ensures n == |frames| <==> forall i :: 0 <= i < |frames| ==> frames[i].Finished()
  {
    if frames == [] then 0
    else
      var last := frames[|frames| - 1];
      FinishedCount(frames[..|frames| - 1]) + if last.Finished() then 1 else 0
  }

  /** Rolling is refused once all ten frames are finished. */
  function CheckIfGameIsOver(frames: seq<FrameState>): (o: Outcome)
    ensures o.Fail? ==> o.error == GameIsOver
    ensures |frames| == MaxFrameCount ==>
              (o.Fail? <==> forall i :: 0 <= i < |frames| ==> frames[i].Finished())
  {
    if FinishedCount(frames) == MaxFrameCount then Fail(GameIsOver) else Pass
  }

  /** Scoring is refused while the current frame is not finished. */
  function CheckIfGameIsInProgress(g: GameState): (o: Outcome)
    requires 0 <= g.currentFrameIndex < |g.frames|
    ensures o.Fail? <==> !g.frames[g.currentFrameIndex].Finished()
    ensures o.Fail? ==> o.error == GameInProgress
  {
    if g.frames[g.currentFrameIndex].Finished() then Pass else Fail(GameInProgress)
  }

  /** What the game does to one frame before recording a roll: a finished
      frame whose score is not yet settled is offered the pins as a spare
      bonus and then as a strike bonus. */
  function OfferBonus(f: FrameState, pins: int): (r: FrameState)
    ensures r.rolls == f.rolls && r.isTenthFrame == f.isTenthFrame
    ensures !f.Finished() || f.isScoreSettled ==> r == f
  {
    if f.Finished() && !f.isScoreSettled then
      f.WithSpareAdditionalScore(pins).WithStrikeAdditionalScore(pins)
    else f
  }

  /** `OfferBonus` applied to every frame, in order. */
  function OfferBonusToAll(frames: seq<FrameState>, pins: int): (r: seq<FrameState>)
    ensures |r| == |frames|
    ensures forall i :: 0 <= i < |r| ==>
              r[i].rolls == frames[i].rolls && r[i].isTenthFrame == frames[i].isTenthFrame
  {
    seq(|frames|, i requires 0 <= i < |frames| => OfferBonus(frames[i], pins))
  }

  /** The index after a recorded roll: it moves on once the current frame is
      finished, unless that frame is the tenth. */
  function NextFrameIndex(frames: seq<FrameState>, index: int): (r: int)
    requires 0 <= index < |frames|
    ensures r == index || r == index + 1
    ensures r == index + 1 <==> frames[index].Finished() && !frames[index].isTenthFrame
  {
    if !frames[index].isTenthFrame && frames[index].Finished() then index + 1 else index
  }

  /** The part of a roll that concerns the current frame: the roll is
      recorded there, then the too-many-pins check runs, then the index
      moves on if it may. */
  function RecordPins(g: GameState, pins: int): (r: Step)
    requires 0 <= g.currentFrameIndex < |g.frames|
    ensures |r.state.frames| == |g.frames|
    ensures forall i :: 0 <= i < |g.frames| && i != g.currentFrameIndex ==>
              r.state.frames[i] == g.frames[i]
    ensures r.outcome.Fail? ==> r.state.currentFrameIndex == g.currentFrameIndex
    ensures r.outcome.Fail? ==>
              r.outcome.error == InvalidNumberOfPins || r.outcome.error == TooManyPinsInFrame
  {
    var rolled := CheckIfInvalidPinsPerRoll(pins);
    if rolled.Fail? then Step(rolled, g)
    else
      var after := g.frames[g.currentFrameIndex].Rolled(pins);
      var frames := g.frames[g.currentFrameIndex := after];
      var checked := CheckIfTooManyPins(after.isTenthFrame, after.rolls);
      if checked.Fail? then Step(checked, g.(frames := frames))
      else Step(Pass, GameState(frames, NextFrameIndex(frames, g.currentFrameIndex)))
  }

  /** A roll in a game that is not over: bonuses first, then the roll in the
      current frame. */
  function HandlePins(g: GameState, pins: int): (r: Step)
    requires 0 <= g.currentFrameIndex < |g.frames|
    ensures |r.state.frames| == |g.frames|
    ensures r.outcome.Fail? ==> r.state.currentFrameIndex == g.currentFrameIndex
    ensures r.outcome.Fail? ==>
              r.outcome.error == InvalidNumberOfPins || r.outcome.error == TooManyPinsInFrame
  {
    RecordPins(g.(frames := OfferBonusToAll(g.frames, pins)), pins)
  }

  /** One roll of the game. */
  function RollGame(g: GameState, pins: int): (r: Step)
    requires 0 <= g.currentFrameIndex < |g.frames|
    ensures |r.state.frames| == |g.frames|
    ensures r.outcome.Fail? ==> r.state.currentFrameIndex == g.currentFrameIndex
  {
    var over := CheckIfGameIsOver(g.frames);
    if over.Fail? then Step(over, g) else HandlePins(g, pins)
  }

  /** The sum of the frame scores. */
  function TotalScore(frames: seq<FrameState>): (r: int)
    ensures (forall i :: 0 <= i < |frames| ==> frames[i].Score() >= 0) ==> r >= 0
  {
    if frames == [] then 0
    else TotalScore(frames[..|frames| - 1]) + frames[|frames| - 1].Score()
  }

  /** The score query. */
  function GameScore(g: GameState): (r: Result<int>)
    requires 0 <= g.currentFrameIndex < |g.frames|
    ensures r.Failure? <==> !g.frames[g.currentFrameIndex].Finished()
    ensures r.Failure? ==> r.error == GameInProgress
    ensures r.Success? ==> r.value == TotalScore(g.frames)
  {
    var inProgress := CheckIfGameIsInProgress(g);
    if inProgress.Fail? then Failure(inProgress.error) else Success(TotalScore(g.frames))
  }

  /** The consistency every reachable game keeps: ten frames, the tenth flag
      only at index 9, the index in 0..9 (so looking up the current frame
      never fails), every frame before the current one finished, and every
      frame after it untouched. */
  ghost predicate GameInv(g: GameState)
  {
    |g.frames| == MaxFrameCount &&
    0 <= g.currentFrameIndex < MaxFrameCount &&
    (forall i :: 0 <= i < MaxFrameCount ==>
       g.frames[i].isTenthFrame == (i == MaxFrameCount - 1) && g.frames[i].Valid()) &&
    (forall i :: 0 <= i < g.currentFrameIndex ==> g.frames[i].Finished()) &&
    (forall i :: g.currentFrameIndex < i < MaxFrameCount ==>
       g.frames[i] == NewFrameState(i == MaxFrameCount - 1))
  }
}
