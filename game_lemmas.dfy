/** Properties of the game state machine: the invariant that every roll
    keeps, how the current-frame index moves, what each error leaves behind,
    and when a score can be read. */
module GameLemmas {
  import opened BowlingErrors
  import opened FrameRules
  import opened FrameLemmas
  import opened GameRules

  /** The default game has ten frames, the tenth flag only at index 9, and
      is neither over nor ready to be scored. */
  lemma NewGameValid()
    ensures GameInv(NewGame())
    ensures CheckIfGameIsOver(NewGame().frames) == Pass
    ensures GameScore(NewGame()) == Failure(GameInProgress)
  {
    var g := NewGame();
    forall i | 0 <= i < MaxFrameCount
      ensures g.frames[i].isTenthFrame == (i == MaxFrameCount - 1)
      ensures g.frames[i].Valid() && !g.frames[i].Finished()
    {
      assert g.frames[i] == NewFrameState(i == MaxFrameCount - 1);
      NewFrameStateValid(i == MaxFrameCount - 1);
    }
  }

  /** Offering bonus pins keeps a frame consistent and never changes its rolls,
      hence never changes whether it is finished. */
  lemma OfferBonusKeepsValid(f: FrameState, pins: int)
    requires f.Valid()
    ensures OfferBonus(f, pins).Valid()
    ensures OfferBonus(f, pins).rolls == f.rolls
    ensures OfferBonus(f, pins).isTenthFrame == f.isTenthFrame
  {
    if f.Finished() && !f.isScoreSettled {
      SpareBonusKeepsValid(f, pins);
      StrikeBonusKeepsValid(f.WithSpareAdditionalScore(pins), pins);
    }
  }

  /** A frame that is not finished is not offered anything. */
  lemma {:induction false} OfferBonusToAllKeepsInv(g: GameState, pins: int)
    requires GameInv(g)
    ensures GameInv(g.(frames := OfferBonusToAll(g.frames, pins)))
    ensures forall i :: 0 <= i < |g.frames| ==>
              OfferBonusToAll(g.frames, pins)[i].Finished() == g.frames[i].Finished()
  {
    var offered := OfferBonusToAll(g.frames, pins);
    forall i | 0 <= i < MaxFrameCount
      ensures offered[i].isTenthFrame == (i == MaxFrameCount - 1) && offered[i].Valid()
      ensures offered[i].Finished() == g.frames[i].Finished()
    {
      OfferBonusKeepsValid(g.frames[i], pins);
    }
    forall i | g.currentFrameIndex < i < MaxFrameCount
      ensures offered[i] == NewFrameState(i == MaxFrameCount - 1)
    {
      NewFrameStateValid(i == MaxFrameCount - 1);
    }
  }

  /** Recording a valid roll in the current frame keeps the invariant,
      whether or not the index then moves on. */
  lemma {:induction false} RecordRollKeepsInv(g: GameState, pins: int)
    requires GameInv(g) && 0 <= pins <= MaxPinsCount
    ensures var k := g.currentFrameIndex;
            var frames := g.frames[k := g.frames[k].Rolled(pins)];
            GameInv(GameState(frames, k)) && GameInv(GameState(frames, NextFrameIndex(frames, k)))
  {
    var k := g.currentFrameIndex;
    var f := g.frames[k].Rolled(pins);
    RolledKeepsValid(g.frames[k], pins);
    var frames := g.frames[k := f];
    forall i | 0 <= i < MaxFrameCount
      ensures frames[i].isTenthFrame == (i == MaxFrameCount - 1) && frames[i].Valid()
    {
    }
    forall i | 0 <= i < k
      ensures frames[i].Finished()
    {
    }
    forall i | k < i < MaxFrameCount
      ensures frames[i] == NewFrameState(i == MaxFrameCount - 1)
    {
    }
    assert GameInv(GameState(frames, k));
    if NextFrameIndex(frames, k) != k {
      assert k + 1 < MaxFrameCount && frames[k].Finished();
      forall i | 0 <= i < k + 1
        ensures frames[i].Finished()
      {
      }
      forall i | k + 1 < i < MaxFrameCount
        ensures frames[i] == NewFrameState(i == MaxFrameCount - 1)
      {
      }
    }
  }

  /** Every roll, whatever its outcome, keeps the game invariant. */
  lemma {:induction false} RollGameKeepsInv(g: GameState, pins: int)
    requires GameInv(g)
    ensures GameInv(RollGame(g, pins).state)
  {
    if CheckIfGameIsOver(g.frames).Pass? {
      OfferBonusToAllKeepsInv(g, pins);
      if 0 <= pins <= MaxPinsCount {
        RecordRollKeepsInv(g.(frames := OfferBonusToAll(g.frames, pins)), pins);
      }
    }
  }

  /** A roll is refused with `GameIsOver` exactly when all ten frames are
      finished, and a refused roll changes nothing. */
  lemma GameIsOverChangesNothing(g: GameState, pins: int)
    requires GameInv(g)
    ensures RollGame(g, pins).outcome == Fail(GameIsOver) <==>
            forall i :: 0 <= i < MaxFrameCount ==> g.frames[i].Finished()
    ensures RollGame(g, pins).outcome == Fail(GameIsOver) ==> RollGame(g, pins).state == g
  {
  }

  /** Only the current frame receives the roll, and it receives it whenever
      the game is not over and the pin count is valid, even if the
      too-many-pins check then fails. Every other frame keeps its rolls. */
  lemma OnlyCurrentFrameReceivesRolls(g: GameState, pins: int)
    requires GameInv(g)
    ensures var s := RollGame(g, pins).state;
            var k := g.currentFrameIndex;
            |s.frames| == MaxFrameCount &&
            (forall i :: 0 <= i < MaxFrameCount && i != k ==> s.frames[i].rolls == g.frames[i].rolls) &&
            s.frames[k].rolls ==
              if CheckIfGameIsOver(g.frames).Pass? && 0 <= pins <= MaxPinsCount
              then g.frames[k].rolls + [pins] else g.frames[k].rolls
  {
    if CheckIfGameIsOver(g.frames).Pass? {
      forall i | 0 <= i < MaxFrameCount
        ensures OfferBonusToAll(g.frames, pins)[i].rolls == g.frames[i].rolls
      {
        OfferBonusKeepsValid(g.frames[i], pins);
      }
    }
  }

  /** Before the current frame sees the roll, the pins are offered to every
      finished, unsettled frame; an invalid pin count is reported only after
      that, and the index stays where it is. */
  lemma InvalidRollStillCreditsBonuses(g: GameState, pins: int)
    requires GameInv(g) && CheckIfGameIsOver(g.frames).Pass?
    requires pins < 0 || pins > MaxPinsCount
    ensures RollGame(g, pins) ==
            Step(Fail(InvalidNumberOfPins), GameState(OfferBonusToAll(g.frames, pins), g.currentFrameIndex))
  {
  }

  /** The index moves by one, and only after a successful roll that finishes
      a frame other than the tenth; otherwise it stays. */
  lemma FrameIndexAdvance(g: GameState, pins: int)
    requires GameInv(g)
    ensures var s := RollGame(g, pins);
            var k := g.currentFrameIndex;
            s.state.currentFrameIndex ==
              if s.outcome.Pass? && k < MaxFrameCount - 1 && s.state.frames[k].Finished() then k + 1 else k
  {
    RollGameKeepsInv(g, pins);
  }

  /** A failing too-many-pins check reports the error after the roll has been
      recorded, and the index does not advance. */
  lemma TooManyPinsKeepsRoll(g: GameState, pins: int)
    requires GameInv(g)
    requires RollGame(g, pins).outcome == Fail(TooManyPinsInFrame)
    ensures var s := RollGame(g, pins).state;
            var k := g.currentFrameIndex;
            s.currentFrameIndex == k &&
            s.frames[k].rolls == g.frames[k].rolls + [pins] &&
            CheckIfTooManyPins(s.frames[k].isTenthFrame, s.frames[k].rolls).Fail?
  {
  }

  /** Once every frame is finished, the score can be read. */
  lemma ScoreAvailableWhenGameIsOver(g: GameState)
    requires GameInv(g) && CheckIfGameIsOver(g.frames).Fail?
    ensures GameScore(g) == Success(TotalScore(g.frames))
  {
  }

  /** A frame opened with 0 and then 10 counts as a spare and as a strike:
      the next roll is credited to it twice, after which it is settled. */
  lemma ZeroThenTenCreditedTwice(pins: int)
    ensures var f := NewFrameState(false).Rolled(0).Rolled(10);
            f.Finished() && !f.isScoreSettled &&
            OfferBonus(f, pins).Score() == 10 + 2 * pins &&
            OfferBonus(f, pins).isScoreSettled
  {
    var f := NewFrameState(false).Rolled(0).Rolled(10);
    assert f.rolls == [0, 10] && HasSpare(f.rolls) && HasStrike(f.rolls);
    SumOfPair(0, 10);
  }

  /** The sum of frame scores compares like the frames do: if no frame of
      `a` scores more than its counterpart in `b`, the total of `a` is at
      most that of `b`, and strictly less when one frame scores less. */
  lemma {:induction false} TotalScoreCompare(a: seq<FrameState>, b: seq<FrameState>, j: int)
    requires |a| == |b|
    requires forall i :: 0 <= i < |a| ==> a[i].Score() <= b[i].Score()
    ensures TotalScore(a) <= TotalScore(b)
    ensures 0 <= j < |a| && a[j].Score() < b[j].Score() ==> TotalScore(a) < TotalScore(b)
    decreases |a|
  {
    if a != [] {
      var n := |a| - 1;
      TotalScoreCompare(a[..n], b[..n], j);
    }
  }

  /** What one bonus offer does to a frame's score: it adds `pins` zero,
      one or two times, and at least once to a consistent frame that is
      finished and not yet settled. */
  lemma OfferBonusScore(f: FrameState, pins: int)
    ensures var d := OfferBonus(f, pins).Score() - f.Score();
            d == 0 || d == pins || d == 2 * pins
    ensures f.Valid() && f.Finished() && !f.isScoreSettled ==>
              OfferBonus(f, pins).Score() - f.Score() != 0 || pins == 0
  {
    SpareBonusScore(f, pins);
    StrikeBonusScore(f.WithSpareAdditionalScore(pins), pins);
  }

  /** Replacing one frame changes the total by the difference of the two
      frame scores. */
  lemma {:induction false} ScoreUpdate(frames: seq<FrameState>, k: int, f: FrameState)
    requires 0 <= k < |frames|
    ensures TotalScore(frames[k := f]) == TotalScore(frames) - frames[k].Score() + f.Score()
    decreases |frames|
  {
    var n := |frames| - 1;
    if k < n {
      assert frames[k := f][..n] == frames[..n][k := f];
      ScoreUpdate(frames[..n], k, f);
    } else {
      assert frames[k := f][..n] == frames[..n];
    }
  }

  /** A roll of 0..10 pins never lowers the total of the frame scores, and
      unless the game is over it raises it by at least `pins`: the roll is
      recorded in the current frame even when the too-many-pins check then
      fails. */
  lemma ValidRollNeverLowersScore(g: GameState, pins: int)
    requires 0 <= g.currentFrameIndex < |g.frames|
    requires 0 <= pins <= MaxPinsCount
    ensures var s := RollGame(g, pins);
            TotalScore(s.state.frames) >= TotalScore(g.frames) &&
            (s.outcome != Fail(GameIsOver) ==> TotalScore(s.state.frames) >= TotalScore(g.frames) + pins)
  {
    if CheckIfGameIsOver(g.frames).Pass? {
      var k := g.currentFrameIndex;
      var offered := OfferBonusToAll(g.frames, pins);
      forall i | 0 <= i < |g.frames|
        ensures g.frames[i].Score() <= offered[i].Score()
      {
        OfferBonusScore(g.frames[i], pins);
      }
      TotalScoreCompare(g.frames, offered, k);
      var recorded := offered[k := offered[k].Rolled(pins)];
      RolledAppends(offered[k], pins);
      ScoreUpdate(offered, k, offered[k].Rolled(pins));
      assert RollGame(g, pins).state.frames == recorded;
    }
  }

  /** An invalid negative pin count is refused, yet it has already been
      credited as a bonus to every finished, unsettled frame, so the total
      of the frame scores drops. */
  lemma NegativeRollLowersScore(g: GameState, pins: int, j: int)
    requires GameInv(g) && CheckIfGameIsOver(g.frames).Pass?
    requires pins < 0
    requires 0 <= j < MaxFrameCount && g.frames[j].Finished() && !g.frames[j].isScoreSettled
    ensures RollGame(g, pins).outcome == Fail(InvalidNumberOfPins)
    ensures TotalScore(RollGame(g, pins).state.frames) < TotalScore(g.frames)
  {
    var offered := OfferBonusToAll(g.frames, pins);
    forall i | 0 <= i < |g.frames|
      ensures offered[i].Score() <= g.frames[i].Score()
    {
      OfferBonusScore(g.frames[i], pins);
    }
    OfferBonusScore(g.frames[j], pins);
    TotalScoreCompare(offered, g.frames, j);
  }
}
