/** Properties of the frame rules: what each transition does to the score,
    the consistency it keeps, how often bonuses are credited, and the
    behaviour the frame tests and the tenth-frame check pin down. */
module FrameLemmas {
  import opened BowlingErrors
  import opened FrameRules

  lemma {:induction false} SumAppend(s: seq<int>, x: int)
    ensures Sum(s + [x]) == Sum(s) + x
  {
    assert (s + [x])[..|s|] == s;
  }

  /** A new frame is consistent, scores nothing, is not finished and is not
      settled. */
  lemma NewFrameStateValid(isTenthFrame: bool)
    ensures NewFrameState(isTenthFrame).isTenthFrame == isTenthFrame
    ensures NewFrameState(isTenthFrame).Valid()
    ensures NewFrameState(isTenthFrame).Score() == 0
    ensures !NewFrameState(isTenthFrame).Finished()
    ensures !NewFrameState(isTenthFrame).isScoreSettled
  {
    var f := NewFrameState(isTenthFrame);
    assert f.rolls == [] && !HasSpare(f.rolls) && !HasStrike(f.rolls);
  }

  /** Appending rolls keeps the first two rolls, so a spare stays a spare and
      a strike stays a strike. */
  lemma {:induction false} AppendKeepsSpareAndStrike(rolls: seq<int>, pins: int)
    ensures |rolls| >= 2 ==> (HasSpare(rolls + [pins]) <==> HasSpare(rolls))
    ensures HasStrike(rolls) ==> HasStrike(rolls + [pins])
  {
    if |rolls| >= 2 {
      assert (rolls + [pins])[..2] == rolls[..2];
    }
    if HasStrike(rolls) {
      var i :| 0 <= i < |rolls| && rolls[i] == MaxPinsCount;
      assert (rolls + [pins])[i] == MaxPinsCount;
    }
  }

  /** A successful roll records exactly `pins` at the end, adds it to the
      score, and leaves the bonus counters and bonus totals alone. */
  lemma {:induction false} RolledAppends(f: FrameState, pins: int)
    ensures f.Rolled(pins).rolls == f.rolls + [pins]
    ensures f.Rolled(pins).Score() == f.Score() + pins
    ensures f.Rolled(pins).isScoreSettled ==
            SettledNow(f.rolls + [pins], f.spareNextRollCounter, f.strikeNextRollCounter)
    ensures f.Rolled(pins).(rolls := f.rolls, isScoreSettled := f.isScoreSettled) == f
  {
    SumAppend(f.rolls, pins);
  }

  lemma {:induction false} RolledKeepsValid(f: FrameState, pins: int)
    requires f.Valid() && 0 <= pins <= MaxPinsCount
    ensures f.Rolled(pins).Valid()
  {
    AppendKeepsSpareAndStrike(f.rolls, pins);
    var g := f.Rolled(pins);
    assert forall i :: 0 <= i < |g.rolls| ==> g.rolls[i] == if i < |f.rolls| then f.rolls[i] else pins;
  }

  /** The spare bonus is credited only to a spare whose bonus is still owed,
      and adds exactly `pins` to the score. */
  lemma SpareBonusScore(f: FrameState, pins: int)
    ensures var owed := HasSpare(f.rolls) && f.spareNextRollCounter < MaxSpareNextRollCount;
            f.WithSpareAdditionalScore(pins).Score() == f.Score() + (if owed then pins else 0) &&
            f.WithSpareAdditionalScore(pins).rolls == f.rolls &&
            (!owed ==> f.WithSpareAdditionalScore(pins) == f)
    ensures var owed := HasSpare(f.rolls) && f.spareNextRollCounter < MaxSpareNextRollCount;
            var g := f.WithSpareAdditionalScore(pins);
            g.spareNextRollCounter == f.spareNextRollCounter + (if owed then 1 else 0) &&
            g.spareAdditionalScore == f.spareAdditionalScore + (if owed then pins else 0) &&
            g.strikeNextRollCounter == f.strikeNextRollCounter &&
            g.strikeAdditionalScore == f.strikeAdditionalScore &&
            g.isTenthFrame == f.isTenthFrame
  {
  }

  /** The strike bonus is credited only to a frame with a strike whose two
      bonus rolls are not yet all counted, and adds exactly `pins`. */
  lemma StrikeBonusScore(f: FrameState, pins: int)
    ensures var owed := HasStrike(f.rolls) && f.strikeNextRollCounter < MaxStrikeNextRollCount;
            f.WithStrikeAdditionalScore(pins).Score() == f.Score() + (if owed then pins else 0) &&
            f.WithStrikeAdditionalScore(pins).rolls == f.rolls &&
            (!owed ==> f.WithStrikeAdditionalScore(pins) == f)
    ensures var owed := HasStrike(f.rolls) && f.strikeNextRollCounter < MaxStrikeNextRollCount;
            var g := f.WithStrikeAdditionalScore(pins);
            g.strikeNextRollCounter == f.strikeNextRollCounter + (if owed then 1 else 0) &&
            g.strikeAdditionalScore == f.strikeAdditionalScore + (if owed then pins else 0) &&
            g.spareNextRollCounter == f.spareNextRollCounter &&
            g.spareAdditionalScore == f.spareAdditionalScore &&
            g.isTenthFrame == f.isTenthFrame
  {
  }

  lemma SpareBonusKeepsValid(f: FrameState, pins: int)
    requires f.Valid()
    ensures f.WithSpareAdditionalScore(pins).Valid()
  {
  }

  lemma StrikeBonusKeepsValid(f: FrameState, pins: int)
    requires f.Valid()
    ensures f.WithStrikeAdditionalScore(pins).Valid()
  {
  }

  /** A spare offer made right after another is a no-op. */
  lemma RepeatedSpareOfferIsNoOp(f: FrameState, a: int, b: int)
    requires f.Valid()
    ensures f.WithSpareAdditionalScore(a).WithSpareAdditionalScore(b) == f.WithSpareAdditionalScore(a)
  {
  }

  /** A third strike offer made right after two others is a no-op. */
  lemma ThirdStrikeOfferIsNoOp(f: FrameState, a: int, b: int, c: int)
    requires f.Valid()
    ensures var g := f.WithStrikeAdditionalScore(a).WithStrikeAdditionalScore(b);
            g.WithStrikeAdditionalScore(c) == g
  {
  }

  /** One call on a frame object: `roll`, `setSpareAdditionalScore` or
      `setStrikeAdditionalScore`. */
  datatype FrameOp = RollOp(pins: int) | SpareOp(pins: int) | StrikeOp(pins: int)

  /** What one call does to the frame; a roll refused by the pin-count
      check changes nothing. */
  function Apply(f: FrameState, op: FrameOp): FrameState
  {
    match op
    case RollOp(pins) => if CheckIfInvalidPinsPerRoll(pins).Pass? then f.Rolled(pins) else f
    case SpareOp(pins) => f.WithSpareAdditionalScore(pins)
    case StrikeOp(pins) => f.WithStrikeAdditionalScore(pins)
  }

  /** The frame after a sequence of calls, in order. */
  function Run(f: FrameState, ops: seq<FrameOp>): FrameState
    decreases |ops|
  {
    if ops == [] then f else Run(Apply(f, ops[0]), ops[1..])
  }

  /** How many spare offers in `ops` find a spare whose bonus is still owed. */
  function SpareCredits(f: FrameState, ops: seq<FrameOp>): nat
    decreases |ops|
  {
    if ops == [] then 0
    else
      var owed := ops[0].SpareOp? && HasSpare(f.rolls) && f.spareNextRollCounter < MaxSpareNextRollCount;
      (if owed then 1 else 0) + SpareCredits(Apply(f, ops[0]), ops[1..])
  }

  /** How many strike offers in `ops` find a strike still owed a bonus. */
  function StrikeCredits(f: FrameState, ops: seq<FrameOp>): nat
    decreases |ops|
  {
    if ops == [] then 0
    else
      var owed := ops[0].StrikeOp? && HasStrike(f.rolls) && f.strikeNextRollCounter < MaxStrikeNextRollCount;
      (if owed then 1 else 0) + StrikeCredits(Apply(f, ops[0]), ops[1..])
  }

  /** Any call keeps a consistent frame consistent. */
  lemma ApplyKeepsValid(f: FrameState, op: FrameOp)
    requires f.Valid()
    ensures Apply(f, op).Valid()
  {
    match op {
      case RollOp(pins) =>
        if CheckIfInvalidPinsPerRoll(pins).Pass? {
          RolledKeepsValid(f, pins);
        }
      case SpareOp(pins) => SpareBonusKeepsValid(f, pins);
      case StrikeOp(pins) => StrikeBonusKeepsValid(f, pins);
    }
  }

  /** What one call does to the bonus counters: a roll leaves them alone,
      and an offer raises its own counter by one exactly when it is
      credited and leaves the other counter alone. */
  lemma ApplyCounters(f: FrameState, op: FrameOp)
    ensures Apply(f, op).spareNextRollCounter == f.spareNextRollCounter +
              (if op.SpareOp? && HasSpare(f.rolls) && f.spareNextRollCounter < MaxSpareNextRollCount then 1 else 0)
    ensures Apply(f, op).strikeNextRollCounter == f.strikeNextRollCounter +
              (if op.StrikeOp? && HasStrike(f.rolls) && f.strikeNextRollCounter < MaxStrikeNextRollCount then 1 else 0)
  {
    match op {
      case RollOp(pins) =>
        if CheckIfInvalidPinsPerRoll(pins).Pass? {
          RolledAppends(f, pins);
        }
      case SpareOp(pins) => SpareBonusScore(f, pins);
      case StrikeOp(pins) => StrikeBonusScore(f, pins);
    }
  }

  /** Over the life of a frame, whatever calls are made in whatever order,
      the spare bonus is credited at most once: the spare counter counts
      the credits, and it never passes 1. */
  lemma {:induction false} SpareCreditedAtMostOnce(f: FrameState, ops: seq<FrameOp>)
    requires f.Valid()
    ensures Run(f, ops).Valid()
    ensures Run(f, ops).spareNextRollCounter == f.spareNextRollCounter + SpareCredits(f, ops)
    ensures f.spareNextRollCounter + SpareCredits(f, ops) <= MaxSpareNextRollCount
    decreases |ops|
  {
    if ops != [] {
      ApplyKeepsValid(f, ops[0]);
      ApplyCounters(f, ops[0]);
      SpareCreditedAtMostOnce(Apply(f, ops[0]), ops[1..]);
    }
  }

  /** Over the life of a frame, whatever calls are made in whatever order,
      the strike bonus is credited at most twice: the strike counter counts
      the credits, and it never passes 2. */
  lemma {:induction false} StrikeCreditedAtMostTwice(f: FrameState, ops: seq<FrameOp>)
    requires f.Valid()
    ensures Run(f, ops).Valid()
    ensures Run(f, ops).strikeNextRollCounter == f.strikeNextRollCounter + StrikeCredits(f, ops)
    ensures f.strikeNextRollCounter + StrikeCredits(f, ops) <= MaxStrikeNextRollCount
    decreases |ops|
  {
    if ops != [] {
      ApplyKeepsValid(f, ops[0]);
      ApplyCounters(f, ops[0]);
      StrikeCreditedAtMostTwice(Apply(f, ops[0]), ops[1..]);
    }
  }

  /** A strike is credited with two later rolls and no more: 10, then bonus
      offers of 5, 1 and 5, scores 16. */
  lemma StrikeBonusExample()
    ensures NewFrameState(false).Rolled(10).WithStrikeAdditionalScore(5)
              .WithStrikeAdditionalScore(1).WithStrikeAdditionalScore(5).Score() == 16
  {
    var f := NewFrameState(false).Rolled(10);
    assert f.rolls == [10] && HasStrike(f.rolls) && Sum(f.rolls) == 10;
    var g := f.WithStrikeAdditionalScore(5).WithStrikeAdditionalScore(1);
    assert g.strikeNextRollCounter == 2 && g.Score() == 16;
  }

  /** An open frame takes no strike bonus: 0, 0 stays at 0. */
  lemma NoStrikeBonusExample()
    ensures NewFrameState(false).Rolled(0).Rolled(0).WithStrikeAdditionalScore(5)
              .WithStrikeAdditionalScore(1).Score() == 0
  {
    var f := NewFrameState(false).Rolled(0).Rolled(0);
    assert f.rolls == [0, 0] && !HasStrike(f.rolls);
    SumOfPair(0, 0);
  }

  /** A spare is credited with one later roll only: 7, 3, then offers of 5
      and 1, scores 15. */
  lemma SpareBonusExample()
    ensures NewFrameState(false).Rolled(7).Rolled(3).WithSpareAdditionalScore(5)
              .WithSpareAdditionalScore(1).Score() == 15
  {
    var f := NewFrameState(false).Rolled(7).Rolled(3);
    assert f.rolls == [7, 3] && HasSpare(f.rolls);
    SumOfPair(7, 3);
  }

  /** An open frame takes no spare bonus: 1, 6 stays at 7. */
  lemma NoSpareBonusExample()
    ensures NewFrameState(false).Rolled(1).Rolled(6).WithSpareAdditionalScore(5)
              .WithSpareAdditionalScore(1).Score() == 7
  {
    var f := NewFrameState(false).Rolled(1).Rolled(6);
    assert f.rolls == [1, 6] && !HasSpare(f.rolls);
    SumOfPair(1, 6);
  }

  /** The settlement scenarios of the frame tests. */
  lemma SettlementExamples()
    ensures !NewFrameState(false).Rolled(7).Rolled(3).isScoreSettled
    ensures NewFrameState(false).Rolled(7).Rolled(3).WithSpareAdditionalScore(5).isScoreSettled
    ensures !NewFrameState(false).Rolled(10).WithStrikeAdditionalScore(5).isScoreSettled
    ensures NewFrameState(false).Rolled(10).WithStrikeAdditionalScore(5)
              .WithStrikeAdditionalScore(1).isScoreSettled
  {
    var spare := NewFrameState(false).Rolled(7).Rolled(3);
    assert spare.rolls == [7, 3] && HasSpare(spare.rolls);
    var strike := NewFrameState(false).Rolled(10);
    assert strike.rolls == [10] && HasStrike(strike.rolls) && !HasSpare(strike.rolls);
  }

  /** When a frame is finished: a normal frame after a 10 or after two
      rolls; the tenth frame after three rolls when its first two make a
      spare or any roll is a 10, and after two rolls otherwise. */
  lemma FinishedRules(isTenthFrame: bool, rolls: seq<int>)
    ensures !isTenthFrame ==>
              (IsFinished(isTenthFrame, rolls) <==> MaxPinsCount in rolls || |rolls| == 2)
    ensures isTenthFrame ==>
              (IsFinished(isTenthFrame, rolls) <==>
                 if (|rolls| > 1 && rolls[0] + rolls[1] == MaxPinsCount) || MaxPinsCount in rolls
                 then |rolls| == 3 else |rolls| == 2)
  {
  }

  /** The completion scenarios of the frame tests. */
  lemma FinishedExamples()
    ensures !NewFrameState(true).Rolled(10).Rolled(1).Finished()
    ensures !NewFrameState(true).Rolled(7).Rolled(3).Finished()
    ensures NewFrameState(true).Rolled(1).Rolled(1).Finished()
    ensures NewFrameState(false).Rolled(10).Finished()
    ensures !NewFrameState(false).Rolled(0).Finished()
    ensures NewFrameState(false).Rolled(0).Rolled(0).Finished()
  {
    assert NewFrameState(true).Rolled(10).Rolled(1).rolls == [10, 1];
    assert HasStrike([10, 1]);
    assert NewFrameState(true).Rolled(7).Rolled(3).rolls == [7, 3];
    assert NewFrameState(true).Rolled(1).Rolled(1).rolls == [1, 1];
    assert !HasStrike([1, 1]);
    assert NewFrameState(false).Rolled(10).rolls == [10];
    assert NewFrameState(false).Rolled(0).rolls == [0];
    assert !HasStrike([0]);
    assert NewFrameState(false).Rolled(0).Rolled(0).rolls == [0, 0];
  }

  /** The tenth-frame check looks only at the last two rolls: it accepts a
      strike followed by a fill ball, but rejects three strikes, a spare
      followed by a strike, and a spare whose fill ball tops up the second
      roll past ten. */
  lemma TenthFrameCheckExamples()
    ensures CheckIfTooManyPins(true, [10, 10, 10]) == Fail(TooManyPinsInFrame)
    ensures CheckIfTooManyPins(true, [10, 10, 5]) == Fail(TooManyPinsInFrame)
    ensures CheckIfTooManyPins(true, [7, 3, 8]) == Fail(TooManyPinsInFrame)
    ensures CheckIfTooManyPins(true, [5, 5, 10]) == Fail(TooManyPinsInFrame)
    ensures CheckIfTooManyPins(true, [10, 10]) == Pass
    ensures CheckIfTooManyPins(true, [10, 5, 3]) == Pass
    ensures CheckIfTooManyPins(true, [5, 5, 5]) == Pass
    ensures CheckIfTooManyPins(false, [5, 6]) == Fail(TooManyPinsInFrame)
  {
  }
}
