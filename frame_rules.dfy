/** The rules of a single frame, as pure functions: the facts derived from the
    rolls of a frame, the snapshot `FrameState` of all its fields, and the
    state transitions that the mutating operations of `Frame` perform. */
module FrameRules {
  import opened BowlingErrors

  /** At most ten pins fall in one roll. */
  const MaxPinsCount := 10
  /** A normal frame has up to two rolls. */
  const MaxRolls := 2
  /** A tenth frame with a spare or a strike has a third, bonus roll. */
  const MaxRollsWithBonusRoll := 3
  /** A strike is credited with the pins of the next two rolls. */
  const MaxStrikeNextRollCount := 2
  /** A spare is credited with the pins of the next roll. */
  const MaxSpareNextRollCount := 1

  /** Sum of the pins, folded from the left like `reduce(0, +)`. */
  function Sum(s: seq<int>): int
  {
    if s == [] then 0 else Sum(s[..|s| - 1]) + s[|s| - 1]
  }

  lemma SumOfPair(a: int, b: int)
    ensures Sum([a, b]) == a + b
  {
    assert [a, b][..1] == [a];
    assert Sum([a]) == a by { assert [a][..0] == []; }
  }

  /** The first two rolls knock down exactly ten pins. */
  predicate HasSpare(rolls: seq<int>)
    ensures HasSpare(rolls) <==> |rolls| > 1 && rolls[0] + rolls[1] == MaxPinsCount
  {
    if |rolls| > 1 then
      assert rolls[..2] == [rolls[0], rolls[1]];
      SumOfPair(rolls[0], rolls[1]);
      Sum(rolls[..2]) == MaxPinsCount
    else false
  }

  /** Some roll, in any position, knocks down all ten pins. */
  predicate HasStrike(rolls: seq<int>)
  {
    MaxPinsCount in rolls
  }

  /** Only the tenth frame, and only after a spare or a strike, gets a bonus roll. */
  predicate CanHaveBonusRoll(isTenthFrame: bool, rolls: seq<int>)
  {
    isTenthFrame && (HasSpare(rolls) || HasStrike(rolls))
  }

  predicate HasRolledBonusRoll(rolls: seq<int>)
  {
    |rolls| == MaxRollsWithBonusRoll
  }

  /** The trailing (up to) two rolls, like `suffix(2)`. */
  function LastTwo(rolls: seq<int>): (r: seq<int>)
    ensures |r| == if |rolls| < 2 then |rolls| else 2
  {
    if |rolls| <= 2 then rolls else rolls[|rolls| - 2..]
  }

  /** The last two rolls are the tail of the rolls. */
  lemma LastTwoIsSuffix(rolls: seq<int>)
    ensures LastTwo(rolls) == rolls[|rolls| - |LastTwo(rolls)|..]
  {
  }

  predicate LastTwoRollsHasTooManyPins(rolls: seq<int>)
    ensures LastTwoRollsHasTooManyPins(rolls) <==>
            if |rolls| < 2 then Sum(rolls) > MaxPinsCount
            else rolls[|rolls| - 2] + rolls[|rolls| - 1] > MaxPinsCount
  {
    var t := LastTwo(rolls);
    if |t| == 2 then
      assert t == [t[0], t[1]];
      SumOfPair(t[0], t[1]);
      Sum(t) > MaxPinsCount
    else Sum(t) > MaxPinsCount
  }

  /** A frame is finished when no more rolls belong to it. */
  predicate IsFinished(isTenthFrame: bool, rolls: seq<int>)
  {
    if HasStrike(rolls) && !isTenthFrame then true
    else if CanHaveBonusRoll(isTenthFrame, rolls) then |rolls| == MaxRollsWithBonusRoll
    else |rolls| == MaxRolls
  }

  /** The pin count of one roll must lie in 0..10. */
  function CheckIfInvalidPinsPerRoll(pins: int): (o: Outcome)
    ensures o.Pass? <==> 0 <= pins <= MaxPinsCount
    ensures o.Fail? ==> o.error == InvalidNumberOfPins
  {
    if pins > MaxPinsCount || pins < 0 then Fail(InvalidNumberOfPins) else Pass
  }

  /** The "too many pins" check, with its separate rule for the tenth frame. */
  function CheckIfTooManyPins(isTenthFrame: bool, rolls: seq<int>): (o: Outcome)
    ensures o.Fail? ==> o.error == TooManyPinsInFrame
    ensures !isTenthFrame ==> (o.Fail? <==> Sum(rolls) > MaxPinsCount)
    ensures isTenthFrame ==>
              (o.Fail? <==> Sum(LastTwo(rolls)) > MaxPinsCount &&
                            (MaxPinsCount !in rolls || |rolls| == 3))
  {
    if !isTenthFrame then
      if Sum(rolls) > MaxPinsCount then Fail(TooManyPinsInFrame) else Pass
    else if HasRolledBonusRoll(rolls) && HasStrike(rolls) && LastTwoRollsHasTooManyPins(rolls) then
      Fail(TooManyPinsInFrame)
    else if !HasStrike(rolls) then
      if LastTwoRollsHasTooManyPins(rolls) then Fail(TooManyPinsInFrame) else Pass
    else
      Pass
  }

  /** The value `isScoreSettled` is given after each mutation: a spare waits for
      one bonus roll, otherwise a strike waits for two, an open frame for none. */
  predicate SettledNow(rolls: seq<int>, spareNextRollCounter: int, strikeNextRollCounter: int)
  {
    if HasSpare(rolls) then spareNextRollCounter == MaxSpareNextRollCount
    else if HasStrike(rolls) then strikeNextRollCounter == MaxStrikeNextRollCount
    else true
  }

  /** A snapshot of every field of a frame. */
  datatype FrameState = FrameState(
    isTenthFrame: bool,
    rolls: seq<int>,
    strikeAdditionalScore: int,
    spareAdditionalScore: int,
    strikeNextRollCounter: int,
    spareNextRollCounter: int,
    isScoreSettled: bool)
  {
    /** The pins of the frame plus the bonus pins credited to it. */
    function Score(): int
    {
      Sum(rolls) + strikeAdditionalScore + spareAdditionalScore
    }

    /** `IsFinished` applied to this frame's own flag and rolls. */
    predicate Finished()
    {
      IsFinished(isTenthFrame, rolls)
    }

    /** The consistency every reachable frame keeps. */
    ghost predicate Valid()
    {
      (forall i :: 0 <= i < |rolls| ==> 0 <= rolls[i] <= MaxPinsCount) &&
      0 <= spareNextRollCounter <= MaxSpareNextRollCount &&
      0 <= strikeNextRollCounter <= MaxStrikeNextRollCount &&
      (spareNextRollCounter > 0 ==> HasSpare(rolls)) &&
      (strikeNextRollCounter > 0 ==> HasStrike(rolls)) &&
      (spareNextRollCounter == 0 ==> spareAdditionalScore == 0) &&
      (strikeNextRollCounter == 0 ==> strikeAdditionalScore == 0) &&
      isScoreSettled == (|rolls| > 0 && SettledNow(rolls, spareNextRollCounter, strikeNextRollCounter))
    }

    /** The state after `updateScoreIsSettled`. */
    function ScoreSettlementUpdated(): FrameState
    {
      this.(isScoreSettled := SettledNow(rolls, spareNextRollCounter, strikeNextRollCounter))
    }

    /** The state after a roll whose pin count passed validation. */
    function Rolled(pins: int): FrameState
    {
      this.(rolls := rolls + [pins]).ScoreSettlementUpdated()
    }

    /** The state after `setSpareAdditionalScore(pins)`. */
    function WithSpareAdditionalScore(pins: int): FrameState
    {
      if !HasSpare(rolls) then this
      else if spareNextRollCounter >= MaxSpareNextRollCount then this
      else this.(spareNextRollCounter := spareNextRollCounter + 1,
                 spareAdditionalScore := spareAdditionalScore + pins).ScoreSettlementUpdated()
    }

    /** The state after `setStrikeAdditionalScore(pins)`. */
    function WithStrikeAdditionalScore(pins: int): FrameState
    {
      if !HasStrike(rolls) then this
      else if strikeNextRollCounter >= MaxStrikeNextRollCount then this
      else this.(strikeNextRollCounter := strikeNextRollCounter + 1,
                 strikeAdditionalScore := strikeAdditionalScore + pins).ScoreSettlementUpdated()
    }
  }

  /** A frame as constructed: no rolls, no bonus, not settled. */
  function NewFrameState(isTenthFrame: bool): FrameState
  {
    FrameState(isTenthFrame, [], 0, 0, 0, 0, false)
  }
}
