/** A frame of the game as an object whose fields its methods update in
    place. Every method is specified by the transition of `FrameRules` that
    it performs on the snapshot `State()`. */
module Frames {
  import opened BowlingErrors
  import opened FrameRules
  import FrameLemmas

  class Frame {
    /** Fixed at construction: the tenth frame follows its own rules. */
    const isTenthFrame: bool
    var strikeAdditionalScore: int
    var spareAdditionalScore: int
    var strikeNextRollCounter: int
    var spareNextRollCounter: int
    var rolls: seq<int>
    var isScoreSettled: bool

    /** The values of all fields. */
    function State(): FrameState
      reads this
    {
      FrameState(isTenthFrame, rolls, strikeAdditionalScore, spareAdditionalScore,
                 strikeNextRollCounter, spareNextRollCounter, isScoreSettled)
    }

    ghost predicate Valid()
      reads this
    {
      State().Valid()
    }

    constructor (isTenthFrame: bool)
      ensures State() == NewFrameState(isTenthFrame)
      ensures Valid()
    {
      this.isTenthFrame := isTenthFrame;
      strikeAdditionalScore, spareAdditionalScore := 0, 0;
      strikeNextRollCounter, spareNextRollCounter := 0, 0;
      rolls := [];
      isScoreSettled := false;
      new;
      assert State() == NewFrameState(isTenthFrame);
      FrameLemmas.NewFrameStateValid(isTenthFrame);
    }

    method UpdateScoreIsSettled()
      modifies this
      ensures State() == old(State()).ScoreSettlementUpdated()
    {
      if HasSpare(rolls) {
        isScoreSettled := spareNextRollCounter == MaxSpareNextRollCount;
      } else if HasStrike(rolls) {
        isScoreSettled := strikeNextRollCounter == MaxStrikeNextRollCount;
      } else {
        isScoreSettled := true;
      }
    }

    method SetSpareAdditionalScore(pins: int)
      modifies this
      ensures old(Valid()) ==> Valid()
      ensures State() == old(State()).WithSpareAdditionalScore(pins)
    {
      if Valid() {
        FrameLemmas.SpareBonusKeepsValid(State(), pins);
      }
      if !HasSpare(rolls) {
        return;
      }
      if spareNextRollCounter >= MaxSpareNextRollCount {
        return;
      }
      spareNextRollCounter := spareNextRollCounter + 1;
      spareAdditionalScore := spareAdditionalScore + pins;
      UpdateScoreIsSettled();
    }

    method SetStrikeAdditionalScore(pins: int)
      modifies this
      ensures old(Valid()) ==> Valid()
      ensures State() == old(State()).WithStrikeAdditionalScore(pins)
    {
      if Valid() {
        FrameLemmas.StrikeBonusKeepsValid(State(), pins);
      }
      if !HasStrike(rolls) {
        return;
      }
      if strikeNextRollCounter >= MaxStrikeNextRollCount {
        return;
      }
      strikeNextRollCounter := strikeNextRollCounter + 1;
      strikeAdditionalScore := strikeAdditionalScore + pins;
      UpdateScoreIsSettled();
    }

    /** Validates the pin count, then records the roll; an invalid count
        changes nothing. A consistent frame stays consistent. */
    method Roll(pins: int) returns (o: Outcome)
      modifies this
      ensures old(Valid()) ==> Valid()
      ensures o == CheckIfInvalidPinsPerRoll(pins)
      ensures State() == if o.Pass? then old(State()).Rolled(pins) else old(State())
    {
      o := CheckIfInvalidPinsPerRoll(pins);
      if o.Fail? {
        return;
      }
      if Valid() {
        FrameLemmas.RolledKeepsValid(State(), pins);
      }
      rolls := rolls + [pins];
      UpdateScoreIsSettled();
    }
  }
}
