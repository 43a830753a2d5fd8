/** The game as an object that owns ten frame objects and updates them, and
    its own current-frame index, in place. Every method is specified by the
    step of `GameRules` that it performs on the snapshot `View()`. */
module BowlingGame {
  import opened BowlingErrors
  import opened FrameRules
  import opened Frames
  import opened GameRules
  import GameLemmas

  /** The snapshots of a sequence of frame objects, in order. */
  function StatesOf(fs: seq<Frame>): (r: seq<FrameState>)
    reads fs
    ensures |r| == |fs|
    ensures forall i :: 0 <= i < |fs| ==> r[i] == fs[i].State()
  {
    if fs == [] then [] else StatesOf(fs[..|fs| - 1]) + [fs[|fs| - 1].State()]
  }

  class Bowling {
    const frames: seq<Frame>
    var currentFrameIndex: int

    /** The values of the game: every frame's fields and the index. */
    function View(): GameState
      reads this, frames
    {
      GameState(StatesOf(frames), currentFrameIndex)
    }

    /** The frames are distinct objects, and the game invariant holds. */
    ghost predicate Valid()
      reads this, frames
    {
      DistinctFrames() && GameInv(View())
    }

    /** No frame object is shared between two positions. */
    ghost predicate DistinctFrames()
    {
      forall i, j :: 0 <= i < j < |frames| ==> frames[i] != frames[j]
    }

    /** The default game: ten new frames, the last of them the tenth. */
    constructor ()
      ensures Valid() && View() == NewGame()
      ensures forall i :: 0 <= i < |frames| ==> fresh(frames[i])
    {
      var fs: seq<Frame> := [];
      for i := 0 to MaxFrameCount
        invariant |fs| == i
        invariant forall j :: 0 <= j < i ==>
                    fresh(fs[j]) && fs[j].State() == NewFrameState(j == MaxFrameCount - 1)
        invariant forall j, k :: 0 <= j < k < i ==> fs[j] != fs[k]
      {
        var f := new Frame(i == MaxFrameCount - 1);
        fs := fs + [f];
      }
      frames := fs;
      currentFrameIndex := 0;
      new;
      forall i | 0 <= i < MaxFrameCount
        ensures StatesOf(frames)[i] == NewGame().frames[i]
      {
      }
      assert View() == NewGame();
      GameLemmas.NewGameValid();
    }

    /** The frame in progress. The index is always in range, so the lookup
        never fails, and the frame is the tenth exactly at the last index. */
    function CurrentFrame(): (f: Frame)
      reads this, frames
      requires Valid()
      ensures f in frames
      ensures f.isTenthFrame <==> currentFrameIndex == MaxFrameCount - 1
    {
      assert StatesOf(frames)[currentFrameIndex] == frames[currentFrameIndex].State();
      frames[currentFrameIndex]
    }

    /** Offers the pins to every finished frame whose score is not settled,
        first as a spare bonus and then as a strike bonus. */
    method UpdatePreviousFramesAfterSpareOrStrike(pins: int)
      requires DistinctFrames()
      modifies frames
      ensures StatesOf(frames) == OfferBonusToAll(old(StatesOf(frames)), pins)
    {
      for i := 0 to |frames|
        invariant forall j :: 0 <= j < i ==> frames[j].State() == OfferBonus(old(frames[j].State()), pins)
        invariant forall j :: i <= j < |frames| ==> frames[j].State() == old(frames[j].State())
      {
        var frame := frames[i];
        if frame.State().Finished() && !frame.isScoreSettled {
          frame.SetSpareAdditionalScore(pins);
          frame.SetStrikeAdditionalScore(pins);
        }
      }
    }

    /** Moves to the next frame once the current one is finished, unless it
        is the tenth. */
    method SetCurrentFrameIndex()
      requires 0 <= currentFrameIndex < |frames|
      modifies this
      ensures currentFrameIndex == NextFrameIndex(StatesOf(frames), old(currentFrameIndex))
    {
      var frame := frames[currentFrameIndex];
      if !frame.isTenthFrame && IsFinished(frame.isTenthFrame, frame.rolls) {
        currentFrameIndex := currentFrameIndex + 1;
      }
    }

    /** Bonuses first, then the roll in the current frame. */
    method HandlePins(pins: int) returns (o: Outcome)
      requires DistinctFrames() && 0 <= currentFrameIndex < |frames|
      modifies this, frames
      ensures Step(o, View()) == GameRules.HandlePins(old(View()), pins)
    {
      UpdatePreviousFramesAfterSpareOrStrike(pins);
      o := RecordPins(pins);
    }

    /** The rest of `HandlePins`: the roll goes to the current frame, then
        that frame's too-many-pins check runs, then the index moves on. */
    method RecordPins(pins: int) returns (o: Outcome)
      requires DistinctFrames() && 0 <= currentFrameIndex < |frames|
      modifies this, frames
      ensures Step(o, View()) == GameRules.RecordPins(old(View()), pins)
    {
      var frame := frames[currentFrameIndex];
      ghost var g := View();
      ghost var k := currentFrameIndex;
      o := frame.Roll(pins);
      if o.Fail? {
        assert View() == g;
        return;
      }
      ghost var recorded := g.frames[k := g.frames[k].Rolled(pins)];
      assert StatesOf(frames) == recorded;
      o := CheckIfTooManyPins(frame.isTenthFrame, frame.rolls);
      if o.Fail? {
        assert View() == g.(frames := recorded);
        return;
      }
      SetCurrentFrameIndex();
      assert View() == GameState(recorded, NextFrameIndex(recorded, k));
    }

    /** One roll: refused once the game is over, handled otherwise. */
    method Roll(pins: int) returns (o: Outcome)
      requires Valid()
      modifies this, frames
      ensures Valid()
      ensures Step(o, View()) == RollGame(old(View()), pins)
    {
      GameLemmas.RollGameKeepsInv(View(), pins);
      o := CheckIfGameIsOver(StatesOf(frames));
      if o.Fail? {
        return;
      }
      o := HandlePins(pins);
    }

    /** The total of all frame scores, once the current frame is finished. */
    function Score(): (r: Result<int>)
      reads this, frames
      requires Valid()
      ensures r == GameScore(View())
    {
      var inProgress := CheckIfGameIsInProgress(View());
      if inProgress.Fail? then Failure(inProgress.error)
      else Success(TotalScore(StatesOf(frames)))
    }
  }
}
