# Ten-pin bowling scoring engine, modelled in Dafny

This project models the scoring engine of a ten-pin bowling game. The engine has two stateful parts:

- **`Frame`** records the rolls of one frame. It validates each pin count and credits strike and spare bonus pins through bounded counters. It keeps an `isScoreSettled` flag, decides when the frame is finished (the tenth frame has its own rule) and checks for "too many pins".
- **`Bowling`** owns ten frames, of which only the last is the tenth frame. A roll goes through these steps in order:
  1. The roll is refused if the game is over.
  2. The pins are offered as bonus to every finished frame whose score is not settled.
  3. The roll is recorded in the current frame, and that frame's too-many-pins check runs.
  4. The current-frame index moves on if it may.

  `score()` sums the frame scores once the current frame is finished.

The model has two layers:

- **Pure layer.** `FrameRules` and `GameRules` hold functions over the rolls of a frame (`seq<int>`). They also hold a snapshot of every field of a frame (`FrameState`) and of the game (`GameState`), with one transition function per mutating operation. `FrameLemmas` and `GameLemmas` prove what the operations promise about these functions.
- **Object layer.** `Frames.Frame` and `BowlingGame.Bowling` are classes whose methods update their fields in place. Each method is proved against the matching transition, through `Frame.State()` and `Bowling.View()`. `Bowling.UpdatePreviousFramesAfterSpareOrStrike` is a loop over the frame objects. Its invariants say which frames have been offered the pins so far.
- **Whole games.** `GameScenarios` plays runs of equal rolls from a new game through `RollGame`: the gutter game, the all-spares game and the perfect game.
- **Errors.** The four errors of `BowlingError` are a datatype. A throwing operation returns an `Outcome` (`Pass` or `Fail(error)`) or a `Result<int>`.
- **Invariant.** `GameInv` is the game's invariant: exactly ten frames, with the tenth-frame flag only at index 9. The index stays in 0..9, so looking up the current frame never fails; the source's `fatalError` becomes this invariant. Every frame before the current one is finished, and every frame after it is untouched. Every roll keeps the invariant (`GameLemmas.RollGameKeepsInv`), and `Bowling.Valid()` includes it.

The model follows the code as written, including where it departs from textbook ten-pin scoring:

- A strike is any roll of 10 in the frame, not only the first roll.
- The tenth-frame check looks only at the last two rolls. So it rejects 10,10,10, and also 10,10,5, 7,3,8 and 5,5,10 (`FrameLemmas.TenthFrameCheckExamples`). In a perfect game the first eleven rolls succeed and the twelfth fails with `tooManyPinsInFrame`; that roll still stays recorded, so the game is over and the score reads 300 (`GameScenarios.PerfectGameTwelfthRollRefused`).
- A frame opened with 0 and then 10 counts as both a spare and a strike, so the next roll is credited to it twice (`GameLemmas.ZeroThenTenCreditedTwice`).
- An invalid pin count is reported only after the earlier unsettled frames have already been credited with it (`GameLemmas.InvalidRollStillCreditsBonuses`). A negative count therefore lowers the score of those frames (`GameLemmas.NegativeRollLowersScore`).
- After a `tooManyPinsInFrame` error the roll stays recorded and the index does not move (`GameLemmas.TooManyPinsKeepsRoll`).

These functions and predicates have no `ensures` of their own. The rows below state their properties through lemmas:

- `Sum` is `rollsScore`, and also the `reduce(0, +)` over `prefix(2)`/`suffix(2)` (`FrameLemmas.SumAppend`).
- `HasStrike`, `CanHaveBonusRoll`, `HasRolledBonusRoll`, `IsFinished` and `SettledNow` (the value `updateScoreIsSettled` assigns) are the other derived properties (`FrameLemmas.FinishedRules`, `FrameLemmas.AppendKeepsSpareAndStrike`).
- `FrameState.Score` is `score` (`FrameLemmas.RolledAppends`, `FrameLemmas.SpareBonusScore`, `FrameLemmas.StrikeBonusScore`).
- `FrameState.Rolled`, `WithSpareAdditionalScore` and `WithStrikeAdditionalScore` are the transitions of the frame.

## Model

| member | source | states |
|---|---|---|
| `FrameRules.HasSpare` | Sources/Bowling/Frame.swift:96-99 | a frame has a spare exactly when it has at least two rolls and the first two add up to 10 |
| `FrameRules.LastTwo` | Sources/Bowling/Frame.swift:123 | the suffix has the last two rolls, or all rolls when there are fewer than two |
| `FrameRules.LastTwoIsSuffix` | Sources/Bowling/Frame.swift:123 | the suffix is exactly the tail of the rolls, so its contents and not only its length are those of `suffix(2)` |
| `FrameRules.LastTwoRollsHasTooManyPins` | Sources/Bowling/Frame.swift:122-123 | true exactly when the last two rolls (or the only roll) add up to more than 10 |
| `FrameRules.CheckIfInvalidPinsPerRoll` | Sources/Bowling/Frame.swift:113-116 | passes exactly for 0..10 pins, otherwise fails with `invalidNumberOfPins` |
| `FrameRules.CheckIfTooManyPins` | Sources/Bowling/Frame.swift:129-142 | only ever fails with `tooManyPinsInFrame`. A normal frame fails exactly when its rolls sum past 10. The tenth frame fails exactly when its last two rolls sum past 10 and either it has no 10 or it has three rolls |
| `FrameLemmas.SumAppend` | Sources/Bowling/Frame.swift:107-109 | appending a roll adds its pins to the rolls score |
| `FrameLemmas.NewFrameStateValid` | Sources/Bowling/Frame.swift:52-77 | a new frame keeps its tenth-frame flag, is consistent, scores 0, is not finished and is not settled |
| `FrameLemmas.AppendKeepsSpareAndStrike` | Sources/Bowling/Frame.swift:96-104 | once two rolls exist, later rolls never change whether the frame has a spare; a strike stays a strike |
| `FrameLemmas.RolledAppends` | Sources/Bowling/Frame.swift:169-178 | a recorded roll appends exactly `pins` and raises the score by `pins`. It leaves the bonus counters, bonus totals and tenth flag alone and recomputes `isScoreSettled` |
| `FrameLemmas.RolledKeepsValid` | Sources/Bowling/Frame.swift:169-174 | recording a valid roll keeps the frame consistent: pins in 0..10, counters bounded, counters only with spare or strike, and `isScoreSettled` as the settlement rule says |
| `FrameLemmas.SpareBonusScore` | Sources/Bowling/Frame.swift:145-155 | the spare setter credits exactly when the frame has a spare and its one bonus is still owed: it then adds `pins` to the score and to the spare total and raises the spare counter by one; otherwise it changes nothing. It never touches the rolls, the tenth flag or the strike counter and total |
| `FrameLemmas.StrikeBonusScore` | Sources/Bowling/Frame.swift:157-167 | the strike setter credits exactly when the frame has a 10 and fewer than two bonuses were counted: it then adds `pins` to the score and to the strike total and raises the strike counter by one; otherwise it changes nothing. It never touches the rolls, the tenth flag or the spare counter and total |
| `FrameLemmas.SpareBonusKeepsValid` | Sources/Bowling/Frame.swift:145-155 | the spare setter keeps the frame consistent, including the settlement flag |
| `FrameLemmas.StrikeBonusKeepsValid` | Sources/Bowling/Frame.swift:157-167 | the strike setter keeps the frame consistent, including the settlement flag |
| `FrameLemmas.SpareCreditedAtMostOnce` | Sources/Bowling/Frame.swift:145-174 | over any sequence of rolls, spare offers and strike offers on a consistent frame, in any order, the spare counter rises by exactly the number of spare offers that found a bonus owed, and that number plus the starting counter is at most 1; the frame stays consistent |
| `FrameLemmas.StrikeCreditedAtMostTwice` | Sources/Bowling/Frame.swift:145-174 | over any sequence of rolls, spare offers and strike offers on a consistent frame, in any order, the strike counter rises by exactly the number of strike offers that found a bonus owed, and that number plus the starting counter is at most 2; the frame stays consistent |
| `FrameLemmas.RepeatedSpareOfferIsNoOp` | Sources/Bowling/Frame.swift:146-148 | a spare offer right after another leaves the frame as the first left it |
| `FrameLemmas.ThirdStrikeOfferIsNoOp` | Sources/Bowling/Frame.swift:158-160 | a strike offer right after two others leaves the frame as they left it |
| `FrameLemmas.ApplyKeepsValid` | Sources/Bowling/Frame.swift:145-174 | a roll (refused or recorded), a spare offer or a strike offer keeps a consistent frame consistent |
| `FrameLemmas.ApplyCounters` | Sources/Bowling/Frame.swift:145-174 | a roll leaves both bonus counters alone; an offer raises its own counter by one exactly when it is credited and leaves the other counter alone |
| `FrameLemmas.StrikeBonusExample` | Tests/BowlingTests/FrameTests.swift:8-18 | 10 followed by bonus offers 5, 1, 5 scores 16 |
| `FrameLemmas.NoStrikeBonusExample` | Tests/BowlingTests/FrameTests.swift:20-30 | 0, 0 takes no strike bonus and scores 0 |
| `FrameLemmas.SpareBonusExample` | Tests/BowlingTests/FrameTests.swift:32-42 | 7, 3 followed by spare offers 5, 1 scores 15 |
| `FrameLemmas.NoSpareBonusExample` | Tests/BowlingTests/FrameTests.swift:44-54 | 1, 6 takes no spare bonus and scores 7 |
| `FrameLemmas.SettlementExamples` | Tests/BowlingTests/FrameTests.swift:56-95 | a spare is settled after one bonus and not before; a strike after two bonuses and not after one |
| `FrameLemmas.FinishedRules` | Sources/Bowling/Frame.swift:180-189 | a normal frame with a 10 is finished; a tenth frame with a spare or a strike is finished exactly at three rolls; any other frame exactly at two |
| `FrameLemmas.FinishedExamples` | Tests/BowlingTests/FrameTests.swift:97-147 | the completion cases of the tests: tenth frame 10,1 and 7,3 unfinished, 1,1 finished; normal frame 10 finished, 0 unfinished, 0,0 finished |
| `FrameLemmas.TenthFrameCheckExamples` | Sources/Bowling/Frame.swift:134-141 | the tenth-frame check rejects 10,10,10, 10,10,5, 7,3,8 and 5,5,10, accepts 10,10, 10,5,3 and 5,5,5; a normal frame 5,6 is rejected |
| `Frames.Frame.constructor` | Sources/Bowling/Frame.swift:75-77 | a new frame has no rolls, zero counters and bonuses, is unsettled, and is consistent |
| `Frames.Frame.UpdateScoreIsSettled` | Sources/Bowling/Frame.swift:85-93 | sets only `isScoreSettled`: a spare is settled when its counter is 1, else a strike when its counter is 2, else the frame is settled |
| `Frames.Frame.SetSpareAdditionalScore` | Sources/Bowling/Frame.swift:145-155 | the new fields are the spare-bonus transition of the old ones, and a consistent frame stays consistent |
| `Frames.Frame.SetStrikeAdditionalScore` | Sources/Bowling/Frame.swift:157-167 | the new fields are the strike-bonus transition of the old ones, and a consistent frame stays consistent |
| `Frames.Frame.Roll` | Sources/Bowling/Frame.swift:169-174 | the outcome is the pin-count validation; an invalid count leaves every field unchanged, a valid one records the roll; a consistent frame stays consistent |
| `GameRules.FinishedCount` | Sources/Bowling/Bowling.swift:41 | the number of finished frames is at most the number of frames, and equals it exactly when every frame is finished |
| `GameRules.CheckIfGameIsOver` | Sources/Bowling/Bowling.swift:40-43 | with ten frames, fails with `gameIsOver` exactly when all of them are finished |
| `GameRules.CheckIfGameIsInProgress` | Sources/Bowling/Bowling.swift:34-37 | fails with `gameInProgress` exactly when the current frame is not finished |
| `GameRules.GameScore` | Sources/Bowling/Bowling.swift:82-85 | fails with `gameInProgress` exactly when the current frame is not finished; otherwise returns the sum of all frame scores |
| `GameRules.NewGame` | Sources/Bowling/Bowling.swift:21 | the default game has ten frames with no rolls, the tenth flag set only at index 9, and index 0 |
| `GameRules.OfferBonus` | Sources/Bowling/Bowling.swift:61-63 | a bonus offer keeps the frame's rolls and tenth flag, and leaves a frame that is unfinished or settled exactly as it was |
| `GameRules.OfferBonusToAll` | Sources/Bowling/Bowling.swift:59-65 | the bonus pass yields one frame per frame, each with the same rolls and tenth flag |
| `GameRules.NextFrameIndex` | Sources/Bowling/Bowling.swift:68-71 | the index moves on by one exactly when the current frame is finished and is not the tenth; otherwise it stays |
| `GameRules.RecordPins` | Sources/Bowling/Bowling.swift:50-54 | only the current frame can change; a failure keeps the index and is `invalidNumberOfPins` or `tooManyPinsInFrame` |
| `GameRules.HandlePins` | Sources/Bowling/Bowling.swift:47-55 | the frame count is kept; a failure keeps the index and is `invalidNumberOfPins` or `tooManyPinsInFrame` |
| `GameRules.RollGame` | Sources/Bowling/Bowling.swift:77-80 | the frame count is kept, and a failed roll never moves the index |
| `GameRules.TotalScore` | Sources/Bowling/Bowling.swift:84 | the sum of the frame scores is not negative when no frame score is negative |
| `GameLemmas.NewGameValid` | Sources/Bowling/Bowling.swift:21 | the default game has ten frames with the tenth flag only at index 9 and satisfies the invariant; it is neither over nor ready to be scored |
| `GameLemmas.OfferBonusKeepsValid` | Sources/Bowling/Bowling.swift:61-63 | offering bonus pins keeps a frame consistent and never changes its rolls or its tenth flag |
| `GameLemmas.OfferBonusToAllKeepsInv` | Sources/Bowling/Bowling.swift:59-65 | the bonus loop keeps the game invariant: no frame's finished status changes, and untouched frames stay untouched |
| `GameLemmas.RecordRollKeepsInv` | Sources/Bowling/Bowling.swift:50-54 | recording a valid roll in the current frame keeps the invariant, whether the index moves or not |
| `GameLemmas.RollGameKeepsInv` | Sources/Bowling/Bowling.swift:77-80 | every roll, whatever its outcome, keeps the game invariant |
| `GameLemmas.GameIsOverChangesNothing` | Sources/Bowling/Bowling.swift:40-43 | a roll is refused with `gameIsOver` exactly when all ten frames are finished, and then nothing changes |
| `GameLemmas.OnlyCurrentFrameReceivesRolls` | Sources/Bowling/Bowling.swift:47-55 | no frame but the current one gains a roll; the current one gains exactly `pins` when the game is not over and the count is valid, even if the too-many-pins check then fails |
| `GameLemmas.InvalidRollStillCreditsBonuses` | Sources/Bowling/Bowling.swift:47-50 | an invalid pin count fails with `invalidNumberOfPins` only after every finished, unsettled frame was offered the pins; the index stays |
| `GameLemmas.FrameIndexAdvance` | Sources/Bowling/Bowling.swift:68-71 | the index grows by one exactly after a successful roll that leaves a frame before the last one finished; otherwise it stays |
| `GameLemmas.TooManyPinsKeepsRoll` | Sources/Bowling/Bowling.swift:50-54 | a `tooManyPinsInFrame` failure leaves the roll recorded in the current frame and the index unchanged |
| `GameLemmas.ScoreAvailableWhenGameIsOver` | Sources/Bowling/Bowling.swift:82-85 | once every frame is finished, the score query returns the sum of the frame scores |
| `GameLemmas.ZeroThenTenCreditedTwice` | Sources/Bowling/Bowling.swift:61-63 | a frame opened 0 then 10 is credited the next roll twice, as spare and as strike, and is then settled |
| `GameLemmas.TotalScoreCompare` | Sources/Bowling/Bowling.swift:84 | the sum of frame scores is monotone: frame-wise no greater gives a total no greater, and one frame strictly less gives a total strictly less |
| `GameLemmas.OfferBonusScore` | Sources/Bowling/Bowling.swift:61-63 | a bonus offer adds the pins zero, one or two times to a frame's score, and at least once to a consistent finished frame that is not settled |
| `GameLemmas.ValidRollNeverLowersScore` | Sources/Bowling/Bowling.swift:47-55 | a roll of 0..10 pins never lowers the total of the frame scores; unless the game is over it raises it by at least the pins, even when the too-many-pins check fails |
| `GameLemmas.NegativeRollLowersScore` | Sources/Bowling/Bowling.swift:47-50 | a negative pin count is refused with `invalidNumberOfPins`, yet the total of the frame scores drops whenever some finished frame is unsettled |
| `BowlingGame.StatesOf` | Sources/Bowling/Bowling.swift:20 | the snapshot sequence has one entry per frame object, each that frame's fields |
| `BowlingGame.Bowling.constructor` | Sources/Bowling/Bowling.swift:21-23 | the default game is ten fresh, distinct frames, only the last being the tenth, with index 0, and satisfies the invariant |
| `BowlingGame.Bowling.CurrentFrame` | Sources/Bowling/Bowling.swift:26-31 | under the invariant the lookup never fails; the current frame is one of the frames, and it is the tenth exactly at the last index |
| `BowlingGame.Bowling.UpdatePreviousFramesAfterSpareOrStrike` | Sources/Bowling/Bowling.swift:59-65 | every frame afterwards is the bonus offer applied to what it was: spare setter then strike setter on finished, unsettled frames, no change elsewhere |
| `BowlingGame.Bowling.SetCurrentFrameIndex` | Sources/Bowling/Bowling.swift:68-71 | the index grows by one exactly when the current frame is finished and is not the tenth |
| `BowlingGame.Bowling.HandlePins` | Sources/Bowling/Bowling.swift:47-55 | outcome and new state are the pure handling of the roll: bonus loop, then the roll in the current frame |
| `BowlingGame.Bowling.RecordPins` | Sources/Bowling/Bowling.swift:50-54 | outcome and new state are the pure recording: roll into the current frame, too-many-pins check, index update |
| `BowlingGame.Bowling.Roll` | Sources/Bowling/Bowling.swift:77-80 | outcome and new state are one step of the pure game, and the invariant is kept |
| `BowlingGame.Bowling.Score` | Sources/Bowling/Bowling.swift:82-85 | the result is the pure score query on the game's snapshot |
| `GameScenarios.Play` | Sources/Bowling/Bowling.swift:77-80 | rolling a sequence of pin counts one at a time gives one outcome per roll and keeps ten frames, the tenth flag only at index 9, and the index in range |
| `GameScenarios.PlayRun` | Sources/Bowling/Bowling.swift:77-80 | when each roll of a run moves one game state to the next, rolling the whole run from the first state gives exactly those outcomes and ends in the last state |
| `GameScenarios.GutterGameScoresZero` | Sources/Bowling/Bowling.swift:77-85 | twenty rolls of 0 from a new game all succeed, the score reads 0, and a further roll is refused with `gameIsOver` |
| `GameScenarios.AllSparesScores150` | Sources/Bowling/Bowling.swift:77-85 | twenty-one rolls of 5 from a new game all succeed, the score reads 150, and a further roll is refused with `gameIsOver` |
| `GameScenarios.PerfectGameTwelfthRollRefused` | Sources/Bowling/Bowling.swift:47-55 | twelve rolls of 10 from a new game: the first eleven succeed, the twelfth fails with `tooManyPinsInFrame` after being recorded, the score reads 300 and a further roll is refused with `gameIsOver` |

## Left out

- The `FrameProtocol` and `BowlingProtocol` abstractions are not modelled. They exist only for test doubles, and the classes are modelled directly.
- The injectable `frames` parameter of the `Bowling` initialiser is not modelled; only the default frames are built.
- The `fatalError` for an index out of range is not modelled as an error. Under `GameInv` it cannot happen, so `CurrentFrame` and the pure steps require the index to be in range.
- Swift's `Int` overflow trap is not modelled: Dafny integers are unbounded. Valid rolls keep every sum far below the limit, but the pins of a roll are credited as bonus before they are validated (Sources/Bowling/Bowling.swift:48, Sources/Bowling/Frame.swift:152 and 164), so a huge invalid count can overflow a bonus total and stop the program, where the model adds it and goes on to fail with `invalidNumberOfPins`.
- The XCTest harness is not modelled; its scenarios appear as lemmas about the frame transitions.
- `BowlingGame.Bowling.RecordPins`: this is the tail of `handlePins` (record, check, advance) split into its own method so each proof stays small; the behaviour is unchanged.
