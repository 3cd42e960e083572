# Software genlock: a Dafny model

A secondary display measures the phase of its vblanks against a primary, detunes the PLL of its PHY for a
computed time and restores it; learning nudges make part of the correction permanent. This project models
that loop, the divider arithmetic under it, the refresh-period adjustment of `pllctl`, and the
scheduled-presentation protocol of `framesync`, and proves what they promise for all inputs, all runs and all
interleavings. `dafny verify dfyconfig.toml` checks everything.

How the files build on one another:

- `RealMath`, `Bits`, `Wrappers`, `Codec`: rounding on exact reals, the bit macros, result types, and the
  interface between a PHY and the frequency logic (a pair of functions, encode and decode, in place of the
  virtual functions of `phys`).
- `ComboPll`, `C10Pll`, `DklPll`: the divider arithmetic of three PHYs and their round trips.
- `Ramp`, `Phase`, `Phy`, `Restore`: how a frequency change is stepped, what phase a correction gains, the
  class `phys` with the loop of `synchronize_vsync`, and the interleavings of main thread, timer handler
  and Ctrl+C.
- `Measure`, `Hysteresis`, `Controller`, `Learning`, `Genlock`: the measurement of a secondary, its
  resynchronisation decision, one iteration of its loop, what whole runs leave in the registers, and
  the end-to-end theorem from vblank stamps to remaining phase.
- `PllCtl`: the closed loop of `pllctl`.
- `Vblank`, `FrameSecondary`, `FramePrimary`, `FrameAgreement`: the two loops of `framesync` and when all
  nodes present every update together.
- `Collector`, `Ownership`: the bounded vsync buffer, and which PHY object owns which DPLL.

## Assumptions

- `double` values are exact reals and casts to integers truncate them; integers are unbounded, except where a
  width decides the result: the 64-bit masks, the modular working value of the C10 encoder, the 32-bit sum
  of `find_avg`. Stamps are below 2^63 - 1.
- Timers and sleeps are exact, `make_timer` and register writes succeed, and vblank waits and thread
  creation succeed or fail as a parameter says.
- The phase gained at clock f for a time dt against the original clock f0 is (f0 - f) / f0 * dt. The interval
  `pllctl` measures is inversely proportional to the clock.
- A ramp that is needed has a shift above zero (`lib/phy.cpp:294-297` divides by the step size). For
  `synchronize_vsync` this is asked of the PHYs a call really ramps; for a secondary it is `shift != 0 || shift2 == 0`.
- The registers do not change while `find_enabled_phys` runs, and do not change by themselves during a
  correction.
- In `framesync` the real-time clocks agree and computing takes no time. The agreement theorems also take the
  displays to be locked; messages may be lost or overtake one another. The safety of a secondary needs none of
  this.

## What the model shows about the code

- The default `schedule_ahead_ms` is 16 (`framesync/demo_common.h:65`), although the help and
  `docs/framesync.md:121,271` say 33. At 60 Hz 16 ms makes every secondary present every update at least one
  vblank after the primary, and one more for every period of latency (`DefaultsAt60Hz`, `NeverEarlier`), so the
  rule of `docs/framesync.md:274`, that the time ahead must exceed the latency, does not suffice: what counts is
  how many whole periods fit.
- A secondary presents an update that is more than 50 ms late all the same: the branch only warns
  (`framesync/secondary.cpp:218-220`).
- `normalize_delta` folds large positive residues down but not large negative ones up, so a secondary nine
  tenths of a period early is sent nine tenths back (`NormalizedNearestIff`, `NotNearestExample`).
- The ramp compares the change rounded to four decimals, so an unstepped change can exceed the shift by up to
  0.00005 percent (`RampRespectsShiftIff`, `RampExceedsShiftExample`).
- A Combo PHY loses one fraction code per read-and-set round down to the next multiple of 64, and the two
  divider fields overlap from 1024 reference periods on. C10 and DKL give back every code that was read.
- Every start that a thousand changes of `pllctl` can bring to its tolerance band ends in it exactly for wanted
  periods up to 19999.9 microseconds (`AllReachableConvergeIff`); above, a change can jump over the band. For every
  wanted period from 20001 there is such a start within one percent (`FailsWithinPercent`), and for every one
  from 20101 there is a start next to the band from which the loop swings around it until the limit
  (`SwingsForever`). For a single start the outcome is the sign of one comparison of powers, known before the
  call (`ReachesIff`, `EveryStartLands`).
- The clocks a PHY is asked for are not those it runs at. A correction of one write each way keeps to the
  resolution of its hold, 10 microseconds per percent of shift, exactly when the miss of that write, carried
  through the hold, stays that close to what the truncation of the hold leaves (`SingleStepResolutionIff`). On a
  Combo PHY at 9600 MHz a correction of 10 ms with a shift of 0.01 percent does not: it overshoots by 9.7
  microseconds, where the clocks asked for leave less than 0.1 (`ComboWriteErrorExample`). The end-to-end theorem
  therefore carries the write error.
- Learning is said to move the clock toward the primary in either direction (`README.md:265`). A Combo PHY goes
  up exactly when the nudge reaches the next fraction code, 1.17 to 2.16 kHz away (`ComboNudgeRaisesIff`). A nudge
  of less than a kilohertz never raises it, and no run of such nudges does (`ComboNeverRises`); at the documented
  rate of 0.00001 percent (`docs/swgenlock.md:74`) that is every nudge below 10 GHz (`ComboDocumentedRate`).
- On Tiger Lake the table gives DDI B and DDI C the same multiplexer field (`lib/platforms/tgl.h:33-34`), so
  initialisation fails whenever one pipe drives DDI B and another DDI C (`TigerLakeBAndCFail`).
- `perform_synchronization` ignores what `synchronize_vsync` returns; a rejected correction counts as a
  synchronisation.

## Model

| member | source | states |
|---|---|---|
| Bits.BitOfAndOr | lib/macros.h:51-55 | the two operators work bit by bit, where bit k of a number is its quotient by 2 to the k, modulo 2 |
| Bits.ShrIsDivision | lib/macros.h:51-55 | the shift of the macros divides by a power of two, and what it drops is the remainder |
| Bits.FieldOfSum | lib/macros.h:51-55 | `GETBITS_VAL` gives back the field of a word put together by multiplication and addition |
| Bits.BitOfCleared | lib/macros.h:51-55 | and-ing with the complement of `GENMASK` clears exactly bits l to h |
| Bits.GetBitsIsField | lib/macros.h:51-55 | `GENMASK` selects exactly bits l to h and `GETBITS_VAL` reads exactly that field, for every word |
| Bits.SetFieldLaw | lib/macros.h:51-55 | clearing a field and or-ing in a value that fits makes the field read back as that value and leaves all bits below and above unchanged |
| ComboPll.DividersLoss | lib/combo.cpp:203-212 | the dividers never stand for more than the clock asked for and less than 1 + 74/64 kHz less; the fraction stays below 2^14 |
| ComboPll.LossIsSharp | lib/combo.cpp:203-212 | no smaller bound on that loss holds |
| ComboPll.PackedFields | lib/combo.cpp:166-170 | below 1024 the packed word gives back both dividers and keeps bits 31:25; in general the integer field keeps the ten low bits |
| ComboPll.OverlappingFields | lib/combo.cpp:166-170 | from 1024 on the bits above the integer field are or-ed into the fraction |
| ComboPll.ClockOfFields | lib/combo.cpp:138-146 | the clock of a register with integer i and fraction f, in MHz: 19.2 i + 38.4 f / 32768 |
| ComboPll.RoundTrip | lib/combo.cpp:138-213 | writing a clock and reading it back loses 0 up to 1 + 74/64 kHz if and only if the clock is below 1024 reference periods; bits 31:25 are then kept |
| ComboPll.ReadThenWrite | lib/combo.cpp:138-213 | re-encoding any register: whole reference periods in the fraction carry into the integer, and the rest keeps its code if 64 divides it and else loses one |
| ComboPll.RoundsDrift | lib/combo.cpp:138-213 | n read-and-set rounds lower the fraction by one each down to the next multiple of 64 and then stop; nothing else changes |
| ComboPll.ComboQuantises | lib/combo.cpp:138-213 | the write error of the PHY as the frequency logic uses it, never upwards, from every register and for every clock in range |
| ComboPll.EncodeNeverAbove | lib/combo.cpp:138-213 | a write never programs more than the clock asked for, not even where the fields overlap |
| ComboPll.RaisedIff | lib/combo.cpp:138-213 | asked for up to 1000 MHz more than it holds, a register ends above where it was if and only if the raise reaches the first whole kilohertz of the next fraction code and the integer field holds the clock |
| C10Pll.ClockOfBytes | lib/c10.cpp:83-95 | the decoded clock of any register bytes with divider zero, in terms of those bytes |
| C10Pll.DividerHalves | lib/c10.cpp:88-95 | each step of the divider halves the clock, whatever the other registers hold |
| C10Pll.DividerBits | lib/c10.cpp:88 | only the three low bits of register 15 count |
| C10Pll.MultiplierBits | lib/c10.cpp:86-87 | only the four low bits of register 3 count |
| C10Pll.LeastClock | lib/c10.cpp:83-95 | multiplier, quotient and remainder zero: 61440 |
| C10Pll.TwoCounts | lib/c10.cpp:86-95 | adding 2 to register 2 raises the clock by exactly 3840 over the power of two of the divider |
| C10Pll.HighCount | lib/c10.cpp:86-95 | one count of register 3 is 256 counts of register 2 |
| C10Pll.QuotientCarries | lib/c10.cpp:84-95 | 65536 codes of the quotient are one step of the multiplier |
| C10Pll.ExampleClock | lib/c10.cpp:83-95 | a register file with every field in use |
| C10Pll.StoredWraps | lib/c10.cpp:112-118 | at any clock the stored quotient is the number of steps above zero modulo 65536; below the correction 2^64 is borrowed first |
| C10Pll.CalculateFeedbackDividers | lib/c10.cpp:105-130 | the imperative encoder keeps the band of the state, is within one quotient step below the clock if and only if the clock is in the band, and gives back the state at its own clock |
| C10Pll.NumeratorIsInteger | lib/cx0_helper.h:485-502 | the floating and the integer rounding macro give the decoder and the encoder the same correction after truncation |
| C10Pll.EncodeInvertsDecode | lib/c10.cpp:73-130 | for every state with a non-zero denominator, encoding the decoded clock gives back all twenty registers |
| C10Pll.RoundTrip | lib/c10.cpp:73-130 | the round-trip loss is within one quotient step if and only if the clock is in the band the 16-bit quotient reaches |
| C10Pll.C10Quantises | lib/c10.cpp:73-130 | in-band writes keep the band and are within one quotient step below the clock, from every state of the band |
| C10Pll.BandIff | lib/c10.cpp:73-130 | the two ends of that band enclose exactly the clocks whose loss is within one step |
| DklPll.ClockOfFields | lib/dkl.cpp:152-163 | the clock of registers with predivider p, integer i and fraction f: 38.4 p (i + f / 2^22) |
| DklPll.ControlWords | lib/dkl.cpp:193-200 | bit by bit, what the encoder makes of the other three registers |
| DklPll.EncodableIff | lib/dkl.cpp:234-245 | the ratios whose rounded fraction fits the cast to 32 bits |
| DklPll.EncodeInvertsRatio | lib/dkl.cpp:227-245 | the encoder gives back every integer and fraction code of a decoded ratio |
| DklPll.RatioError | lib/dkl.cpp:227-245 | the written ratio is within one step if and only if the ratio is below 256, and within half a step exactly up to where the clamp of the fraction sets in |
| DklPll.EncodedFields | lib/dkl.cpp:187-192 | the packed registers read back as the encoded dividers and keep the predivider and all bits around the fields |
| DklPll.EncodeInvertsDecode | lib/dkl.cpp:152-246 | with a non-zero predivider, encoding the decoded clock changes neither divider register |
| DklPll.RoundTrip | lib/dkl.cpp:152-246 | through the registers a write is off by less than one step if and only if the ratio is below 256 |
| DklPll.EncodeIsMonotone | lib/dkl.cpp:220-246 | a higher clock never programs a lower one, and from ratio 256 on both fields are all ones |
| DklPll.DklQuantises | lib/dkl.cpp:152-246 | the write error of the PHY for every clock below 256 reference steps; the predivider is kept |
| Ramp.RampMonotone | lib/phy.cpp:305-335 | the programmed clocks move strictly toward the target, never pass it and end exactly on it |
| Ramp.SteppedRampIsShortestPath | lib/phy.cpp:288-303 | a stepped ramp never changes by more than shift percent of the start, and no sequence of changes within that limit is shorter |
| Ramp.UnsteppedRampBound | lib/phy.cpp:276-288 | an unstepped change is one write, below shift plus 0.00005 percent |
| Ramp.RampRespectsShiftIff | lib/phy.cpp:276-303 | the limit is kept if and only if the ramp is stepped or the whole change is within it |
| Ramp.RampExceedsShiftExample | lib/phy.cpp:276-288 | a concrete change of 1.00001 percent that is made at once with a shift of 1 percent |
| Phase.RampTracePhase | lib/phy.cpp:305-335 | the exact phase a ramp gains, for any number of steps and wait, against any base clock |
| Phase.CyclePhase | lib/phy.cpp:150-198 | a whole ramp, hold and ramp back gains exactly the relative shift times the hold plus the weighted waits of both ramps |
| Phase.EffectiveMsInWaits | lib/phy.cpp:307-335 | those weighted waits in closed form: w(n + n')/2 for n > 1 steps there and n' back, w(n' - 1)/2 for a single step there |
| Phase.HoldCoversDifference | lib/macros.h:79 | the hold is worth the time difference, short by less than one millisecond of shift and never more |
| Phase.CyclePhaseOnHardware | lib/phy.cpp:150-198 | at the clocks the registers really encode, the phase of the cycle differs by at most the relative write error times the total time |
| Phase.TotalOfCycle | lib/phy.cpp:150-198 | that total time: the hold and every wait of both ramps |
| Phy.BelowThreshold | lib/phy.cpp:149-152 | below the threshold target, hold, registers and trace are those without a larger shift, whatever that is |
| Phy.FromThreshold | lib/phy.cpp:149-152 | from the threshold on the trace is the cycle to the clock of the larger shift with the hold of the larger shift, in steps limited by the smaller one |
| Phy.LargerShiftHoldsNoLonger | README.md:253 | with a larger shift the hold is never longer than with the smaller one |
| Phy.NoHoldNoRamp | lib/phy.cpp:173-178 | a correction whose hold comes out as zero asks for no ramp |
| Phy.Phy.SetPllClock | lib/phy.cpp:263-338 | rejected exactly for non-positive clocks or a negative shift; otherwise registers and trace are those of the ramp, or of a prefix of it when Ctrl+C is seen |
| Phy.Phy.ProgramPhy | lib/phy.cpp:122-202 | reads the registers, picks shift, direction, target and hold; all four outcomes (nothing to do, rejected, nudged, timer armed) with their whole state |
| Phy.Phy.ResetPhyRegs | lib/phy.cpp:79-104 | ramps back as far as the flag allows and in every case ends with the saved registers, no timer and done set |
| Phy.Phy.WaitUntilDone | lib/phy.cpp:212-227 | with a timer pending or after Ctrl+C the saved registers are back; the trace is the hold and the ramp back, as far as Ctrl+C lets them come |
| Phy.Phy.Correct | lib/vsyncalter.cpp:475-484 | one PHY: a resetting correction restores the registers whenever Ctrl+C comes and has the phase trace of `CyclePhase`, a nudge leaves the last image of its ramp and has the trace of that ramp; with Ctrl+C at any point both have exactly the steps made until then |
| Phy.VsyncLibrary.SynchronizeVsync | lib/vsyncalter.cpp:446-495 | for every call whose ramps are defined: fails exactly for arguments out of range, no PHY on the pipe or one there without a positive clock; PHYs on other pipes are untouched, the one whose pipe number is equal, or every one for pipe 4, gets exactly its own correction or nudge, cut short where Ctrl+C comes and at their first step for the PHYs after that |
| Restore.RunInv | lib/phy.cpp:79-104 | the invariant of every reachable state: each register holds its saved value or some thread is still going to write it |
| Restore.RestoredWhenAllFinished | lib/phy.cpp:79-227 | in every interleaving of ramp, any number of timer expiries and Ctrl+C, once all threads have finished every register is restored and no timer is left |
| Restore.RestoredOnReturn | lib/phy.cpp:212-227 | with at most one expiry and no Ctrl+C the return of the main thread alone is enough |
| Restore.NeverStuck | lib/phy.cpp:212-227 | until everything has ended some thread can always move without waiting for Ctrl+C |
| Restore.EndsOnceTimerGone | lib/phy.cpp:79-104 | once the timer is deleted the threads make at most as many more steps as an explicit cost of the state, in every order and however often Ctrl+C comes |
| Restore.RestoredWhenUsedUp | lib/phy.cpp:79-104 | when those steps are used up everything has ended and every register is restored |
| Restore.MainEndsAfterCtrlC | lib/phy.cpp:212-227 | once Ctrl+C has come the main thread makes at most two writes of every register and nine more steps, however long the ramps still are |
| Measure.FindMinimumDelta | swgenlock/secondary.cpp:41-81 | the signed difference of the closest pair over all pairs, ties to the latest secondary then latest primary stamp, with its primary stamp; the unset value for empty input |
| Measure.NearestUnique | swgenlock/secondary.cpp:63-81 | that pair is determined by the stamps |
| Measure.NearestMeans | swgenlock/secondary.cpp:63-81 | no pair is closer, and an equally close one has an earlier secondary stamp, or the same and no later primary one |
| Measure.FindAvg | swgenlock/sync_common.cpp:232-239 | the telescoped span, kept in 32 bits, over the number of intervals, truncated |
| Measure.AverageOfSpan | swgenlock/sync_common.cpp:232-239 | for stamps of any spacing the average is the span over the intervals cut to whole microseconds, and negative from a span of 2^31 on |
| Measure.AverageOfFew | swgenlock/sync_common.cpp:232-239 | one stamp, or none, averages to zero |
| Measure.PeriodicAverage | swgenlock/sync_common.cpp:232-239 | stamps of a fixed period average to it while they span less than 2^31 microseconds |
| Measure.NormalizeDelta | swgenlock/secondary.cpp:92-131 | the in-place reduction equals `Normalized` |
| Measure.NormalizedResidue | swgenlock/secondary.cpp:92-131 | congruent modulo the period, in (-avg, avg/2], and idempotent |
| Measure.NormalizedNearestIff | swgenlock/secondary.cpp:92-131 | it is a least-absolute residue if and only if the remainder is not below minus half a period |
| Measure.NotNearestExample | swgenlock/secondary.cpp:92-131 | a concrete negative delta that is not folded up |
| Measure.PhaseExtraction | swgenlock/secondary.cpp:41-131 | for stamps of one period the delta is the true offset modulo the period; it is at most half a period, and kept by normalising, if and only if the captures overlap within half a period |
| Hysteresis.CountersInvariant | swgenlock/secondary.cpp:523-553 | after any readings `out_of_sync` is 0 or 1, and 1 exactly when the last reading was deferred |
| Hysteresis.OverReadingsAccounted | swgenlock/secondary.cpp:523-553 | conservation: readings over the threshold = one per early and two per later synchronisation + forgiven ones + the pending one, for every run |
| Hysteresis.SuccessesSinceSync | swgenlock/secondary.cpp:523-553 | the counter of successful iterations is the number of readings in step since the last synchronisation |
| Hysteresis.SyncIff | swgenlock/secondary.cpp:523-553 | a reading synchronises if and only if it is over the threshold and is among the first two to do so or directly follows an over-threshold reading that did not |
| Controller.PipeController.PerformSynchronization | swgenlock/secondary.cpp:193-262 | the temporary correction leaves every register as it was, a nudge follows exactly when learning applies and never before the third synchronisation or after the time period, other pipes are untouched; the trace is that of the correction followed by that of the nudge; all of it for Ctrl+C at any point of either and for none |
| Controller.PipeController.DoPipeSync | swgenlock/secondary.cpp:413-558 | status, counters, registers and clock trace of one iteration, for every outcome of the captures: nothing beyond 35 ms, nothing up to the threshold, else the synchronisation for the normalised delta of the closest pair, with Ctrl+C at any point or none |
| Controller.OvershootApplies | swgenlock/secondary.cpp:226-230 | without learning, or more than the time period after the last synchronisation, the correction is the one for the overshot request |
| Controller.NoOvershootWhileLearning | swgenlock/secondary.cpp:226-230 | with learning and within the time period it is the one for the request itself |
| Controller.NeverBoth | swgenlock/secondary.cpp:226-259 | no synchronisation both overshoots and nudges |
| Controller.QuitCases | swgenlock/secondary.cpp:193-262 | without Ctrl+C these are the registers and the trace the run lemmas speak of; after Ctrl+C during the correction no nudge changes a register |
| Learning.ShiftIsOneStep | lib/phy.cpp:276-303 | a nudge is always a single write, whichever way the comparison rounds |
| Learning.UnchangedWithoutNudge | swgenlock/secondary.cpp:226-259 | temporary corrections and the first two synchronisations never change the resting registers |
| Learning.UnchangedWhenLate | swgenlock/secondary.cpp:249-250 | no run whose synchronisations are all at least the time period apart changes the registers, nor one with a learning rate below 1e-9 |
| Learning.EarlySynchronizationNudges | swgenlock/secondary.cpp:249-259 | the third and every later synchronisation within the time period writes the clock it finds, lowered or raised by the learning rate |
| Learning.NudgesAtMost | swgenlock/secondary.cpp:249-250 | the first two synchronisations never nudge, the others at most once |
| Learning.AccumulatedClosed | swgenlock/secondary.cpp:249-259 | the accumulated write error of k nudges is the geometric sum |
| Learning.LearnedClock | swgenlock/secondary.cpp:249-259 | after any run the resting clock is f0 times the product of the nudge factors, up to the geometrically accumulated write error |
| Learning.ReadingsAreEvents | swgenlock/secondary.cpp:523-557 | the registers after any readings are those of their synchronisations |
| Learning.EventsCounted | swgenlock/secondary.cpp:553-555 | those synchronisations are numbered by the counter of the pipe |
| Learning.LearnedFromReadings | swgenlock/secondary.cpp:249-259 | the same for every run of readings, on any PHY with a bounded write error |
| Learning.RunPipe | swgenlock/secondary.cpp:413-558 | the loop of a pipe itself: after any captures its counters and the registers of all its PHYs are those the run lemmas speak of, other pipes are untouched |
| Learning.LearnedBelow | swgenlock/secondary.cpp:249-259 | on a PHY that never programs more than it is asked for, the resting clock is never above that product |
| Learning.ComboLearnedClock | swgenlock/secondary.cpp:249-259 | on a Combo PHY the clock learned from any readings is never above its ideal and below it by at most the accumulated loss of its writes |
| Learning.C10LearnedClock | swgenlock/secondary.cpp:249-259 | the same on a C10 PHY, with one quotient step a write |
| Learning.ComboNudgeRaisesIff | README.md:261-265 | a nudge that is meant to raise a Combo PHY does if and only if it reaches the next fraction code and the integer field holds the clock |
| Learning.ComboNudgeNeverRaises | swgenlock/secondary.cpp:249-259 | a nudge of less than a kilohertz never raises a Combo PHY, whichever way it is meant |
| Learning.ComboNeverRises | swgenlock/secondary.cpp:249-259 | nor does any run of synchronisations at such a rate |
| Learning.ComboDocumentedRate | docs/swgenlock.md:74 | at the documented rate no run raises a Combo PHY that starts below 10 GHz |
| Genlock.GuardPasses | lib/vsyncalter.cpp:453 | every normalised delta passes the 20 ms guard when avg * (1 + overshoot) <= 20000 microseconds |
| Genlock.NextPhase | swgenlock/secondary.cpp:226-232 | at the clocks asked for, the delta after a synchronisation is minus overshoot times the delta, within 10 microseconds per percent of shift, plus exactly what the ramp waits add |
| Genlock.NextPhaseWithoutWaits | README.md:255 | at the clocks asked for and without steps the waits add nothing, and with no overshoot the delta vanishes to that precision |
| Genlock.NextPhaseOnHardware | swgenlock/secondary.cpp:226-232 | at the clocks the registers stand for, the same with the accumulated write error of the PHY added to the bound, waits or not |
| Genlock.ResolutionMetIff | swgenlock/secondary.cpp:226-232 | without waits, at the clocks the registers stand for, the delta is left at minus the overshoot times the delta, to within 10 microseconds per percent of shift, if and only if what the programmed clock gains in the hold is that close to the request |
| Genlock.SingleStepResolutionIff | swgenlock/secondary.cpp:226-232 | for one write each way: if and only if the miss of that write times the hold, relative to the clock, is that close to the truncated rest of the hold |
| Genlock.ExactWriteMeetsResolution | swgenlock/secondary.cpp:226-232 | so a register that hits the shifted clock always meets it |
| Genlock.ComboWriteErrorExample | swgenlock/secondary.cpp:226-232 | a concrete Combo correction that fails that condition, by a hundred times the resolution |
| Genlock.GenlockCloses | swgenlock/secondary.cpp:413-558 | from stamps to phase: measured delta, correction and the offset the hardware is left with modulo the period, waits and write error included, in one statement |
| Genlock.RunContracts | swgenlock/secondary.cpp:226-232 | over any run of synchronisations, each starting from the registers the nudges before it have left, the delta shrinks geometrically by the overshoot, down to the bound of one synchronisation and the reading error |
| Genlock.DecayedClosed | swgenlock/secondary.cpp:226-232 | the closed form of that bound for an overshoot below one |
| PllCtl.AdjustRefresh | pllctl/pllctl.cpp:276-321 | the loop keeps interval times clock, stops at the first interval in tolerance or the limit, and uninterrupted ends in tolerance if and only if some of the first thousand intervals is, which up to 19999.9 is exactly when the start can reach the band |
| PllCtl.NoJumpIff | pllctl/pllctl.cpp:288-303 | no change jumps over the tolerance band if and only if the wanted period is at most 19999.9 microseconds |
| PllCtl.ErrorShrinks | pllctl/pllctl.cpp:288-303 | up to there every change strictly shrinks the error and stays on its side |
| PllCtl.ConvergesIff | pllctl/pllctl.cpp:279-314 | up to 19999.9 microseconds, for any iteration limit: the loop ends in tolerance if and only if changes in one direction can bring the start to the near end of the band |
| PllCtl.Converges | pllctl/pllctl.cpp:279-314 | in particular from every start within one percent, by Bernoulli's inequality |
| PllCtl.AllReachableConvergeIff | pllctl/pllctl.cpp:279-314 | every start that can reach the band does so, if and only if the wanted period is at most 19999.9 microseconds |
| PllCtl.SwingsIff | pllctl/pllctl.cpp:288-314 | from a start in the gap below the band, for any iteration limit: tolerance is reached if and only if the round trips drift far enough |
| PllCtl.ReachesIff | pllctl/pllctl.cpp:279-314 | above 19999.9 microseconds, from any start below or above and for any iteration limit: tolerance is reached if and only if the drift of the round trips left after the m changes it takes to get there is enough, a comparison of the start with a product of powers |
| PllCtl.EveryStartLands | pllctl/pllctl.cpp:279-314 | every start has such an m, from below or from above |
| PllCtl.SwingsForever | pllctl/pllctl.cpp:279-314 | for every wanted period from 20101 microseconds, a start next to the band that swings around it until the limit |
| PllCtl.FailsWithinPercent | pllctl/pllctl.cpp:279-314 | for every wanted period from 20001 microseconds, a start within one percent that never reaches tolerance |
| PllCtl.OscillatesExample | pllctl/pllctl.cpp:279-314 | the literal case of 20200 microseconds |
| FrameSecondary.Secondary.Iterate | framesync/secondary.cpp:194-250 | one iteration: head of the queue taken, slept to its target if early, presented at the next vblank; keeps presented updates in arrival order, each once, each after its target |
| FrameSecondary.Secondary.Receive | framesync/secondary.cpp:89-101 | an arrival joins the end of the queue and nothing else changes |
| FrameSecondary.Secondary.Delay | framesync/secondary.cpp:194-203 | the loop may come to its next iteration late by any amount without the order, once and after-target guarantees being lost |
| FrameSecondary.InOrderAppend | framesync/secondary.cpp:205-241 | presenting the head of the queue keeps the presented updates a repetition-free subsequence of the arrivals |
| FrameSecondary.OnTimeAppend | framesync/secondary.cpp:213-236 | presenting at the vblank after waking keeps every presentation after its target and after the one before |
| FrameSecondary.RunSecondary | framesync/secondary.cpp:194-250 | the two threads, iteration by iteration, present exactly the closed-form schedule for any arrivals |
| FramePrimary.Primary.Iterate | framesync/primary.cpp:141-222 | one iteration: whether an update is sent, its target, colour and number, when it is presented; keeps sends paced and numbered |
| FramePrimary.NewSend | framesync/primary.cpp:151-182 | an update always leaves after the vblank at which the one before was due, an interval after its target |
| FrameAgreement.Lateness | framesync/secondary.cpp:213-236 | the exact vblank at which a free loop presents an update that arrives at any time: one vblank late for every vblank its pickup is late |
| FrameAgreement.OneUpdate | framesync/secondary.cpp:213-236 | the same in terms of the latency; together with the primary if and only if the latency fits |
| FrameAgreement.NeverEarlier | framesync/secondary.cpp:194-250 | whatever gets lost or overtakes, every update that reaches a node is at least that late |
| FrameAgreement.AgreesOnFirst | framesync/secondary.cpp:194-250 | by induction over the run, a node agrees on the first n updates if and only if all of them came in time |
| FrameAgreement.LossKeepsPace | framesync/primary.cpp:151-222 | what is left of a primary's sends when any updates are lost still has the pacing the agreement proof needs |
| FrameAgreement.AgreementNeedsOrder | framesync/secondary.cpp:194-250 | a node that agrees on all it gets got it in the order it was sent |
| FrameAgreement.AllAgreeIff | framesync/primary.cpp:151-222 | over any number of nodes, losses and overtaking, all present what reaches them, in the order it reaches them, at the primary's vblank if and only if every latency + 500 fits in the whole periods of 500 + time ahead |
| FrameAgreement.InTimeInOrder | framesync/primary.cpp:151-222 | updates within that bound do not overtake one another |
| FrameAgreement.QueueEmptyAtSend | framesync/primary.cpp:151-222 | then every update is presented before the next one is sent |
| FrameAgreement.RunNode | framesync/secondary.cpp:194-250 | the loop of a secondary, run on whatever reaches it, presents all of it with the primary exactly under that condition |
| FrameAgreement.PeriodOfSlackSuffices | framesync/primary.cpp:180-182 | latency + period <= time ahead is enough |
| FrameAgreement.DefaultsAt60Hz | framesync/demo_common.h:64-65 | the documented 33 ms work up to 32.834 ms of latency; with the real default of 16 ms an update is one vblank late plus one for every period of latency |
| Collector.VsyncCollector.Collect | swgenlock/primary.cpp:66-79 | the buffer stays the last max_count stamps of the whole history |
| Collector.VsyncCollector.GetLastVsyncs | swgenlock/primary.cpp:122-131 | succeeds exactly when that many stamps exist and are kept, with the last ones in order |
| Collector.VsyncCollector.Serve | swgenlock/primary.cpp:328-340 | a request is answered exactly for counts 1 to 100 of which enough were ever collected |
| Collector.LastOfAppend | swgenlock/primary.cpp:70-76 | dropping the oldest when full and appending refines the unbounded history |
| Ownership.PhyList.FindEnabledPhys | lib/vsyncalter.cpp:153-253 | succeeds exactly when every driven pipe comes to a usable object and no two share a DPLL; then lists them in pipe order with each flag set exactly for an owner |
| Ownership.PhyList.NewPhy | lib/combo.cpp:59-113 | a Combo constructor succeeds exactly when its clock bit is clear and the DPLL of its multiplexer field is free, a DKL one exactly when its register is not all ones and its DPLL is free; then that flag alone is set |
| Ownership.PhyList.CleanupPhyList | lib/vsyncalter.cpp:266-283 | after success or failure all flags are clear, so initialisation can be repeated |
| Ownership.NothingIff | lib/vsyncalter.cpp:185-204 | a pipe is passed over exactly when bit 31 of its register is clear or bits 30:27 select no listed interface |
| Ownership.ClaimOfEntry | lib/vsyncalter.cpp:193-233 | any other pipe comes to the first listed interface of that number, and to an M and N object in modes 2 and 3 when those are asked for |
| Ownership.KindsClaim | lib/combo.cpp:75-106 | what each kind needs, on the masked words: clock bit clear and multiplexer field, first DKL interface and a register that is not all ones |
| Ownership.ListedObject | lib/vsyncalter.cpp:185-253 | after success every listed object belongs to a pipe that is on, and its registers are as its kind needs |
| Ownership.UnusableFails | lib/vsyncalter.cpp:239-243 | a pipe that drives an interface whose object cannot be used makes initialisation fail |
| Ownership.TigerLakeSingle | lib/platforms/tgl.h:31-40 | a single pipe on any listed interface of Tiger Lake with its clock on initialises with exactly the object for it |
| Ownership.OwnedNext | lib/dkl.cpp:78-100 | the flag of the next object is set exactly when it clashes with a listed one; setting it keeps flags and owners in step |
| Ownership.SharedMultiplexerFails | lib/vsyncalter.cpp:185-253 | two Combo interfaces with the same multiplexer field can never both be driven, whatever the registers hold |
| Ownership.TigerLakeBAndCFail | lib/platforms/tgl.h:31-40 | on the table of Tiger Lake this is the case for DDI B and DDI C, on any two pipes |
| Ownership.TigerLakeExample | lib/platforms/tgl.h:31-40 | concrete register words that select them |
| Ownership.FieldIsMacro | lib/macros.h:51-55 | the fields of a register word are what `GETBITS_VAL` reads |
| Ownership.BitSetIsMacro | lib/vsyncalter.cpp:188-191 | the bit test of a register word is the masked test of the source |

## Left out

- `lib/c20.cpp`: its encoder rounds where its comment says integer part, so the remainder can be negative and its unsigned conversion is undefined; there is no inverse law to state.
- `lib/cx0_helper.cpp`: the message bus waits ignore their mask and value, so a claim would rest on a guessed device.
- `lib/dp_m_n.cpp`: only stores a truncated M value; it appears as a kind of listed object.
- MMIO mapping, PCI lookup, DRM events, sockets, SDL rendering and POSIX timers: register images, stamps, latencies and vblank times are parameters.
- IEEE-754 rounding, 32-bit counter wrap-around, and the cast of a hold time that does not fit an `int`.
- The registers a PHY writes besides its dividers: cfgcr1, the HIP index and the other control writes of `program_mmio`.
- The failing Combo constructor: its destructor follows an unset pointer, so nothing is said about the state after it; a failing DKL constructor is modelled with the flag its destructor clears.
- `dp_m_n`'s table flag, and what a failing `make_timer`, encoder or register write would do.
- The wrappers `set_pll_clock` and `get_pll_clock` that read the registers first, and the `frequency` option of `pllctl`.
- Logging, CSV files, command lines, the monitoring port, plotting scripts, build files, platform and PCI tables.
- Phy.VsyncLibrary.SynchronizeVsync: the uninitialised library is not modelled, because the list is a field that always exists.
- PllCtl.ReachesIff: stops at a wanted period of 1000 seconds; from about twice that a single round trip is wider than the band.
- Controller.PipeController.DoPipeSync: the capture of the stamps, the clock readings and the logging thread are parameters; `last_sync` is represented by the duration since it.
- FrameAgreement.AllAgreeIff: says nothing about displays that are not locked, or about a node that starts after the first update was sent.
