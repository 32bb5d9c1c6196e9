# Verification of the LED, settings, alarm and GPIO logic

A Dafny model of the firmware's stateful core, and proofs of what it keeps over whole runs.
`dafny verify dfyconfig.toml` checks all of it. Where the firmware updates an object in place the
model is a class whose methods are proved against a function on values; the theorems about runs
are lemmas about those functions. Failing locks, allocations, saves, renames and handlers are
parameters, so that a statement holds for every pattern of failures.

| files | what they model |
|---|---|
| `Words`, `Options` | fixed-width integers, arithmetic facts, optional values |
| `Random` | the 16-bit generator behind the effects and the two retry loops on top of it |
| `Colors`, `PixelStrip` | packed colours, pre-multiplied brightness and the pixel buffer of the strip driver |
| `EffectSteps`, `Fade`, `Blend` | the counters and the byte arithmetic of the effects, with closed forms for runs of any length |
| `Segments`, `Rendering`, `Ws2812fx` | segments, the pictures the effects draw, and the effect engine itself |
| `ActiveSegments`, `EffectTiming` | which segment runs in which slot, on which runtime, and when its next frame is drawn |
| `RmtEncoder` | bytes to pulses, the show routine with its reused buffer and lock, and the chunked adapter |
| `LedMatrix` | the 8x8 panel: rotation, drawing, showing, muting |
| `MatrixDisplay`, `RedrawGuard`, `CommandState`, `DisplaySystem` | the display loop, its skipped redraws, the requests that wait for it, and what loop and requests do together |
| `MatrixIcons`, `MatrixConfig`, `ConfigPersistence`, `Transactions`, `MatrixSettings` | the transactional settings of the matrix, from the icon cache to the configuration file |
| `AlarmSettings`, `AlarmMailbox` | the alarm rules' transactions and the mailbox between sensors and evaluation |
| `SharedDocument` | the one document both settings services save |
| `GpioConfig`, `Debounce`, `GpioService` | GPIO configuration, the debounce filter, and the agreement of store and runtime |

## How to read the main results

- **Generator.** `FullPeriod` is proved for every seed, not by enumeration: the displacement of n
  steps is a geometric sum whose divisibility by powers of two is followed bit by bit. The two retry
  loops are methods with a proved bound, and for the colour loop the exact condition for ending.
- **Brightness.** Every run of the strip driver's operations keeps every byte at or below
  `GetBrightness()` (`RunFromStart`), so rescaling never wraps and reading back never mixes lanes. The
  effect engine's own `SetBrightness` stores the factor without rescaling, so the bound is a property of
  the driver's operations only; `ReadsApartIff` says exactly when reading back still works without it.
- **Effects.** A method states the whole picture of one frame; the `Run...` methods state it for any
  number of frames from a reset, on a segment whose runtime is its own.
- **End to end.** `TransmitFrame` composes drawing, showing, muting and the show routine: whatever the
  line sends decodes to the bitmap at its rotated positions, or to black. `SendOnBoard` says the same of the
  board's own panel byte by byte, in numbers.
- **Display.** `LatestRequestAfterRun` follows a request from any reachable backlog to the panel, and
  `PanelGoesBack` what a timer or a clear leaves there, from the requests of the run;
  `TimedItemClearsOnTime` is about true times although the loop sees a clock that wraps.
- **Outcomes.** `OutcomeIs` and `QuietOutcomeIs` say for both settings services which steps must work
  for each outcome an update can report, code by code.
- **Transactions.** In both settings services `UpdateIsAtomic` and the theorems about runs need writes
  that are not cut short, because a cut one is reported as success; `ChangeIsCoherentIff`,
  `RollbackIsCoherentIff` and `ReportIsTrueIff` say exactly what that costs. The matrix service also
  needs the locks whose time-outs go unreported (`Quiet`); `RollbackRestoresIff` and
  `SavedFaithfullyIff` say what those cost. Runs may contain saves by other services, since all of them
  save one document (`SharedDocument`).
  The JSON variant of an update takes the same steps with an updater that reads a document, and is
  covered because the updater is arbitrary.
- **Debounce.** `Accepted` is the meaning of the filter over the true times of all readings; the
  stored state is proved to refine it although it only sees a clock that wraps.

## Where the code does less than it says

Each of these is stated as it is in the code, with the exact condition and with an input that shows it.

- `writeConfigDocumentAtomically` (src/core/config/persistence/ConfigPersistence.cpp:66) is not
  atomic: between its two renames no configuration file exists, and if the second rename and the
  rename back both fail the configuration survives only as the backup (`ConfigFile.Save`,
  `FailedRenamesStrandConfig`). Nor does it compare what was written with the document: a short write
  is promoted and reported as success (`ReportsTruncatedIff`, `ShortWriteLosesConfig`), so that an
  update of either settings service is reported as done over a file that cannot be loaded any more
  (`ChangeIsCoherentIff`, `ReportIsTrueIff`, `ReportedChangeLosesRules`). Nor does it look at whether a
  backup from earlier could be removed, which a failed save can then make the configuration again
  (`FailedSaveRevivesBackup`).
- A save by any service rewrites every section from the live stores: a time-out while the rules are
  read leaves none of them on flash and is not reported (`OtherSaveIsCoherentIff`,
  `OtherSaveLosesRules`), and a rejected state that could not be undone reaches flash with the next save
  by another service (`RejectedStateReachesFlash`).
- The effect engine's `SetBrightness` (lib/WS2812FX/WS2812FX.cpp:253) does not rescale what is drawn, so
  that a fading effect reads mixed channels back after the panel was dimmed (`ReadsApartIff`,
  `DimmedGreenReadsBackMixed`).
- The effect engine compares clock readings, not differences: around the wrap of the clock frames come
  early, or not at all for 49 days (`DueOnTimeIff`, `NextFrameOnTimeIff`, `WrapFreezesEffect`).
- A rollback reports success although an icon is lost when its presence check timed out, because the
  time-out reads as "no icon" (`RollbackRestoresIff`, `RollbackLosesIcon`); a save can likewise write
  defaults (`SavedFaithfullyIff`, `SaveLosesIcon`).
- A failed initialisation of the pulse channel returns without giving the lock back, after which
  nothing is sent any more (`LeakLosesTheRest`, `DeliversAllIff`, `InitialisationFailureSilencesLine`).
- Redraws of the active icon are skipped even if the panel went dark since, so it stays dark
  (`GuardedRunIff`, `GuardedRunOnEventsIff`, `GuardLeavesPanelDark`).
- A request made while a clear is pending is dropped with everything else, and a colour requested
  after an effect is overdrawn by it (`LatestRequest`, `IconAfterClearIsLost`,
  `ColourAfterEffectIsOverdrawn`).
- `resetSegmentRuntime` resets the runtime numbered like the segment, and `swapActiveSegment`, despite
  its comment, resets only a copy (`AddedStartsFreshIff`, `SwappedStartsFreshIff`,
  `AddedSegmentGoesOn`, `SwappedSegmentGoesOn`); an active segment numbered past the runtimes makes the
  reset write outside them (`ResetsStayInsideIff`, `SwapCanLeaveRuntimes`).
- A scan draws outside its segment when the block is not shorter than the segment
  (`ScanStaysInsideIff`, `ScanLeavesSegment`), and slow fades from below stop short of their target
  (`FadeReachesTargetIff`, `SlowFadeSticks`).
- Driving an output or updating the configuration changes one of store and runtime but not the other
  when only one of the two locks is acquired (`AgreementKeptIff`, `MissedLockBreaksAgreement`).

## Model

| member | source | states |
|---|---|---|
| Random.FullPeriod | lib/WS2812FX/WS2812FX.cpp:621-623 | n steps of the generator bring a seed back to itself exactly when 65536 divides n, whatever the seed |
| Random.ReachesEverySeed | lib/WS2812FX/WS2812FX.cpp:621-623 | from every seed every other seed is reached within 65536 steps |
| Random.WheelTerminates | lib/WS2812FX/WS2812FX.cpp:600-614 | from every position and seed some draw within 65536 is far enough away, so the retry loop ends |
| Random.PickTerminates | lib/WS2812FX/modes.cpp:589-595 | the loop that looks for a colour that is not black ends within 65536 draws if one of the three is not black |
| Random.PickTerminatesIff | lib/WS2812FX/modes.cpp:589-595 | that loop ends exactly when one of the three colours is not black |
| Random.StepBack | lib/WS2812FX/WS2812FX.cpp:621-623 | the generator can be run backwards by another generator of its kind |
| Random.FoldIsFair | lib/WS2812FX/WS2812FX.cpp:621-624 | each byte comes from exactly one low byte for every high byte of the seed |
| Random.ScaleIsShare | lib/WS2812FX/WS2812FX.cpp:627-631 | a byte below a limit is the byte's share of the limit, rounded down |
| Random.GoalsAre | lib/WS2812FX/WS2812FX.cpp:600-614 | what the wheel draw looks for, and which bytes the palette draw turns into which of the three colours |
| Random.RandomSource.Random8 | lib/WS2812FX/WS2812FX.cpp:621-624 | the new seed and the byte folded from it |
| Random.RandomSource.Random8Below | lib/WS2812FX/WS2812FX.cpp:627-631 | a number below the limit, from the folded byte |
| Random.RandomSource.GetRandomWheelIndex | lib/WS2812FX/WS2812FX.cpp:600-614 | the result is between 42 and 213 away from the position, is the first draw that is, and comes within 65536 draws |
| Random.RandomSource.PickColor | lib/WS2812FX/modes.cpp:589-595 | the first colour drawn that is not black, within 65536 draws |
| Colors.ReadBackError | lib/Adafruit_NeoPixel/Adafruit_NeoPixel.cpp:3623-3657 | a channel read back is never brighter than written and less than 256/factor + 1 darker |
| Colors.LanesDoNotOverlap | lib/Adafruit_NeoPixel/Adafruit_NeoPixel.cpp:3623-3657 | channels that fit a byte are or-ed into a packed colour without disturbing each other |
| Colors.BitOrBits | lib/Adafruit_NeoPixel/Adafruit_NeoPixel.cpp:3623-3657 | a bit of a packed colour is set exactly when one of the values or-ed into it has it |
| Colors.RescaleDoesNotWrap | lib/Adafruit_NeoPixel/Adafruit_NeoPixel.cpp:3674-3708 | rescaling a byte that respects the old brightness never wraps and respects the new one |
| Colors.RescaleKeepsProportion | lib/Adafruit_NeoPixel/Adafruit_NeoPixel.cpp:3674-3708 | a rescaled byte is its share of the new brightness, or one more |
| Colors.RescaleFromBlack | lib/Adafruit_NeoPixel/Adafruit_NeoPixel.cpp:3674-3708 | what was black at brightness 0 stays black |
| Colors.WheelColors | lib/WS2812FX/WS2812FX.cpp:584-595 | every wheel position has channels adding up to 255, and only positions 0 and 255 share a colour |
| PixelStrip.NeoPixel.WriteBytes | lib/Adafruit_NeoPixel/Adafruit_NeoPixel.cpp:3396-3416 | exactly the bytes of one pixel change, each to the channel its offset names |
| PixelStrip.NeoPixel.SetPixelColorRgb | lib/Adafruit_NeoPixel/Adafruit_NeoPixel.cpp:3396-3416 | the pixel shows the scaled colour without white, no other pixel changes, and the brightness bound is kept |
| PixelStrip.NeoPixel.SetPixelColorRgbw | lib/Adafruit_NeoPixel/Adafruit_NeoPixel.cpp:3428-3449 | the pixel shows the scaled colour, no other pixel changes, and the brightness bound is kept |
| PixelStrip.NeoPixel.SetPixelColor | lib/Adafruit_NeoPixel/Adafruit_NeoPixel.cpp:3458-3477 | the same for a packed colour |
| PixelStrip.NeoPixel.Fill | lib/Adafruit_NeoPixel/Adafruit_NeoPixel.cpp:3490-3511 | exactly the pixels of the clipped range show the colour; the end is computed in 16 bits |
| PixelStrip.NeoPixel.GetPixelColor | lib/Adafruit_NeoPixel/Adafruit_NeoPixel.cpp:3623-3657 | 0 past the end, otherwise the channels of the pixel divided back by the brightness |
| PixelStrip.NeoPixel.SetBrightness | lib/Adafruit_NeoPixel/Adafruit_NeoPixel.cpp:3674-3708 | every byte is rescaled, the bound holds for the new brightness, and nothing happens for an equal one |
| PixelStrip.NeoPixel.Clear | lib/Adafruit_NeoPixel/Adafruit_NeoPixel.cpp:3719 | all bytes are 0 and the bound holds |
| PixelStrip.NeoPixel.UpdateLength | lib/Adafruit_NeoPixel/Adafruit_NeoPixel.cpp:180-207 | a cleared buffer whose size is computed in 16 bits, or no pixels at all without memory; exactly when the buffer has room for its pixels |
| PixelStrip.NeoPixel.UpdateType | lib/Adafruit_NeoPixel/Adafruit_NeoPixel.cpp:226-244 | the buffer is kept when the bytes per pixel stay the same, cleared and re-allocated otherwise; the bound is kept; exactly when the new layout fits the buffer |
| PixelStrip.ReadsApartIff | lib/Adafruit_NeoPixel/Adafruit_NeoPixel.cpp:3623-3657 | the packed colour unpacks to what each stored channel reads back as exactly when every channel respects the brightness factor |
| PixelStrip.OffsetsOfType | lib/Adafruit_NeoPixel/Adafruit_NeoPixel.cpp:229-232 | each two bits of a pixel type are the offset of the channel they are documented for |
| PixelStrip.DimmedGreenReadsBackMixed | lib/WS2812FX/WS2812FX.cpp:253-257 | pure green drawn at factor 200 reads back as green mixed with red once the effect engine has set the factor to 10 |
| PixelStrip.NeoPixel.PerformAll | lib/Adafruit_NeoPixel/Adafruit_NeoPixel.cpp:3396-3719 | shape, factor and pixels after any operations, which keep every byte within the brightness and every pixel's channels apart |
| PixelStrip.RunFromStart | lib/Adafruit_NeoPixel/Adafruit_NeoPixel.cpp:3396-3719 | the same from the construction of a strip on |
| PixelStrip.ReadBackOfWritten | lib/Adafruit_NeoPixel/Adafruit_NeoPixel.cpp:3623-3657 | every channel just written reads back no brighter and less than 256/factor + 1 darker |
| EffectSteps.FillerFullIff | lib/WS2812FX/modes.cpp:789-820 | after n frames the glass is full exactly when length * (length + 1) / 2 divides n |
| EffectSteps.ScanIsTriangle | lib/WS2812FX/modes_funcs.cpp:112-135 | a block shorter than its segment follows the triangle wave of period 2 * (length - size) |
| EffectSteps.ScanStaysInsideIff | lib/WS2812FX/modes_funcs.cpp:112-135 | in every frame the block is inside the segment exactly when it is shorter than the segment |
| EffectSteps.LarsonIsTriangle | lib/WS2812FX/modes.cpp:541-566 | the lit pixel follows the triangle wave of period 2 * length - 2 and is always inside the segment |
| Segments.FilledPartIsLit | lib/WS2812FX/modes.cpp:789-820 | after every frame the pixels counted as filled are lit, and besides them only the drop |
| Segments.FillerPictureIsThreeFills | lib/WS2812FX/modes.cpp:802-811 | the frame made of three overlapping fills, as one picture |
| Segments.ShiftRegister | lib/WS2812FX/modes_funcs.cpp:352-367 | the pixel at distance d from the entry shows what came in d frames ago; pixels outside the segment never change |
| Segments.WrappedStep | lib/WS2812FX/modes_funcs.cpp:352-367 | the 32-bit wrap of the step counter does not disturb the pattern |
| Segments.FirstColorIff | lib/WS2812FX/modes_funcs.cpp:352-354 | of every two run lengths the first shows the second colour and the second the first, with run lengths that are powers of two |
| Segments.SizesArePowers | lib/WS2812FX/WS2812FX.h:120 | sizes are powers of two of the size option |
| Segments.OptionBits | lib/WS2812FX/WS2812FX.h:104-120 | reverse, fade rate, gamma and size are read back from the option bits they were put into |
| Segments.WheelTurnsEvenly | lib/WS2812FX/modes.cpp:252-271 | position and number of cycles of the rainbow are remainder and quotient of frames times increment by 256 |
| Segments.WheelIncrementIs | lib/WS2812FX/modes.cpp:262-263 | the wheel advances by as many steps as fit into 256 for the length, at least one |
| Segments.FilledPixels | lib/WS2812FX/modes_funcs.cpp:38-59 | exactly which pixels a fill covers, with both ends cut to 16 bits |
| Segments.WipeClosedForm | lib/WS2812FX/modes_funcs.cpp:84-107 | what every pixel shows after n frames of the wipe, in either direction |
| Segments.BlockDrawnAt | lib/WS2812FX/modes_funcs.cpp:118-126 | which pixels a block drawn with 16-bit indices covers, at any step and from either end |
| Segments.ScanLeavesSegment | lib/WS2812FX/modes_funcs.cpp:112-135 | a scan of a segment no longer than its block draws past its end in the second frame |
| Segments.BlockIsInside | lib/WS2812FX/modes_funcs.cpp:112-135 | at the steps of a block shorter than its segment the 16-bit indices mean exactly the block, inside the segment |
| Fade.FadeMovesTowardsTarget | lib/WS2812FX/modes_funcs.cpp:189-229 | a frame moves a channel towards its target without passing it or wrapping; it stands still exactly at the target or when stuck |
| Fade.FirstFrameFromBlack | lib/WS2812FX/modes_funcs.cpp:187-230 | how far a frame takes a channel from black to white and back, at each of the seven rates |
| Fade.ShiftsOfRate | lib/WS2812FX/modes_funcs.cpp:190-191 | the two right shifts of each rate |
| Fade.FadeSettles | lib/WS2812FX/modes_funcs.cpp:189-229 | within as many frames as the distance a channel is at its target or stuck for good, and at the target if it came from above |
| Fade.FadeReachesTargetIff | lib/WS2812FX/modes_funcs.cpp:189-229 | repeated frames reach the target exactly at rates 1 to 3, from above, or from less than 3 below |
| Fade.SlowFadeSticks | lib/WS2812FX/modes_funcs.cpp:189-229 | at rate 7 a channel 5 below its target never moves |
| Fade.EightHalvingsAreBlack | lib/WS2812FX/modes_funcs.cpp:207-209 | at rate 0 every channel is black after eight frames |
| Rendering.FadedCellChannels | lib/WS2812FX/modes_funcs.cpp:189-229 | on an unscaled strip the fade of a stored pixel is the fade of each of its channels |
| Rendering.CellChannels | lib/WS2812FX/WS2812FX.cpp:120-132 | the channels a colour is stored as, each corrected if the segment asks for it and times the factor over 256 |
| Rendering.FadeOutSettles | lib/WS2812FX/modes_funcs.cpp:189-229 | on an unscaled strip every stored pixel comes to rest: black at rate 0, else at the target or stuck below it |
| Blend.BlendBytes | lib/WS2812FX/modes_funcs.cpp:240-252 | memory after a blend at any three places of it: a copy at the ends, otherwise byte by byte from what is there by then |
| Blend.BlendsOldInputs | lib/WS2812FX/modes_funcs.cpp:240-252 | every byte is blended from the old inputs unless the target starts inside a source; a copy always is |
| Blend.BlendCanFeedBack | lib/WS2812FX/modes_funcs.cpp:240-252 | with the target one byte into a source a byte is blended from an earlier result |
| Blend.BlendIsBetween | lib/WS2812FX/modes_funcs.cpp:240-252 | a blend lies between its inputs and reaches the second only at amount 255 |
| Blend.BlendIsMonotone | lib/WS2812FX/modes_funcs.cpp:240-252 | a larger amount never ends further from the second input |
| Ws2812fx.MoveBytes | lib/WS2812FX/WS2812FX.cpp:158-163 | an overlapping move copies the old contents of the source range and nothing else |
| Ws2812fx.RainbowAt | lib/WS2812FX/modes.cpp:252-271 | the colour that is at distance d of a rainbow after n frames |
| Ws2812fx.Ws2812fx.constructor | lib/WS2812FX/WS2812FX.h:456-485 | the stored factor is the default brightness plus one, one segment covers the requested length, and the runtime starts reset |
| Ws2812fx.Ws2812fx.SetBrightness | lib/WS2812FX/WS2812FX.cpp:253-257 | the factor is stored as given, the pixels are not rescaled, and the frame is shown |
| Ws2812fx.Ws2812fx.SetPixelColorRgbw | lib/WS2812FX/WS2812FX.cpp:120-132 | the pixel shows the colour, gamma corrected if the segment asks for it, and no other pixel changes |
| Ws2812fx.Ws2812fx.SetPixelColor | lib/WS2812FX/WS2812FX.cpp:108-114 | the same for a packed colour |
| Ws2812fx.Ws2812fx.Fill | lib/WS2812FX/modes_funcs.cpp:38-59 | exactly the pixels of the range, clipped to segment and strip, show the colour |
| Ws2812fx.Ws2812fx.CopyPixels | lib/WS2812FX/WS2812FX.cpp:158-163 | whole pixels are copied, also between overlapping ranges, and no other pixel changes |
| Ws2812fx.Ws2812fx.ModeFillerUp | lib/WS2812FX/modes.cpp:789-820 | the whole picture of a frame and the next counters |
| Ws2812fx.Ws2812fx.ColorWipe | lib/WS2812FX/modes_funcs.cpp:84-107 | exactly one pixel is drawn, which one, and the next step |
| Ws2812fx.Ws2812fx.Running | lib/WS2812FX/modes_funcs.cpp:352-367 | the segment is shifted by one pixel, which colour enters, and the next step |
| Ws2812fx.Ws2812fx.ModeRainbowCycle | lib/WS2812FX/modes.cpp:252-271 | the segment is shifted by one pixel, the wheel colour that enters, and the next step |
| Ws2812fx.Ws2812fx.FadeOut | lib/WS2812FX/modes_funcs.cpp:189-229 | every pixel of the segment fades by one frame and no other pixel changes |
| Ws2812fx.Ws2812fx.ModeLarsonScanner | lib/WS2812FX/modes.cpp:541-566 | the segment fades, then one pixel is lit, which one, and the next step |
| Ws2812fx.Ws2812fx.Scan | lib/WS2812FX/modes_funcs.cpp:112-135 | the whole picture of a frame, at any step, with 16-bit indices, and the next step and direction |
| Ws2812fx.Ws2812fx.RunFillerUp | lib/WS2812FX/modes.cpp:789-820 | the whole picture after any run from a reset; the pixels counted as filled show the filling colour; a cycle is flagged once per length * (length + 1) / 2 frames |
| Ws2812fx.Ws2812fx.RunColorWipe | lib/WS2812FX/modes_funcs.cpp:84-107 | over any run from a reset the picture is the one of the closed form and a cycle is flagged each time the step is back at 0 |
| Ws2812fx.Ws2812fx.RunRunning | lib/WS2812FX/modes_funcs.cpp:352-367 | what every pixel shows after any run from a reset, in closed form: runs of the second and the first colour, as long as twice the size option's power of two |
| Ws2812fx.Ws2812fx.RunRainbowCycle | lib/WS2812FX/modes.cpp:252-271 | over any run from a reset the segment is a shift register fed with evenly spaced wheel colours; how often a cycle was flagged |
| Ws2812fx.Ws2812fx.RunScan | lib/WS2812FX/modes_funcs.cpp:112-135 | the whole picture after any run of a block shorter than its segment, with the block where the triangle wave has it; a cycle is flagged once per period |
| Ws2812fx.Ws2812fx.RunLarsonScanner | lib/WS2812FX/modes.cpp:541-566 | the whole picture after any run, and a cycle is flagged once per period |
| Ws2812fx.LarsonTrail | lib/WS2812FX/modes.cpp:541-566 | in that picture every pixel of the segment is the lit colour faded by the frames since it was last lit, or its own colour faded |
| Ws2812fx.LarsonStaysInside | lib/WS2812FX/modes.cpp:541-566 | in that picture every pixel outside the segment is as before |
| Ws2812fx.Ws2812fx.RunFadeOut | lib/WS2812FX/modes_funcs.cpp:189-229 | every pixel of a segment after any number of frames; all black after eight at rate 0 on an unscaled strip |
| ActiveSegments.ActiveSegments.AddActiveSegment | lib/WS2812FX/WS2812FX.cpp:500-510 | a segment takes the first free slot unless it is active already; no segment gets two slots; which runtime is reset, and whether it exists |
| ActiveSegments.ActiveSegments.RemoveActiveSegment | lib/WS2812FX/WS2812FX.cpp:512-518 | every slot of the segment becomes free and no other slot changes |
| ActiveSegments.ActiveSegments.SwapActiveSegment | lib/WS2812FX/WS2812FX.cpp:520-538 | the first slot of the old segment goes to the new one unless that is active; no runtime changes |
| ActiveSegments.ActiveSegments.ResetSegmentRuntime | lib/WS2812FX/WS2812FX.cpp:559-569 | the runtime numbered like an active segment is reset, whatever slot the segment is in; exactly when that write is outside the runtimes |
| ActiveSegments.ResetsStayInsideIff | lib/WS2812FX/WS2812FX.cpp:559-569 | resets stay inside the runtimes exactly when every active segment is numbered below their count |
| ActiveSegments.NumbersKeptIff | lib/WS2812FX/WS2812FX.cpp:500-538 | adding and removing keep that, and exactly which swaps do |
| ActiveSegments.SwapCanLeaveRuntimes | lib/WS2812FX/WS2812FX.cpp:520-538 | after a swap to segment 200 its reset writes outside two runtimes |
| ActiveSegments.AddedStartsFreshIff | lib/WS2812FX/WS2812FX.cpp:500-510 | an added segment starts from a reset exactly when its slot is its own number or was reset before |
| ActiveSegments.SwappedStartsFreshIff | lib/WS2812FX/WS2812FX.cpp:520-538 | a segment swapped in starts from a reset exactly when its slot already was at one |
| ActiveSegments.AddedSegmentGoesOn | lib/WS2812FX/WS2812FX.cpp:500-510 | segment 1 added to a slot that a segment left goes on from its steps |
| ActiveSegments.SwappedSegmentGoesOn | lib/WS2812FX/WS2812FX.cpp:520-538 | segment 1 swapped in goes on from the steps of segment 0 |
| EffectTiming.EffectService.Service | lib/WS2812FX/WS2812FX.cpp:72-105 | every active segment's runtime after a pass, and whether a frame is shown |
| EffectTiming.SlotsAre | lib/WS2812FX/WS2812FX.cpp:79-85 | free slots are left alone, and which of the others draw |
| EffectTiming.FrameSetsDeadline | lib/WS2812FX/WS2812FX.cpp:84-91 | a frame sets the next deadline by the delay its effect asks for, a pass without one only clears the flags |
| EffectTiming.FramesAreCounted | lib/WS2812FX/WS2812FX.cpp:84-91 | over a run of passes the call counter counts the frames, and the frame flag says whether the last pass drew one |
| EffectTiming.WaitIsLeast | lib/WS2812FX/WS2812FX.cpp:89 | the wait is the least that is neither below the delay nor below two milliseconds |
| EffectTiming.DueOnTimeIff | lib/WS2812FX/WS2812FX.cpp:85-89 | a pass draws the next frame if and only if its delay has gone by, exactly when the pass is on the turn of the clock on which the frame is due |
| EffectTiming.NextFrameOnTimeIff | lib/WS2812FX/WS2812FX.cpp:76-91 | over a run of passes the next frame is the first late pass exactly when all passes up to it are on that turn |
| EffectTiming.WrapFreezesEffect | lib/WS2812FX/WS2812FX.cpp:85-89 | a frame due just before the clock wraps that finds no pass there is not drawn for a whole turn of the clock |
| RmtEncoder.RmtLine.FillBuffer | lib/Adafruit_NeoPixel/esp.c:89-105 | the start of the reused buffer holds exactly the pulses of the frame |
| RmtEncoder.RmtLine.Resize | lib/Adafruit_NeoPixel/esp.c:53-78 | how much room the buffer has afterwards, and when the pin is released |
| RmtEncoder.RmtLine.EspShow | lib/Adafruit_NeoPixel/esp.c:38-113 | what is sent, without a stale tail, and buffer, pin and lock afterwards, for every failure, a missing lock and one not given back in time |
| RmtEncoder.CallIs | lib/Adafruit_NeoPixel/esp.c:36-112 | case by case what a call does to the buffer, the pin, the lock and the wire |
| RmtEncoder.DecodeOfEncode | lib/Adafruit_NeoPixel/esp.c:89-105 | decoding the pulses of a frame, most significant bit first, gives back the frame, for any length |
| RmtEncoder.FrameTiming | lib/Adafruit_NeoPixel/esp.c:86-104 | the ticks of every pulse, and that a frame of n bytes takes 96 * n of them whatever it shows |
| RmtEncoder.DeliversAllIff | lib/Adafruit_NeoPixel/esp.c:38-113 | a run of non-empty frames delivers every frame exactly when every call is for the pin of the one before it or can initialise its own |
| RmtEncoder.InitialisationFailureSilencesLine | lib/Adafruit_NeoPixel/esp.c:79-87 | two frames of which neither arrives, though the second could have been initialised |
| RmtEncoder.RmtLine.EspInit | lib/Adafruit_NeoPixel/esp.c:117-121 | the lock exists afterwards |
| RmtEncoder.LeakLosesTheRest | lib/Adafruit_NeoPixel/esp.c:79-87 | a failed initialisation loses its own frame and every later one |
| RmtEncoder.Adapt | lib/Adafruit_NeoPixel/esp.c:156-186 | a chunk translates whole bytes up to the wanted number of pulses, and nothing without source or destination |
| RmtEncoder.Transfer | lib/Adafruit_NeoPixel/esp.c:156-186 | chunks of any sizes make up the pulses of the frame |
| LedMatrix.RotationIsBijection | lib/matrix_driver/LedMatrix.cpp:43-71 | under every rotation positions and LEDs correspond one to one |
| LedMatrix.QuarterTurns | lib/matrix_driver/LedMatrix.cpp:43-71 | a further quarter turn moves what was at (x, y) to (7 - y, x) |
| LedMatrix.PulsesShowBitmap | lib/matrix_driver/LedMatrix.cpp:88-96 | decoding the pulses of a drawn frame gives the bitmap, scaled, at its rotated positions |
| LedMatrix.LedMatrix.Begin | lib/matrix_driver/LedMatrix.cpp:16-35 | the strip starts black on the wire, with a brightness factor that is not 0 |
| LedMatrix.LedMatrix.SetPixel | lib/matrix_driver/LedMatrix.cpp:73-78 | the LED at the rotated position shows the colour and no other LED changes; positions off the panel are ignored |
| LedMatrix.LedMatrix.FillScreen | lib/matrix_driver/LedMatrix.cpp:80-86 | every LED shows the colour |
| LedMatrix.LedMatrix.DrawBitmap | lib/matrix_driver/LedMatrix.cpp:88-96 | every LED shows the bitmap's colour for its position |
| LedMatrix.LedMatrix.Show | lib/matrix_driver/LedMatrix.cpp:146-153 | the buffer is on the wire, black while muted |
| LedMatrix.LedMatrix.SetBrightness | lib/matrix_driver/LedMatrix.cpp:155-169 | brightness 0 mutes: the factor stays above 0 and the last frame on the wire is black |
| LedMatrix.LedMatrix.SetRotation | lib/matrix_driver/LedMatrix.cpp:171-173 | the rotation modulo 4 |
| LedMatrix.LedMatrix.Service | lib/matrix_driver/LedMatrix.cpp:37-41 | an effect's frame goes out only when it is due and the panel is not muted |
| LedMatrix.LedMatrix.PresentFrame | lib/matrix_service/renderer/MatrixRenderer.cpp:84-93 | a rendered frame decodes to the bitmap at its rotated positions, or is black while muted |
| LedMatrix.LedMatrix.TransmitFrame | lib/matrix_service/renderer/MatrixRenderer.cpp:84-93 | whenever the line sends anything for a rendered frame, what arrives is the bitmap at its rotated positions, or black while muted |
| LedMatrix.BoardFrame | lib/matrix_driver/LedMatrix.cpp:5-12 | on the board's pixel type, byte i of the frame at each rotation is the red, green or blue of the bitmap's colour, scaled |
| LedMatrix.SendOnBoard | lib/matrix_driver/LedMatrix.cpp:15-36 | from power-on to the wire: a started, dimmed and turned board panel sends the bitmap byte by byte, or black at brightness 0 |
| MatrixDisplay.MatrixService.Loop | lib/matrix_service/MatrixService.cpp:27-198 | the state after a pass: command, then timeout and restored background |
| MatrixDisplay.MatrixService.Execute | lib/matrix_service/MatrixService.cpp:36-157 | the state after each kind of command |
| MatrixDisplay.MatrixService.RestoreBackground | lib/matrix_service/MatrixService.cpp:166-190 | the data visualisation, else the effect, else nothing is on the panel |
| MatrixDisplay.MatrixService.SetCustomIcon | lib/matrix_service/MatrixService.cpp:18-25 | an edit of the active icon lets it be drawn again |
| MatrixDisplay.EditShowsNext | lib/matrix_service/MatrixService.cpp:18-25 | an edited icon shows its new bitmap the next time it is asked for, and an all-zero one counts as missing |
| MatrixDisplay.GuardIsHarmlessIff | lib/matrix_service/MatrixService.cpp:76-81 | skipping a redraw changes nothing exactly when the active icon is on the panel |
| RedrawGuard.GuardedRunOnEventsIff | lib/matrix_service/MatrixService.cpp:76-81 | told from the events alone: the two displays agree exactly when no icon is asked for again on a lit panel that was dark since it became active |
| MatrixDisplay.GuardedRunIff | lib/matrix_service/MatrixService.cpp:76-81 | over a run the guarded display equals the unguarded one exactly when no icon is skipped that the panel does not show |
| MatrixDisplay.GuardLeavesPanelDark | lib/matrix_service/MatrixService.cpp:76-81 | an icon, brightness 0 and back, and the icon again leave the panel blank, where it would be shown without the guard |
| MatrixDisplay.OrdinaryRunsAgree | lib/matrix_service/MatrixService.cpp:76-81 | it always does in runs that never set the brightness to 0 and show only real icons, whatever icons are edited |
| MatrixDisplay.TimedItemClearsOnce | lib/matrix_service/MatrixService.cpp:162-190 | a timed item that nothing supersedes is cleared in the first pass that is late enough on the clock, in no other, and the background is restored |
| MatrixDisplay.UntimedItemStays | lib/matrix_service/MatrixService.cpp:162-190 | an item without a duration is never cleared by itself |
| MatrixDisplay.NeverEarly | lib/matrix_service/MatrixService.cpp:162-163 | a pass never finds a duration elapsed before it truly has, and finds every one that has while the item is younger than 2^32 ms |
| MatrixDisplay.TimedItemClearsOnTime | lib/matrix_service/MatrixService.cpp:162-190 | on the true clock, with passes no further apart than 2^32 ms less the duration, the pass that clears a timed item is the first one its duration after it was shown |
| CommandState.MatrixState.RequestIcon | lib/matrix_service/core/MatrixState.cpp:16-27 | what is pending after the request, and which requests it drops |
| CommandState.MatrixState.RequestText | lib/matrix_service/core/MatrixState.cpp:29-40 | the same for text, cut to the capacity |
| CommandState.MatrixState.RequestClear | lib/matrix_service/core/MatrixState.cpp:42-52 | a clear is pending and, if asked, no background is remembered |
| CommandState.MatrixState.RequestSolid | lib/matrix_service/core/MatrixState.cpp:54-59 | a colour is pending besides everything else |
| CommandState.MatrixState.RequestEffect | lib/matrix_service/core/MatrixState.cpp:61-97 | an effect is pending instead of a visualisation, and the background if it has no duration |
| CommandState.MatrixState.RequestDataVisualization | lib/matrix_service/core/MatrixState.cpp:99-112 | a visualisation is pending instead of an effect, and the background if it has no duration |
| CommandState.MatrixState.SetBrightness | lib/matrix_service/core/MatrixState.cpp:114-129 | the requested brightness under the thermal limit is pending |
| CommandState.MatrixState.SetThermalBrightnessLimit | lib/matrix_service/core/MatrixState.cpp:131-146 | a brightness is pending exactly when the limit changes the effective one or one was |
| CommandState.MatrixState.SetNotificationColor | lib/matrix_service/core/MatrixState.cpp:154-164 | a colour only when nothing active is shown, and only once per colour |
| CommandState.MatrixState.Poll | lib/matrix_service/core/MatrixState.cpp:166-245 | the pending command of highest priority; a clear takes every other content with it |
| CommandState.PollsDrain | lib/matrix_service/core/MatrixState.cpp:166-245 | polling gives every pending command once, in the order of priority, and then none |
| CommandState.RequestArrivesIff | lib/matrix_service/core/MatrixState.cpp:166-245 | a request for content reaches the loop exactly when no clear is pending |
| CommandState.LatestRequestWinsIff | lib/matrix_service/core/MatrixState.cpp:166-245 | the latest request is the last one polled exactly when no clear is pending and, for a colour, no effect or visualisation |
| CommandState.OneBackground | lib/matrix_service/core/MatrixState.cpp:61-112 | in every run at most one background is remembered |
| CommandState.BrightnessIsLimited | lib/matrix_service/core/MatrixState.cpp:114-146 | after the first brightness request the pending or last value is always the requested one under the limit |
| CommandState.BrightnessIsPolled | lib/matrix_service/core/MatrixState.cpp:114-129 | a requested brightness is polled next, cut to the limit |
| CommandState.LimitIsPolled | lib/matrix_service/core/MatrixState.cpp:131-146 | a limit that changes the brightness makes it the next thing polled |
| CommandState.TruncatedIs | lib/matrix_service/core/MatrixState.cpp:29-40 | a text keeps its first 95 characters |
| CommandState.RequestDrops | lib/matrix_service/core/MatrixState.cpp:16-112 | which pending content each request drops |
| CommandState.NotificationShowsIff | lib/matrix_service/core/MatrixState.cpp:154-164 | after any run a notification is shown exactly when no content was requested since the last clear and its colour is new |
| DisplaySystem.Display.Loop | lib/matrix_service/MatrixService.cpp:27-198 | a pass of the loop with the command it polls and the background remembered by then |
| DisplaySystem.DrainShowsLast | lib/matrix_service/MatrixService.cpp:27-198 | once everything pending was polled the panel shows what the command of lowest priority asks for, or nothing while muted |
| DisplaySystem.LatestRequest | lib/matrix_service/core/MatrixState.cpp:166-245 | what becomes of the latest request on the panel: shown, overdrawn by a pending animation, or lost to a pending clear |
| DisplaySystem.LatestRequestAfterRun | lib/matrix_service/core/MatrixState.cpp:166-245 | the same after any run of requests, passes and icon edits that never goes dark |
| DisplaySystem.BackgroundFollowsRequests | lib/matrix_service/core/MatrixState.cpp:42-112 | the background remembered is the last effect or visualisation without a duration that was not forgotten or stopped |
| DisplaySystem.PanelGoesBack | lib/matrix_service/MatrixService.cpp:168-186 | a fired timer, or a clear that keeps the background, leaves on the panel what the requests of the run leave to go back to |
| DisplaySystem.EffectComesBack | lib/matrix_service/MatrixService.cpp:168-186 | an effect, an icon for five seconds over it, and a pass five seconds later leave the effect on the panel |
| DisplaySystem.IconAfterClearIsLost | lib/matrix_service/core/MatrixState.cpp:183-195 | a clear and an icon requested before the next pass leave the panel blank with nothing pending |
| DisplaySystem.ColourAfterEffectIsOverdrawn | lib/matrix_service/core/MatrixState.cpp:213-235 | an effect and a colour requested before the next pass leave the effect on the panel |
| MatrixIcons.IconStore.HasCustomIcon | src/matrix/MatrixCustomIconStore.cpp:48-58 | true exactly for an icon that is present, read under the lock |
| MatrixIcons.IconStore.CopyCustomIcon | src/matrix/MatrixCustomIconStore.cpp:60-72 | the bitmap exactly when index, size, lock and presence allow it |
| MatrixIcons.IconStore.SetCustomIcon | src/matrix/MatrixCustomIconStore.cpp:74-90 | the icon becomes the bitmap with 24-bit colours, or missing; the other icons stay |
| MatrixIcons.IconStore.Capture | src/matrix/MatrixCustomIconsCodec.h:12-21 | what a snapshot contains when presence checks time out, and when it fails |
| MatrixIcons.IconStore.Restore | src/matrix/MatrixCustomIconsCodec.h:23-33 | the icons up to the first lock that times out are restored, the others stay |
| MatrixIcons.RestoreAfterCapture | src/matrix/MatrixCustomIconsCodec.h:12-33 | restoring a captured snapshot leaves the store unchanged exactly when no present icon was missed |
| MatrixIcons.Equal | src/matrix/MatrixCustomIconsCodec.h:35-51 | true exactly for equal sets of icons |
| MatrixIcons.Serialize | src/matrix/MatrixCustomIconsCodec.h:53-65 | the document's icon array, an empty array for a missing icon |
| MatrixIcons.Deserialize | src/matrix/MatrixCustomIconsCodec.h:67-94 | which icons a document replaces, clears or leaves |
| MatrixIcons.CodecRoundTrip | src/matrix/MatrixCustomIconsCodec.h:53-94 | reading back what was written replaces any prior state by the icons with 24-bit colours |
| MatrixIcons.WrongSizeKeepsIcon | src/matrix/MatrixCustomIconsCodec.h:67-94 | an icon changes only for an array of 64 values or an empty one in its place |
| MatrixIcons.IconRead | src/matrix/MatrixCustomIconsCodec.h:67-94 | pixel by pixel what a document makes of an icon |
| MatrixConfig.HealedIsSane | src/matrix/MatrixSettingsService.cpp:314-346 | the repair gives a sane record, changes exactly the insane ones, and is done after one pass |
| MatrixConfig.HealedFields | src/matrix/MatrixSettingsService.cpp:314-346 | what each field is repaired to |
| MatrixConfig.Heal | src/matrix/MatrixSettingsService.cpp:314-346 | field by field repair computes the healed record |
| MatrixConfig.NormalizeBackgroundSelection | src/matrix/MatrixSettingsTypes.h:19-27 | at most one of effect and visualisation stays enabled, the one the background mode selects |
| ConfigPersistence.ConfigFile.Save | src/core/config/persistence/ConfigPersistence.cpp:66-136 | after every step a restart finds the old or the new document, none while the old one is only the backup, a truncated new one, or a revived older one, and exactly when each happens |
| ConfigPersistence.FailedSaveRevivesBackup | src/core/config/persistence/ConfigPersistence.cpp:110-125 | without a configuration file, a backup that could not be removed becomes the configuration when the save fails |
| ConfigPersistence.ReportsTruncatedIff | src/core/config/persistence/ConfigPersistence.cpp:87-128 | a save reports success over a truncated file exactly when an incomplete write is accepted and renamed |
| ConfigPersistence.LeftBeside | src/core/config/persistence/ConfigPersistence.cpp:77-136 | which temporary file and which backup every outcome of a save leaves |
| ConfigPersistence.ShortWriteLosesConfig | src/core/config/persistence/ConfigPersistence.cpp:87-128 | one byte written of two: success is reported and neither document is left |
| ConfigPersistence.FailedRenamesStrandConfig | src/core/config/persistence/ConfigPersistence.cpp:113-125 | two failed renames leave the old document only as the backup |
| MatrixSettings.MatrixSettingsStore.Sync | src/matrix/MatrixSettingsStore.h:16-23 | configuration and captured icons, or failure |
| MatrixSettings.MatrixSettingsStore.Write | src/matrix/MatrixSettingsStore.h:25-33 | the two-part write, torn where a lock times out |
| MatrixSettings.MatrixSettingsStore.BuildDocument | src/config/json/MatrixConfigJson.cpp:280-297 | the document contains defaults and missing icons for locks that time out |
| MatrixSettings.MatrixSettingsStore.Persist | src/matrix/MatrixSettingsStore.h:35-38 | the file after saving what the stores hold |
| MatrixSettings.MatrixSettingsService.SyncCachedState | src/matrix/MatrixSettingsService.cpp:304-349 | the cached state is the healed store, or unchanged on failure |
| MatrixSettings.MatrixSettingsService.WriteStateToStores | src/matrix/MatrixSettingsService.cpp:351-359 | what a failed write leaves in the stores |
| MatrixSettings.MatrixSettingsService.PersistAndApplyCurrentState | src/matrix/MatrixSettingsService.cpp:379-392 | stores, file, runtime and error code after saving and applying, for every failure |
| MatrixSettings.MatrixSettingsService.RollbackToState | src/matrix/MatrixSettingsService.cpp:394-419 | stores, file and runtime after an undo, for every failure |
| MatrixSettings.MatrixSettingsService.RunStateUpdate | src/matrix/MatrixSettingsService.cpp:421-476 | stores, file, runtime and outcome of a whole update, for every updater and every failing step |
| MatrixSettings.UndoneRestores | src/matrix/MatrixSettingsService.cpp:394-419 | whatever was torn, an undo that succeeds leaves the previous state |
| MatrixSettings.OutcomeIs | src/matrix/MatrixSettingsService.cpp:421-476 | which steps must work for each outcome of a propagating update, code by code |
| MatrixSettings.QuietOutcomeIs | src/matrix/MatrixSettingsService.cpp:421-476 | the outcome of an update that does not propagate, and what it leaves in the stores |
| MatrixSettings.PropagationIsAtomic | src/matrix/MatrixSettingsService.cpp:449-475 | saving, applying and announcing either succeeds everywhere or is undone everywhere |
| MatrixSettings.UpdateIsAtomic | src/matrix/MatrixSettingsService.cpp:421-476 | a propagating update leaves store, file and runtime in agreement on the new state or on the previous one |
| MatrixSettings.RunIsCoherent | src/matrix/MatrixSettingsService.cpp:276-476 | any run of updates, forced saves and saves by other services without a failed restore keeps the three in agreement, on the state of an ideal register |
| MatrixSettings.ChangeIsCoherentIff | src/matrix/MatrixSettingsService.cpp:421-476 | an update that reports a change leaves the three in agreement exactly when its save was whole, even if they disagreed before |
| MatrixSettings.RollbackIsCoherentIff | src/matrix/MatrixSettingsService.cpp:394-476 | an update that reports a rollback leaves the three on the previous state exactly when its save was undone by a whole one or failed without losing the file |
| MatrixSettings.RunRecovers | src/matrix/MatrixSettingsService.cpp:421-476 | one reported change repairs what a failed restore took apart, for good up to the next one |
| MatrixSettings.OtherSaveIsCoherentIff | src/core/config/serialization/ConfigSavers.cpp:24-80 | a save by another service keeps the three in agreement exactly when it does not lose, cut or skip the matrix section |
| MatrixSettings.RejectedStateReachesFlash | src/core/config/serialization/ConfigSavers.cpp:24-80 | a state that was rejected and not undone gets onto flash with the next save by another service, while the runtime keeps the old one |
| MatrixSettings.RollbackLosesIcon | src/matrix/MatrixCustomIconStore.cpp:48-58 | on any coherent device with an icon, two timeouts make a reported rollback lose it |
| MatrixSettings.SaveLosesIcon | src/config/json/MatrixConfigJson.cpp:280-297 | on such a device one timeout makes a reported save lose the icon |
| MatrixSettings.RollbackRestoresIff | src/matrix/MatrixCustomIconStore.cpp:48-58 | a rollback restores what readers saw exactly when no presence check of a present icon timed out |
| MatrixSettings.SavedFaithfullyIff | src/config/json/MatrixConfigJson.cpp:280-297 | a save that reports success saved the stores exactly when no lock it depends on timed out and the write was whole |
| Transactions.InvokeUpdateHandlers | src/system/state/TransactionalStateHelpers.h:16-30 | handlers run in order up to the first failure, whose code is reported |
| Transactions.FirstFailure | src/system/state/TransactionalStateHelpers.h:16-30 | the error is that of a handler before which none fails |
| AlarmSettings.AlarmSettingsService.RunStateUpdate | src/alarms/AlarmSettingsService.cpp:262-309 | store, files, applied rules and outcome of a whole update, for every failing step |
| AlarmSettings.AlarmSettingsService.RollbackToState | src/alarms/AlarmSettingsService.cpp:223-246 | store, files and applied rules after an undo, for every failure |
| AlarmSettings.AlarmSettingsService.PersistAndApply | src/alarms/AlarmSettingsService.cpp:248-260 | files and applied rules after saving and applying |
| AlarmSettings.OutcomeIs | src/alarms/AlarmSettingsService.cpp:262-309 | which steps must work for each outcome of a propagating update, code by code |
| AlarmSettings.QuietOutcomeIs | src/alarms/AlarmSettingsService.cpp:262-309 | the outcome of an update that does not propagate, which only touches the store |
| AlarmSettings.UpdateIsAtomic | src/alarms/AlarmSettingsService.cpp:223-309 | with whole writes, a propagating update puts the new rules everywhere, or the previous ones everywhere, or touches nothing, unless the restore failed |
| AlarmSettings.ReportIsTrueIff | src/alarms/AlarmSettingsService.cpp:223-309 | a reported change leaves the new rules everywhere, and a reported rollback the previous ones, exactly when the save behind the report was whole |
| AlarmSettings.ReportedChangeLosesRules | src/alarms/AlarmSettingsService.cpp:248-260 | on a flash with room for one byte an update is reported as done and no rules can be loaded any more |
| AlarmSettings.OtherSaveIsCoherentIff | src/config/json/AlarmConfigJson.cpp:511-522 | a save by another service keeps the three in agreement exactly when it does not lose, cut or skip the rules |
| AlarmSettings.OtherSaveLosesRules | src/config/json/AlarmConfigJson.cpp:511-522 | a save by another service that cannot read the rules reports success and leaves none on flash |
| AlarmSettings.RunStaysCoherent | src/alarms/AlarmSettingsService.cpp:223-309 | no run of updates and saves by other services in which nothing goes unreported and no restore fails takes store, flash and applied rules apart |
| AlarmSettings.RunRecovers | src/alarms/AlarmSettingsService.cpp:223-309 | in such a run one reported change repairs any earlier disagreement for good |
| SharedDocument.SavesAreShared | src/core/config/ConfigManager.cpp:18-22 | each service's save is, section by section, what the other service's model calls a save by another service |
| SharedDocument.SaveKeepsBothIff | src/core/config/serialization/ConfigSavers.cpp:24-80 | a save keeps both services' agreements exactly when it does not lose the file, cut it or skip a section that is not empty |
| AlarmMailbox.PpmIs | src/alarms/AlarmService.cpp:113-116 | a reading is truncated, and one outside 16 bits becomes the nearest inside |
| AlarmMailbox.AlarmService.SubmitInput | src/alarms/AlarmService.cpp:97-139 | the merged snapshot after a submission, and whether it counts |
| AlarmMailbox.AlarmService.ProcessPending | src/alarms/AlarmService.cpp:148-174 | the snapshot is evaluated at most once |
| AlarmMailbox.MailboxHoldsMerged | src/alarms/AlarmService.cpp:97-139 | after any history the snapshot holds, field by field, the last values submitted, and is pending exactly when unevaluated |
| AlarmMailbox.EachPassEvaluatesLatest | src/alarms/AlarmService.cpp:148-174 | every pass of any interleaving evaluates the last values if something came since the previous pass, and nothing otherwise |
| GpioConfig.GpioData.ApplyDefaultConfig | src/gpio/GpioSafePins.cpp:78-84 | one default entry per allowed pin, the rest blank |
| GpioConfig.GpioData.HasDuplicatePinOrId | src/gpio/GpioSafePins.cpp:32-41 | true exactly when an earlier entry has the same pin or id |
| GpioConfig.GpioData.HasDuplicates | src/gpio/GpioSafePins.cpp:150-156 | true exactly when two entries share a pin or an id |
| GpioConfig.GpioData.NormalizeConfig | src/gpio/GpioSafePins.cpp:114-159 | per allowed pin its last matching channel repaired, or its default; true exactly when every scanned channel was acceptable; the final reset is never reached |
| GpioConfig.NormalizedIsNormal | src/gpio/GpioSafePins.cpp:114-159 | normalising always gives valid entries in table order |
| GpioConfig.EntryIs | src/gpio/GpioSafePins.cpp:114-159 | the settings of the last channel for a pin are kept, but for a missing name and too long a debounce time, if the pin allows them; otherwise the pin is disabled |
| GpioConfig.MissingEntryIs | src/gpio/GpioSafePins.cpp:78-84 | a pin that no channel names is disabled |
| GpioConfig.SpareEntryIs | src/gpio/GpioSafePins.cpp:78-84 | the entries after those of the pins are blank, eight in all |
| GpioService.DrivableIff | src/gpio/GpioService.cpp:171-219 | driven is the first channel with the id, if it is an output |
| GpioConfig.NormalHasNoDuplicates | src/gpio/GpioSafePins.cpp:32-41 | a normal form has no two entries with the same pin or id |
| GpioConfig.NormalizeKeepsExactlyNormalForms | src/gpio/GpioSafePins.cpp:114-159 | normalisation leaves exactly the normal forms alone |
| GpioConfig.NormalizeTwice | src/gpio/GpioSafePins.cpp:114-159 | a second pass changes nothing and reports success |
| GpioConfig.AllowedPinsAreTable | src/gpio/GpioSafePins.cpp:8-16 | the board's table has distinct pins and ids |
| Debounce.RunRefinesFilter | src/gpio/GpioService.cpp:269-332 | after any run of samples the stored state is that of the declarative filter, stable implies that the pending level is the accepted one, and the logical level differs from the accepted one exactly if it is inverted, and when the channel last changed and was sampled |
| Debounce.ChangeNeedsFullStretch | src/gpio/GpioService.cpp:311-332 | the accepted level changes only after at least two equal readings over at least debounceMs of true time |
| Debounce.ShortPulseNeverShows | src/gpio/GpioService.cpp:311-332 | a pulse shorter than debounceMs never shows, then or later |
| Debounce.HeldLevelIsAdopted | src/gpio/GpioService.cpp:311-332 | a level held for debounceMs plus a sampling gap, together below 2^32 ms, is adopted |
| Debounce.ConfiguredLevels | src/gpio/GpioService.cpp:269-301 | the levels of a channel right after it was configured: the pin's, inverted if so configured, or the output's initial one |
| GpioService.DrivenLevels | src/gpio/GpioService.cpp:171-219 | a driven output shows the level, and its pin the level inverted if so configured |
| GpioService.GpioService.Begin | src/gpio/GpioService.cpp:33-63 | the runtime starts with the stored configuration, or the defaults when the store cannot be read, and runs exactly when its task could be created |
| Debounce.LogicalChangeNeedsFullStretch | src/gpio/GpioService.cpp:311-332 | the logical level changes only after a full stretch of readings that stand for the new one |
| Debounce.LogicalIgnoresShortPulse | src/gpio/GpioService.cpp:311-332 | a short pulse never shows in the logical level |
| Debounce.LogicalAdoptsHeldLevel | src/gpio/GpioService.cpp:311-332 | a held level becomes the logical one |
| GpioService.GpioService.ApplyConfig | src/gpio/GpioService.cpp:260-267 | every channel is configured afresh from its pin's reading |
| GpioService.GpioService.ConfigureChannel | src/gpio/GpioService.cpp:269-301 | the state of a channel right after it was configured |
| GpioService.GpioService.SampleInput | src/gpio/GpioService.cpp:311-332 | the state of an input channel after a sample |
| GpioService.GpioService.StoreConfig | src/gpio/GpioConfigStore.cpp:84-101 | the store after an update that re-normalises |
| GpioService.GpioService.UpdateConfig | src/gpio/GpioService.cpp:144-169 | store, runtime and result of a configuration update, for every failing lock |
| GpioService.GpioService.SetOutput | src/gpio/GpioService.cpp:171-219 | store, runtime and result of driving an output, for every failing lock |
| GpioService.OutputChangeStaysNormal | src/gpio/GpioConfigStore.cpp:84-101 | re-normalising after an output change changes nothing else |
| GpioService.AgreementKeptIff | src/gpio/GpioService.cpp:144-219 | an operation takes store and runtime apart exactly when one of its two locks fails and there was something to change |
| GpioService.MissedLockBreaksAgreement | src/gpio/GpioService.cpp:144-169 | renaming a channel with only the store's lock leaves the old name in the runtime |
| GpioService.RunKeepsAgreement | src/gpio/GpioService.cpp:144-219 | no run in which every lock is acquired takes store and runtime apart |

## Left out

- PixelStrip.NeoPixel.UpdateLength: drawing on a strip whose byte count does not fit the firmware's 16 bits, or whose pixel type puts two channels on one byte.
- Ws2812fx.Ws2812fx.SetPixelColorRgbw: the gamma table is a parameter, not the 256 values of the library.
- Ws2812fx.Ws2812fx.ModeFillerUp: like the other effects, on segments that end before index 0xFFF0, so that no sum of indices wraps; effects that copy pixels only on segments that lie on the strip.
- Ws2812fx.Ws2812fx.ColorWipe: segments that end at index 0xFFF0 or later; so too the two below.
- Ws2812fx.Ws2812fx.ModeLarsonScanner: as `ColorWipe`.
- Ws2812fx.Ws2812fx.Scan: as `ColorWipe`.
- Ws2812fx.Ws2812fx.CopyPixels: ranges past the end of the buffer, which the source moves without looking; what is there is not part of this model.
- Ws2812fx.Ws2812fx.Running: segments that reach past the strip, as `CopyPixels`.
- Ws2812fx.Ws2812fx.ModeRainbowCycle: segments that reach past the strip, as `CopyPixels`.
- Ws2812fx.Ws2812fx.RunLarsonScanner: segments of 0x8000 pixels or more, whose period wraps in 16 bits.
- EffectSteps.LarsonIsTriangle: as `RunLarsonScanner`.
- Ws2812fx.LarsonTrail: as `RunLarsonScanner`.
- Ws2812fx.LarsonStaysInside: as `RunLarsonScanner`.
- Ws2812fx.Ws2812fx.FadeOut: segments that end at index 0xFFF0 or later; halving all four lanes at once with a shift and a mask is modelled as halving each channel.
- ActiveSegments.ActiveSegments.ResetSegmentRuntime: the external data source of an effect, which a reset keeps, is not modelled.
- EffectTiming.EffectService.Service: an effect is a function from a runtime to its next one and a delay; what it draws is not part of a pass.
- LedMatrix.LedMatrix.Service: what the running effect draws and whether a frame is due are parameters there; the dispatch of effects by mode number is not part of this model.
- LedMatrix.LedMatrix.Begin: starting a second time, and text and font drawing.
- RmtEncoder.RmtLine.EspShow: other threads appear only as a lock that is not given back in time; what they send is not modelled.
- MatrixDisplay.MatrixService.Loop: what is shown is abstract; scroll positions, effect phases, redrawing after a rotation, and whether a text is restarted are not modelled.
- CommandState.MatrixState.Poll: every call is one critical section; the mutex itself is not modelled.
- MatrixSettings.MatrixSettingsService.RunStateUpdate: the cached copy is overwritten from the stores at the start of every read and update; what is stated of it is only that it is the previous state after a rejected update. HTTP status codes and log messages are left out.
- ConfigPersistence.ConfigFile.Save: one document type stands for the whole configuration, and loading only looks at the configuration file; a truncated file counts as unreadable.
- MatrixConfig.HealedIsSane: with floats, a minimum so large that adding 1 to it rounds back to it stays as large as its maximum; and not-a-number limits.
- MatrixConfig.Heal: the range limits of the data visualisation are real numbers, and not-a-number limits are not modelled.
- AlarmMailbox.AlarmService.SubmitInput: finite readings are real numbers.
- SharedDocument.SavesAreShared: saves one by one; a whole transaction of one service is a run of such saves for the other.
- GpioService.GpioService.UpdateConfig: the contents of the configuration file are not modelled, only whether saving it worked; pin registers are not modelled beyond what a pin reads.
- GpioConfig.GpioData.NormalizeConfig: names and ids are strings rather than terminated character arrays.
- Random.RandomSource.Random8Below: the 16-bit variants of the random draws.
- Fireworks (apart from the choice of their colour), twinkling, sparkling, chasing, flickering and heartbeat effects, which would add further frame-by-frame pictures.
- The drivers for other boards, the rendering of text, the web interface, USB, Bluetooth and sensor tasks.
- The alarm engine and the matrix manager behind the mailbox and the command requests.
