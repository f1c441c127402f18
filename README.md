# Loopback latency measurement, modelled in Dafny

The tool measures the round-trip latency of a sound card. It plays an
impulse on an output device and listens for it on an input device that is
looped back to the output. It repeats this for a number of trials and
reports the largest and smallest latency and their difference (the
jitter).

One trial runs two threads joined by a channel of `bool` messages:

- The capture side (`find_impulse`) reads blocks of interleaved stereo
  samples. On the first read that returns frames while nothing has been
  accumulated, it sends `true` (Ready). It scans the samples just read for
  the first one whose `abs()` is strictly above `i32::MAX / 50`. The model
  uses the corrected test, the true magnitude, for this scan; the two agree
  on every sample except i32::MIN (see "## Findings"). On a hit
  it sends `false` (Found) and returns the instant of the read and the
  sample index. Otherwise it adds the frames to a running total and gives
  up once that total is above `rate * 2`.
- The playback side (`play_impulse`) writes one block of silence. It then
  fills its buffer with `i32::MAX` in place and writes that block,
  recording the instant. It keeps writing the same full-scale buffer. After
  each write it polls the channel without blocking. It stops on Found or
  once `rate * 5` frames have been played.
- `main` turns a detection into a latency. It takes the frame offset of
  the sample in its block, converts that to whole microseconds at the
  sample rate, and adds it to the receive instant. It subtracts the
  playback instant. The result is folded into a running `min` (from
  `u128::MAX`) and `max` (from `u128::MIN`). The first trial that fails
  ends the program.

The model has five modules:

- `Audio` (audio.dfy): the sample type, the threshold, the magnitude
  test and the two messages.
- `Finder` (finder.dfy): the capture loop. `FindImpulse` and `ScanBlock`
  are imperative loops. `FindImpulse` is proved equal to the recursive
  specification `Capture`. `ScanBlock` is proved equal to `FirstPeak` of
  the samples just read.
- `FinderFacts` (finder.dfy): what `Capture` guarantees.
- `Player` (player.dfy): the playback method. It fills a Dafny `array` in
  place and runs the wait loop.
- `Latency` (latency.dfy) and `Trials` (trials.dfy): the latency
  arithmetic and the trial fold. `MeasureLatency` is proved equal to the
  specification `Measure`.

Device reads and writes, the messages the playback side polls and the
clock are supplied as inputs:

- a capture run takes the sequence of `readi` results;
- a playback run takes the frame counts `writei` returns and the result of
  each poll;
- the trial fold takes the receive and playback instants of each trial.

One might expect silence after the impulse. The code never resets the
buffer after filling it with `i32::MAX`, so every block after the first
silent one is full scale. The model follows the code
(`Player.PlayImpulse`).

## Model

| member | source | states |
|---|---|---|
| Audio.ThresholdIs | src/main.rs:128-135 | The threshold is 42949672. The comparison is strict: ±42949672 are not the impulse; ±42949673 and i32::MAX are. Under the corrected test i32::MIN is the impulse too. |
| Audio.IsPeakAsWritten | src/main.rs:135 | The comparison as written fires exactly on samples other than i32::MIN that lie strictly outside ±42949672. |
| Audio.IsPeak | src/main.rs:128-135 | The corrected comparison fires exactly on samples strictly outside ±42949672, i32::MIN included. |
| Audio.WrappingAbs | src/main.rs:135 | `abs` as a release build computes it: the magnitude for every sample except i32::MIN, which wraps to itself. |
| Audio.Magnitude | src/main.rs:135 | The true magnitude of a sample, at most 2^31. It is x or -x and never negative. |
| Audio.MinSampleMissed | src/main.rs:135 | A sample of i32::MIN is above the threshold in magnitude, but the comparison as written does not fire on it. |
| Audio.PeakAgreesAwayFromMin | src/main.rs:135 | For every other sample, the comparison as written and the corrected one agree. |
| Finder.Inspected | src/main.rs:127-133 | The scan looks at exactly `2 * frames` samples of the buffer: the samples just read. |
| Finder.FirstPeak | src/main.rs:133-139 | Reference definition of the scan's result; `Finder.FirstPeakIsFirst` and `Finder.FirstPeakAt` prove what it means. |
| Finder.FirstPeakFrom | src/main.rs:133-139 | Reference definition of the scan from index j on; `Finder.FirstPeakFromIsFirst` proves what it means. |
| Finder.FirstPeakFromIsFirst | src/main.rs:133-139 | Scanning from index j finds a sample above the threshold at or after j with none before it from j on. None means no such sample. |
| Finder.FirstPeakIsFirst | src/main.rs:133-139 | The index found is the first sample above the threshold. None exactly when no sample is above it. |
| Finder.FirstPeakAt | src/main.rs:133-139 | A sample above the threshold with none before it is the index the scan reports. |
| Finder.ScanBlock | src/main.rs:133-139 | The inner loop over `buf[0..2 * frames]` returns the first index whose magnitude is above the threshold, or none. |
| Finder.FramesRead | src/main.rs:122-141 | Reference definition of the running total after n reads; `FinderFacts.FramesReadMonotone` proves it never decreases. |
| Finder.ReadySignal | src/main.rs:130-132 | A read sends at most one message, never Found, and sends Ready exactly when the total so far is 0 and the read returned frames. |
| Finder.CaptureFrom | src/main.rs:125-146 | Reference definition of the capture loop from read i on; `Finder.StepDetected`, `Finder.StepGiveUp`, `Finder.StepContinue` and the FinderFacts lemmas state what it does. |
| Finder.Capture | src/main.rs:122-146 | Reference definition of a whole capture run with limit `rate * 2`; `Finder.FindImpulse` is proved equal to it and `FinderFacts.CaptureShape` characterises it. |
| Finder.StepDetected | src/main.rs:130-138 | A hit in read i ends the run as a detection at (i, k), after Ready if due, with Found last. |
| Finder.StepGiveUp | src/main.rs:141-144 | With no hit and the new total above the limit, the run ends with the error after read i. |
| Finder.StepContinue | src/main.rs:141-146 | With no hit and the new total within the limit, the run continues at read i + 1 with the frames added. |
| Finder.AnnouncedStep | src/main.rs:130-132 | Ready goes out once: it is sent by a read exactly when the total before it is 0 and the total after it is positive. |
| Finder.CaptureReaches | src/main.rs:125-146 | After i reads with no peak within the limit, the run from the start is Ready (if any frames were read) followed by the run from read i. |
| Finder.EndsDetected | src/main.rs:133-138 | Leaving the loop on a hit gives the detection, the messages sent so far plus Found, and i + 1 reads consumed. |
| Finder.EndsGivingUp | src/main.rs:141-144 | Leaving the loop on the limit gives the error and only the Ready message, if one was due. |
| Finder.EndsStarved | src/main.rs:125-126 | Running out of reads within the limit leaves the run still searching, having sent only Ready. |
| Finder.FindImpulse | src/main.rs:122-146 | The imperative capture loop produces exactly the outcome, message trace and number of reads of the specification `Capture`. |
| FinderFacts.FramesReadMonotone | src/main.rs:141 | The running total never decreases. |
| FinderFacts.CaptureFromConsumed | src/main.rs:125-146 | A run consumes reads in order. Every read before the last was within the limit and held no peak. A starved run saw no peak at all. |
| FinderFacts.CaptureFromStop | src/main.rs:133-145 | Why a run stopped: a detection is in the last read consumed, the error comes with a total above the limit, a starved run stayed within it. |
| FinderFacts.CaptureFromSignals | src/main.rs:130-136 | The messages of a run are Ready (when the total started at 0 and frames were read) followed by Found on a detection. |
| FinderFacts.CaptureShape | src/main.rs:122-146 | The full characterisation of a capture run: reads consumed, stop reason, exact message trace, and that the detecting read returned frames. |
| FinderFacts.CaptureSignals | src/main.rs:130-136 | The trace is [], [Ready] or [Ready, Found]. Found is sent exactly on a detection, so the error path sends none. Ready is sent exactly when some consumed read returned frames. |
| FinderFacts.DetectedIff | src/main.rs:125-145 | A detection at (b, k) happens exactly when reads before b held no peak, their total stayed within `rate * 2`, and k is the first peak of read b. Read b's own frames are never weighed. |
| FinderFacts.PeakNotFoundMeans | src/main.rs:141-145 | The error comes only with a total strictly above `rate * 2`, the total before the last read within it, and no sample above the threshold in any read. |
| FinderFacts.CaptureIgnoresStale | src/main.rs:133 | Samples past `2 * frames` in the buffer, left over from earlier reads, never change the run. |
| FinderFacts.PeakBlockNotCounted | src/main.rs:136-143 | A read whose frames would push the total past the limit still yields the detection when it holds the impulse. |
| FinderFacts.EmptyFirstReadPostponesReady | src/main.rs:130-132 | Reads of zero frames do not send Ready; the first read that returns frames does. |
| FinderFacts.ThresholdIsStrict | src/main.rs:128-137 | A sample equal to the threshold is skipped; the next sample, one step beyond it in magnitude, is the detection. |
| Player.Silence | src/main.rs:82 | The initial buffer is period_size zero samples. |
| Player.FullScale | src/main.rs:93-95 | The filled buffer is period_size samples of i32::MAX. |
| Player.PlayImpulse | src/main.rs:78-112 | Silence is written once, then the full-scale buffer every time after. `played` is the sum of the frames written. Each wait pass starts below `rate * 5`. The loop stops exactly on a polled Found or once `rate * 5` is reached. If every write returns frames, at most `rate * 5` passes run. |
| Latency.FrameOffset | src/main.rs:51-54 | The frame offset is the sample offset divided by two channels, rounded down. |
| Latency.MicrosInBlock | src/main.rs:55-56 | The correction m satisfies m * rate <= 10^6 * frame < (m + 1) * rate, and it fits in usize. |
| Latency.DivFloor | src/main.rs:56 | Truncating division of naturals: the quotient times the divisor is at most the dividend and within one divisor of it. |
| Latency.MicrosInBlockUnique | src/main.rs:56 | The correction is the unique m satisfying that bracket. |
| Latency.MicrosInBlockMonotone | src/main.rs:54-56 | A later sample never gets a smaller correction; both samples of a stereo frame get the same one. |
| Latency.Since | src/main.rs:59 | Subtracting instants saturates at zero. |
| Latency.LatencyMicros | src/main.rs:51-59 | The latency of a detection is bounded by the receive instant plus usize::MAX. |
| Latency.Example200At44100 | src/main.rs:51-56 | Sample 200 at 44100 Hz is frame 100, a correction of 2267 microseconds. |
| Latency.NoCorrectionAtBlockStart | src/main.rs:54-59 | A detection at sample 0 or 1 gives latency = receive instant - playback instant. |
| Latency.LatencyAfterPlayback | src/main.rs:57-59 | When the block arrived after the playback instant, the latency is the gap plus the correction, so at least the gap. |
| Trials.TrialLatency | src/main.rs:50-61 | The latency of a successful trial fits in u128. |
| Trials.FirstFailure | src/main.rs:41-67 | The index of the first failed trial, with every earlier trial successful. None exactly when all trials succeeded. |
| Trials.MinFold | src/main.rs:38-60 | Reference definition of `cmp::min` folded from u128::MAX; `Trials.MinFoldIsMinimum` proves it is the minimum. |
| Trials.MaxFold | src/main.rs:39-61 | Reference definition of `cmp::max` folded from u128::MIN; `Trials.MaxFoldIsMaximum` proves it is the maximum. |
| Trials.Measure | src/main.rs:38-68 | Reference definition of the trial loop; `Trials.CompletedReportsExtremes` and `Trials.AbortedAtFirstFailure` state its outcome. |
| Trials.MeasureLatency | src/main.rs:38-68 | The imperative trial loop ends exactly as the specification `Measure` does: aborted at the first failure, or the folded max and min. |
| Trials.FoldStep | src/main.rs:60-61 | One more trial folds its latency into both running extremes. |
| Trials.MinFoldIsMinimum | src/main.rs:38-60 | After at least one latency, `min` is one of them and no larger than any. |
| Trials.MaxFoldIsMaximum | src/main.rs:39-61 | After at least one latency, `max` is one of them and no smaller than any. |
| Trials.CompletedReportsExtremes | src/main.rs:38-75 | A completed run with at least one trial reports the true minimum and maximum latency, so `min <= max`. |
| Trials.AbortedAtFirstFailure | src/main.rs:49-66 | A run is aborted at trial k exactly when trial k failed and every trial before it succeeded. |
| Trials.U128Sub | src/main.rs:74 | u128 subtraction succeeds exactly when it does not underflow, and then gives the difference. |
| Trials.JitterAsWritten | src/main.rs:70-74 | `max - min` as written after a completed loop underflows exactly when there were no trials; otherwise it is the spread. |
| Trials.ZeroTriesUnderflows | src/main.rs:38-75 | With zero trials `max` is u128::MIN, `min` is u128::MAX, and `max - min` underflows. |
| Trials.JitterAsWrittenSafe | src/main.rs:70-75 | With at least one completed trial, `max - min` as written does not underflow. |
| Trials.Summarize | src/main.rs:38-75 | The corrected summary reports a failed trial exactly on an abort and no latency exactly when there were no trials. Otherwise it gives the true extremes and their difference. |
| Trials.EndToEndImpulseAtBlockStart | src/main.rs:41-75 | At 44100 Hz, silence then the impulse at the first sample of the second read gives detection (1, 0) with [Ready, Found]. One such trial reports a jitter of 0 with latency = receive - playback. |

## Left out

- ALSA device setup, opening and starting (src/main.rs:79-81, 89, 115-120, 149-165): `readi` and `writei` results are inputs, and device errors that `unwrap` would turn into panics are not modelled.
- Threads and the channel (src/main.rs:42-47): the capture side's messages are recorded as a sequence, and the playback side's polls are supplied.
- The blocking `rx.recv()` (src/main.rs:85): the playback side's wait for Ready before it writes is not modelled.
- Clocks: `Instant::now()` (src/main.rs:99, 137) is not modelled. Instants are supplied as whole microseconds.
- Sub-microsecond truncation: the truncation done by `Duration::from_micros` and `as_micros` is not modelled, because instants are whole microseconds.
- Command-line parsing and printing (src/main.rs:14-36, 64, 70-75): only the value printed as the jitter is modelled (`Trials.JitterAsWritten`, `Trials.Summarize`).
- Finder.ScanBlock, Finder.FindImpulse, Finder.Capture: the scan uses the corrected magnitude test `Audio.IsPeak`; the `abs` as written (`Audio.IsPeakAsWritten`) would skip an i32::MIN sample in a release build or panic in a debug build.
- Finder.FindImpulse: when the supplied reads run out, the run ends as `Starved`; the real device would block in `readi`.
- Finder.FindImpulse: the instant of the detecting read is represented by that read's position among the reads.
- Finder.FindImpulse: usize overflow of `total` is not modelled (frame counts are unbounded naturals).
- Player.PlayImpulse: when the supplied writes run out, the run ends as `Starved`.
- Player.PlayImpulse: the playback instant is not returned.
- Player.PlayImpulse: usize overflow of `played_frames` is not modelled.
- Latency.MicrosInBlock: requires a positive rate, because `/ rate` with rate 0 panics.
- Latency.MicrosInBlock: requires that 10^6 times the frame offset fits in usize (a debug build panics on that overflow, a release build wraps). Instants must fit in 64 bits of microseconds.
- Trials.MeasureLatency: requires every trial to be representable, including trials after an abort that the loop never reaches.

## Findings

| source | as written | input that shows it | evidently intended | confidence | as-written member | corrected member |
|---|---|---|---|---|---|---|
| src/main.rs:38-75 | `max - min` in u128 after a loop that may run zero times, with `min` starting at u128::MAX and `max` at u128::MIN | `--tries 0` | report that no latency was measured | high, not executed | Trials.ZeroTriesUnderflows | Trials.Summarize |
| src/main.rs:135 | `(*val).abs() > sample_to_find` on an i32: `abs` of i32::MIN panics in a debug build and stays i32::MIN in a release build | a captured sample equal to i32::MIN | a full-scale negative sample is detected as the impulse | medium, not executed | Audio.MinSampleMissed | Audio.IsPeak |
