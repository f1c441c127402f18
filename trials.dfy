/** The trial loop of `main`: run the configured number of trials, fold each
    latency into a running minimum and maximum, abort the whole run on the
    first trial that did not find the impulse, and report the spread. */
module Trials {
  import opened Audio
  import opened Latency
  import opened Finder

  /** u128::MAX and u128::MIN, the initial `min` and `max`. */
  const U128Max: nat := 0xffff_ffff_ffff_ffff_ffff_ffff_ffff_ffff
  const U128Min: nat := 0

  /** What the capture thread hands back: the instant its last block was
      received and the sample index of the impulse in that block, or the
      search-window error. */
  datatype PeakFindResult = Ok(receivedAt: Instant, sampleOffset: nat) | PeakNotFoundError

  /** One trial as `main` sees it after joining both threads. */
  datatype Trial = Trial(playedAt: Instant, found: PeakFindResult)

  /** The state `main` ends in: returned early on the error of a trial, or
      finished the loop with its running `max` and `min`. */
  datatype Measurement = Aborted(failedTrial: nat) | Completed(max: nat, min: nat)

  /** Instants fit in 64 bits of microseconds and the correction does not
      overflow usize. */
  predicate Representable(t: Trial)
  {
    t.playedAt <= UsizeMax &&
    (t.found.Ok? ==> t.found.receivedAt <= UsizeMax && ScaledFits(t.found.sampleOffset))
  }

  predicate AllRepresentable(trials: seq<Trial>)
  {
    forall i :: 0 <= i < |trials| ==> Representable(trials[i])
  }

  function TrialLatency(t: Trial, rate: nat): (l: nat)
    requires rate > 0 && Representable(t) && t.found.Ok?
    ensures l <= U128Max
  {
    LatencyMicros(t.found.receivedAt, t.found.sampleOffset, rate, t.playedAt)
  }

  /** The index of the first trial that did not find the impulse. */
  function FirstFailure(trials: seq<Trial>): (r: Option<nat>)
    ensures r.Some? ==> r.value < |trials| && trials[r.value].found.PeakNotFoundError?
    ensures r.Some? ==> forall i :: 0 <= i < r.value ==> trials[i].found.Ok?
    ensures r.None? <==> forall i :: 0 <= i < |trials| ==> trials[i].found.Ok?
  {
    if trials == [] then None
    else match FirstFailure(trials[..|trials| - 1])
      case Some(k) => Some(k)
      case None => if trials[|trials| - 1].found.Ok? then None else Some(|trials| - 1)
  }

  /** The latencies of the trials, in order. */
  function Latencies(trials: seq<Trial>, rate: nat): (ls: seq<nat>)
    requires rate > 0 && AllRepresentable(trials)
    requires forall i :: 0 <= i < |trials| ==> trials[i].found.Ok?
    ensures |ls| == |trials|
    ensures forall i :: 0 <= i < |trials| ==> ls[i] == TrialLatency(trials[i], rate)
  {
    seq(|trials|, i requires 0 <= i < |trials| => TrialLatency(trials[i], rate))
  }

  /** `cmp::min` folded left from u128::MAX, as the loop does. */
  function MinFold(ls: seq<nat>): nat
  {
    if ls == [] then U128Max
    else var m := MinFold(ls[..|ls| - 1]);
      if ls[|ls| - 1] < m then ls[|ls| - 1] else m
  }

  /** `cmp::max` folded left from u128::MIN. */
  function MaxFold(ls: seq<nat>): nat
  {
    if ls == [] then U128Min
    else var m := MaxFold(ls[..|ls| - 1]);
      if ls[|ls| - 1] > m then ls[|ls| - 1] else m
  }

  /** The whole run: abort at the first failed trial, otherwise the folded
      maximum and minimum. */
  function Measure(trials: seq<Trial>, rate: nat): Measurement
    requires rate > 0 && AllRepresentable(trials)
  {
    match FirstFailure(trials)
    case Some(k) => Aborted(k)
    case None =>
      var ls := Latencies(trials, rate);
      Completed(MaxFold(ls), MinFold(ls))
  }

  /** The trial loop as the source runs it: `min` and `max` are updated
      trial by trial and the first error returns at once. */
  method MeasureLatency(trials: seq<Trial>, rate: nat) returns (m: Measurement)
    requires rate > 0 && AllRepresentable(trials)
    ensures m == Measure(trials, rate)
  {
    var min := U128Max;
    var max := U128Min;
    for t := 0 to |trials|
      invariant forall i :: 0 <= i < t ==> trials[i].found.Ok?
      invariant min == MinFold(Latencies(trials[..t], rate))
      invariant max == MaxFold(Latencies(trials[..t], rate))
    {
      match trials[t].found
      case Ok(receivedAt, sampleOffset) =>
        var latency := LatencyMicros(receivedAt, sampleOffset, rate, trials[t].playedAt);
        FoldStep(trials, rate, t);
        min := if latency < min then latency else min;
        max := if latency > max then latency else max;
      case PeakNotFoundError =>
        AbortedAtFirstFailure(trials, rate, t);
        return Aborted(t);
    }
    assert trials[..|trials|] == trials;
    return Completed(max, min);
  }

  /** One more successful trial folds its latency into both extremes. */
  lemma FoldStep(trials: seq<Trial>, rate: nat, t: nat)
    requires rate > 0 && AllRepresentable(trials) && t < |trials|
    requires forall i :: 0 <= i <= t ==> trials[i].found.Ok?
    ensures var l := TrialLatency(trials[t], rate);
      var before := Latencies(trials[..t], rate);
      var after := Latencies(trials[..t + 1], rate);
      && MinFold(after) == (if l < MinFold(before) then l else MinFold(before))
      && MaxFold(after) == (if l > MaxFold(before) then l else MaxFold(before))
  {
    var before := Latencies(trials[..t], rate);
    var after := Latencies(trials[..t + 1], rate);
    assert after[..|after| - 1] == before;
  }

  /** After at least one folded latency, `min` is one of them and no larger
      than any. */
  lemma {:induction false} MinFoldIsMinimum(ls: seq<nat>)
    requires |ls| > 0 && forall i :: 0 <= i < |ls| ==> ls[i] <= U128Max
    ensures exists i :: 0 <= i < |ls| && ls[i] == MinFold(ls)
    ensures forall i :: 0 <= i < |ls| ==> MinFold(ls) <= ls[i]
  {
    var init := ls[..|ls| - 1];
    if |init| > 0 {
      MinFoldIsMinimum(init);
      var j :| 0 <= j < |init| && init[j] == MinFold(init);
      assert ls[j] == init[j];
    }
  }

  /** After at least one folded latency, `max` is one of them and no smaller
      than any. */
  lemma {:induction false} MaxFoldIsMaximum(ls: seq<nat>)
    requires |ls| > 0
    ensures exists i :: 0 <= i < |ls| && ls[i] == MaxFold(ls)
    ensures forall i :: 0 <= i < |ls| ==> ls[i] <= MaxFold(ls)
  {
    var init := ls[..|ls| - 1];
    if |init| > 0 {
      MaxFoldIsMaximum(init);
      var j :| 0 <= j < |init| && init[j] == MaxFold(init);
      assert ls[j] == init[j];
    }
  }

  /** A run that completed at least one trial reports the true minimum and
      maximum of the trials' latencies, so `max - min` is a spread >= 0. */
  lemma {:induction false} CompletedReportsExtremes(trials: seq<Trial>, rate: nat)
    requires rate > 0 && AllRepresentable(trials) && |trials| > 0
    requires Measure(trials, rate).Completed?
    ensures var m := Measure(trials, rate);
      && (forall i :: 0 <= i < |trials| ==> trials[i].found.Ok?)
      && (exists i :: 0 <= i < |trials| && m.min == TrialLatency(trials[i], rate))
      && (exists i :: 0 <= i < |trials| && m.max == TrialLatency(trials[i], rate))
      && (forall i :: 0 <= i < |trials| ==> m.min <= TrialLatency(trials[i], rate) <= m.max)
      && m.min <= m.max
  {
    var ls := Latencies(trials, rate);
    MinFoldIsMinimum(ls);
    MaxFoldIsMaximum(ls);
    var i :| 0 <= i < |ls| && ls[i] == MinFold(ls);
    var j :| 0 <= j < |ls| && ls[j] == MaxFold(ls);
    assert ls[0] <= MaxFold(ls);
  }

  /** A run is aborted exactly at the first trial that did not find the
      impulse; every trial before it succeeded. */
  lemma {:induction false} AbortedAtFirstFailure(trials: seq<Trial>, rate: nat, k: nat)
    requires rate > 0 && AllRepresentable(trials)
    ensures Measure(trials, rate) == Aborted(k) <==>
      k < |trials| && trials[k].found.PeakNotFoundError? && forall i :: 0 <= i < k ==> trials[i].found.Ok?
  {
    var r := FirstFailure(trials);
    if k < |trials| && trials[k].found.PeakNotFoundError? && (forall i :: 0 <= i < k ==> trials[i].found.Ok?) {
      assert r.Some?;
      assert !(r.value < k) && !(k < r.value);
    }
  }

  /** `max - min` in u128: None where the subtraction underflows (a panic
      in a debug build; a release build wraps around instead). */
  function U128Sub(a: nat, b: nat): (r: Option<nat>)
    requires a <= U128Max && b <= U128Max
    ensures r.Some? <==> b <= a
    ensures r.Some? ==> r.value + b == a
  {
    if b <= a then Some(a - b) else None
  }

  /** The summary line as written: `max - min` of whatever the loop left. */
  function JitterAsWritten(trials: seq<Trial>, rate: nat): (r: Option<nat>)
    requires rate > 0 && AllRepresentable(trials)
    requires Measure(trials, rate).Completed?
    ensures r.None? <==> trials == []
    ensures r.Some? ==> r.value == Measure(trials, rate).max - Measure(trials, rate).min
  {
    var m := Measure(trials, rate);
    var ls := Latencies(trials, rate);
    if ls == [] then U128Sub(m.max, m.min)
    else
      MaxFoldIsMaximum(ls);
      MinFoldIsMinimum(ls);
      U128Sub(m.max, m.min)
  }

  /** With `--tries 0` the loop body never runs, `min` stays u128::MAX and
      `max` stays u128::MIN, and the summary's `max - min` underflows. */
  lemma ZeroTriesUnderflows(rate: nat)
    requires rate > 0
    ensures Measure([], rate) == Completed(U128Min, U128Max)
    ensures JitterAsWritten([], rate) == None
  {
  }

  /** With at least one trial the subtraction as written is safe. */
  lemma {:induction false} JitterAsWrittenSafe(trials: seq<Trial>, rate: nat)
    requires rate > 0 && AllRepresentable(trials) && |trials| > 0
    requires Measure(trials, rate).Completed?
    ensures JitterAsWritten(trials, rate) ==
            Some(Measure(trials, rate).max - Measure(trials, rate).min)
  {
    CompletedReportsExtremes(trials, rate);
  }

  /** What a run reports: the failed trial, no latency at all when no trial
      was run, or the maximum, minimum and their spread. */
  datatype Report = Failed(trial: nat) | NoTrials | Spread(max: nat, min: nat, jitter: nat)

  /** The summary with the zero-trial case reported instead of underflowing.
      A spread is the true maximum and minimum of all trials' latencies. */
  function Summarize(trials: seq<Trial>, rate: nat): (r: Report)
    requires rate > 0 && AllRepresentable(trials)
    ensures r.Failed? <==> Measure(trials, rate).Aborted?
    ensures r.Failed? ==> r.trial < |trials| && trials[r.trial].found.PeakNotFoundError?
    ensures r.NoTrials? <==> |trials| == 0
    ensures r.Spread? ==>
      && r.min <= r.max && r.jitter == r.max - r.min
      && (forall i :: 0 <= i < |trials| ==>
            trials[i].found.Ok? && r.min <= TrialLatency(trials[i], rate) <= r.max)
      && (exists i :: 0 <= i < |trials| && r.min == TrialLatency(trials[i], rate))
      && (exists i :: 0 <= i < |trials| && r.max == TrialLatency(trials[i], rate))
  {
    match Measure(trials, rate)
    case Aborted(k) => Failed(k)
    case Completed(max, min) =>
      if |trials| == 0 then NoTrials
      else
        CompletedReportsExtremes(trials, rate);
        Spread(max, min, max - min)
  }

  /** The end-to-end scenario at 44100 Hz: silence in the first read, the
      impulse at the first sample of the second. The detection is at sample
      0 of read 1, so the latency is the receive instant minus the playback
      instant with no correction. */
  lemma EndToEndImpulseAtBlockStart(receivedAt: Instant, playedAt: Instant)
    requires playedAt <= receivedAt <= UsizeMax
    ensures var blocks := [Read(2, [0, 0, 0, 0]), Read(2, [I32Max, I32Max, I32Max, I32Max])];
      && Capture(blocks, 44100) == Run(Detected(1, 0), [Ready, Found], 2)
      && Summarize([Trial(playedAt, Ok(receivedAt, 0))], 44100)
         == Spread(receivedAt - playedAt, receivedAt - playedAt, 0)
  {
    var blocks := [Read(2, [0, 0, 0, 0]), Read(2, [I32Max, I32Max, I32Max, I32Max])];
    assert Inspected(blocks[0]) == [0, 0, 0, 0];
    FirstPeakAt(Inspected(blocks[1]), 0);
    StepContinue(blocks, SearchLimit(44100), 0, 0);
    StepDetected(blocks, SearchLimit(44100), 1, 2, 0);
    NoCorrectionAtBlockStart(receivedAt, 0, 44100, playedAt);
    var trials := [Trial(playedAt, Ok(receivedAt, 0))];
    assert Latencies(trials, 44100) == [receivedAt - playedAt];
  }
}
