/** The capture side of one trial (`find_impulse`): read blocks, announce
    the first non-empty read, scan each block for the impulse and give up
    once more than two seconds' worth of frames were read without it. */
module Finder {
  import opened Audio

  /** One `readi` call: the frame count it returned and the whole capture
      buffer (period_size interleaved stereo samples) after the call. */
  datatype Read = Read(frames: nat, buf: seq<Sample>)

  /** `readi` into a buffer of n interleaved stereo samples returns at most
      n / 2 frames, so `buf[0..2 * frames]` is a valid slice. */
  predicate Fits(r: Read)
  {
    2 * r.frames <= |r.buf|
  }

  predicate AllFit(blocks: seq<Read>)
  {
    forall j :: 0 <= j < |blocks| ==> Fits(blocks[j])
  }

  /** The part of the buffer the scan looks at: the samples just read. */
  function Inspected(r: Read): (s: seq<Sample>)
    requires Fits(r)
    ensures |s| == 2 * r.frames
  {
    r.buf[..2 * r.frames]
  }

  /** Detected carries the position of the block among the reads (standing in
      for the instant at which it was received) and the sample index inside
      it. Starved means the supplied reads ran out while the loop was still
      searching: the device would block on the next `readi`. */
  datatype Outcome = Detected(block: nat, idx: nat) | PeakNotFound | Starved

  /** What one capture run does: its outcome, the messages it sent on the
      channel in order, and how many blocks it consumed. */
  datatype Run = Run(outcome: Outcome, signals: seq<Signal>, consumed: nat)

  const MaxSearchTime: nat := 2

  function SearchLimit(rate: nat): nat
  {
    rate * MaxSearchTime
  }

  /** The index of the first sample above the threshold, if any. */
  function FirstPeak(s: seq<Sample>): Option<nat>
  {
    FirstPeakFrom(s, 0)
  }

  /** The first sample above the threshold at index j or later. */
  function FirstPeakFrom(s: seq<Sample>, j: nat): Option<nat>
    decreases |s| - j
  {
    if j >= |s| then None
    else if IsPeak(s[j]) then Some(j)
    else FirstPeakFrom(s, j + 1)
  }

  lemma {:induction false} FirstPeakFromIsFirst(s: seq<Sample>, j: nat)
    ensures var r := FirstPeakFrom(s, j);
      && (r.Some? ==> j <= r.value < |s| && IsPeak(s[r.value]))
      && (r.Some? ==> forall m :: j <= m < r.value ==> !IsPeak(s[m]))
      && (r.None? <==> forall m :: j <= m < |s| ==> !IsPeak(s[m]))
    decreases |s| - j
  {
    if j < |s| && !IsPeak(s[j]) {
      FirstPeakFromIsFirst(s, j + 1);
    }
  }

  /** FirstPeak finds the first sample above the threshold: every sample
      before it is at or below, and None means no sample is above. */
  lemma FirstPeakIsFirst(s: seq<Sample>)
    ensures var r := FirstPeak(s);
      && (r.Some? ==> r.value < |s| && IsPeak(s[r.value]))
      && (r.Some? ==> forall j :: 0 <= j < r.value ==> !IsPeak(s[j]))
      && (r.None? <==> forall j :: 0 <= j < |s| ==> !IsPeak(s[j]))
  {
    FirstPeakFromIsFirst(s, 0);
  }

  /** A sample above the threshold preceded only by samples at or below it
      is the one FirstPeak finds. */
  lemma FirstPeakAt(s: seq<Sample>, k: nat)
    requires k < |s| && IsPeak(s[k])
    requires forall j :: 0 <= j < k ==> !IsPeak(s[j])
    ensures FirstPeak(s) == Some(k)
  {
    FirstPeakIsFirst(s);
  }

  predicate NoPeak(r: Read)
    requires Fits(r)
  {
    FirstPeak(Inspected(r)) == None
  }

  /** None of the first n blocks holds a peak. */
  predicate Clear(blocks: seq<Read>, n: nat)
    requires AllFit(blocks) && n <= |blocks|
  {
    n == 0 || (Clear(blocks, n - 1) && NoPeak(blocks[n - 1]))
  }

  /** Frames accumulated over the first n blocks. */
  function FramesRead(blocks: seq<Read>, n: nat): nat
    requires n <= |blocks|
  {
    if n == 0 then 0 else FramesRead(blocks, n - 1) + blocks[n - 1].frames
  }

  /** The Ready message is sent on a read that returned frames while
      nothing had been accumulated yet. */
  function ReadySignal(total: nat, r: Read): (s: seq<Signal>)
    ensures Found !in s && |s| <= 1
    ensures Ready in s <==> total == 0 && total + r.frames > 0
  {
    if total == 0 && r.frames > 0 then [Ready] else []
  }

  /** The loop from read i on, with `total` frames accumulated so far. */
  function CaptureFrom(blocks: seq<Read>, limit: nat, i: nat, total: nat): Run
    requires AllFit(blocks) && i <= |blocks|
    decreases |blocks| - i
  {
    if i == |blocks| then Run(Starved, [], i)
    else
      var r := blocks[i];
      var ready := ReadySignal(total, r);
      match FirstPeak(Inspected(r))
      case Some(k) => Run(Detected(i, k), ready + [Found], i + 1)
      case None =>
        if total + r.frames > limit then Run(PeakNotFound, ready, i + 1)
        else
          var rest := CaptureFrom(blocks, limit, i + 1, total + r.frames);
          Run(rest.outcome, ready + rest.signals, rest.consumed)
  }

  /** A whole capture run over the supplied reads at the given rate. */
  function Capture(blocks: seq<Read>, rate: nat): Run
    requires AllFit(blocks)
  {
    CaptureFrom(blocks, SearchLimit(rate), 0, 0)
  }

  function Prefixed(signals: seq<Signal>, run: Run): Run
  {
    Run(run.outcome, signals + run.signals, run.consumed)
  }

  /** The three ways one step of CaptureFrom can go, unfolded for the loop
      in FindImpulse: a hit in read i ends the run; otherwise the frames of
      read i are added and the run either gives up or goes on. */
  lemma {:induction false} StepDetected(blocks: seq<Read>, limit: nat, i: nat, total: nat, k: nat)
    requires AllFit(blocks) && i < |blocks| && FirstPeak(Inspected(blocks[i])) == Some(k)
    ensures CaptureFrom(blocks, limit, i, total)
            == Run(Detected(i, k), ReadySignal(total, blocks[i]) + [Found], i + 1)
  {
  }

  lemma {:induction false} StepGiveUp(blocks: seq<Read>, limit: nat, i: nat, total: nat)
    requires AllFit(blocks) && i < |blocks| && NoPeak(blocks[i])
    requires total + blocks[i].frames > limit
    ensures CaptureFrom(blocks, limit, i, total) == Run(PeakNotFound, ReadySignal(total, blocks[i]), i + 1)
  {
  }

  lemma {:induction false} StepContinue(blocks: seq<Read>, limit: nat, i: nat, total: nat)
    requires AllFit(blocks) && i < |blocks| && NoPeak(blocks[i])
    requires total + blocks[i].frames <= limit
    ensures CaptureFrom(blocks, limit, i, total)
            == Prefixed(ReadySignal(total, blocks[i]), CaptureFrom(blocks, limit, i + 1, total + blocks[i].frames))
  {
  }

  /** The inner `for` loop: scan `buf[0..2 * frames]` in order and stop at
      the first sample whose magnitude is above the threshold. */
  method ScanBlock(r: Read) returns (hit: Option<nat>)
    requires Fits(r)
    ensures hit == FirstPeak(Inspected(r))
  {
    var numSamples := 2 * r.frames;
    var idx := 0;
    while idx < numSamples
      invariant idx <= numSamples
      invariant forall j :: 0 <= j < idx ==> !IsPeak(r.buf[j])
    {
      if Magnitude(r.buf[idx]) > Threshold {
        FirstPeakAt(Inspected(r), idx);
        return Some(idx);
      }
      idx := idx + 1;
    }
    FirstPeakIsFirst(Inspected(r));
    return None;
  }

  lemma PrefixedTwice(a: seq<Signal>, b: seq<Signal>, run: Run)
    ensures Prefixed(a, Prefixed(b, run)) == Prefixed(a + b, run)
  {
    assert a + (b + run.signals) == (a + b) + run.signals;
  }

  /** The messages sent once `total` frames have been accumulated: Ready
      went out with the first read that returned frames. */
  function Announced(total: nat): seq<Signal>
  {
    if total > 0 then [Ready] else []
  }

  /** Whether read i sends Ready depends only on the total before it. */
  lemma AnnouncedStep(total: nat, r: Read)
    ensures Announced(total) + ReadySignal(total, r) == Announced(total + r.frames)
  {
    if total == 0 && r.frames > 0 {
      assert [] + [Ready] == [Ready];
    } else {
      assert Announced(total) + [] == Announced(total);
    }
  }

  /** Having read blocks[..i] without a peak and within the limit, the run
      from the start (`whole`) is the run from read i (`run`), after Ready
      if it went out. */
  lemma {:induction false} CaptureReaches(blocks: seq<Read>, limit: nat, i: nat, total: nat, whole: Run, run: Run)
    requires AllFit(blocks) && i <= |blocks| && total == FramesRead(blocks, i) <= limit
    requires Clear(blocks, i)
    requires whole == CaptureFrom(blocks, limit, 0, 0)
    requires run == CaptureFrom(blocks, limit, i, total)
    ensures whole == Prefixed(Announced(total), run)
  {
    if i == 0 {
      assert [] + run.signals == run.signals;
    } else {
      var before := FramesRead(blocks, i - 1);
      CaptureReaches(blocks, limit, i - 1, before, whole, CaptureFrom(blocks, limit, i - 1, before));
      StepContinue(blocks, limit, i - 1, before);
      PrefixedTwice(Announced(before), ReadySignal(before, blocks[i - 1]), run);
      AnnouncedStep(before, blocks[i - 1]);
    }
  }

  /** Putting messages in front of a run, in the form the lemmas below use. */
  lemma PrefixedRun(whole: Run, sent: seq<Signal>, outcome: Outcome, rest: seq<Signal>, consumed: nat, signals: seq<Signal>)
    requires whole == Prefixed(sent, Run(outcome, rest, consumed)) && sent + rest == signals
    ensures whole == Run(outcome, signals, consumed)
  {
  }

  /** The three ways the loop of FindImpulse leaves, stated for the run
      from the start: a peak in read i, the limit passed at read i, or the
      reads exhausted. `total` is the frames read before read i. */
  lemma EndsDetected(blocks: seq<Read>, limit: nat, i: nat, total: nat, k: nat, whole: Run)
    requires AllFit(blocks) && i < |blocks| && total == FramesRead(blocks, i) <= limit
    requires Clear(blocks, i)
    requires FirstPeak(Inspected(blocks[i])) == Some(k)
    requires whole == CaptureFrom(blocks, limit, 0, 0)
    ensures whole == Run(Detected(i, k), Announced(total + blocks[i].frames) + [Found], i + 1)
  {
    var ready := ReadySignal(total, blocks[i]);
    StepDetected(blocks, limit, i, total, k);
    CaptureReaches(blocks, limit, i, total, whole, Run(Detected(i, k), ready + [Found], i + 1));
    AnnouncedStep(total, blocks[i]);
    PrefixedRun(whole, Announced(total), Detected(i, k), ready + [Found], i + 1,
                Announced(total + blocks[i].frames) + [Found]);
  }

  lemma EndsGivingUp(blocks: seq<Read>, limit: nat, i: nat, total: nat, whole: Run)
    requires AllFit(blocks) && i < |blocks| && total == FramesRead(blocks, i) <= limit
    requires Clear(blocks, i)
    requires NoPeak(blocks[i]) && total + blocks[i].frames > limit
    requires whole == CaptureFrom(blocks, limit, 0, 0)
    ensures whole == Run(PeakNotFound, Announced(total + blocks[i].frames), i + 1)
  {
    var ready := ReadySignal(total, blocks[i]);
    StepGiveUp(blocks, limit, i, total);
    CaptureReaches(blocks, limit, i, total, whole, Run(PeakNotFound, ready, i + 1));
    AnnouncedStep(total, blocks[i]);
    PrefixedRun(whole, Announced(total), PeakNotFound, ready, i + 1, Announced(total + blocks[i].frames));
  }

  lemma EndsStarved(blocks: seq<Read>, limit: nat, total: nat, whole: Run)
    requires AllFit(blocks) && total == FramesRead(blocks, |blocks|) <= limit
    requires Clear(blocks, |blocks|)
    requires whole == CaptureFrom(blocks, limit, 0, 0)
    ensures whole == Run(Starved, Announced(total), |blocks|)
  {
    CaptureReaches(blocks, limit, |blocks|, total, whole, CaptureFrom(blocks, limit, |blocks|, total));
    assert Announced(total) + [] == Announced(total);
  }

  /** The outer loop as the source runs it: `total` grows block by block and
      every message sent is appended to `signals`. */
  method FindImpulse(blocks: seq<Read>, rate: nat) returns (outcome: Outcome, signals: seq<Signal>, consumed: nat)
    requires AllFit(blocks)
    ensures Run(outcome, signals, consumed) == Capture(blocks, rate)
  {
    ghost var whole := Capture(blocks, rate);
    var limit := SearchLimit(rate);
    var total: nat := 0;
    signals := [];
    var i := 0;
    while i < |blocks|
      invariant i <= |blocks| && total == FramesRead(blocks, i) <= limit
      invariant Clear(blocks, i)
      invariant signals == Announced(total)
      decreases |blocks| - i
    {
      var r := blocks[i];
      if total == 0 && r.frames > 0 {
        signals := signals + [Ready];
      }
      assert signals == Announced(total + r.frames);
      var hit := ScanBlock(r);
      if hit.Some? {
        EndsDetected(blocks, limit, i, total, hit.value, whole);
        signals := signals + [Found];
        return Detected(i, hit.value), signals, i + 1;
      }
      if total + r.frames > limit {
        EndsGivingUp(blocks, limit, i, total, whole);
        return PeakNotFound, signals, i + 1;
      }
      total := total + r.frames;
      i := i + 1;
    }
    EndsStarved(blocks, limit, total, whole);
    return Starved, signals, i;
  }
}

/** What a capture run promises: the lemmas below are stated about Capture,
    which FindImpulse is proved to compute. */
module FinderFacts {
  import opened Audio
  import opened Finder

  lemma {:induction false} FramesReadMonotone(blocks: seq<Read>, m: nat, n: nat)
    requires m <= n <= |blocks|
    ensures FramesRead(blocks, m) <= FramesRead(blocks, n)
    decreases n - m
  {
    if m < n {
      FramesReadMonotone(blocks, m, n - 1);
    }
  }

  /** The reads a run from read i on consumes, given that the first i
      reads added up to `total` frames without passing the limit: the
      running total stayed within the limit before the last of them, and
      none but possibly the last held a peak. */
  lemma {:induction false} CaptureFromConsumed(blocks: seq<Read>, limit: nat, i: nat, total: nat, run: Run)
    requires AllFit(blocks) && i <= |blocks|
    requires total == FramesRead(blocks, i) <= limit
    requires run == CaptureFrom(blocks, limit, i, total)
    ensures var n := run.consumed;
      && i <= n <= |blocks|
      && (i < n ==> FramesRead(blocks, n - 1) <= limit)
      && (forall j :: i <= j < n - 1 ==> NoPeak(blocks[j]))
      && (run.outcome.Starved? ==> forall j :: i <= j < n ==> NoPeak(blocks[j]))
    decreases |blocks| - i
  {
    if i < |blocks| {
      var r := blocks[i];
      match FirstPeak(Inspected(r))
      case Some(k) =>
        StepDetected(blocks, limit, i, total, k);
      case None =>
        if total + r.frames > limit {
          StepGiveUp(blocks, limit, i, total);
        } else {
          StepContinue(blocks, limit, i, total);
          CaptureFromConsumed(blocks, limit, i + 1, total + r.frames, CaptureFrom(blocks, limit, i + 1, total + r.frames));
        }
    }
  }

  /** Why a run from read i on stopped: a hit in the last read consumed,
      the running total passing the limit with that read, or the reads
      running out within the limit. */
  lemma {:induction false} CaptureFromStop(blocks: seq<Read>, limit: nat, i: nat, total: nat, run: Run)
    requires AllFit(blocks) && i <= |blocks|
    requires total == FramesRead(blocks, i) <= limit
    requires run == CaptureFrom(blocks, limit, i, total)
    ensures var n := run.consumed;
      && (run.outcome.Detected? ==>
            i < n <= |blocks| && run.outcome.block == n - 1
            && FirstPeak(Inspected(blocks[n - 1])) == Some(run.outcome.idx))
      && (run.outcome.PeakNotFound? ==>
            i < n <= |blocks| && NoPeak(blocks[n - 1]) && FramesRead(blocks, n) > limit)
      && (run.outcome.Starved? ==> n == |blocks| && FramesRead(blocks, n) <= limit)
    decreases |blocks| - i
  {
    if i < |blocks| {
      var r := blocks[i];
      match FirstPeak(Inspected(r))
      case Some(k) =>
        StepDetected(blocks, limit, i, total, k);
      case None =>
        if total + r.frames > limit {
          StepGiveUp(blocks, limit, i, total);
        } else {
          StepContinue(blocks, limit, i, total);
          CaptureFromStop(blocks, limit, i + 1, total + r.frames, CaptureFrom(blocks, limit, i + 1, total + r.frames));
        }
    }
  }

  /** The messages of the run from read i on: Ready when nothing had been
      accumulated before and some consumed read returned frames, then Found
      on a detection. */
  lemma {:induction false} CaptureFromSignals(blocks: seq<Read>, limit: nat, i: nat, total: nat, run: Run)
    requires AllFit(blocks) && i <= |blocks| && total == FramesRead(blocks, i)
    requires run == CaptureFrom(blocks, limit, i, total)
    ensures
      && i <= run.consumed <= |blocks|
      && run.signals == (if total == 0 && FramesRead(blocks, run.consumed) > 0 then [Ready] else [])
                        + (if run.outcome.Detected? then [Found] else [])
    decreases |blocks| - i
  {
    if i < |blocks| {
      var r := blocks[i];
      var ready := ReadySignal(total, r);
      match FirstPeak(Inspected(r))
      case Some(k) =>
        StepDetected(blocks, limit, i, total, k);
      case None =>
        if total + r.frames > limit {
          StepGiveUp(blocks, limit, i, total);
          assert ready + [] == ready;
        } else {
          StepContinue(blocks, limit, i, total);
          var rest := CaptureFrom(blocks, limit, i + 1, total + r.frames);
          CaptureFromSignals(blocks, limit, i + 1, total + r.frames, CaptureFrom(blocks, limit, i + 1, total + r.frames));
          FramesReadMonotone(blocks, i + 1, rest.consumed);
          var found: seq<Signal> := if rest.outcome.Detected? then [Found] else [];
          if total == 0 && r.frames > 0 {
            assert rest.signals == [] + found;
          } else {
            assert ready + rest.signals == rest.signals;
          }
        }
    } else {
      var none: seq<Signal> := [];
      assert none + none == none;
    }
  }

  /** A full capture run: which reads it consumed, why it stopped, and the
      exact message trace it produced. */
  lemma {:induction false} CaptureShape(blocks: seq<Read>, rate: nat)
    requires AllFit(blocks)
    ensures var run := Capture(blocks, rate);
      var n := run.consumed;
      var limit := SearchLimit(rate);
      && n <= |blocks|
      && (0 < n ==> FramesRead(blocks, n - 1) <= limit)
      && (forall j :: 0 <= j < n - 1 ==> NoPeak(blocks[j]))
      && (run.outcome.Detected? ==>
            run.outcome.block == n - 1 && FirstPeak(Inspected(blocks[n - 1])) == Some(run.outcome.idx))
      && (run.outcome.PeakNotFound? ==>
            0 < n && NoPeak(blocks[n - 1]) && FramesRead(blocks, n) > limit)
      && (run.outcome.Starved? ==>
            n == |blocks| && FramesRead(blocks, n) <= limit && forall j :: 0 <= j < n ==> NoPeak(blocks[j]))
      && run.signals == Announced(FramesRead(blocks, n)) + (if run.outcome.Detected? then [Found] else [])
      && (run.outcome.Detected? ==> blocks[n - 1].frames > 0)
  {
    var limit := SearchLimit(rate);
    var run := CaptureFrom(blocks, limit, 0, 0);
    assert Capture(blocks, rate) == run;
    assert FramesRead(blocks, 0) == 0;
    CaptureFromConsumed(blocks, limit, 0, 0, run);
    CaptureFromStop(blocks, limit, 0, 0, run);
    CaptureFromSignals(blocks, limit, 0, 0, run);
    if run.outcome.Detected? {
      FirstPeakIsFirst(Inspected(blocks[run.consumed - 1]));
    }
  }

  /** Ready is sent at most once and Found at most once; Found only after
      Ready, and only on a detection. The Err path sends no Found. */
  lemma {:induction false} CaptureSignals(blocks: seq<Read>, rate: nat)
    requires AllFit(blocks)
    ensures var run := Capture(blocks, rate);
      && (run.signals == [] || run.signals == [Ready] || run.signals == [Ready, Found])
      && (Found in run.signals <==> run.outcome.Detected?)
      && run.consumed <= |blocks|
      && (Ready in run.signals <==> FramesRead(blocks, run.consumed) > 0)
  {
    CaptureShape(blocks, rate);
  }

  /** The run detects the impulse at sample k of read b exactly when the
      reads before b held no peak and stayed within the search window, and k
      is the first sample of read b above the threshold. The frames of read
      b itself are never weighed against the window. */
  lemma {:induction false} DetectedIff(blocks: seq<Read>, rate: nat, b: nat, k: nat)
    requires AllFit(blocks)
    ensures Capture(blocks, rate).outcome == Detected(b, k) <==>
      && b < |blocks|
      && FramesRead(blocks, b) <= SearchLimit(rate)
      && (forall j :: 0 <= j < b ==> NoPeak(blocks[j]))
      && FirstPeak(Inspected(blocks[b])) == Some(k)
  {
    var run := Capture(blocks, rate);
    var n := run.consumed;
    var limit := SearchLimit(rate);
    CaptureShape(blocks, rate);
    if b < |blocks| && FramesRead(blocks, b) <= limit && (forall j :: 0 <= j < b ==> NoPeak(blocks[j]))
       && FirstPeak(Inspected(blocks[b])) == Some(k)
    {
      if n - 1 < b {
        if run.outcome.PeakNotFound? {
          FramesReadMonotone(blocks, n, b);
        }
      }
    }
  }

  /** The Err outcome is only reached once the accumulated frames are
      strictly above rate * 2, with every scanned sample at or below the
      threshold. */
  lemma {:induction false} PeakNotFoundMeans(blocks: seq<Read>, rate: nat)
    requires AllFit(blocks)
    requires Capture(blocks, rate).outcome == PeakNotFound
    ensures var n := Capture(blocks, rate).consumed;
      && 0 < n <= |blocks|
      && FramesRead(blocks, n - 1) <= SearchLimit(rate) < FramesRead(blocks, n)
      && forall j :: 0 <= j < n ==> NoPeak(blocks[j])
  {
    CaptureShape(blocks, rate);
  }

  /** Two lists of reads that agree on every frame count and on the samples
      just read differ at most in stale samples past `2 * frames`. */
  predicate SameInspected(a: seq<Read>, b: seq<Read>)
    requires AllFit(a) && AllFit(b)
  {
    |a| == |b| &&
    forall j :: 0 <= j < |a| ==> a[j].frames == b[j].frames && Inspected(a[j]) == Inspected(b[j])
  }

  lemma {:induction false} CaptureFromIgnoresStale(a: seq<Read>, b: seq<Read>, limit: nat, i: nat, total: nat)
    requires AllFit(a) && AllFit(b) && SameInspected(a, b) && i <= |a|
    ensures CaptureFrom(a, limit, i, total) == CaptureFrom(b, limit, i, total)
    decreases |a| - i
  {
    if i < |a| {
      match FirstPeak(Inspected(a[i]))
      case Some(k) =>
        StepDetected(a, limit, i, total, k);
        StepDetected(b, limit, i, total, k);
      case None =>
        if total + a[i].frames > limit {
          StepGiveUp(a, limit, i, total);
          StepGiveUp(b, limit, i, total);
        } else {
          StepContinue(a, limit, i, total);
          StepContinue(b, limit, i, total);
          CaptureFromIgnoresStale(a, b, limit, i + 1, total + a[i].frames);
        }
    }
  }

  /** Samples at or beyond `2 * frames` in the capture buffer are never
      looked at. */
  lemma {:induction false} CaptureIgnoresStale(a: seq<Read>, b: seq<Read>, rate: nat)
    requires AllFit(a) && AllFit(b) && SameInspected(a, b)
    ensures Capture(a, rate) == Capture(b, rate)
  {
    CaptureFromIgnoresStale(a, b, SearchLimit(rate), 0, 0);
  }

  /** The block holding the impulse is not weighed against the search
      window: here its frames push the running total past rate * 2, yet the
      run still detects the impulse. */
  lemma PeakBlockNotCounted()
    ensures var blocks := [Read(2, [0, 0, 0, 0]), Read(2, [0, 0, I32Max, 0])];
      && FramesRead(blocks, 2) > SearchLimit(1)
      && Capture(blocks, 1) == Run(Detected(1, 2), [Ready, Found], 2)
  {
    var blocks := [Read(2, [0, 0, 0, 0]), Read(2, [0, 0, I32Max, 0])];
    assert Inspected(blocks[0]) == [0, 0, 0, 0];
    assert Inspected(blocks[1]) == [0, 0, I32Max, 0];
    FirstPeakAt(Inspected(blocks[1]), 2);
    StepContinue(blocks, 2, 0, 0);
    StepDetected(blocks, 2, 1, 2, 2);
  }

  /** Ready is keyed on `total == 0`: an empty first read postpones it to
      the first read that returns frames. */
  lemma EmptyFirstReadPostponesReady()
    ensures Capture([Read(0, [9, 9]), Read(0, [0, 0]), Read(1, [0, 0])], 100)
            == Run(Starved, [Ready], 3)
  {
  }

  /** The comparison is strict: a sample equal to the threshold is not the
      impulse, its negation plus one is. */
  lemma ThresholdIsStrict()
    ensures Capture([Read(2, [42949672, -42949673, 0, 0])], 44100)
            == Run(Detected(0, 1), [Ready, Found], 1)
  {
    ThresholdIs();
  }
}
