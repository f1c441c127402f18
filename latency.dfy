/** Turning a detection into a latency: the sample index inside the block
    that held the impulse is converted to microseconds and added to the
    instant the block was received, and the playback instant is subtracted.
    Instants are microsecond counts on the monotonic clock. */
module Latency {

  /** Interleaved stereo: two samples per frame. */
  const Channels: nat := 2
  const MicrosPerSecond: nat := 1_000_000
  /** usize::MAX on a 64-bit target. */
  const UsizeMax: nat := 0xffff_ffff_ffff_ffff

  /** A point on the monotonic clock, in microseconds. */
  type Instant = nat

  /** `sample_offset_in_block / channels`; usize division truncates. */
  function FrameOffset(sampleOffset: nat): (f: nat)
    ensures Channels * f <= sampleOffset < Channels * (f + 1)
  {
    sampleOffset / Channels
  }

  /** `micro * frame_offset_in_block` must not overflow usize: the source
      computes it in usize. */
  predicate ScaledFits(sampleOffset: nat)
  {
    MicrosPerSecond * FrameOffset(sampleOffset) <= UsizeMax
  }

  /** `micro * frame_offset_in_block / rate`: the whole microseconds that
      the frame offset lasts at the given rate, rounded down. */
  function MicrosInBlock(sampleOffset: nat, rate: nat): (m: nat)
    requires rate > 0 && ScaledFits(sampleOffset)
    ensures m * rate <= MicrosPerSecond * FrameOffset(sampleOffset) < (m + 1) * rate
    ensures m <= UsizeMax
  {
    var scaled := MicrosPerSecond * FrameOffset(sampleOffset);
    DivFloor(scaled, rate);
    scaled / rate
  }

  /** Truncating division of naturals: the quotient times the divisor lies
      within one divisor below the dividend, and never exceeds it. */
  lemma DivFloor(x: nat, d: nat)
    requires d > 0
    ensures (x / d) * d <= x < (x / d + 1) * d
    ensures x / d <= x
  {
    var q, r := x / d, x % d;
    assert x == q * d + r;
    assert (q + 1) * d == q * d + d;
    MulAtLeast(q, d);
  }

  lemma {:induction false} MulAtLeast(q: nat, d: nat)
    requires d >= 1
    ensures q <= q * d
    decreases d
  {
    if d > 1 {
      MulAtLeast(q, d - 1);
      assert q * d == q * (d - 1) + q;
    }
  }

  /** `later - earlier` on instants: it saturates at zero (Rust's
      `Instant - Instant` does since Rust 1.60). */
  function Since(later: Instant, earlier: Instant): (d: nat)
    ensures later >= earlier ==> earlier + d == later
    ensures later < earlier ==> d == 0
  {
    if later >= earlier then later - earlier else 0
  }

  /** The latency of one trial, in microseconds. */
  function LatencyMicros(receivedAt: Instant, sampleOffset: nat, rate: nat, playedAt: Instant): (l: nat)
    requires rate > 0 && ScaledFits(sampleOffset)
    ensures l <= receivedAt + UsizeMax
  {
    Since(receivedAt + MicrosInBlock(sampleOffset, rate), playedAt)
  }

  /** The correction is the unique floor of 10^6 * frame / rate: any m with
      m * rate <= 10^6 * frame < (m + 1) * rate is the value computed. */
  lemma {:induction false} MicrosInBlockUnique(sampleOffset: nat, rate: nat, m: nat)
    requires rate > 0 && ScaledFits(sampleOffset)
    ensures m == MicrosInBlock(sampleOffset, rate) <==>
            m * rate <= MicrosPerSecond * FrameOffset(sampleOffset) < (m + 1) * rate
  {
    var x := MicrosPerSecond * FrameOffset(sampleOffset);
    var q := MicrosInBlock(sampleOffset, rate);
    if m * rate <= x < (m + 1) * rate {
      MulCancel(m, q + 1, rate);
      MulCancel(q, m + 1, rate);
    }
  }

  /** Later samples in the block never get a smaller correction, and the two
      samples of one stereo frame get the same one. */
  lemma {:induction false} MicrosInBlockMonotone(a: nat, b: nat, rate: nat)
    requires rate > 0 && ScaledFits(b) && a <= b
    ensures ScaledFits(a)
    ensures MicrosInBlock(a, rate) <= MicrosInBlock(b, rate)
    ensures FrameOffset(a) == FrameOffset(b) ==> MicrosInBlock(a, rate) == MicrosInBlock(b, rate)
  {
    var ma, mb := MicrosInBlock(a, rate), MicrosInBlock(b, rate);
    assert MicrosPerSecond * FrameOffset(a) <= MicrosPerSecond * FrameOffset(b);
    assert ma * rate < (mb + 1) * rate;
    MulCancel(ma, mb + 1, rate);
  }

  lemma MulCancel(x: nat, y: nat, r: nat)
    requires x * r < y * r
    ensures x < y
  {
  }

  /** A detection at sample 200 at 44100 Hz lies 100 frames into the block:
      2267 microseconds, rounded down from 2267.57. */
  lemma Example200At44100()
    ensures FrameOffset(200) == 100
    ensures MicrosInBlock(200, 44100) == 2267
  {
    MicrosInBlockUnique(200, 44100, 2267);
  }

  /** A detection at the first frame of a block needs no correction. */
  lemma {:induction false} NoCorrectionAtBlockStart(receivedAt: Instant, sampleOffset: nat, rate: nat, playedAt: Instant)
    requires rate > 0 && sampleOffset < Channels
    ensures ScaledFits(sampleOffset)
    ensures LatencyMicros(receivedAt, sampleOffset, rate, playedAt) == Since(receivedAt, playedAt)
  {
    assert FrameOffset(sampleOffset) == 0;
    MicrosInBlockUnique(sampleOffset, rate, 0);
  }

  /** When the block arrived after the impulse was played, the latency is
      the gap between the two instants plus the correction, so it is at
      least that gap. */
  lemma {:induction false} LatencyAfterPlayback(receivedAt: Instant, sampleOffset: nat, rate: nat, playedAt: Instant)
    requires rate > 0 && ScaledFits(sampleOffset) && receivedAt >= playedAt
    ensures LatencyMicros(receivedAt, sampleOffset, rate, playedAt)
            == receivedAt - playedAt + MicrosInBlock(sampleOffset, rate)
    ensures LatencyMicros(receivedAt, sampleOffset, rate, playedAt) >= receivedAt - playedAt
  {
  }
}
