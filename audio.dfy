/** Shared vocabulary of the loopback latency measurement: the sample type,
    the detection threshold and the two messages on the trial channel. */
module Audio {

  datatype Option<T> = None | Some(value: T)

  /** i32::MAX, the full-scale amplitude written by the playback side, and
      i32::MIN. */
  const I32Max: int := 0x7fff_ffff
  const I32Min: int := -0x8000_0000

  /** A signed 32-bit interleaved sample. */
  type Sample = x: int | I32Min <= x <= I32Max

  /** `i32::MAX / 50`; both operands are positive, so Rust's truncating
      division and Dafny's Euclidean division agree here. */
  const Threshold: int := I32Max / 50

  /** `i32::abs` as a release build computes it: the magnitude, except that
      i32::MIN has none in 32 bits and wraps to itself (a debug build
      panics there instead). */
  function WrappingAbs(x: Sample): (r: Sample)
    ensures x != I32Min ==> r >= 0 && (r == x || r == -x)
    ensures x == I32Min ==> r == I32Min
  {
    if x == I32Min then I32Min else if x < 0 then -x else x
  }

  /** The comparison as written: `abs() > sample_to_find`. */
  predicate IsPeakAsWritten(x: Sample): (b: bool)
    ensures b <==> x != I32Min && (x > Threshold || x < -Threshold)
  {
    WrappingAbs(x) > Threshold
  }

  /** The magnitude of a sample, computed without overflow. */
  function Magnitude(x: Sample): (m: nat)
    ensures m == x as int || m == -(x as int)
    ensures m <= -I32Min
  {
    if x < 0 then -(x as int) else x
  }

  /** A sample counts as the impulse when its magnitude is strictly above
      the threshold. */
  predicate IsPeak(x: Sample): (b: bool)
    ensures b <==> x > Threshold || x < -Threshold
  {
    Magnitude(x) > Threshold
  }

  lemma ThresholdIs()
    ensures Threshold == 42949672
    ensures !IsPeak(42949672) && !IsPeak(-42949672)
    ensures IsPeak(42949673) && IsPeak(-42949673) && IsPeak(I32Max) && IsPeak(I32Min)
  {
  }

  /** The comparison as written misses a full-scale negative sample: the
      magnitude of i32::MIN is above the threshold, its wrapped `abs` is
      not. */
  lemma MinSampleMissed()
    ensures IsPeak(I32Min) && !IsPeakAsWritten(I32Min)
  {
  }

  /** Everywhere else the comparison as written and the corrected one
      agree. */
  lemma PeakAgreesAwayFromMin(x: Sample)
    requires x != I32Min
    ensures IsPeakAsWritten(x) <==> IsPeak(x)
  {
  }

  /** The channel carries a `bool`: `true` is Ready (capture has read its
      first frames), `false` is Found (the impulse was detected). */
  datatype Signal = Ready | Found

}
