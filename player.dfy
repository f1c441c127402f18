/** The playback side of one trial (`play_impulse`): one block of silence,
    then the buffer is filled with full scale in place and written until the
    capture side reports the impulse or five seconds' worth of frames have
    been played. */
module Player {
  import opened Audio

  const MaxPlayTime: nat := 5

  function PlayLimit(rate: nat): nat
  {
    rate * MaxPlayTime
  }

  /** One pass of the wait loop: the frame count `writei` returned and what
      the non-blocking `try_recv` that follows it gave (None: no message). */
  datatype Step = Step(frames: nat, poll: Option<Signal>)

  /** Why the wait loop ended. Starved means the supplied steps ran out while
      the loop would have gone on writing. */
  datatype Stop = Stopped | TimedOut | Starved

  function Silence(n: nat): (s: seq<Sample>)
    ensures |s| == n && forall k :: 0 <= k < n ==> s[k] == 0
  {
    seq(n, _ => 0)
  }

  function FullScale(n: nat): (s: seq<Sample>)
    ensures |s| == n && forall k :: 0 <= k < n ==> s[k] == I32Max
  {
    seq(n, _ => I32Max)
  }

  /** Frames reported by the first n passes of the wait loop. */
  function StepFrames(steps: seq<Step>, n: nat): nat
    requires n <= |steps|
  {
    if n == 0 then 0 else StepFrames(steps, n - 1) + steps[n - 1].frames
  }

  /** Plays one trial. `silenceFrames` and `impulseFrames` are what the first
      two `writei` calls return; `steps` supplies the passes of the wait
      loop. `written` lists the buffer contents handed to each `writei`, and
      `taken` counts the passes of the wait loop. */
  method PlayImpulse(periodSize: nat, rate: nat, silenceFrames: nat, impulseFrames: nat, steps: seq<Step>)
    returns (written: seq<seq<Sample>>, played: nat, taken: nat, stop: Stop)
    ensures taken <= |steps| && |written| == taken + 2
    ensures written[0] == Silence(periodSize)
    ensures forall w :: 1 <= w < |written| ==> written[w] == FullScale(periodSize)
    ensures played == silenceFrames + impulseFrames + StepFrames(steps, taken)
    ensures forall j :: 0 <= j < taken ==>
              silenceFrames + impulseFrames + StepFrames(steps, j) < PlayLimit(rate)
    ensures forall j :: 0 <= j < taken - 1 ==> steps[j].poll != Some(Found)
    ensures stop == Stopped <==> 0 < taken && steps[taken - 1].poll == Some(Found)
    ensures stop == TimedOut <==> stop != Stopped && played >= PlayLimit(rate)
    ensures stop == Starved ==> taken == |steps|
    ensures (forall j :: 0 <= j < |steps| ==> steps[j].frames > 0) ==> taken <= PlayLimit(rate)
  {
    var buf := new Sample[periodSize](_ => 0);
    written := [buf[..]];
    played := silenceFrames;

    for i := 0 to buf.Length
      invariant forall k :: 0 <= k < i ==> buf[k] == I32Max
    {
      buf[i] := I32Max;
    }
    assert buf[..] == FullScale(periodSize);

    written := written + [buf[..]];
    played := played + impulseFrames;

    var limit := PlayLimit(rate);
    taken := 0;
    stop := TimedOut;
    while played < limit
      invariant taken <= |steps| && |written| == taken + 2
      invariant written[0] == Silence(periodSize)
      invariant forall w :: 1 <= w < |written| ==> written[w] == FullScale(periodSize)
      invariant buf[..] == FullScale(periodSize)
      invariant played == silenceFrames + impulseFrames + StepFrames(steps, taken)
      invariant forall j :: 0 <= j < taken ==>
                  silenceFrames + impulseFrames + StepFrames(steps, j) < limit
      invariant forall j :: 0 <= j < taken ==> steps[j].poll != Some(Found)
      invariant (forall j :: 0 <= j < |steps| ==> steps[j].frames > 0) ==>
                  StepFrames(steps, taken) >= taken && taken <= limit
      decreases |steps| - taken
    {
      if taken == |steps| {
        stop := Starved;
        return;
      }
      played := played + steps[taken].frames;
      written := written + [buf[..]];
      var poll := steps[taken].poll;
      taken := taken + 1;
      if poll == Some(Found) {
        stop := Stopped;
        return;
      }
    }
  }
}
