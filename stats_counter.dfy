/** The statistics counters: a count that interpolates from 0 to its value over
    a duration, started once by the first time its element comes into view and
    advanced by a self-rescheduling animation-frame loop. Times are natural
    milliseconds. */
module StatsCounter {
  import opened Arith

  /** Default duration of the animation, in seconds. */
  const DefaultDurationSeconds: nat := 2

  /** Default text shown after the number. */
  const DefaultSuffix: string := ""

  const MsPerSecond: nat := 1000

  /** The duration prop, given in seconds, in milliseconds. */
  function DurationMs(seconds: nat): (ms: nat)
    ensures seconds > 0 ==> ms >= MsPerSecond
    ensures ms / MsPerSecond == seconds && ms % MsPerSecond == 0
  {
    seconds * MsPerSecond
  }

  /** Progress elapsed / duration is still below 1: the rule for requesting
      another frame. */
  predicate InProgress(elapsed: nat, durationMs: nat): (r: bool)
    ensures r <==> Min(elapsed, durationMs) < durationMs
  {
    elapsed < durationMs
  }

  /** floor(min(elapsed / durationMs, 1) * value), computed exactly: the count a
      frame shows once elapsed milliseconds have passed since the start. */
  function CountAt(elapsed: nat, durationMs: nat, value: nat): (c: nat)
    requires durationMs > 0
    ensures c <= value
    ensures !InProgress(elapsed, durationMs) ==> c == value
    ensures elapsed == 0 ==> c == 0
  {
    var m: nat := Min(elapsed, durationMs);
    MulLeMul(m, durationMs, value);
    DivAtMost(m * value, durationMs, value);
    MulDivCancel(durationMs, value);
    m * value / durationMs
  }

  /** The count is the floor of progress times value: the largest c with
      c * durationMs <= min(elapsed, durationMs) * value. */
  lemma CountAtIsFloor(elapsed: nat, durationMs: nat, value: nat)
    requires durationMs > 0
    ensures var c := CountAt(elapsed, durationMs, value);
      c * durationMs <= Min(elapsed, durationMs) * value < (c + 1) * durationMs
  {
    var x := Min(elapsed, durationMs) * value;
    var c := x / durationMs;
    assert c * durationMs <= x < c * durationMs + durationMs;
    assert (c + 1) * durationMs == c * durationMs + durationMs;
  }

  /** Later frames never show a smaller count. */
  lemma CountAtMonotone(e1: nat, e2: nat, durationMs: nat, value: nat)
    requires durationMs > 0 && e1 <= e2
    ensures CountAt(e1, durationMs, value) <= CountAt(e2, durationMs, value)
  {
    var m1, m2 := Min(e1, durationMs), Min(e2, durationMs);
    MulLeMul(m1, m2, value);
    DivMonotone(m1 * value, m2 * value, durationMs);
  }

  predicate NonDecreasing(ts: seq<nat>)
  {
    forall j, k :: 0 <= j <= k < |ts| ==> ts[j] <= ts[k]
  }

  /** Number of frames the loop runs when frames arrive at timestamps ts and
      the animation started at start: each frame requests another only while
      its progress is below 1. */
  function FramesRun(start: nat, ts: seq<nat>, durationMs: nat): (n: nat)
    requires forall k :: 0 <= k < |ts| ==> start <= ts[k]
    ensures n <= |ts|
    ensures |ts| > 0 ==> n > 0
    ensures forall k :: 0 <= k < n - 1 ==> InProgress(ts[k] - start, durationMs)
    ensures 0 < n < |ts| ==> !InProgress(ts[n - 1] - start, durationMs)
    decreases |ts|
  {
    if ts == [] then 0
    else if InProgress(ts[0] - start, durationMs) then 1 + FramesRun(start, ts[1..], durationMs)
    else 1
  }

  /** The counts the frames of the loop show: each frame shows the count for
      its elapsed time since start. */
  function FrameCounts(start: nat, ts: seq<nat>, durationMs: nat, value: nat): (cs: seq<nat>)
    requires durationMs > 0
    requires forall k :: 0 <= k < |ts| ==> start <= ts[k]
    ensures |cs| <= |ts|
    ensures forall k :: 0 <= k < |cs| ==> cs[k] <= value
  {
    var n := FramesRun(start, ts, durationMs);
    seq(n, k requires 0 <= k < n => CountAt(ts[k] - start, durationMs, value))
  }

  /** FrameCounts is the only sequence with its characterising properties:
      each entry is the count for its frame's elapsed time, every frame but the
      last was still in progress, and the loop ends early only after a frame
      at or past the duration. */
  lemma FrameCountsUnique(start: nat, ts: seq<nat>, durationMs: nat, value: nat, cs: seq<nat>)
    requires durationMs > 0
    requires forall k :: 0 <= k < |ts| ==> start <= ts[k]
    requires |cs| <= |ts| && (|ts| > 0 ==> |cs| > 0)
    requires forall k :: 0 <= k < |cs| ==> cs[k] == CountAt(ts[k] - start, durationMs, value)
    requires forall k :: 0 <= k < |cs| - 1 ==> InProgress(ts[k] - start, durationMs)
    requires 0 < |cs| < |ts| ==> !InProgress(ts[|cs| - 1] - start, durationMs)
    ensures cs == FrameCounts(start, ts, durationMs, value)
  {
    var fs := FrameCounts(start, ts, durationMs, value);
    assert |cs| == |fs|;
  }

  /** The counts shown when the start time is taken from the first frame. */
  function ShownCounts(ts: seq<nat>, durationMs: nat, value: nat): (cs: seq<nat>)
    requires durationMs > 0 && NonDecreasing(ts)
    ensures |ts| > 0 ==> |cs| > 0 && cs[0] == 0
    ensures forall k :: 0 <= k < |cs| ==> cs[k] <= value
  {
    if ts == [] then [] else FrameCounts(ts[0], ts, durationMs, value)
  }

  /** For non-decreasing timestamps the shown counts never decrease. */
  lemma FrameCountsNonDecreasing(start: nat, ts: seq<nat>, durationMs: nat, value: nat)
    requires durationMs > 0 && NonDecreasing(ts)
    requires forall k :: 0 <= k < |ts| ==> start <= ts[k]
    ensures var cs := FrameCounts(start, ts, durationMs, value);
      forall j, k :: 0 <= j <= k < |cs| ==> cs[j] <= cs[k]
  {
    var cs := FrameCounts(start, ts, durationMs, value);
    forall j, k | 0 <= j <= k < |cs|
      ensures cs[j] <= cs[k]
    {
      CountAtMonotone(ts[j] - start, ts[k] - start, durationMs, value);
    }
  }

  /** The loop stops exactly after the first frame at or past the duration,
      and that frame shows the full value; a frame is followed by another iff
      its progress is below 1 (and a further timestamp exists). */
  lemma FrameLoopStops(start: nat, ts: seq<nat>, durationMs: nat, value: nat, i: nat)
    requires durationMs > 0
    requires forall k :: 0 <= k < |ts| ==> start <= ts[k]
    requires i < |ts|
    requires forall j :: 0 <= j < i ==> InProgress(ts[j] - start, durationMs)
    ensures var cs := FrameCounts(start, ts, durationMs, value);
      !InProgress(ts[i] - start, durationMs) ==> |cs| == i + 1 && cs[i] == value
    ensures var cs := FrameCounts(start, ts, durationMs, value);
      |cs| > i + 1 <==> InProgress(ts[i] - start, durationMs) && i + 1 < |ts|
  {
  }

  datatype StartTime = Unset | At(ms: nat)

  datatype Phase = NotStarted | Animating | Completed

  /** One mounted counter. Its count is held at 0 until the element first comes
      into view; that latched flag requests one frame, the first frame fixes the
      start time, and each frame requests the next while progress is below 1.
      The component registers no cleanup, so nothing here cancels a frame. */
  class AnimatedCounter {
    const value: nat
    const durationMs: nat
    const suffix: string
    /** The in-view flag, latched once it becomes true. */
    var inView: bool
    var startTime: StartTime
    var count: nat
    /** Whether an animation frame has been requested and not yet run. */
    var framePending: bool
    /** Timestamp of the last frame that ran. */
    ghost var lastFrame: nat

    ghost predicate Valid()
      reads this
    {
      durationMs > 0 &&
      (!inView ==> startTime == Unset && !framePending && count == 0) &&
      (startTime == Unset ==> count == 0 && framePending == inView) &&
      (startTime.At? ==>
        inView && startTime.ms <= lastFrame &&
        count == CountAt(lastFrame - startTime.ms, durationMs, value) &&
        framePending == InProgress(lastFrame - startTime.ms, durationMs))
    }

    function CurrentPhase(): (p: Phase)
      reads this
      requires Valid()
      ensures p == NotStarted ==> count == 0
      ensures p == Completed ==> count == value && !framePending
      ensures p == Animating ==> framePending && count <= value
    {
      if startTime == Unset then NotStarted
      else if framePending then Animating
      else Completed
    }

    /** Mounting with the given props (duration in seconds). */
    constructor (value: nat, durationSeconds: nat := DefaultDurationSeconds, suffix: string := DefaultSuffix)
      requires durationSeconds > 0
      ensures Valid()
      ensures this.value == value && durationMs == DurationMs(durationSeconds) && this.suffix == suffix
      ensures !inView && startTime == Unset && count == 0 && !framePending && lastFrame == 0
    {
      this.value := value;
      durationMs := DurationMs(durationSeconds);
      this.suffix := suffix;
      inView := false;
      startTime := Unset;
      count := 0;
      framePending := false;
      lastFrame := 0;
    }

    /** The view observer reports whether the element is visible. Only the first
        report of true has an effect: it latches the flag and requests a frame. */
    method ViewChange(visible: bool)
      requires Valid()
      modifies this`inView, this`framePending
      ensures Valid()
      ensures inView == (old(inView) || visible)
      ensures visible && !old(inView) ==> framePending && CurrentPhase() == NotStarted
      ensures !(visible && !old(inView)) ==> framePending == old(framePending)
    {
      if visible && !inView {
        inView := true;
        framePending := true;
      }
    }

    /** The browser runs the requested frame callback at timestamp t; with no
        frame requested nothing runs. */
    method Frame(t: nat)
      requires Valid() && lastFrame <= t
      modifies this`startTime, this`count, this`framePending, this`lastFrame
      ensures Valid()
      ensures !old(framePending) ==>
        startTime == old(startTime) && count == old(count) && !framePending && lastFrame == old(lastFrame)
      ensures old(framePending) ==>
        lastFrame == t &&
        startTime == (if old(startTime) == Unset then At(t) else old(startTime)) &&
        count == CountAt(t - startTime.ms, durationMs, value) &&
        framePending == InProgress(t - startTime.ms, durationMs)
      ensures old(framePending) && old(startTime) == Unset ==> count == 0 && CurrentPhase() == Animating
      ensures old(CurrentPhase()) == Completed ==> CurrentPhase() == Completed
      ensures old(count) <= count <= value
    {
      if framePending {
        if startTime == Unset {
          startTime := At(t);
        } else {
          CountAtMonotone(lastFrame - startTime.ms, t - startTime.ms, durationMs, value);
        }
        var elapsed := t - startTime.ms;
        count := CountAt(elapsed, durationMs, value);
        framePending := InProgress(elapsed, durationMs);
        lastFrame := t;
      }
    }

    /** The frame loop after the element has come into view: frames arrive at
        the timestamps ts until one no longer requests a successor. Returns the
        counts the frames showed. */
    method RunFrames(ts: seq<nat>) returns (shown: seq<nat>)
      requires Valid() && inView && startTime == Unset
      requires NonDecreasing(ts) && (|ts| > 0 ==> lastFrame <= ts[0])
      modifies this`startTime, this`count, this`framePending, this`lastFrame
      ensures Valid() && inView
      ensures shown == ShownCounts(ts, durationMs, value)
      ensures |ts| > 0 ==> startTime == At(ts[0]) && count == shown[|shown| - 1]
      ensures |ts| == 0 ==> startTime == Unset && framePending
      ensures framePending ==> |shown| == |ts|
      ensures |ts| > 0 ==>
        lastFrame == ts[|shown| - 1] &&
        framePending == InProgress(ts[|shown| - 1] - ts[0], durationMs)
    {
      shown := [];
      var i := 0;
      ghost var s: nat := if |ts| > 0 then ts[0] else 0;
      while i < |ts| && framePending
        invariant 0 <= i <= |ts| && |shown| == i
        invariant Valid() && inView
        invariant i == 0 ==> startTime == Unset && framePending
        invariant i > 0 ==> startTime == At(s) && lastFrame == ts[i - 1] && count == shown[i - 1]
        invariant i > 0 ==> framePending == InProgress(ts[i - 1] - s, durationMs)
        invariant i < |ts| ==> lastFrame <= ts[i]
        invariant forall k :: 0 <= k < |ts| ==> s <= ts[k]
        invariant forall k :: 0 <= k < i ==> shown[k] == CountAt(ts[k] - s, durationMs, value)
        invariant forall k :: 0 <= k < i - 1 ==> InProgress(ts[k] - s, durationMs)
      {
        Frame(ts[i]);
        shown := shown + [count];
        i := i + 1;
      }
      FrameCountsUnique(s, ts, durationMs, value, shown);
    }
  }
}
