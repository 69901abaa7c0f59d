# Count-up counters of the hotel-group marketing site

The site is mostly layout and animation settings handed to a motion library.
It has two small numeric "count-up" animators, and this project models those two:

- **`CounterAnimation`** (hero banner, `HeroSection.tsx`). This is a
  fixed-increment stepper. It starts at 0 on mount, and a 50 ms interval adds
  `ceil(target / 100)` on each tick, clamped to `target`. Teardown clears the
  interval. The interval is not cleared when the counter reaches the target,
  so later ticks are no-ops.
- **`AnimatedCounter`** (statistics cards, `StatsSection.tsx`). This counter
  interpolates over time. It stays at 0 until its element first comes into
  view; the in-view flag latches. That event requests one animation frame.
  The first frame fixes the start time. Each frame shows
  `floor(min(elapsed / duration, 1) * value)` and requests another frame only
  while progress is below 1.

Files:

- `arith.dfy` (module `Arith`): helper lemmas on multiplication and natural
  division.
- `hero_counter.dfy` (module `HeroCounter`): the step function, the count
  after `n` ticks and its closed form, and the completion bound. The class
  `CounterAnimation` holds `count`, the `alive` interval flag and a ghost tick
  counter. Its invariant ties `count` to the count after that many ticks.
- `stats_counter.dfy` (module `StatsCounter`): the exact count for an elapsed
  time, the frame-loop continuation rule, and the trace of counts shown for a
  sequence of frame timestamps. The class `AnimatedCounter` holds the latched
  `inView` flag, the captured `startTime`, `count`, `framePending` (a frame
  has been requested and not yet run) and the ghost timestamp of the last
  frame. Its invariant ties the displayed count to the elapsed time.

How the environment is modelled:

- A firing of the interval is a call to `Tick`.
- An animation frame is a call to `Frame(t)`, with `t` in natural
  milliseconds. Frame timestamps must not decrease.
- A report from the viewport observer is a call to `ViewChange(visible)`.
- Mounting is the constructor. Unmounting the hero counter is `Teardown`.

Two behaviours of the code are kept as written:

- The hero counter never clears its interval when it reaches the target
  (`HeroSection.tsx:81-90`). Later ticks are no-ops; `Tick` and
  `StaysAtTarget` prove they change nothing.
- `AnimatedCounter`'s effect returns no cleanup (`StatsSection.tsx:17-32`).
  Unmounting does not cancel its frame loop, so the model has no teardown.

## Model

| member | source | states |
|---|---|---|
| HeroCounter.Increment | src/components/HeroSection.tsx:84 | `Math.ceil(target / 100)` is the least step size whose 100 steps cover the target; it is positive iff the target is positive |
| HeroCounter.Step | src/components/HeroSection.tsx:82-87 | from any previous count, a tick never goes above the target. Below the target it strictly increases, by exactly the increment unless clamped to the target. At or above the target it yields the target |
| HeroCounter.CountAfter | src/components/HeroSection.tsx:78-88 | from the initial 0, the count after any number of ticks stays within [0, target] |
| HeroCounter.CountAfterMonotone | src/components/HeroSection.tsx:78-88 | successive counts never decrease |
| HeroCounter.CountAfterClosedForm | src/components/HeroSection.tsx:83-84 | after n ticks the count is min(n * ceil(target/100), target) |
| HeroCounter.TicksToTargetBounds | src/components/HeroSection.tsx:84 | ceil(target / ceil(target/100)) ticks are at most 100, so completion takes at most 5000 ms at 50 ms per tick; that many increments cover the target and one fewer does not |
| HeroCounter.ReachesTargetExactly | src/components/HeroSection.tsx:78-88 | starting from 0, the count equals the target after exactly ceil(target / ceil(target/100)) ticks and is below it after any fewer |
| HeroCounter.StaysAtTarget | src/components/HeroSection.tsx:82-87 | once reached, the target is kept by every later tick (a fixpoint of the step) |
| HeroCounter.MembersCounter | src/components/HeroSection.tsx:231 | for the banner's target 12 the increment is 1, and the count after n ≤ 12 ticks is n, reaching 12 after 12 ticks |
| HeroCounter.CounterAnimation.constructor | src/components/HeroSection.tsx:77-81 | on mount the count is 0 and the interval is registered at once, with no visibility gate |
| HeroCounter.CounterAnimation.Tick | src/components/HeroSection.tsx:81-88 | a live interval applies the step to the count, which never decreases and never exceeds the target; after teardown a tick changes nothing |
| HeroCounter.CounterAnimation.RunTicks | src/components/HeroSection.tsx:81-88 | n firings of a live interval advance the tick counter by n and leave the count after the total number of ticks; once enough ticks have fired it equals the target. A cleared interval leaves the count and the tick counter unchanged |
| HeroCounter.CounterAnimation.Teardown | src/components/HeroSection.tsx:90 | the interval is cleared and the count is kept |
| StatsCounter.DurationMs | src/components/StatsSection.tsx:22 | the duration prop in seconds becomes whole milliseconds (times 1000, recoverable by dividing) |
| StatsCounter.InProgress | src/components/StatsSection.tsx:26 | clamped progress is below 1 iff elapsed < durationMs, that is iff min(elapsed, durationMs) < durationMs |
| StatsCounter.CountAt | src/components/StatsSection.tsx:22-24 | the count for an elapsed time lies in [0, value]; it is 0 at elapsed 0 and exactly value once elapsed reaches the duration |
| StatsCounter.CountAtIsFloor | src/components/StatsSection.tsx:22-24 | the count is the floor of the clamped progress times value: c·D ≤ min(elapsed, D)·value < (c+1)·D |
| StatsCounter.CountAtMonotone | src/components/StatsSection.tsx:22-24 | a later elapsed time never shows a smaller count |
| StatsCounter.FramesRun | src/components/StatsSection.tsx:26-28 | the loop runs at most one frame per timestamp and at least one. Every frame but the last had progress below 1. The loop ends before the timestamps run out only after a frame at or past the duration |
| StatsCounter.FrameCounts | src/components/StatsSection.tsx:20-28 | the trace of counts shown, one per frame that runs: never longer than the timestamps given, and every count within the value |
| StatsCounter.ShownCounts | src/components/StatsSection.tsx:19-24 | with the start taken from the first frame, the first frame shows 0 and every shown count lies within [0, value] |
| StatsCounter.FrameCountsNonDecreasing | src/components/StatsSection.tsx:22-24 | for non-decreasing frame timestamps the shown counts never decrease |
| StatsCounter.FrameLoopStops | src/components/StatsSection.tsx:26-28 | the first frame at or past the duration is the last one and shows exactly the value. A frame is followed by another iff its progress is below 1 and a further frame arrives |
| StatsCounter.FrameCountsUnique | src/components/StatsSection.tsx:20-30 | any sequence with the frame loop's per-frame counts and its continuation rule is exactly the loop's trace |
| StatsCounter.AnimatedCounter.CurrentPhase | src/components/StatsSection.tsx:13-28 | NotStarted shows 0. Completed shows exactly the value and has no pending frame. Animating has a pending frame and a count within the value |
| StatsCounter.AnimatedCounter.constructor | src/components/StatsSection.tsx:12-15 | on mount the count is 0, the element is not in view, and no frame is requested. The defaults are a duration of 2 s and an empty suffix |
| StatsCounter.AnimatedCounter.ViewChange | src/components/StatsSection.tsx:15-18 | the in-view flag latches on the first visible report, which requests one frame and keeps the count at 0. Every other report changes nothing. While not in view the count is 0 and no frame is requested (class invariant) |
| StatsCounter.AnimatedCounter.Frame | src/components/StatsSection.tsx:20-28 | the first frame captures the start time and shows 0. Each frame shows the count for its elapsed time, never less than before and never more than the value. It requests another frame iff progress is below 1. A completed counter and an unrequested frame change nothing |
| StatsCounter.AnimatedCounter.RunFrames | src/components/StatsSection.tsx:19-30 | after the element comes into view, driving the loop with non-decreasing timestamps shows exactly the trace `ShownCounts`. The start time is the first timestamp. The final count is the last count shown, the last frame run is the last timestamp used, and another frame is pending iff that frame's progress is below 1 |

## Left out

- `toLocaleString()` and the suffix rendering (`HeroSection.tsx:93`, `StatsSection.tsx:36`) are host calls that depend on the locale. The suffix is kept as a field, but the text shown is not modelled.
- Real timers, animation-frame scheduling and the viewport observer are modelled as the events `Tick`, `Frame(t)` and `ViewChange(visible)`. Concurrency and wall-clock behaviour are not modelled.
- StatsCounter.CountAt: computed with exact natural-number arithmetic on whole milliseconds. The source computes `Math.floor(progress * value)` in IEEE-754 floating point on fractional timestamps, so near a boundary it may differ by one.
- Non-integer or negative targets and values, and fractional durations in seconds, are excluded by the types `nat`.
- A duration of 0 is excluded by the constructor's precondition. In the source it makes progress NaN, and the counter would then show NaN after one frame.
- Re-running the effects when the `target`, `value` or `duration` props change on a mounted component is not modelled; props are fixed at construction.
- The scroll-linked parallax and fade, the randomly placed particles and sparkles, and all other layout and motion parameters are presentational. So are the other sections of the site.
