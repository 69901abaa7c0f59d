/** The member counter of the hero banner: a fixed-increment stepper driven by
    a 50 ms interval that starts on mount and is cleared on teardown. */
module HeroCounter {
  import opened Arith

  /** Milliseconds between two firings of the interval. */
  const TickIntervalMs: nat := 50

  /** The target is split into this many increments (rounded up). */
  const Steps: nat := 100

  /** The increment of one tick, Math.ceil(target / 100): the least step size
      with which Steps steps reach the target. */
  function Increment(target: nat): (inc: nat)
    ensures inc * Steps >= target
    ensures inc > 0 ==> (inc - 1) * Steps < target
    ensures inc > 0 <==> target > 0
  {
    (target + Steps - 1) / Steps
  }

  /** The state updater of one tick, applied to whatever the previous count is. */
  function Step(prev: nat, target: nat): (next: nat)
    ensures next <= target
    ensures prev < target ==> prev < next
    ensures prev < target && prev + Increment(target) <= target ==> next - prev == Increment(target)
    ensures prev < target && prev + Increment(target) > target ==> next == target
    ensures prev >= target ==> next == target
  {
    if prev < target then Min(prev + Increment(target), target) else target
  }

  /** The count displayed after n firings of the interval, starting from the
      initial 0. */
  function CountAfter(n: nat, target: nat): (c: nat)
    ensures c <= target
  {
    if n == 0 then 0 else Step(CountAfter(n - 1, target), target)
  }

  /** Number of ticks the counter needs from 0: ceil(target / Increment(target)). */
  function TicksToTarget(target: nat): (k: nat)
  {
    var inc := Increment(target);
    if inc == 0 then 0 else (target + inc - 1) / inc
  }

  /** Successive counts never decrease. */
  lemma {:induction false} CountAfterMonotone(m: nat, n: nat, target: nat)
    requires m <= n
    ensures CountAfter(m, target) <= CountAfter(n, target)
  {
    if m < n {
      CountAfterMonotone(m, n - 1, target);
    }
  }

  /** After n ticks the count is n increments, clamped to the target. */
  lemma {:induction false} CountAfterClosedForm(n: nat, target: nat)
    ensures CountAfter(n, target) == Min(n * Increment(target), target)
  {
    if n > 0 {
      var inc := Increment(target);
      CountAfterClosedForm(n - 1, target);
      assert n * inc == (n - 1) * inc + inc;
    }
  }

  /** The counter completes within Steps ticks, that is within 5 seconds, and
      TicksToTarget is the least number of increments that covers the target. */
  lemma TicksToTargetBounds(target: nat)
    ensures TicksToTarget(target) <= Steps
    ensures TickIntervalMs * TicksToTarget(target) <= 5000
    ensures TicksToTarget(target) * Increment(target) >= target
    ensures TicksToTarget(target) > 0 ==> (TicksToTarget(target) - 1) * Increment(target) < target
  {
    var inc := Increment(target);
    if inc > 0 {
      CeilDivBounds(target, inc, Steps);
    }
  }

  /** Starting from 0 the counter reaches the target after exactly
      TicksToTarget(target) ticks, and not before. */
  lemma ReachesTargetExactly(target: nat)
    ensures CountAfter(TicksToTarget(target), target) == target
    ensures forall n: nat :: n < TicksToTarget(target) ==> CountAfter(n, target) < target
  {
    var inc := Increment(target);
    var k := TicksToTarget(target);
    TicksToTargetBounds(target);
    CountAfterClosedForm(k, target);
    forall n | n < k
      ensures CountAfter(n, target) < target
    {
      CountAfterClosedForm(n, target);
      MulLeMul(n, k - 1, inc);
    }
  }

  /** Once reached, the target is a fixpoint: every later tick keeps it. */
  lemma StaysAtTarget(n: nat, target: nat)
    requires n >= TicksToTarget(target)
    ensures CountAfter(n, target) == target
    ensures Step(CountAfter(n, target), target) == target
  {
    ReachesTargetExactly(target);
    CountAfterMonotone(TicksToTarget(target), n, target);
  }

  /** The hero banner's members counter (target 12): twelve ticks of +1. */
  lemma MembersCounter()
    ensures Increment(12) == 1 && TicksToTarget(12) == 12
    ensures forall n: nat :: n <= 12 ==> CountAfter(n, 12) == n
  {
    forall n | n <= 12
      ensures CountAfter(n, 12) == n
    {
      CountAfterClosedForm(n, 12);
    }
  }

  /** One mounted counter. Its interval fires Tick until Teardown clears it;
      the interval is never cleared on completion, so later ticks are no-ops. */
  class CounterAnimation {
    const target: nat
    const suffix: string
    var count: nat
    /** Whether the interval is still registered. */
    var alive: bool
    /** Number of firings of the interval so far. */
    ghost var ticks: nat

    ghost predicate Valid()
      reads this
    {
      count == CountAfter(ticks, target)
    }

    /** Mounting: the count starts at 0 and the interval is registered at once. */
    constructor (target: nat, suffix: string := "")
      ensures Valid()
      ensures this.target == target && this.suffix == suffix
      ensures count == 0 && alive && ticks == 0
    {
      this.target := target;
      this.suffix := suffix;
      count := 0;
      alive := true;
      ticks := 0;
    }

    /** One firing of the interval; nothing fires once it has been cleared. */
    method Tick()
      requires Valid()
      modifies this
      ensures Valid() && alive == old(alive)
      ensures old(alive) ==> count == Step(old(count), target) && ticks == old(ticks) + 1
      ensures !old(alive) ==> count == old(count) && ticks == old(ticks)
      ensures old(count) <= count <= target
    {
      if alive {
        count := Step(count, target);
        ticks := ticks + 1;
      }
    }

    /** n successive firings of the interval. */
    method RunTicks(n: nat)
      requires Valid()
      modifies this
      ensures Valid() && alive == old(alive)
      ensures old(alive) ==> count == CountAfter(old(ticks) + n, target)
      ensures !old(alive) ==> count == old(count)
      ensures ticks == old(ticks) + (if old(alive) then n else 0)
      ensures old(alive) && old(ticks) + n >= TicksToTarget(target) ==> count == target
    {
      var i := 0;
      while i < n
        invariant 0 <= i <= n
        invariant Valid() && alive == old(alive)
        invariant alive ==> ticks == old(ticks) + i
        invariant !alive ==> count == old(count) && ticks == old(ticks)
      {
        Tick();
        i := i + 1;
      }
      if alive && ticks >= TicksToTarget(target) {
        StaysAtTarget(ticks, target);
      }
    }

    /** Unmounting: the interval is cleared and the count is left as it is. */
    method Teardown()
      requires Valid()
      modifies this`alive
      ensures Valid() && !alive
    {
      alive := false;
    }
  }
}
