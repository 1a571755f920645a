/**
 * The host's estimate of when a station was last active, kept from 16-bit samples of the target's
 * clock, which counts units of 1024 ms and wraps.
 */
module KeepAliveClock {

  const UNIT := 1024
  const WRAP := 0x1_0000

  /** A station's clock: the last target sample, 0 before the first, and the host-time estimate in ms. */
  datatype Clock = Clock(target: nat, estimate: int)

  datatype Action = NoAction | Poll | Remove

  /** What the host adds for the step from one sample to the next: one unit too little on a wrap. */
  function Advance(from: nat, to: nat): int
  {
    if to >= from then (to - from) * UNIT else (0xffff - (from - to)) * UNIT
  }

  function Adjust(c: Clock, sample: nat, now: int): Clock
  {
    if c.target == 0 then Clock(sample, now) else
    var e := c.estimate + Advance(c.target, sample);
    Clock(sample, if e > now then now else e)
  }

  class Station {
    var target: nat
    var lastTxrx: int

    /** Take a sample into the estimate; the first one, or one after a zero sample, sets the base. */
    method AdjustTxrxTime(sample: nat, now: int) returns (adjusted: bool)
      requires target < WRAP && sample < WRAP
      modifies this
      ensures Clock(target, lastTxrx) == Adjust(old(Clock(target, lastTxrx)), sample, now)
      ensures adjusted <==> old(target) != 0
    {
      if target != 0 {
        var diff;
        if sample >= target {
          diff := (sample - target) * UNIT;
        } else {
          diff := (0xffff - (target - sample)) * UNIT;
        }
        target := sample;
        lastTxrx := lastTxrx + diff;
        if lastTxrx > now {
          lastTxrx := now;
        }
        return true;
      } else {
        target, lastTxrx := sample, now;
        return false;
      }
    }

    /**
     * Decide on a station. It is removed only when its silence has reached the remove time, polled
     * only when it has reached the interval, and never on the sample that sets the base.
     */
    method UpdateCheck(sample: nat, now: int, interval: nat, removeTime: nat) returns (action: Action)
      requires target < WRAP && sample < WRAP
      modifies this
      ensures Clock(target, lastTxrx) == Adjust(old(Clock(target, lastTxrx)), sample, now)
      ensures action == Remove <==> old(target) != 0 && now - lastTxrx >= removeTime
      ensures action == Poll <==> old(target) != 0 && interval <= now - lastTxrx < removeTime
    {
      action := NoAction;
      var adjusted := AdjustTxrxTime(sample, now);
      if adjusted {
        if now >= lastTxrx + interval {
          action := Poll;
        }
        if now >= lastTxrx + removeTime {
          action := Remove;
        }
      }
    }
  }

  // ----- runs -----

  /** One reading: the target's true, unwrapped tick count and the host time. */
  datatype Reading = Reading(ticks: nat, now: int)

  /** Readings in order, latest outermost. */
  datatype Run = First(r: Reading) | Then(before: Run, r: Reading)

  function Sample(r: Reading): (s: nat)
    ensures s < WRAP
  {
    r.ticks % 0x1_0000
  }

  /** Time never goes back, samples are not zero, and less than one wrap lies between readings. */
  predicate Proper(run: Run)
  {
    Sample(run.r) != 0 &&
    (run.Then? ==> Proper(run.before) && run.before.r.ticks <= run.r.ticks < run.before.r.ticks + WRAP
                   && run.before.r.now <= run.r.now)
  }

  /** The clock after a run, from a station just associated. */
  function After(run: Run): Clock
  {
    match run
    case First(r) => Adjust(Clock(0, 0), Sample(r), r.now)
    case Then(before, r) => Adjust(After(before), Sample(r), r.now)
  }

  function Base(run: Run): Reading
  {
    if run.First? then run.r else Base(run.before)
  }

  /** How often the target's clock wrapped since the first reading. */
  function Wraps(run: Run): int
  {
    run.r.ticks / 0x1_0000 - Base(run).ticks / 0x1_0000
  }

  /** The estimate without clamping. */
  function Unclamped(run: Run): int
  {
    match run
    case First(r) => r.now
    case Then(before, r) => Unclamped(before) + Advance(Sample(before.r), Sample(r))
  }

  lemma {:induction false} AfterSample(run: Run)
    requires Proper(run)
    ensures After(run).target == Sample(run.r)
  {
  }

  /** Before clamping, the estimate lags the true clock by exactly one unit per wrap. */
  lemma {:induction false} LagsOneUnitPerWrap(run: Run)
    requires Proper(run)
    ensures Unclamped(run) == Base(run).now + 1024 * (run.r.ticks - Base(run).ticks) - 1024 * Wraps(run)
    ensures Wraps(run) >= 0
  {
    if run.Then? {
      LagsOneUnitPerWrap(run.before);
      var a, b := run.before.r.ticks, run.r.ticks;
      assert a == a / 0x1_0000 * 0x1_0000 + Sample(run.before.r);
      assert b == b / 0x1_0000 * 0x1_0000 + Sample(run.r);
      assert b / 0x1_0000 == a / 0x1_0000 || b / 0x1_0000 == a / 0x1_0000 + 1;
    }
  }

  /** The estimate never passes now and never goes back. */
  lemma {:induction false} EstimateAdvances(run: Run)
    requires Proper(run)
    ensures After(run).estimate <= run.r.now
    ensures run.Then? ==> After(run.before).estimate <= After(run).estimate
  {
    if run.Then? {
      EstimateAdvances(run.before);
      AfterSample(run.before);
    }
  }

  /** The run up to some earlier reading. */
  predicate Reaches(run: Run, part: Run)
  {
    run == part || (run.Then? && Reaches(run.before, part))
  }

  /** Clamped at an earlier reading, the estimate could only have grown by what the target counted since. */
  function ClampedAt(run: Run, part: Run): int
  {
    part.r.now + (Unclamped(run) - Unclamped(part))
  }

  /**
   * The estimate in closed form: the least, over all readings so far, of the host time at the
   * reading plus what the target counted since.
   */
  lemma {:induction false} EstimateIsLeastClamp(run: Run) returns (part: Run)
    requires Proper(run)
    ensures Reaches(run, part) && After(run).estimate == ClampedAt(run, part)
    ensures forall p | Reaches(run, p) :: After(run).estimate <= ClampedAt(run, p)
  {
    part := run;
    if run.Then? {
      var earlier := EstimateIsLeastClamp(run.before);
      AfterSample(run.before);
      if After(run.before).estimate + Advance(Sample(run.before.r), Sample(run.r)) <= run.r.now {
        part := earlier;
      }
      forall p | Reaches(run, p)
        ensures After(run).estimate <= ClampedAt(run, p)
      {
        if p != run {
          assert After(run.before).estimate <= ClampedAt(run.before, p);
        }
      }
    }
  }

  /** The estimate never runs ahead of the true target clock carried from the first reading. */
  lemma NeverAhead(run: Run)
    requires Proper(run)
    ensures After(run).estimate <= Base(run).now + UNIT * (run.r.ticks - Base(run).ticks) - UNIT * Wraps(run)
  {
    LagsOneUnitPerWrap(run);
    var _ := EstimateIsLeastClamp(run);
    BaseReached(run);
  }

  lemma {:induction false} BaseReached(run: Run)
    ensures Reaches(run, First(Base(run))) && Unclamped(First(Base(run))) == Base(run).now
  {
    if run.Then? {
      BaseReached(run.before);
    }
  }
}
