/**
 * Keep-alive of associated stations on an access point: the two-phase timer, and the host's
 * estimate of a station's last activity from the target's wrapping clock. Times are in
 * milliseconds, one jiffy each.
 */
module KeepAlive {
  import opened Words

  const INTERVAL_DEFAULT := 15000
  const INTERVAL_MIN := 5000
  const RECLAIM_CYCLE := 4
  const RECLAIM_TIME_MAX := 900000
  const PRELOAD_LEADTIME := 2000

  // ----- configuration -----

  datatype Settings = Settings(interval: nat, cycle: nat, removeTime: nat)

  /** a * b as repeated addition, which spares the verifier products of unknowns. */
  function Times(a: nat, b: nat): nat
  {
    if b == 0 then 0 else a + Times(a, b - 1)
  }

  lemma {:induction false} TimesIsProduct(a: nat, b: nat)
    ensures Times(a, b) == a * b
  {
    if b > 0 {
      TimesIsProduct(a, b - 1);
    }
  }

  /** Settings of an interval and a cycle count; products are 32 bits wide. */
  function Of(interval: nat, cycle: nat): Settings
  {
    Settings(interval, cycle, Wrap32(Times(interval, cycle)))
  }

  /** The settings a request for an interval and a cycle count leads to. */
  function Configured(interval: nat, cycle: nat): Settings
    requires interval > 0
  {
    var s := Of(Clamped(interval), AtLeastOne(cycle));
    if s.removeTime < RECLAIM_TIME_MAX then s else Of(INTERVAL_DEFAULT, RECLAIM_CYCLE)
  }

  /** In force: the interval is long enough and stations are not kept too long. */
  predicate InForce(s: Settings)
  {
    INTERVAL_MIN <= s.interval && s.removeTime <= RECLAIM_TIME_MAX && s == Of(s.interval, s.cycle)
  }

  lemma AtLeastOneInterval(interval: nat, cycle: nat)
    requires cycle > 0
    ensures interval * cycle >= interval
    ensures Of(interval, cycle).removeTime == interval * cycle <==> interval * cycle < 0x1_0000_0000
  {
    TimesIsProduct(interval, cycle);
    assert interval * cycle == interval + interval * (cycle - 1);
  }

  /** Every request leads to settings in force, even when the product overflows. */
  lemma ConfiguredInForce(interval: nat, cycle: nat)
    requires 0 < interval
    ensures InForce(Configured(interval, cycle))
  {
    TimesIsProduct(INTERVAL_DEFAULT, RECLAIM_CYCLE);
  }

  /** The interval of a request after clamping. */
  function Clamped(interval: nat): nat
  {
    if interval < INTERVAL_MIN then INTERVAL_MIN else interval
  }

  function AtLeastOne(cycle: nat): nat
  {
    if cycle == 0 then 1 else cycle
  }

  /** The request overflows 32 bits to a product the driver takes for a short remove time. */
  predicate Misread(interval: nat, cycle: nat)
  {
    var product := Clamped(interval) * AtLeastOne(cycle);
    product >= 0x1_0000_0000 && Wrap32(product) < RECLAIM_TIME_MAX
  }

  /**
   * The remove time is interval times cycle, and then at least one interval, exactly when the
   * request is not misread.
   */
  lemma ConfiguredProduct(interval: nat, cycle: nat)
    requires 0 < interval
    ensures var s := Configured(interval, cycle);
            && (s.removeTime == s.interval * s.cycle <==> !Misread(interval, cycle))
            && (!Misread(interval, cycle) ==> s.interval <= s.removeTime)
  {
    ConfiguredCases(interval, cycle);
    var s := Configured(interval, cycle);
    TimesIsProduct(s.interval, s.cycle);
    AtLeastOneInterval(s.interval, s.cycle);
  }

  /**
   * What every request leads to: itself, with an interval of at least 5000 ms and a cycle of at least
   * one, if the product modulo 2^32 is below 900000 ms, else 15000 ms and four cycles.
   */
  lemma ConfiguredCases(interval: nat, cycle: nat)
    requires 0 < interval
    ensures var i := if interval < 5000 then 5000 else interval;
            var c := if cycle == 0 then 1 else cycle;
            var product := i * c % 0x1_0000_0000;
            && Clamped(interval) == i && AtLeastOne(cycle) == c
            && (Misread(interval, cycle) <==> i * c >= 0x1_0000_0000 && product < 900000)
            && Configured(interval, cycle) == (if product < 900000 then Settings(i, c, product) else Settings(15000, 4, 60000))
  {
    TimesIsProduct(Clamped(interval), AtLeastOne(cycle));
    TimesIsProduct(INTERVAL_DEFAULT, RECLAIM_CYCLE);
  }

  /** The driver's computation of the settings for a request. */
  method Configure(interval: nat, cycle: nat) returns (s: Settings)
    requires 0 < interval
    ensures s == Configured(interval, cycle)
  {
    ConfiguredCases(interval, cycle);
    var i, c := interval, cycle;
    if i < INTERVAL_MIN {
      i := INTERVAL_MIN;
    }
    if c == 0 {
      c := 1;
    }
    if !(Wrap32(i * c) < RECLAIM_TIME_MAX) {
      i, c := INTERVAL_DEFAULT, RECLAIM_CYCLE;
    }
    s := Settings(i, c, Wrap32(i * c));
  }

  /**
   * A running timer reconfigured for a request is armed in the past exactly when the clamped
   * interval is shorter than the lead time taken for seconds, or the request is not misread.
   */
  lemma ArmedInThePast(interval: nat, cycle: nat)
    requires 0 < interval
    ensures Configured(interval, cycle).interval < PRELOAD_LEADTIME * 1000 <==>
            Clamped(interval) < PRELOAD_LEADTIME * 1000 || !Misread(interval, cycle)
  {
    ConfiguredCases(interval, cycle);
    AtLeastOneInterval(Clamped(interval), AtLeastOne(cycle));
  }

  /** Overflowing requests: stations would be removed at once, and a running timer would be armed hours ahead. */
  lemma OverflowingRequest()
    ensures Configured(0x1_0000, 0x1_0000) == Settings(0x1_0000, 0x1_0000, 0)
    ensures Configured(0x100_0000, 0x100) == Settings(0x100_0000, 0x100, 0)
    ensures Configured(0x100_0000, 0x100).interval > PRELOAD_LEADTIME * 1000
  {
    TimesIsProduct(0x1_0000, 0x1_0000);
    TimesIsProduct(0x100_0000, 0x100);
  }

  /** The settings the supplicant's inactivity limit, in seconds, leads to. */
  function ConfiguredBySupplicant(inactive: nat): Settings
    requires inactive > 0
  {
    var t := inactive * 1000;
    var timeout := if t < INTERVAL_MIN then INTERVAL_MIN else if t > RECLAIM_TIME_MAX then RECLAIM_TIME_MAX else t;
    // The divisors are INTERVAL_MIN and INTERVAL_DEFAULT, spelled out for the verifier.
    if timeout <= INTERVAL_DEFAULT then Of(INTERVAL_MIN, timeout / 5000) else Of(INTERVAL_DEFAULT, timeout / 15000)
  }

  /**
   * What every limit leads to: below 5000 ms one interval of 5000, up to 15000 ms intervals of 5000,
   * above that intervals of 15000, and beyond 900000 ms sixty of them.
   */
  lemma BySupplicantCases(inactive: nat)
    requires 0 < inactive
    ensures var limit := inactive * 1000;
            ConfiguredBySupplicant(inactive) ==
            if limit < 5000 then Settings(5000, 1, 5000)
            else if limit <= 15000 then Settings(5000, limit / 5000, 5000 * (limit / 5000))
            else if limit <= 900000 then Settings(15000, limit / 15000, 15000 * (limit / 15000))
            else Settings(15000, 60, 900000)
  {
    var s := ConfiguredBySupplicant(inactive);
    TimesIsProduct(s.interval, s.cycle);
  }

  /** They are in force, and the remove time is the clamped limit rounded down to whole intervals. */
  lemma BySupplicantInForce(inactive: nat)
    requires 0 < inactive < 0x1_0000
    ensures InForce(ConfiguredBySupplicant(inactive))
    ensures var s := ConfiguredBySupplicant(inactive);
            var limit := inactive * 1000;
            && s.removeTime == s.interval * s.cycle && s.cycle >= 1
            && (INTERVAL_MIN <= limit <= RECLAIM_TIME_MAX ==> s.removeTime <= limit < s.removeTime + s.interval)
  {
    var s := ConfiguredBySupplicant(inactive);
    TimesIsProduct(s.interval, s.cycle);
  }

  /** The driver's computation of the settings for the supplicant's limit. */
  method ConfigureBySupplicant(inactive: nat) returns (s: Settings)
    requires 0 < inactive < 0x1_0000
    ensures s == ConfiguredBySupplicant(inactive)
  {
    BySupplicantCases(inactive);
    var timeout := inactive * 1000;
    if timeout < INTERVAL_MIN {
      timeout := INTERVAL_MIN;
    } else if timeout > RECLAIM_TIME_MAX {
      timeout := RECLAIM_TIME_MAX;
    }
    if timeout <= INTERVAL_DEFAULT {
      s := Settings(INTERVAL_MIN, timeout / INTERVAL_MIN, INTERVAL_MIN * (timeout / INTERVAL_MIN));
    } else {
      s := Settings(INTERVAL_DEFAULT, timeout / INTERVAL_DEFAULT, INTERVAL_DEFAULT * (timeout / INTERVAL_DEFAULT));
    }
  }

  // ----- the timer -----

  /** What happens to the timer, with its time. A check records the interval in force. */
  datatype Event =
    | Preload(at: int)
    | Check(at: int, interval: nat)
    | Restart                           // start, stop or configuration by the driver
    | Retune                            // configuration by the supplicant, the timer keeps running

  /** Events so far, the latest outermost. */
  datatype History = Nothing | Then(before: History, event: Event)

  function Latest(history: History): Event
  {
    if history.Nothing? then Restart else history.event
  }

  /** The event before the latest. */
  function Second(history: History): Event
  {
    if history.Nothing? then Restart else Latest(history.before)
  }

  /** The latest event that touched the timer. */
  function LastTimed(history: History): Event
  {
    if history.Then? && history.event.Retune? then LastTimed(history.before) else Latest(history)
  }

  /** A check at the given time fits a history: see WellTimed. */
  predicate CheckFits(history: History, at: int, interval: nat)
  {
    && LastTimed(history) == Preload(at - PRELOAD_LEADTIME)
    && (Latest(history).Preload? && Second(history).Check? ==>
          at == Second(history).at + interval && Second(history).interval == interval)
  }

  /**
   * Every check comes one lead time after a preload, and one interval after the previous check
   * when only the preload lies between them.
   */
  predicate WellTimed(history: History)
  {
    match history
    case Nothing => true
    case Then(before, e) => WellTimed(before) && (e.Check? ==> CheckFits(before, e.at, e.interval))
  }

  /** In a well-timed history every check comes 2000 ms after a preload, whatever tuning lies between. */
  lemma CheckAfterPreload(history: History)
    requires WellTimed(history) && Latest(history).Check?
    ensures LastTimed(history.before) == Preload(Latest(history).at - 2000)
  {
  }

  /** The history ends in k preload and check pairs after a check, with nothing else between. */
  predicate Undisturbed(history: History, k: nat)
  {
    Latest(history).Check? &&
    (k > 0 ==> Second(history).Preload? && Undisturbed(history.before.before, k - 1))
  }

  /** The history without its last k preload and check pairs. */
  function Earlier(history: History, k: nat): History
    requires Undisturbed(history, k)
  {
    if k == 0 then history else Earlier(history.before.before, k - 1)
  }

  /** k checks on from a check, with no start, stop or configuration between, exactly k intervals have passed. */
  lemma {:induction false} ChecksKeepStep(history: History, k: nat)
    requires WellTimed(history) && Undisturbed(history, k)
    ensures Latest(Earlier(history, k)).Check?
    ensures Latest(history).interval == Latest(Earlier(history, k)).interval
    ensures Latest(history).at == Latest(Earlier(history, k)).at + k * Latest(history).interval
  {
    if k > 0 {
      ChecksKeepStep(history.before.before, k - 1);
      assert k * Latest(history).interval == (k - 1) * Latest(history).interval + Latest(history).interval;
    }
  }

  datatype Mode = ModeDisable | ModeEnable | ModeBySupp | ModeConfigBySupp

  class ApKeepAlive {
    var enabled: bool
    var bySupp: bool
    var started: bool
    var preload: bool
    var configBySupp: bool
    var settings: Settings
    var timer: Option<int>      // expiry of the pending timer
    // The surroundings: the clock, and whether the interface is a connected access point.
    var now: int
    var apConnected: bool
    ghost var history: History

    ghost predicate Valid()
      reads this
    {
      && (if enabled then InForce(settings) else settings.interval == 0)
      && (started ==> enabled)
      && (timer.Some? ==> started)
      && WellTimed(history)
      && (timer.Some? && !preload ==> CheckFits(history, timer.value, settings.interval))
      && (timer.Some? && preload && Latest(history).Check? ==>
            timer.value == Latest(history).at + settings.interval - PRELOAD_LEADTIME
            && Latest(history).interval == settings.interval)
      && (timer.Some? && (!preload || Latest(history).Check?) ==> now <= timer.value)
    }

    constructor (mode: Mode, now: int)
      ensures Valid() && timer.None? && history.Nothing? && this.now == now
      ensures enabled <==> mode.ModeEnable? || mode.ModeConfigBySupp?
      ensures bySupp == mode.ModeBySupp? && configBySupp == mode.ModeConfigBySupp? && !started && !preload
      ensures settings == if enabled then Settings(15000, 4, 60000) else Settings(0, 0, 0)
    {
      TimesIsProduct(INTERVAL_DEFAULT, RECLAIM_CYCLE);
      enabled := mode.ModeEnable? || mode.ModeConfigBySupp?;
      configBySupp := mode.ModeConfigBySupp?;
      bySupp := mode.ModeBySupp?;
      started, preload := false, false;
      settings := if mode.ModeEnable? || mode.ModeConfigBySupp?
        then Of(INTERVAL_DEFAULT, RECLAIM_CYCLE)
        else Settings(0, 0, 0);
      timer := None;
      this.now, apConnected, history := now, false, Nothing;
    }

    /** Time passes, but never past the expiry of the pending timer. */
    method Elapse(dt: nat, connected: bool)
      requires Valid() && (timer.Some? ==> dt == 0 || now + dt <= timer.value)
      modifies this`now, this`apConnected
      ensures Valid() && now == old(now) + dt && apConnected == connected
    {
      now := now + dt;
      apConnected := connected;
    }

    method Start()
      requires Valid()
      modifies this`timer, this`started, this`preload, this`history
      ensures Valid() && started == (old(started) || enabled)
      ensures enabled ==> preload && timer == Some(now + settings.interval - PRELOAD_LEADTIME)
      ensures history == if enabled then Then(old(history), Restart) else old(history)
    {
      if enabled {
        timer := Some(now + settings.interval - PRELOAD_LEADTIME);
        started, preload := true, true;
        history := Then(history, Restart);
      }
    }

    method Stop()
      requires Valid()
      modifies this`timer, this`started, this`preload, this`history
      ensures Valid() && !started && timer.None?
      ensures history == if old(started) then Then(old(history), Restart) else old(history)
    {
      if started {
        timer := None;
        started, preload := false, false;
        history := Then(history, Restart);
      }
    }

    /**
     * Configuration by the driver. A running timer is restarted with a lead time counted in seconds,
     * which arms it in the past unless an overflowing request is misread.
     */
    method Config(interval: nat, cycle: nat)
      requires Valid() && interval < 0x1_0000_0000 && cycle < 0x1_0000_0000
      modifies this`timer, this`started, this`preload, this`enabled, this`settings, this`history
      ensures Valid()
      ensures var applies := !bySupp && old(enabled) && !configBySupp;
        && (!applies ==> settings == old(settings) && history == old(history) && timer == old(timer))
        && (applies ==> history == Then(old(history), Restart))
        && (applies && interval == 0 ==> !enabled && !started && timer.None?)
        && (applies && interval > 0 ==> enabled && settings == Configured(interval, cycle) && started == old(started))
        && (applies && interval > 0 && !old(started) ==> timer.None?)
        && (applies && interval > 0 && old(started) ==>
              timer == Some(now + settings.interval - PRELOAD_LEADTIME * 1000) && preload)
      ensures old(started) && !bySupp && old(enabled) && !configBySupp && interval > 0 ==>
        timer.Some? && (timer.value < now <==> Clamped(interval) < PRELOAD_LEADTIME * 1000 || !Misread(interval, cycle))
    {
      if bySupp || !enabled || configBySupp {
        return;
      }
      var restart := started;
      timer, started, preload := None, false, if started then false else preload;
      history := Then(history, Restart);
      if interval == 0 {
        settings := Settings(0, 0, settings.removeTime);
        enabled := false;
      } else {
        ConfiguredInForce(interval, cycle);
        ArmedInThePast(interval, cycle);
        settings := Configure(interval, cycle);
        if restart {
          timer := Some(now + settings.interval - PRELOAD_LEADTIME * 1000);
          started, preload := true, true;
        }
      }
    }

    /** Configuration by the supplicant; the timer is left alone. */
    method ConfigBySupplicant(inactive: nat)
      requires Valid() && inactive < 0x1_0000
      modifies this`settings, this`history
      ensures Valid()
      ensures var applies := enabled && configBySupp && inactive > 0;
        && settings == (if applies then ConfiguredBySupplicant(inactive) else old(settings))
        && history == (if applies then Then(old(history), Retune) else old(history))
    {
      if !enabled || !configBySupp || inactive == 0 {
        return;
      }
      BySupplicantInForce(inactive);
      settings := ConfigureBySupplicant(inactive);
      history := Then(history, Retune);
    }

    /** The timer expires: preload the statistics or check the stations, and arm the other phase. */
    method Fire()
      requires Valid() && timer.Some? && timer.value <= now
      modifies this`timer, this`preload, this`history
      ensures Valid()
      ensures history == if !apConnected then old(history)
        else Then(old(history), if old(preload) then Preload(now) else Check(now, settings.interval))
      ensures !apConnected ==> timer.None?
      ensures apConnected ==> preload == !old(preload)
      ensures apConnected ==> timer == Some(now + if old(preload) then PRELOAD_LEADTIME else settings.interval - PRELOAD_LEADTIME)
    {
      timer := None;
      if apConnected {
        if preload {
          history := Then(history, Preload(now));
        } else {
          history := Then(history, Check(now, settings.interval));
        }
        if started && settings.interval != 0 {
          if preload {
            timer := Some(now + PRELOAD_LEADTIME);
            preload := false;
          } else {
            timer := Some(now + settings.interval - PRELOAD_LEADTIME);
            preload := true;
          }
        }
      }
    }
  }
}
