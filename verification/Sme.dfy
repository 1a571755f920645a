/** Connection state of a station interface, and what it reports to cfg80211. */
module Sme {

  datatype SmeState = Disconnected | Connecting | Connected

  /** Reasons of a disconnect event that matter here. */
  datatype Reason = DisconnectCmd | AuthFailed | OtherReason

  datatype Status = Success | UnspecifiedFailure | ChallengeFail

  /** How far a connect call gets: refused before it changes state, given up later, or sent to the target. */
  datatype Attempt = Refused | GivenUp | Sent

  /** What cfg80211 is told, and the disconnect commands sent to the target on its own events. */
  datatype Report = ConnectResult(status: Status) | DisconnectReport | TargetDisconnect

  datatype Event =
    | Connect(attempt: Attempt)
    | ConnectEvent(usable: bool)
    | Disconnect(ready: bool)
    | DisconnectEvent(usable: bool, reason: Reason, sharedAuth: bool)
    | Close
    | Stop

  /** The state, the status remembered for the next failed result, and the record so far. */
  datatype State = State(sme: SmeState, next: Status, connects: nat, reports: seq<Report>)

  function Tell(s: State, r: Report): State
  {
    s.(reports := s.reports + [r])
  }

  /** A disconnect event that is acted on: the target is told to stop, or the end is reported. */
  function OnDisconnect(s: State, reason: Reason, sharedAuth: bool): State
  {
    if reason != DisconnectCmd then
      Tell(s.(next := if reason.AuthFailed? && sharedAuth then ChallengeFail else UnspecifiedFailure), TargetDisconnect)
    else
      var told := match s.sme
        case Connecting => Tell(s, ConnectResult(if s.next.Success? then UnspecifiedFailure else s.next))
        case Connected => Tell(s, DisconnectReport)
        case Disconnected => s;
      told.(sme := Disconnected, next := Success)
  }

  function Step(s: State, e: Event): State
  {
    match e
    case Connect(attempt) => if attempt.Refused? then s else s.(sme := Connecting, connects := s.connects + 1)
    case ConnectEvent(usable) =>
      if usable && s.sme.Connecting? then Tell(s.(sme := Connected), ConnectResult(Success)) else s
    case Disconnect(ready) => if ready then s.(sme := Disconnected) else s
    case DisconnectEvent(usable, reason, sharedAuth) => if usable then OnDisconnect(s, reason, sharedAuth) else s
    case Close =>
      var told := match s.sme
        case Connecting => Tell(s, ConnectResult(UnspecifiedFailure))
        case Connected => Tell(s, DisconnectReport)
        case Disconnected => s;
      told.(sme := Disconnected)
    case Stop =>
      Tell(s, if s.sme.Connecting? then ConnectResult(UnspecifiedFailure) else DisconnectReport).(sme := Disconnected)
  }

  function Run(s: State, events: seq<Event>): State
    decreases |events|
  {
    if events == [] then s else Run(Step(s, events[0]), events[1..])
  }

  const START := State(Disconnected, Success, 0, [])

  lemma {:induction false} RunSnoc(s: State, events: seq<Event>, e: Event)
    ensures Run(s, events + [e]) == Step(Run(s, events), e)
    decreases |events|
  {
    if events == [] {
      assert [] + [e] == [e] && [e][1..] == [];
    } else {
      assert (events + [e])[1..] == events[1..] + [e];
      RunSnoc(Step(s, events[0]), events[1..], e);
    }
  }

  // ----- counting reports -----

  function Count(reports: seq<Report>, p: Report -> bool): nat
  {
    if reports == [] then 0
    else Count(reports[..|reports| - 1], p) + if p(reports[|reports| - 1]) then 1 else 0
  }

  function IsResult(): Report -> bool { (r: Report) => r.ConnectResult? }
  function IsSuccess(): Report -> bool { (r: Report) => r == ConnectResult(Success) }
  function IsDisconnect(): Report -> bool { (r: Report) => r.DisconnectReport? }

  lemma CountTell(s: State, r: Report, p: Report -> bool)
    ensures Count(Tell(s, r).reports, p) == Count(s.reports, p) + if p(r) then 1 else 0
  {
    assert Tell(s, r).reports[..|s.reports|] == s.reports;
  }

  /** Connect results, with one to come while connecting, never exceed connect calls. */
  predicate ResultsBounded(s: State)
  {
    Count(s.reports, IsResult()) + (if s.sme.Connecting? then 1 else 0) <= s.connects
  }

  /** Disconnections, with one to come while connected, never exceed successful results. */
  predicate DisconnectsBounded(s: State)
  {
    Count(s.reports, IsDisconnect()) + (if s.sme.Connected? then 1 else 0) <= Count(s.reports, IsSuccess())
  }

  /** What an event adds to the reports: at most one. */
  function Added(s: State, e: Event): seq<Report>
  {
    match e
    case ConnectEvent(usable) => if usable && s.sme.Connecting? then [ConnectResult(Success)] else []
    case DisconnectEvent(usable, reason, _) =>
      if !usable then []
      else if reason != DisconnectCmd then [TargetDisconnect]
      else if s.sme.Connecting? then [ConnectResult(if s.next.Success? then UnspecifiedFailure else s.next)]
      else if s.sme.Connected? then [DisconnectReport]
      else []
    case Close =>
      if s.sme.Connecting? then [ConnectResult(UnspecifiedFailure)]
      else if s.sme.Connected? then [DisconnectReport]
      else []
    case Stop => [if s.sme.Connecting? then ConnectResult(UnspecifiedFailure) else DisconnectReport]
    case _ => []
  }

  function Adds(s: State, e: Event, p: Report -> bool): nat
  {
    if Added(s, e) != [] && p(Added(s, e)[0]) then 1 else 0
  }

  lemma CountStep(s: State, e: Event, p: Report -> bool)
    ensures Step(s, e).reports == s.reports + Added(s, e)
    ensures Count(Step(s, e).reports, p) == Count(s.reports, p) + Adds(s, e, p)
  {
    if Added(s, e) != [] {
      CountTell(s, Added(s, e)[0], p);
    } else {
      assert s.reports + [] == s.reports;
    }
  }

  // ----- where every call and every success went -----

  /** The event leaves the given state without a report: a new connect call, or a disconnect call. */
  function Silent(s: State, e: Event, left: SmeState): nat
  {
    if s.sme == left && ((e.Connect? && !e.attempt.Refused?) || (e.Disconnect? && e.ready)) then 1 else 0
  }

  /** How often that happens over a run. */
  function SilentIn(s: State, events: seq<Event>, left: SmeState): nat
    decreases |events|
  {
    if events == [] then 0 else Silent(s, events[0], left) + SilentIn(Step(s, events[0]), events[1..], left)
  }

  /** How often a run stops an interface that is not connected. */
  function IdleStops(s: State, events: seq<Event>): nat
    decreases |events|
  {
    if events == [] then 0
    else (if events[0].Stop? && s.sme.Disconnected? then 1 else 0) + IdleStops(Step(s, events[0]), events[1..])
  }

  function In(s: State, sme: SmeState): nat
  {
    if s.sme == sme then 1 else 0
  }

  /** What an event opens, ends and overtakes, seen from the one report it may add. */
  lemma StepBalance(s: State, e: Event)
    ensures var t := Step(s, e);
      t.connects + In(s, Connecting)
      == s.connects + Adds(s, e, IsResult()) + In(t, Connecting) + Silent(s, e, Connecting)
    ensures var t := Step(s, e);
      Adds(s, e, IsSuccess()) + In(s, Connected) + (if e.Stop? && s.sme.Disconnected? then 1 else 0)
      == Adds(s, e, IsDisconnect()) + In(t, Connected) + Silent(s, e, Connected)
  {
  }

  lemma StepConserves(s: State, e: Event)
    ensures var t := Step(s, e);
      t.connects + Count(s.reports, IsResult()) + In(s, Connecting)
      == s.connects + Count(t.reports, IsResult()) + In(t, Connecting) + Silent(s, e, Connecting)
    ensures var t := Step(s, e);
      Count(t.reports, IsSuccess()) + Count(s.reports, IsDisconnect()) + In(s, Connected)
        + (if e.Stop? && s.sme.Disconnected? then 1 else 0)
      == Count(s.reports, IsSuccess()) + Count(t.reports, IsDisconnect()) + In(t, Connected) + Silent(s, e, Connected)
  {
    StepBalance(s, e);
    CountStep(s, e, IsResult());
    CountStep(s, e, IsDisconnect());
    CountStep(s, e, IsSuccess());
  }

  /**
   * Over every run each connect call has ended in one result, is still open, or was overtaken by
   * another call; each success, and each stop while not connected, has ended in one disconnection,
   * is still standing, or was overtaken.
   */
  lemma {:induction false} ReportsConserved(s: State, events: seq<Event>)
    ensures var t := Run(s, events);
      t.connects + Count(s.reports, IsResult()) + In(s, Connecting)
      == s.connects + Count(t.reports, IsResult()) + In(t, Connecting) + SilentIn(s, events, Connecting)
    ensures var t := Run(s, events);
      Count(t.reports, IsSuccess()) + Count(s.reports, IsDisconnect()) + In(s, Connected) + IdleStops(s, events)
      == Count(s.reports, IsSuccess()) + Count(t.reports, IsDisconnect()) + In(t, Connected) + SilentIn(s, events, Connected)
    decreases |events|
  {
    if events != [] {
      StepConserves(s, events[0]);
      ReportsConserved(Step(s, events[0]), events[1..]);
    }
  }

  /** The account of a run from the start that led to t. */
  predicate Accounted(t: State, events: seq<Event>)
  {
    && t.connects == Count(t.reports, IsResult()) + In(t, Connecting) + SilentIn(START, events, Connecting)
    && Count(t.reports, IsSuccess()) + IdleStops(START, events)
       == Count(t.reports, IsDisconnect()) + In(t, Connected) + SilentIn(START, events, Connected)
  }

  /** The same from the start, where nothing was reported yet. */
  lemma EveryRunConserves(events: seq<Event>)
    ensures Accounted(Run(START, events), events)
  {
    ReportsConserved(START, events);
  }

  // ----- bounds -----

  lemma StepKeepsResults(s: State, e: Event)
    requires ResultsBounded(s)
    ensures ResultsBounded(Step(s, e))
  {
    StepConserves(s, e);
  }

  /**
   * An event keeps the bound on disconnections exactly when it is not a stop of an interface that
   * is not connected with every successful result already matched: stopping reports a disconnection
   * even then.
   */
  lemma StepKeepsDisconnects(s: State, e: Event)
    requires DisconnectsBounded(s)
    ensures DisconnectsBounded(Step(s, e)) <==>
      !(e.Stop? && s.sme.Disconnected? && Count(s.reports, IsDisconnect()) == Count(s.reports, IsSuccess()))
  {
    StepConserves(s, e);
  }

  /**
   * Over every run from a bounded state, such as the start, results stay bounded by connect calls;
   * without stops disconnections stay bounded by successes.
   */
  lemma {:induction false} ReportsBounded(s: State, events: seq<Event>)
    requires ResultsBounded(s)
    ensures ResultsBounded(Run(s, events))
    ensures DisconnectsBounded(s) && Stop !in events ==> DisconnectsBounded(Run(s, events))
    decreases |events|
  {
    if events != [] {
      StepKeepsResults(s, events[0]);
      if DisconnectsBounded(s) && Stop !in events {
        StepKeepsDisconnects(s, events[0]);
        assert Stop !in events[1..];
      }
      ReportsBounded(Step(s, events[0]), events[1..]);
    }
  }

  /**
   * A run from the start ends with no more disconnections, one to come counted, than successes
   * exactly when it stops an idle interface no more often than it leaves a connection silently.
   */
  lemma DisconnectsBoundedWhen(events: seq<Event>)
    ensures DisconnectsBounded(Run(START, events)) <==> IdleStops(START, events) <= SilentIn(START, events, Connected)
  {
    EveryRunConserves(events);
  }

  /** Stopping an interface that was never connected breaks the bound. */
  lemma StopBreaksBound()
    ensures !DisconnectsBounded(Run(START, [Stop]))
  {
    var events := [Stop];
    assert events[1..] == [];
    assert IdleStops(START, events) == 1 && SilentIn(START, events, Connected) == 0;
    DisconnectsBoundedWhen(events);
  }

  // ----- a connection from call to end -----

  /** Connected, then ended: by the host's own disconnect, by closing or by stopping. */
  predicate Ends(e: Event)
  {
    e == Close || e == Stop || (e.DisconnectEvent? && e.usable && e.reason == DisconnectCmd)
  }

  /**
   * From any state: a connect call that is sent or given up late leaves the interface connecting with
   * nothing reported; a usable connect event then reports one success, another one nothing; each of
   * the ends reports one disconnection; a disconnect call ends it without a report.
   */
  lemma ConnectionLifecycle(s: State, attempt: Attempt, end: Event)
    requires attempt != Refused && Ends(end)
    ensures var connecting := Step(s, Connect(attempt));
      var connected := Step(connecting, ConnectEvent(true));
      && connecting == State(Connecting, s.next, s.connects + 1, s.reports)
      && Step(connecting, ConnectEvent(false)) == connecting
      && connected == State(Connected, s.next, s.connects + 1, s.reports + [ConnectResult(Success)])
      && Step(connected, ConnectEvent(true)) == connected
      && Step(connected, end).sme == Disconnected
      && Step(connected, end).reports == s.reports + [ConnectResult(Success)] + [DisconnectReport]
      && Step(connected, Disconnect(true)) == connected.(sme := Disconnected)
      && Step(connected, Disconnect(false)) == connected
  {
  }

  /** An attempt that is closed or stopped reports one failure; a refused call and an end that finds nothing report nothing. */
  lemma AttemptEnds(s: State, e: Event)
    requires Ends(e)
    ensures s.sme == Connecting && (e == Close || e == Stop) ==>
      Step(s, e) == State(Disconnected, s.next, s.connects, s.reports + [ConnectResult(UnspecifiedFailure)])
    ensures s.sme == Connecting && e.DisconnectEvent? && s.next == Success ==>
      Step(s, e) == State(Disconnected, Success, s.connects, s.reports + [ConnectResult(UnspecifiedFailure)])
    ensures s.sme == Disconnected && e != Stop ==> Step(s, e).sme == Disconnected && Step(s, e).reports == s.reports
    ensures Step(s, Connect(Refused)) == s
    ensures s.sme != Connecting ==> Step(s, ConnectEvent(true)) == s
  {
  }

  // ----- disconnect events the host did not ask for -----

  /** What cfg80211 learns from a report, the status of a failure aside. */
  datatype Outcome = Joined | Failed | Left

  function OutcomeOf(r: Report): seq<Outcome>
  {
    match r
    case ConnectResult(status) => [if status.Success? then Joined else Failed]
    case DisconnectReport => [Left]
    case TargetDisconnect => []
  }

  function Outcomes(reports: seq<Report>): seq<Outcome>
  {
    if reports == [] then []
    else Outcomes(reports[..|reports| - 1]) + OutcomeOf(reports[|reports| - 1])
  }

  predicate Foreign(e: Event)
  {
    e.DisconnectEvent? && e.reason != DisconnectCmd
  }

  function WithoutForeign(events: seq<Event>): seq<Event>
  {
    if events == [] then []
    else if Foreign(events[0]) then WithoutForeign(events[1..])
    else [events[0]] + WithoutForeign(events[1..])
  }

  /** The same connection state and calls, and cfg80211 was told the same, in the same order. */
  predicate SameToCfg(s: State, t: State)
  {
    s.sme == t.sme && s.connects == t.connects && Outcomes(s.reports) == Outcomes(t.reports)
  }

  function AddedOutcome(s: State, e: Event): seq<Outcome>
  {
    if Added(s, e) == [] then [] else OutcomeOf(Added(s, e)[0])
  }

  lemma OutcomesStep(s: State, e: Event)
    ensures Outcomes(Step(s, e).reports) == Outcomes(s.reports) + AddedOutcome(s, e)
  {
    CountStep(s, e, IsResult());
    if Added(s, e) == [] {
      assert Outcomes(s.reports) + [] == Outcomes(s.reports);
      assert s.reports + [] == s.reports;
    } else {
      assert (s.reports + Added(s, e))[..|s.reports|] == s.reports;
    }
  }

  /** An event does the same to the connection state and tells the same outcome, whatever status is remembered. */
  lemma SameEffect(s: State, t: State, e: Event)
    requires s.sme == t.sme && s.connects == t.connects
    ensures AddedOutcome(s, e) == AddedOutcome(t, e)
    ensures Step(s, e).sme == Step(t, e).sme && Step(s, e).connects == Step(t, e).connects
    ensures Foreign(e) ==> AddedOutcome(s, e) == [] && Step(s, e).sme == s.sme && Step(s, e).connects == s.connects
  {
  }

  lemma StepKeepsSame(s: State, t: State, e: Event)
    requires SameToCfg(s, t)
    ensures SameToCfg(Step(s, e), Step(t, e))
    ensures Foreign(e) ==> SameToCfg(Step(s, e), t)
  {
    OutcomesStep(s, e);
    OutcomesStep(t, e);
    SameEffect(s, t, e);
    assert Outcomes(s.reports) + [] == Outcomes(s.reports);
  }

  /**
   * Over every run, disconnect events whose reason is not the host's own command might as well not
   * have come: without them cfg80211 is told the same outcomes in the same order.
   */
  lemma {:induction false} OnlyOwnCommandReports(s: State, t: State, events: seq<Event>)
    requires SameToCfg(s, t)
    ensures SameToCfg(Run(s, events), Run(t, WithoutForeign(events)))
    decreases |events|
  {
    if events != [] {
      StepKeepsSame(s, t, events[0]);
      if Foreign(events[0]) {
        OnlyOwnCommandReports(Step(s, events[0]), t, events[1..]);
      } else {
        assert WithoutForeign(events)[1..] == WithoutForeign(events[1..]);
        OnlyOwnCommandReports(Step(s, events[0]), Step(t, events[0]), events[1..]);
      }
    }
  }

  function StatusOf(e: Event): Status
    requires Foreign(e)
  {
    if e.reason.AuthFailed? && e.sharedAuth then ChallengeFail else UnspecifiedFailure
  }

  /** A run of such events: each tells the target to stop, and the last one's reason is remembered. */
  lemma {:induction false} ForeignRun(s: State, events: seq<Event>)
    requires events != [] && forall e | e in events :: Foreign(e) && e.usable
    ensures Run(s, events) == s.(next := StatusOf(events[|events| - 1]),
                                 reports := s.reports + seq(|events|, _ => TargetDisconnect))
    decreases |events|
  {
    var last := events[|events| - 1];
    var before := events[..|events| - 1];
    assert events == before + [last];
    assert Foreign(last) && last.usable;
    RunSnoc(s, before, last);
    if before == [] {
      assert seq(1, _ => TargetDisconnect) == [TargetDisconnect];
    } else {
      ForeignRun(s, before);
      var told := s.reports + seq(|before|, _ => TargetDisconnect);
      assert told + [TargetDisconnect] == s.reports + seq(|events|, _ => TargetDisconnect);
    }
  }

  /** However many such events precede it, a failed connection ends in one result carrying the status of the last of them. */
  lemma FailureReportsReason(s: State, events: seq<Event>, sharedAuth: bool)
    requires s.sme.Connecting? && events != [] && forall e | e in events :: Foreign(e) && e.usable
    ensures Foreign(events[|events| - 1])
    ensures var t := Run(s, events + [DisconnectEvent(true, DisconnectCmd, sharedAuth)]);
      var last := events[|events| - 1];
      && t.sme.Disconnected? && t.next.Success?
      && t.reports == s.reports + seq(|events|, _ => TargetDisconnect)
                    + [ConnectResult(if last.reason == AuthFailed && last.sharedAuth then ChallengeFail else UnspecifiedFailure)]
  {
    assert events[|events| - 1] in events;
    RunSnoc(s, events, DisconnectEvent(true, DisconnectCmd, sharedAuth));
    ForeignRun(s, events);
  }

  class Vif {
    var sme: SmeState
    var next: Status
    ghost var connects: nat
    ghost var reports: seq<Report>
    ghost var history: seq<Event>

    ghost function Now(): State
      reads this
    {
      State(sme, next, connects, reports)
    }

    /** The state is the one the history leads to, and its reports balance. */
    ghost predicate Valid()
      reads this
    {
      Now() == Run(START, history) && Accounted(Now(), history)
    }

    constructor ()
      ensures Valid() && Now() == START && history == []
    {
      sme, next, connects, reports, history := Disconnected, Success, 0, [], [];
    }

    /** Enter an event that was handled into the history. */
    ghost method Record(e: Event)
      requires Now() == Step(Run(START, history), e)
      modifies this`history
      ensures Valid() && history == old(history) + [e]
    {
      RunSnoc(START, history, e);
      EveryRunConserves(history + [e]);
      history := history + [e];
    }

    /** A connect call. The state changes before most of the checks, so a call given up leaves it Connecting. */
    method CfgConnect(attempt: Attempt) returns (ok: bool)
      requires Valid()
      modifies this
      ensures Valid() && history == old(history) + [Connect(attempt)] && ok == attempt.Sent?
      ensures Now() == Step(old(Now()), Connect(attempt))
    {
      if !attempt.Refused? {
        sme := Connecting;
        connects := connects + 1;
      }
      Record(Connect(attempt));
      return attempt.Sent?;
    }

    /** A connect event; usable says whether it passes the checks on mode, channel and BSS entry. */
    method CfgConnectEvent(usable: bool)
      requires Valid()
      modifies this
      ensures Valid() && history == old(history) + [ConnectEvent(usable)]
      ensures Now() == Step(old(Now()), ConnectEvent(usable))
    {
      if usable && sme == Connecting {
        sme := Connected;
        reports := reports + [ConnectResult(Success)];
      }
      Record(ConnectEvent(usable));
    }

    /** A disconnect call changes the state without a report. */
    method CfgDisconnect(ready: bool)
      requires Valid()
      modifies this
      ensures Valid() && history == old(history) + [Disconnect(ready)]
      ensures Now() == Step(old(Now()), Disconnect(ready))
    {
      if ready {
        sme := Disconnected;
      }
      Record(Disconnect(ready));
    }

    /** A disconnect event on a station interface. */
    method CfgDisconnectEvent(usable: bool, reason: Reason, sharedAuth: bool)
      requires Valid()
      modifies this
      ensures Valid() && history == old(history) + [DisconnectEvent(usable, reason, sharedAuth)]
      ensures Now() == Step(old(Now()), DisconnectEvent(usable, reason, sharedAuth))
    {
      if usable {
        if reason != DisconnectCmd {
          if reason == AuthFailed && sharedAuth {
            next := ChallengeFail;
          } else {
            next := UnspecifiedFailure;
          }
          reports := reports + [TargetDisconnect];
        } else {
          if sme == Connecting {
            var status := UnspecifiedFailure;
            if next != Success {
              status := next;
            }
            reports := reports + [ConnectResult(status)];
          } else if sme == Connected {
            reports := reports + [DisconnectReport];
          }
          sme := Disconnected;
          next := Success;
        }
      }
      Record(DisconnectEvent(usable, reason, sharedAuth));
    }

    /** Closing the interface ends a connection or an attempt with a report. */
    method CloseIface()
      requires Valid()
      modifies this
      ensures Valid() && history == old(history) + [Close]
      ensures Now() == Step(old(Now()), Close)
    {
      if sme == Connecting {
        reports := reports + [ConnectResult(UnspecifiedFailure)];
      } else if sme == Connected {
        reports := reports + [DisconnectReport];
      }
      sme := Disconnected;
      Record(Close);
    }

    /** Stopping before suspend reports a disconnection in every state but Connecting. */
    method CfgStop()
      requires Valid()
      modifies this
      ensures Valid() && history == old(history) + [Stop]
      ensures Now() == Step(old(Now()), Stop)
    {
      if sme == Connecting {
        reports := reports + [ConnectResult(UnspecifiedFailure)];
      } else {
        reports := reports + [DisconnectReport];
      }
      sme := Disconnected;
      Record(Stop);
    }
  }
}
