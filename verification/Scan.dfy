/**
 * Who owns a scan: user requests, their completions, timeouts and cancellations, the
 * recommended-channel scan of an access point and the HT-coexistence scan, interleaved handler by
 * handler on all interfaces of a device.
 */
module Scan {

  /** What scan_req points to: a request from cfg80211, or the request embedded in the coexistence context. */
  datatype Owner = Nobody | User(id: nat) | Coexistence

  /** The device semaphore is held across handlers only while a recommended-channel scan waits. */
  datatype Semaphore = Free | HeldByRc(vif: nat)

  /** How a scan request fares: refused before the semaphore, after SCANNING is set, or started. */
  datatype Outcome = RefusedEarly | HandshakeProtected | ParamsFail | StartFails | Starts

  const EIO := 5
  const EBUSY := 16
  const ERESTARTSYS := 512

  /** One interface: its two scan bits, its scan request, and for the record what was accepted and answered. */
  datatype Vif = Vif(scanning: bool, scanningWait: bool, scanReq: Owner, accepted: seq<nat>, done: seq<nat>)

  datatype State = State(vifs: seq<Vif>, sem: Semaphore)

  // ----- the handlers as steps -----

  datatype Event =
    | ScanRequest(v: nat, id: nat, outcome: Outcome)
    | Complete(v: nat, coexActive: bool)
    | Abort(v: nat)                         // scan timer, disconnect event, clean-up of an interface
    | Stop(v: nat)
    | Eapol
    | CoexTimer(v: nat, starts: bool)
    | RcBegin(v: nat, startFails: bool)
    | RcResume(timedOutOrSignal: bool)

  /** The answer owed to the owner of a scan. */
  function Owed(owner: Owner): seq<nat>
  {
    if owner.User? then [owner.id] else []
  }

  function Aborted(vif: Vif): Vif
  {
    if vif.scanReq.Nobody? then vif
    else vif.(scanning := false, scanReq := Nobody, done := vif.done + Owed(vif.scanReq))
  }

  function Completed(vif: Vif): Vif
  {
    Aborted(vif.(scanningWait := false))
  }

  /** A completion the coexistence code may take for itself. */
  function CompletedIn(vif: Vif, coexActive: bool): Vif
  {
    if coexActive && vif.scanReq.Coexistence? then vif.(scanReq := Nobody) else Completed(vif)
  }

  function AbortAll(vifs: seq<Vif>): (r: seq<Vif>)
    ensures |r| == |vifs| && forall u | 0 <= u < |vifs| :: r[u] == Aborted(vifs[u])
  {
    if vifs == [] then [] else [Aborted(vifs[0])] + AbortAll(vifs[1..])
  }

  function Started(vif: Vif, id: nat): Vif
  {
    vif.(scanning := true, scanReq := User(id), accepted := vif.accepted + [id])
  }

  /** A request is accepted when nothing refuses it, the semaphore is free and SCANNING is clear. */
  predicate Accepts(s: State, v: nat, outcome: Outcome)
  {
    v < |s.vifs| && s.sem.Free? && !s.vifs[v].scanning && outcome.Starts?
  }

  /** The recommended-channel scan goes ahead when no interface is scanning. */
  predicate RcWaits(s: State, v: nat, startFails: bool)
  {
    v < |s.vifs| && s.sem.Free? && !startFails && forall u | 0 <= u < |s.vifs| :: !s.vifs[u].scanning
  }

  function Put(s: State, v: nat, vif: Vif): State
    requires v < |s.vifs|
  {
    s.(vifs := s.vifs[v := vif])
  }

  /** One handler run to its end, or to its wait; events that cannot happen in a state change nothing. */
  function Step(s: State, e: Event): State
  {
    match e
    case ScanRequest(v, id, outcome) => if Accepts(s, v, outcome) then Put(s, v, Started(s.vifs[v], id)) else s
    case Complete(v, coexActive) => if v < |s.vifs| then Put(s, v, CompletedIn(s.vifs[v], coexActive)) else s
    case Abort(v) => if v < |s.vifs| then Put(s, v, Aborted(s.vifs[v])) else s
    case Stop(v) => if v < |s.vifs| && s.vifs[v].scanning then Put(s, v, Completed(s.vifs[v])) else s
    case Eapol => s.(vifs := AbortAll(s.vifs))
    case CoexTimer(v, starts) =>
      if v < |s.vifs| && s.vifs[v].scanReq.Nobody? && starts then Put(s, v, s.vifs[v].(scanReq := Coexistence)) else s
    case RcBegin(v, startFails) =>
      if RcWaits(s, v, startFails)
      then Put(s.(sem := HeldByRc(v)), v, s.vifs[v].(scanning := true, scanningWait := true))
      else s
    case RcResume(timedOutOrSignal) =>
      if s.sem.HeldByRc? && s.sem.vif < |s.vifs| && (timedOutOrSignal || !s.vifs[s.sem.vif].scanningWait)
      then Put(s.(sem := Free), s.sem.vif, s.vifs[s.sem.vif].(scanning := false, scanningWait := false))
      else s
  }

  function Run(s: State, events: seq<Event>): State
    decreases |events|
  {
    if events == [] then s else Run(Step(s, events[0]), events[1..])
  }

  // ----- what every run keeps -----

  /**
   * Interface v: the requests answered are, in order, the requests accepted but the one pending, if
   * any; a pending request implies SCANNING, and SCANNING without one belongs to a waiting
   * recommended-channel scan.
   */
  predicate VifOk(vif: Vif, v: nat, sem: Semaphore)
  {
    && vif.accepted == vif.done + Owed(vif.scanReq)
    && (vif.scanReq.User? ==> vif.scanning)
    && (vif.scanning ==> vif.scanReq.User? || sem == HeldByRc(v))
    && (vif.scanningWait ==> sem == HeldByRc(v))
    && (sem == HeldByRc(v) ==> !vif.scanReq.User?)
  }

  predicate Ok(s: State)
  {
    && (s.sem.HeldByRc? ==> s.sem.vif < |s.vifs|)
    && forall v | 0 <= v < |s.vifs| :: VifOk(s.vifs[v], v, s.sem)
  }

  /** Nothing has happened yet on n interfaces. */
  function Fresh(n: nat): State
  {
    State(seq(n, _ => Vif(false, false, Nobody, [], [])), Free)
  }

  lemma StepKeepsOk(s: State, e: Event)
    requires Ok(s)
    ensures Ok(Step(s, e))
  {
    match e
    case Eapol => AbortAllOk(s);
    case RcBegin(v, startFails) => RcKeepsOk(s, e);
    case RcResume(timedOutOrSignal) => RcKeepsOk(s, e);
    case _ =>
      var t := Step(s, e);
      if e.v < |s.vifs| {
        assert VifOk(s.vifs[e.v], e.v, s.sem);
        assert t.sem == s.sem && |t.vifs| == |s.vifs| && VifOk(t.vifs[e.v], e.v, t.sem);
        assert forall u | 0 <= u < |s.vifs| && u != e.v :: t.vifs[u] == s.vifs[u];
      }
  }

  lemma RcKeepsOk(s: State, e: Event)
    requires Ok(s) && (e.RcBegin? || e.RcResume?)
    ensures Ok(Step(s, e))
  {
  }

  lemma AbortAllOk(s: State)
    requires Ok(s)
    ensures Ok(s.(vifs := AbortAll(s.vifs)))
  {
    var r := AbortAll(s.vifs);
    assert forall v | 0 <= v < |r| :: VifOk(s.vifs[v], v, s.sem) && r[v] == Aborted(s.vifs[v]);
  }

  lemma {:induction false} RunKeepsOk(s: State, events: seq<Event>)
    requires Ok(s)
    ensures Ok(Run(s, events)) && |Run(s, events).vifs| == |s.vifs|
    decreases |events|
  {
    if events != [] {
      StepKeepsOk(s, events[0]);
      RunKeepsOk(Step(s, events[0]), events[1..]);
    }
  }

  /**
   * Over every interleaving from the start: each accepted request is answered exactly once, the
   * k-th answer for the k-th request, and none but the pending one is unanswered.
   */
  lemma EveryRunAnswersOnce(n: nat, events: seq<Event>, v: nat)
    requires v < n
    ensures |Run(Fresh(n), events).vifs| == n
    ensures var vif := Run(Fresh(n), events).vifs[v];
      && |vif.accepted| == |vif.done| + (if vif.scanReq.User? then 1 else 0)
      && vif.done == vif.accepted[..|vif.done|]
      && (vif.scanReq.User? ==> vif.scanning && vif.accepted[|vif.done|] == vif.scanReq.id)
  {
    RunKeepsOk(Fresh(n), events);
    var s := Run(Fresh(n), events);
    assert VifOk(s.vifs[v], v, s.sem);
  }

  /**
   * Over every interleaving, an interface without a pending request accepts the next one, unless a
   * recommended-channel scan holds the semaphore: SCANNING is never left behind.
   */
  lemma NoStaleScanning(n: nat, events: seq<Event>, v: nat, id: nat)
    requires v < n
    ensures var s := Run(Fresh(n), events);
      |s.vifs| == n && (s.sem.Free? && !s.vifs[v].scanReq.User? ==>
        !s.vifs[v].scanning && Step(s, ScanRequest(v, id, Starts)).vifs[v].scanReq == User(id))
  {
    RunKeepsOk(Fresh(n), events);
    var s := Run(Fresh(n), events);
    assert VifOk(s.vifs[v], v, s.sem);
  }

  /**
   * Over every interleaving, unless a recommended-channel scan waits on the interface, scan_req is
   * set without SCANNING exactly when the scan is the coexistence code's own; while one waits, no
   * request is a user's.
   */
  lemma UnmarkedIsCoexistence(n: nat, events: seq<Event>, v: nat)
    requires v < n
    ensures |Run(Fresh(n), events).vifs| == n
    ensures var s := Run(Fresh(n), events);
      var vif := s.vifs[v];
      if s.sem == HeldByRc(v) then !vif.scanReq.User?
      else !vif.scanReq.Nobody? && !vif.scanning <==> vif.scanReq.Coexistence?
  {
    RunKeepsOk(Fresh(n), events);
    var s := Run(Fresh(n), events);
    assert VifOk(s.vifs[v], v, s.sem);
  }

  /** Such a run: the coexistence scan is unmarked, and a user request takes its place. */
  lemma CoexistenceScansUnmarked(id: nat)
    ensures var s := Run(Fresh(1), [CoexTimer(0, true)]);
      && s.vifs[0].scanReq.Coexistence? && !s.vifs[0].scanning
      && Step(s, ScanRequest(0, id, Starts)).vifs[0].scanReq == User(id)
  {
    var e := [CoexTimer(0, true)];
    assert e[1..] == [];
    assert Run(Fresh(1), e) == Step(Fresh(1), e[0]);
  }

  // ----- what each handler does -----

  /** Only interface v differs, and there it is vif now. */
  predicate OnlyAt(s: State, t: State, v: nat, vif: Vif)
  {
    v < |s.vifs| == |t.vifs| && t.vifs[v] == vif && forall u | 0 <= u < |s.vifs| && u != v :: t.vifs[u] == s.vifs[u]
  }

  /**
   * A request that gets as far as a started scan is recorded as pending exactly when the semaphore is
   * free and no user's scan is pending; refused or failing ones change nothing.
   */
  lemma RequestRecorded(s: State, v: nat, id: nat, outcome: Outcome)
    requires Ok(s) && v < |s.vifs|
    ensures var t := Step(s, ScanRequest(v, id, outcome));
      var vif := s.vifs[v];
      if outcome == Starts && s.sem == Free && !vif.scanReq.User?
      then OnlyAt(s, t, v, Vif(true, false, User(id), vif.accepted + [id], vif.done)) && t.sem == Free
      else t == s
  {
    assert VifOk(s.vifs[v], v, s.sem);
  }

  /** A completion of a user's scan answers it: nothing is pending or marked on the interface afterwards. */
  lemma CompletionAnswers(s: State, v: nat, id: nat, coexActive: bool)
    requires Ok(s) && v < |s.vifs| && s.vifs[v].scanReq == User(id)
    ensures var t := Step(s, Complete(v, coexActive));
      OnlyAt(s, t, v, Vif(false, false, Nobody, s.vifs[v].accepted, s.vifs[v].done + [id])) && t.sem == s.sem
  {
    assert VifOk(s.vifs[v], v, s.sem);
  }

  /**
   * A completion that is no user's wakes a waiting recommended-channel scan, unless the coexistence
   * code takes it for its own; it answers nobody.
   */
  lemma OtherCompletion(s: State, v: nat, coexActive: bool)
    requires Ok(s) && v < |s.vifs| && !s.vifs[v].scanReq.User?
    ensures var t := Step(s, Complete(v, coexActive));
      var vif := s.vifs[v];
      && t.sem == s.sem
      && OnlyAt(s, t, v,
           if vif.scanReq.Nobody? then Vif(vif.scanning, false, Nobody, vif.accepted, vif.done)
           else if coexActive then Vif(vif.scanning, vif.scanningWait, Nobody, vif.accepted, vif.done)
           else Vif(false, false, Nobody, vif.accepted, vif.done))
  {
  }

  /** Scan timer, disconnect event and clean-up answer a pending user's scan, and so does stopping. */
  lemma AbortAnswers(s: State, v: nat, id: nat)
    requires Ok(s) && v < |s.vifs| && s.vifs[v].scanReq == User(id)
    ensures var answered := Vif(false, false, Nobody, s.vifs[v].accepted, s.vifs[v].done + [id]);
      && OnlyAt(s, Step(s, Abort(v)), v, answered) && Step(s, Abort(v)).sem == s.sem
      && OnlyAt(s, Step(s, Stop(v)), v, answered) && Step(s, Stop(v)).sem == s.sem
  {
    assert VifOk(s.vifs[v], v, s.sem);
  }

  /** An EAPOL frame answers the pending user's scan of every interface, and touches no interface without a scan. */
  lemma EapolAnswersAll(s: State, v: nat)
    requires Ok(s) && v < |s.vifs|
    ensures var t := Step(s, Eapol);
      var vif := s.vifs[v];
      && |t.vifs| == |s.vifs| && t.sem == s.sem
      && (vif.scanReq.User? ==> t.vifs[v] == Vif(false, false, Nobody, vif.accepted, vif.done + [vif.scanReq.id]))
      && (vif.scanReq.Nobody? ==> t.vifs[v] == vif)
      && (vif.scanReq.Coexistence? ==> t.vifs[v] == Vif(false, vif.scanningWait, Nobody, vif.accepted, vif.done))
  {
    assert VifOk(s.vifs[v], v, s.sem);
  }

  /** The coexistence timer takes scan_req exactly when nothing is pending. */
  lemma CoexistenceTakes(s: State, v: nat)
    requires v < |s.vifs|
    ensures var t := Step(s, CoexTimer(v, true));
      var vif := s.vifs[v];
      if vif.scanReq == Nobody then OnlyAt(s, t, v, vif.(scanReq := Coexistence)) && t.sem == s.sem else t == s
  {
  }

  /**
   * A recommended-channel update waits exactly when the semaphore is free and nobody scans, holding
   * the semaphore and both bits; woken by a completion, or without one on a timeout or signal, it
   * gives all of them back.
   */
  lemma UpdateWaitsAndEnds(s: State, v: nat)
    requires Ok(s) && v < |s.vifs|
    ensures var t := Step(s, RcBegin(v, false));
      if s.sem == Free && forall u | 0 <= u < |s.vifs| :: !s.vifs[u].scanning
      then
        && t.sem == HeldByRc(v) && OnlyAt(s, t, v, s.vifs[v].(scanning := true, scanningWait := true))
        && Step(t, RcResume(false)) == t
        && OnlyAt(t, Step(t, RcResume(true)), v, s.vifs[v].(scanning := false, scanningWait := false))
        && Step(t, RcResume(true)).sem == Free
        && Step(Step(t, Complete(v, false)), RcResume(false)).sem == Free
        && !Step(Step(t, Complete(v, false)), RcResume(false)).vifs[v].scanning
      else t == s
  {
    assert VifOk(s.vifs[v], v, s.sem);
  }

  // ----- the handlers -----

  class Device {
    const vifs: array<Vif>
    var sem: Semaphore

    ghost function Now(): State
      reads this, vifs
    {
      State(vifs[..], sem)
    }

    ghost predicate Valid()
      reads this, vifs
    {
      Ok(Now())
    }

    constructor (n: nat)
      ensures Valid() && fresh(vifs) && Now() == Fresh(n)
    {
      vifs := new Vif[n](_ => Vif(false, false, Nobody, [], []));
      sem := Free;
    }

    /** cfg80211_scan_done for the owner of the scan; the scan is nobody's afterwards. */
    method ScanDone(v: nat)
      requires v < vifs.Length && !vifs[v].scanReq.Nobody?
      modifies vifs
      ensures vifs[..] == old(vifs[..])[v := Aborted(old(vifs[v]))]
    {
      vifs[v] := vifs[v].(done := vifs[v].done + Owed(vifs[v].scanReq));
      vifs[v] := vifs[v].(scanReq := Nobody);
      vifs[v] := vifs[v].(scanning := false);
    }

    /** A scan request from cfg80211: accepted exactly when the result is 0. */
    method CfgScan(v: nat, id: nat, outcome: Outcome) returns (ret: int)
      requires Valid() && v < vifs.Length
      modifies vifs
      ensures Valid() && Now() == Step(old(Now()), ScanRequest(v, id, outcome))
      ensures ret == 0 <==> vifs[v].accepted == old(vifs[v]).accepted + [id]
    {
      StepKeepsOk(Now(), ScanRequest(v, id, outcome));
      if outcome.RefusedEarly? {
        return -EIO;
      }
      if sem != Free {
        return -ERESTARTSYS;
      }
      if vifs[v].scanning {
        return -EBUSY;
      }
      vifs[v] := vifs[v].(scanning := true);
      if outcome.HandshakeProtected? {
        vifs[v] := vifs[v].(scanning := false);
        return -EBUSY;
      }
      if outcome.ParamsFail? {
        vifs[v] := vifs[v].(scanning := false);
        return -EIO;
      }
      if outcome.StartFails? {
        vifs[v] := vifs[v].(scanning := false);
        ret := -EIO;
      } else {
        vifs[v] := vifs[v].(scanReq := User(id), accepted := vifs[v].accepted + [id]);
        ret := 0;
      }
    }

    /**
     * A scan completion event. The coexistence code takes the completion of its own scan if it is
     * active; otherwise a waiting recommended-channel scan is woken and the owner is answered.
     */
    method CompleteEvent(v: nat, coexActive: bool)
      requires Valid() && v < vifs.Length
      modifies vifs
      ensures Valid() && Now() == Step(old(Now()), Complete(v, coexActive))
    {
      StepKeepsOk(Now(), Complete(v, coexActive));
      if coexActive && vifs[v].scanReq.Coexistence? {
        vifs[v] := vifs[v].(scanReq := Nobody);
        return;
      }
      CfgCompleteEvent(v);
    }

    method CfgCompleteEvent(v: nat)
      requires v < vifs.Length
      modifies vifs
      ensures vifs[..] == old(vifs[..])[v := Completed(old(vifs[v]))]
    {
      if vifs[v].scanningWait {
        vifs[v] := vifs[v].(scanningWait := false);
      }
      if vifs[v].scanReq.Nobody? {
        return;
      }
      ScanDone(v);
    }

    /** The scan timer, a disconnect event and the clean-up of an interface abort a pending scan. */
    method AbortPending(v: nat)
      requires Valid() && v < vifs.Length
      modifies vifs
      ensures Valid() && Now() == Step(old(Now()), Abort(v))
    {
      StepKeepsOk(Now(), Abort(v));
      AbortOne(v);
    }

    /** Stopping an interface completes its scan as aborted. */
    method CfgStop(v: nat)
      requires Valid() && v < vifs.Length
      modifies vifs
      ensures Valid() && Now() == Step(old(Now()), Stop(v))
    {
      StepKeepsOk(Now(), Stop(v));
      if vifs[v].scanning {
        CfgCompleteEvent(v);
      }
    }

    /** An EAPOL frame preempts the scans of all interfaces. */
    method EapolPreempt()
      requires Valid()
      modifies vifs
      ensures Valid() && Now() == Step(old(Now()), Eapol)
    {
      StepKeepsOk(Now(), Eapol);
      for v := 0 to vifs.Length
        invariant forall u | 0 <= u < v :: vifs[u] == Aborted(old(vifs[u]))
        invariant forall u | v <= u < vifs.Length :: vifs[u] == old(vifs[u])
      {
        AbortOne(v);
      }
      assert vifs[..] == AbortAll(old(vifs[..]));
    }

    /** What is common to all who abort: answer a pending scan of one interface. */
    method AbortOne(v: nat)
      requires v < vifs.Length
      modifies vifs
      ensures vifs[..] == old(vifs[..])[v := Aborted(old(vifs[v]))]
    {
      if !vifs[v].scanReq.Nobody? {
        ScanDone(v);
      } else {
        assert vifs[v] == Aborted(vifs[v]);
      }
    }

    /** The coexistence timer starts a scan of its own when nothing is pending; SCANNING is left alone. */
    method CoexStart(v: nat, starts: bool)
      requires Valid() && v < vifs.Length
      modifies vifs
      ensures Valid() && Now() == Step(old(Now()), CoexTimer(v, starts))
    {
      StepKeepsOk(Now(), CoexTimer(v, starts));
      if vifs[v].scanReq.Nobody? && starts {
        vifs[v] := vifs[v].(scanReq := Coexistence);
      }
    }

    method AnyScanning() returns (ongoing: bool)
      ensures ongoing <==> exists v | 0 <= v < vifs.Length :: vifs[v].scanning
    {
      ongoing := false;
      for v := 0 to vifs.Length
        invariant ongoing <==> exists u | 0 <= u < v :: vifs[u].scanning
      {
        if vifs[v].scanning {
          ongoing := true;
        }
      }
    }

    /**
     * The recommended-channel update up to its wait: unless some interface is scanning it starts a
     * scan and goes to sleep holding the semaphore.
     */
    method RcUpdateBegin(v: nat, startFails: bool) returns (waits: bool)
      requires Valid() && v < vifs.Length
      modifies this`sem, vifs
      ensures Valid() && Now() == Step(old(Now()), RcBegin(v, startFails))
      ensures waits == RcWaits(old(Now()), v, startFails)
    {
      StepKeepsOk(Now(), RcBegin(v, startFails));
      if sem != Free {
        return false;
      }
      var ongoing := AnyScanning();
      if ongoing {
        return false;
      }
      vifs[v] := vifs[v].(scanning := true);
      if startFails {
        vifs[v] := vifs[v].(scanning := false);
        return false;
      }
      vifs[v] := vifs[v].(scanningWait := true);
      sem := HeldByRc(v);
      return true;
    }

    /** The rest of the update, woken by a completion, a timeout or a signal. */
    method RcUpdateResume(timedOutOrSignal: bool)
      requires Valid() && sem.HeldByRc? && (timedOutOrSignal || !vifs[sem.vif].scanningWait)
      modifies this`sem, vifs
      ensures Valid() && Now() == Step(old(Now()), RcResume(timedOutOrSignal))
    {
      StepKeepsOk(Now(), RcResume(timedOutOrSignal));
      var v := sem.vif;
      if timedOutOrSignal {
        vifs[v] := vifs[v].(scanningWait := false);
      }
      vifs[v] := vifs[v].(scanning := false);
      sem := Free;
    }
  }
}
