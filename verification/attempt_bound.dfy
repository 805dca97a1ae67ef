/** The brute-force bound over runs with any number of boots, session changes, and power cuts. */
module AttemptBound {
  import opened Kernel
  import opened UdsServer
  import opened UdsSystem
  import SA = SecurityAccess

  const LIMIT: nat := MAX_FAILED_ATTEMPTS

  /** What a log says: failed verifications and mid-handler power cuts since the last success or completed
      lockout expiry (`fails`, `cuts`), what the store must hold, and the later of the lockout entry and
      the last boot. A lockout expiry is complete once the flag entry is zeroed. */
  datatype Tally = Tally(fails: nat, cuts: nat, counter: byte, locked: bool, since: nat, safe: bool)

  const START := Tally(0, 0, 0, false, 0, true)

  function Later(a: nat, b: nat): nat { if a < b then b else a }

  function Count(t: Tally, e: Entry): Tally {
    match e.event
    case Verify(_, _, _, granted) =>
      if granted then t.(fails := 0, cuts := 0) else t.(fails := t.fails + 1)
    case NvsWrite(id, value) =>
      if id == NVS_COUNTER_ID then t.(counter := value)
      else if id == NVS_LOCKOUT_ID then
        if value == 1 then t.(locked := true, since := Later(t.since, e.at))
        else t.(locked := false, fails := 0, cuts := 0)
      else t
    case Reboot(cut) =>
      if cut then t.(cuts := t.cuts + 1, since := Later(t.since, e.at))
      else t.(since := Later(t.since, e.at))
    case _ => t
  }

  /** Few enough power cuts for the one-byte counter. */
  predicate FewCuts(t: Tally) { t.cuts + LIMIT < 256 }

  /** Up to `slack` more failures than the store accounts for; or no more failures than cuts, behind a
      counter entry left over from before a success whose handler was cut. */
  predicate Accounted(t: Tally, slack: nat) {
    if t.locked then t.fails <= LIMIT + t.cuts + slack
    else
      || (&& t.fails <= (if t.counter < LIMIT then t.counter else LIMIT - 1) + t.cuts + slack
          && t.counter <= LIMIT - 1 + t.cuts + slack)
      || t.fails + 1 <= t.cuts + slack
  }

  /** The step respects the bound and the lockout: no verification while locked or with the bound already
      reached, no early unlocking. */
  predicate Respected(t: Tally, e: Entry) {
    var t' := Count(t, e);
    && (FewCuts(t') ==> t'.fails <= LIMIT + t'.cuts && Accounted(t', 1))
    && (e.event.Verify? ==> !t.locked && (FewCuts(t) ==> t.fails < LIMIT + t.cuts))
    && (t.locked && !t'.locked ==> t.since + LOCKOUT_TIME_MS <= e.at)
  }

  function Observe(t: Tally, e: Entry): Tally {
    if e.event.Verify? || e.event.NvsWrite? || e.event.Reboot?
    then Count(t, e).(safe := t.safe && Respected(t, e)) else t
  }

  predicate Safe(t: Tally) { t.safe }

  predicate Agrees(now: nat, r: SA.SecurityRam, t: Tally) {
    && t.safe
    && t.since <= now
    && (r.status == SA.Lockout <==> t.locked)
    && (t.locked ==> r.timer == Armed(t.since + LOCKOUT_TIME_MS) && now <= t.since + LOCKOUT_TIME_MS)
    && (!t.locked ==> r.timer == Stopped && r.counter == t.counter)
    && (FewCuts(t) ==> Accounted(t, 0))
  }

  predicate Mirrors(nvs: map<nat, byte>, t: Tally) {
    && t.counter == (if NVS_COUNTER_ID in nvs then nvs[NVS_COUNTER_ID] else 0)
    && t.locked == (NVS_LOCKOUT_ID in nvs && nvs[NVS_LOCKOUT_ID] == 1)
  }

  ghost predicate Inv(s: Sys) {
    var t := Fold(Observe, START, s.log);
    Agrees(s.now, s.ram.security, t) && Mirrors(s.nvs, t)
  }

  lemma {:induction false} StoreMirrors(nvs: map<nat, byte>, t: Tally, now: nat, events: seq<Event>)
    requires Mirrors(nvs, t)
    ensures Mirrors(Persist(nvs, events), FoldEvents(Observe, t, now, events))
  {
    if events != [] {
      StoreMirrors(nvs, t, now, events[..|events| - 1]);
    }
  }

  lemma LockingAgrees(r: SA.SecurityRam, now: nat, verified: Event, failed: byte, t: Tally)
    requires Agrees(now, r, t) && r.status == SA.SeedRequested
    requires verified.Verify? && !verified.granted && failed == (r.counter + 1) % 256 && failed >= LIMIT
    ensures Agrees(now, r.(status := SA.Lockout, counter := failed, timer := Armed(now + LOCKOUT_TIME_MS)),
                   FoldEvents(Observe, t, now,
                              [verified, NvsWrite(NVS_COUNTER_ID, failed), NvsWrite(NVS_LOCKOUT_ID, 1)]))
  {
    FoldFew(Observe, t, now, [verified, NvsWrite(NVS_COUNTER_ID, failed), NvsWrite(NVS_LOCKOUT_ID, 1)]);
  }

  lemma FailureAgrees(r: SA.SecurityRam, now: nat, verified: Event, failed: byte, t: Tally)
    requires Agrees(now, r, t) && r.status == SA.SeedRequested
    requires verified.Verify? && !verified.granted && failed == (r.counter + 1) % 256 && failed < LIMIT
    ensures Agrees(now, r.(status := SA.Locked, counter := failed),
                   FoldEvents(Observe, t, now, [verified, NvsWrite(NVS_COUNTER_ID, failed)]))
  {
    FoldFew(Observe, t, now, [verified, NvsWrite(NVS_COUNTER_ID, failed)]);
  }

  lemma SuccessAgrees(r: SA.SecurityRam, now: nat, verified: Event, t: Tally)
    requires Agrees(now, r, t) && r.status == SA.SeedRequested && verified.Verify? && verified.granted
    ensures Agrees(now, r.(status := SA.Unlocked, counter := 0),
                   FoldEvents(Observe, t, now, [verified, NvsWrite(NVS_COUNTER_ID, 0)]))
  {
    FoldFew(Observe, t, now, [verified, NvsWrite(NVS_COUNTER_ID, 0)]);
  }

  lemma KeyAgrees(r: SA.SecurityRam, now: nat, req: bytes, h: Hooks, t: Tally)
    requires req != [] && Agrees(now, r, t)
    ensures var o := SA.Handle(r, now, req, h);
            Agrees(now, o.state, FoldEvents(Observe, t, now, o.events))
  {
    var o := SA.Handle(r, now, req, h);
    var failed := (r.counter + 1) % 256;
    if o.events == [] {
    } else if h.keyVerdict == 0 {
      SuccessAgrees(r, now, o.events[0], t);
    } else if failed >= LIMIT {
      LockingAgrees(r, now, o.events[0], failed, t);
    } else {
      FailureAgrees(r, now, o.events[0], failed, t);
    }
  }

  lemma HandlerAgrees(r: Ram, now: nat, req: bytes, h: Hooks, o: Outcome<Ram>, t: Tally)
    requires req != [] && OneOf(r, now, req, h, o) && Agrees(now, r.security, t)
    ensures Agrees(now, o.state.security, FoldEvents(Observe, t, now, o.events))
  {
    if AsksSecurity(r, now, req, h, o) {
      KeyAgrees(r.security, now, req, h, t);
    } else {
      FoldFew(Observe, t, now, o.events);
    }
  }

  lemma RequestAgrees(s: Sys, req: bytes, addressing: Addressing, h: Hooks, t: Tally)
    requires Agrees(s.now, s.ram.security, t)
    ensures var (r, events) := Process(s.ram, s.now, req, addressing, h);
            Agrees(s.now, r.security, FoldEvents(Observe, t, s.now, events))
  {
    if req != [] {
      var r := Refreshed(s.ram, s.now);
      var o := Dispatch(r, s.now, req, addressing, h);
      DispatchCases(r, s.now, req, addressing, h);
      HandlerAgrees(r, s.now, req, h, o, t);
      FoldRequest(Observe, t, s.now, req, addressing, o);
    }
  }

  /** After a cut, or a power cycle between steps, the server boots into a state that fits the log. */
  lemma BootAgrees(nvs: map<nat, byte>, now: nat, t: Tally, cut: bool)
    requires Mirrors(nvs, t) && t.safe && t.since <= now
    requires FewCuts(t) ==> Accounted(t, if cut then 1 else 0) && t.fails <= LIMIT + t.cuts
    ensures Agrees(now, SA.Boot(nvs, now), Observe(t, Entry(now, Reboot(cut))))
  {
  }

  /** Along the events of a step, the tally accounts for all but one failure. */
  lemma {:induction false} SafePrefix(t: Tally, now: nat, events: seq<Event>)
    requires t.since <= now && (FewCuts(t) ==> Accounted(t, 1) && t.fails <= LIMIT + t.cuts)
    requires FoldEvents(Observe, t, now, events).safe
    ensures var x := FoldEvents(Observe, t, now, events);
            x.since <= now && (FewCuts(x) ==> Accounted(x, 1) && x.fails <= LIMIT + x.cuts)
  {
    if events != [] {
      SafePrefix(t, now, events[..|events| - 1]);
    }
  }

  lemma CutAgrees(nvs: map<nat, byte>, now: nat, r: SA.SecurityRam, events: seq<Event>, after: nat, t: Tally)
    requires Agrees(now, r, t) && Mirrors(nvs, t)
    requires after <= |events| && Safe(FoldEvents(Observe, t, now, events))
    ensures Agrees(now, SA.Boot(Persist(nvs, Cut(events, after)), now), FoldEvents(Observe, t, now, Cut(events, after)))
  {
    FoldCut(Observe, Safe, t, now, events, after);
    SafePrefix(t, now, events[..after]);
    StoreMirrors(nvs, t, now, events[..after]);
    PersistAppend(nvs, events[..after], Reboot(true));
    BootAgrees(Persist(nvs, events[..after]), now, FoldEvents(Observe, t, now, events[..after]), true);
  }

  lemma ExpiryAgrees(now: nat, r: SA.SecurityRam, t: Tally)
    requires Agrees(now, r, t) && r.timer.Due(now)
    ensures Agrees(now, SA.Expire(r), FoldEvents(Observe, t, now, SA.EXPIRY_EVENTS))
  {
    FoldFew(Observe, t, now, SA.EXPIRY_EVENTS);
  }

  lemma PowerCycleAgrees(nvs: map<nat, byte>, now: nat, r: SA.SecurityRam, events: seq<Event>, t: Tally)
    requires Agrees(now, r, t) && Mirrors(nvs, t)
    requires events == [Reboot(false)] || (|events| == 2 && events[0].SysReboot? && events[1] == Reboot(false))
    ensures Agrees(now, SA.Boot(Persist(nvs, events), now), FoldEvents(Observe, t, now, events))
  {
    FoldFew(Observe, t, now, events);
    BootAgrees(nvs, now, t, false);
    assert Persist(nvs, events[..|events| - 1]) == nvs;
  }

  lemma StepAgrees(s: Sys, step: Step, t: Tally)
    requires Enabled(s, step) && Agrees(s.now, s.ram.security, t) && Mirrors(s.nvs, t)
    ensures var s' := Next(s, step); Agrees(s'.now, s'.ram.security, FoldEvents(Observe, t, s.now, EventsOf(s, step)))
  {
    var r := s.ram.security;
    match step
    case Request(req, addressing, h) =>
      RequestAgrees(s, req, addressing, h, t);
    case CutRequest(req, addressing, h, after) =>
      RequestAgrees(s, req, addressing, h, t);
      CutAgrees(s.nvs, s.now, r, Process(s.ram, s.now, req, addressing, h).1, after, t);
    case LockoutFires => ExpiryAgrees(s.now, r, t);
    case CutLockoutFires(after) =>
      ExpiryAgrees(s.now, r, t);
      CutAgrees(s.nvs, s.now, r, SA.EXPIRY_EVENTS, after, t);
    case ResetFires => PowerCycleAgrees(s.nvs, s.now, r, EventsOf(s, step), t);
    case PowerCycle => PowerCycleAgrees(s.nvs, s.now, r, EventsOf(s, step), t);
    case ClearStep(_) => FoldBackground(Observe, t, s, step);
    case RoutineStep(_) => FoldBackground(Observe, t, s, step);
    case PeriodicCycle(_) => FoldBackground(Observe, t, s, step);
    case _ => FoldFew(Observe, t, s.now, EventsOf(s, step));
  }

  lemma {:induction false} TallyInEveryRun(steps: seq<Step>)
    requires Run(steps).Some?
    ensures Inv(Run(steps).value)
  {
    if steps != [] {
      var s, step := Run(steps[..|steps| - 1]).value, steps[|steps| - 1];
      var t := Fold(Observe, START, s.log);
      TallyInEveryRun(steps[..|steps| - 1]);
      StepAgrees(s, step, t);
      StoreMirrors(s.nvs, t, s.now, EventsOf(s, step));
      FoldNext(Observe, START, s, step);
    }
  }
}
