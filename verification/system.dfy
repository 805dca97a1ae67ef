/** The server in its world, over any number of boots: requests, timer callbacks, background work,
    the passing of time, power cycles, and power cuts in the middle of a handler. */
module UdsSystem {
  import opened Kernel
  import opened UdsServer
  import SC = SessionControl
  import SA = SecurityAccess
  import FP = FlashPipeline
  import CD = ClearDtc
  import RC = RoutineControl
  import PR = Periodic
  import DD = DynamicDid
  import ER = EcuReset

  datatype Entry = Entry(at: nat, event: Event)

  datatype Sys = Sys(now: nat, ram: Ram, nvs: map<nat, byte>, log: seq<Entry>)

  /** The first power-on, with an empty store. */
  const POWER_ON := Sys(0, Boot(map[], 0), map[], [])

  /** `after` is how many events of the interrupted handler still happen before the power fails. */
  datatype Step =
    | Wait(duration: nat)
    | Request(req: bytes, addressing: Addressing, hooks: Hooks)
    | CutRequest(req: bytes, addressing: Addressing, hooks: Hooks, after: nat)
    | S3Fires
    | LockoutFires
    | CutLockoutFires(after: nat)
    | ResetFires
    | PowerCycle
    | ClearStep(clear: CD.Step)
    | RoutineStep(routine: RC.Step)
    | PeriodicCycle(answers: seq<Option<bytes>>)

  /** No timer interrupt is pending, so thread code can run. */
  predicate Settled(s: Sys) {
    !s.ram.session.s3.Due(s.now) && !s.ram.security.timer.Due(s.now) && !s.ram.reset.timer.Due(s.now)
  }

  predicate NotBefore(t: Timer, now: nat) { t.Armed? ==> now <= t.deadline }

  predicate Enabled(s: Sys, step: Step) {
    match step
    case Wait(d) =>
      && NotBefore(s.ram.session.s3, s.now + d)
      && NotBefore(s.ram.security.timer, s.now + d)
      && NotBefore(s.ram.reset.timer, s.now + d)
    case Request(_, _, _) => Settled(s) && RC.RequestsCanRun(s.ram.routine)
    case CutRequest(req, addressing, h, after) =>
      Settled(s) && RC.RequestsCanRun(s.ram.routine) && after <= |Process(s.ram, s.now, req, addressing, h).1|
    case S3Fires => s.ram.session.s3.Due(s.now)
    case LockoutFires => s.ram.security.timer.Due(s.now)
    case CutLockoutFires(after) => s.ram.security.timer.Due(s.now) && after <= |SA.EXPIRY_EVENTS|
    case ResetFires => s.ram.reset.timer.Due(s.now)
    case PowerCycle => true
    case ClearStep(c) => CD.Enabled(s.ram.clear, c)
    case RoutineStep(c) => RC.Enabled(s.ram.routine, c)
    case PeriodicCycle(_) => true
  }

  function ClearFrames(notes: seq<CD.Note>): seq<Event> {
    if notes == [] then [] else ClearFrames(notes[..|notes| - 1]) + CD.FramesOf(notes[|notes| - 1])
  }

  function RoutineFrames(notes: seq<RC.Note>): seq<Event> {
    if notes == [] then [] else RoutineFrames(notes[..|notes| - 1]) + RC.FramesOf(notes[|notes| - 1])
  }

  function Stamp(now: nat, events: seq<Event>): (es: seq<Entry>)
    ensures |es| == |events|
  {
    seq(|events|, i requires 0 <= i < |events| => Entry(now, events[i]))
  }

  /** A handler whose power fails: only its first events happen, then the reboot. */
  function Cut(events: seq<Event>, after: nat): seq<Event>
    requires after <= |events|
  {
    events[..after] + [Reboot(true)]
  }

  /** A boot finds the store as the events before it left it. */
  function Booted(s: Sys, events: seq<Event>): (Ram, seq<Event>) {
    (Boot(Persist(s.nvs, events), s.now), events)
  }

  /** The RAM a step leaves, and what it adds to the log. */
  function Effect(s: Sys, step: Step): (Ram, seq<Event>)
    requires Enabled(s, step)
  {
    match step
    case Wait(_) => (s.ram, [])
    case Request(req, addressing, h) => Process(s.ram, s.now, req, addressing, h)
    case CutRequest(req, addressing, h, after) => Booted(s, Cut(Process(s.ram, s.now, req, addressing, h).1, after))
    case S3Fires =>
      if s.ram.session.session != Default then
        (s.ram.(session := SC.Expire(s.ram.session), security := SA.ResetLock(s.ram.security)), [S3Expired])
      else (s.ram.(session := SC.Expire(s.ram.session)), [])
    case LockoutFires => (s.ram.(security := SA.Expire(s.ram.security)), SA.EXPIRY_EVENTS)
    case CutLockoutFires(after) => Booted(s, Cut(SA.EXPIRY_EVENTS, after))
    case ResetFires => Booted(s, [SysReboot(s.ram.reset.kind), Reboot(false)])
    case PowerCycle => Booted(s, [Reboot(false)])
    case ClearStep(c) => (s.ram.(clear := CD.Next(s.ram.clear, c)), ClearFrames(CD.NotesOf(s.ram.clear, c)))
    case RoutineStep(c) => (s.ram.(routine := RC.Next(s.ram.routine, c)), RoutineFrames(RC.NotesOf(s.ram.routine, c)))
    case PeriodicCycle(answers) => (s.ram, PR.CycleEvents(s.ram.periodic, answers))
  }

  function EventsOf(s: Sys, step: Step): seq<Event>
    requires Enabled(s, step)
  {
    Effect(s, step).1
  }

  function RamAfter(s: Sys, step: Step): Ram
    requires Enabled(s, step)
  {
    Effect(s, step).0
  }

  predicate Boots(step: Step) {
    step.CutRequest? || step.CutLockoutFires? || step.ResetFires? || step.PowerCycle?
  }

  lemma BootsAtReboot(s: Sys, step: Step) returns (front: seq<Event>, cut: bool)
    requires Enabled(s, step) && Boots(step)
    ensures EventsOf(s, step) == front + [Reboot(cut)]
    ensures RamAfter(s, step) == Boot(Persist(s.nvs, EventsOf(s, step)), s.now)
  {
    var events := EventsOf(s, step);
    front, cut := events[..|events| - 1], step.CutRequest? || step.CutLockoutFires?;
  }

  predicate Background(step: Step) { step.ClearStep? || step.RoutineStep? || step.PeriodicCycle? }

  function Next(s: Sys, step: Step): Sys
    requires Enabled(s, step)
  {
    var events := EventsOf(s, step);
    Sys(if step.Wait? then s.now + step.duration else s.now,
        RamAfter(s, step), Persist(s.nvs, events), s.log + Stamp(s.now, events))
  }

  /** Where a sequence of steps from the first power-on leads, if every step is possible. */
  function Run(steps: seq<Step>): Option<Sys> {
    if steps == [] then Some(POWER_ON)
    else
      var before := Run(steps[..|steps| - 1]);
      var step := steps[|steps| - 1];
      if before.Some? && Enabled(before.value, step) then Some(Next(before.value, step)) else None
  }

  lemma RunAppend(steps: seq<Step>, s: Sys, step: Step)
    requires Run(steps) == Some(s) && Enabled(s, step)
    ensures Run(steps + [step]) == Some(Next(s, step))
  {
    assert (steps + [step])[..|steps|] == steps;
  }

  lemma RunLast(before: seq<Step>, more: seq<Step>) returns (s: Sys)
    requires more != [] && Run(before + more).Some?
    ensures Run(before + more[..|more| - 1]) == Some(s)
    ensures Enabled(s, more[|more| - 1]) && Run(before + more) == Some(Next(s, more[|more| - 1]))
  {
    assert (before + more)[..|before + more| - 1] == before + more[..|more| - 1];
    s := Run(before + more[..|more| - 1]).value;
  }

  /** A summary of a log, computed entry by entry. */
  function Fold<M>(f: (M, Entry) -> M, m: M, log: seq<Entry>): M {
    if log == [] then m else f(Fold(f, m, log[..|log| - 1]), log[|log| - 1])
  }

  lemma FoldAppend<M>(f: (M, Entry) -> M, m: M, log: seq<Entry>, e: Entry)
    ensures Fold(f, m, log + [e]) == f(Fold(f, m, log), e)
  {
    assert (log + [e])[..|log|] == log;
  }

  /** The same summary over the events of one step. */
  function FoldEvents<M>(f: (M, Entry) -> M, m: M, now: nat, events: seq<Event>): M {
    if events == [] then m
    else f(FoldEvents(f, m, now, events[..|events| - 1]), Entry(now, events[|events| - 1]))
  }

  lemma {:induction false} FoldStamp<M>(f: (M, Entry) -> M, m: M, log: seq<Entry>, now: nat, events: seq<Event>)
    ensures Fold(f, m, log + Stamp(now, events)) == FoldEvents(f, Fold(f, m, log), now, events)
  {
    if events == [] {
      assert log + Stamp(now, events) == log;
    } else {
      var front := events[..|events| - 1];
      FoldStamp(f, m, log, now, front);
      var full := log + Stamp(now, events);
      assert full[..|full| - 1] == log + Stamp(now, front);
    }
  }

  /** What a step adds to a summary of the log. */
  lemma FoldNext<M>(f: (M, Entry) -> M, m: M, s: Sys, step: Step)
    requires Enabled(s, step)
    ensures Fold(f, m, Next(s, step).log) == FoldEvents(f, Fold(f, m, s.log), s.now, EventsOf(s, step))
  {
    FoldStamp(f, m, s.log, s.now, EventsOf(s, step));
  }

  lemma {:induction false} FoldEventsConcat<M>(f: (M, Entry) -> M, m: M, now: nat, a: seq<Event>, b: seq<Event>)
    ensures FoldEvents(f, m, now, a + b) == FoldEvents(f, FoldEvents(f, m, now, a), now, b)
  {
    if b == [] {
      assert a + b == a;
    } else {
      var front := b[..|b| - 1];
      FoldEventsConcat(f, m, now, a, front);
      assert (a + b)[..|a + b| - 1] == a + front;
    }
  }

  lemma FoldEventsAppend<M>(f: (M, Entry) -> M, m: M, now: nat, events: seq<Event>, e: Event)
    ensures FoldEvents(f, m, now, events + [e]) == f(FoldEvents(f, m, now, events), Entry(now, e))
  {
    assert (events + [e])[..|events|] == events;
  }

  lemma FoldFew<M>(f: (M, Entry) -> M, m: M, now: nat, events: seq<Event>)
    ensures events == [] ==> FoldEvents(f, m, now, events) == m
    ensures |events| == 1 ==> FoldEvents(f, m, now, events) == f(m, Entry(now, events[0]))
    ensures |events| == 2 ==>
              FoldEvents(f, m, now, events) == f(f(m, Entry(now, events[0])), Entry(now, events[1]))
    ensures |events| == 3 ==>
              FoldEvents(f, m, now, events)
              == f(f(f(m, Entry(now, events[0])), Entry(now, events[1])), Entry(now, events[2]))
  {
    if events != [] {
      var e2 := events[..|events| - 1];
      if e2 != [] {
        var e1 := e2[..|e2| - 1];
        if e1 != [] {
          assert e1[..|e1| - 1] == e2[..|e1| - 1];
        }
      }
    }
  }

  /** Events a summary ignores leave it as it was. */
  lemma {:induction false} FoldIgnored<M>(f: (M, Entry) -> M, m: M, now: nat, events: seq<Event>)
    requires forall k :: 0 <= k < |events| ==> f(m, Entry(now, events[k])) == m
    ensures FoldEvents(f, m, now, events) == m
  {
    if events != [] {
      FoldIgnored(f, m, now, events[..|events| - 1]);
    }
  }

  ghost predicate IgnoresTraffic<M(!new)>(f: (M, Entry) -> M) {
    && (forall m: M, t: nat, req: bytes, a: Addressing :: f(m, Entry(t, Received(req, a))) == m)
    && (forall m: M, t: nat, data: bytes :: f(m, Entry(t, Frame(data))) == m)
  }

  /** A request's summary: the request, what the handler does, and its answer. */
  lemma FoldHandled<M>(f: (M, Entry) -> M, m: M, now: nat, req: bytes, addressing: Addressing, o: Outcome<Ram>)
    requires req != []
    ensures FoldEvents(f, m, now, [Received(req, addressing)] + Emitted(addressing, req[0], o))
         == FoldEvents(f, FoldEvents(f, f(m, Entry(now, Received(req, addressing))), now, o.events), now,
                       Transmit(addressing, req[0], o.reply))
  {
    var sent := Transmit(addressing, req[0], o.reply);
    FoldEventsConcat(f, m, now, [Received(req, addressing)], o.events + sent);
    FoldFew(f, m, now, [Received(req, addressing)]);
    FoldEventsConcat(f, f(m, Entry(now, Received(req, addressing))), now, o.events, sent);
  }

  /** A summary that ignores requests and frames sees only what the handler does in between. */
  lemma FoldRequest<M(!new)>(f: (M, Entry) -> M, m: M, now: nat, req: bytes, addressing: Addressing, o: Outcome<Ram>)
    requires req != [] && IgnoresTraffic(f)
    ensures FoldEvents(f, m, now, [Received(req, addressing)] + Emitted(addressing, req[0], o))
         == FoldEvents(f, m, now, o.events)
  {
    FoldHandled(f, m, now, req, addressing, o);
    FoldIgnored(f, FoldEvents(f, m, now, o.events), now, Transmit(addressing, req[0], o.reply));
  }

  /** If a summary never recovers from a bad state, a prefix of a good log is good. */
  lemma {:induction false} FoldPrefix<M(!new)>(f: (M, Entry) -> M, good: M -> bool, m: M, now: nat,
                                               events: seq<Event>, k: nat)
    requires k <= |events| && good(FoldEvents(f, m, now, events))
    requires forall x: M, e: Entry :: good(f(x, e)) ==> good(x)
    ensures good(FoldEvents(f, m, now, events[..k]))
    decreases |events|
  {
    if k == |events| {
      assert events[..k] == events;
    } else {
      var front := events[..|events| - 1];
      FoldPrefix(f, good, m, now, front, k);
      assert front[..k] == events[..k];
    }
  }

  /** A cut leaves a good prefix and then the reboot. */
  lemma FoldCut<M(!new)>(f: (M, Entry) -> M, good: M -> bool, m: M, now: nat, events: seq<Event>, after: nat)
    requires after <= |events| && good(FoldEvents(f, m, now, events))
    requires forall x: M, e: Entry :: good(f(x, e)) ==> good(x)
    ensures var x := FoldEvents(f, m, now, events[..after]);
            && good(x)
            && FoldEvents(f, m, now, Cut(events, after)) == f(x, Entry(now, Reboot(true)))
  {
    FoldPrefix(f, good, m, now, events, after);
    FoldEventsAppend(f, m, now, events[..after], Reboot(true));
  }

  lemma {:induction false} FoldLogPrefix<M(!new)>(f: (M, Entry) -> M, good: M -> bool, m: M, log: seq<Entry>, k: nat)
    requires k <= |log| && good(Fold(f, m, log))
    requires forall x: M, e: Entry :: good(f(x, e)) ==> good(x)
    ensures good(Fold(f, m, log[..k]))
    decreases |log|
  {
    if k == |log| {
      assert log[..k] == log;
    } else {
      var front := log[..|log| - 1];
      FoldLogPrefix(f, good, m, front, k);
      assert front[..k] == log[..k];
    }
  }

  /** And each entry of a good log leaves it good. */
  lemma FoldLogEntry<M(!new)>(f: (M, Entry) -> M, good: M -> bool, m: M, log: seq<Entry>, k: nat)
    requires k < |log| && good(Fold(f, m, log))
    requires forall x: M, e: Entry :: good(f(x, e)) ==> good(x)
    ensures Fold(f, m, log[..k + 1]) == f(Fold(f, m, log[..k]), log[k])
    ensures good(Fold(f, m, log[..k])) && good(f(Fold(f, m, log[..k]), log[k]))
  {
    FoldLogPrefix(f, good, m, log, k);
    FoldLogPrefix(f, good, m, log, k + 1);
    assert log[..k + 1] == log[..k] + [log[k]];
    FoldAppend(f, m, log[..k], log[k]);
  }

  // ----- What a request can do, service by service

  /** Nothing but components outside session, security and flash may have moved. */
  predicate Neutral(r: Ram, o: Outcome<Ram>) {
    o.events == [] && o.state.session == r.session && o.state.security == r.security && o.state.flash == r.flash
  }

  predicate SetsSession(r: Ram, now: nat, req: bytes, o: Outcome<Ram>)
    requires req != []
  {
    && req[0] == 0x10 && SessionOf(req).Some?
    && o.events == [SessionSet(SessionOf(req).value)]
    && o.state == r.(security := SA.ResetLock(r.security), session := SC.Set(r.session, now, SessionOf(req).value))
  }

  predicate AsksSecurity(r: Ram, now: nat, req: bytes, h: Hooks, o: Outcome<Ram>)
    requires req != []
  {
    && req[0] == 0x27
    && var so := SA.Handle(r.security, now, req, h);
       o == Outcome(r.(security := so.state), so.events, so.reply)
  }

  predicate CallsGatedHook(r: Ram, o: Outcome<Ram>) {
    && o.state == r && |o.events| == 1 && (o.events[0].WriteDid? || o.events[0].IoControl?)
    && r.session.session == Extended && IsUnlocked(r)
  }

  predicate MovesFlash(r: Ram, req: bytes, h: Hooks, o: Outcome<Ram>)
    requires req != []
  {
    && (req[0] == 0x34 || req[0] == 0x36 || req[0] == 0x37)
    && var fo := if req[0] == 0x34 then FP.RequestDownload(r.flash, r.session.session, IsUnlocked(r), req, h)
                 else if req[0] == 0x36 then FP.TransferData(r.flash, req, h)
                 else FP.RequestTransferExit(r.flash, req);
       o == Outcome(r.(flash := fo.state), fo.events, fo.reply)
  }

  /** The session is chosen by 0x10 requests only. */
  predicate SessionKept(req: bytes, r: Ram, o: Outcome<Ram>)
    requires req != []
  {
    !(req[0] == 0x10 && SessionOf(req).Some?) && o.state.session == r.session
  }

  predicate OneOf(r: Ram, now: nat, req: bytes, h: Hooks, o: Outcome<Ram>)
    requires req != []
  {
    || AsksSecurity(r, now, req, h, o)
    || ((o.reply.Positive? ==> o.reply.frame != [] && o.reply.frame[0] != 0x67)
        && (|| (Neutral(r, o) && SessionKept(req, r, o))
            || SetsSession(r, now, req, o)
            || (CallsGatedHook(r, o) && SessionKept(req, r, o))
            || MovesFlash(r, req, h, o)))
  }

  lemma DispatchCases(r: Ram, now: nat, req: bytes, addressing: Addressing, h: Hooks)
    requires req != []
    ensures OneOf(r, now, req, h, Dispatch(r, now, req, addressing, h))
  {
    if req[0] in {0x27, 0x34, 0x36, 0x37} {
      SecurityAndFlashCases(r, now, req, addressing, h);
    } else {
      OtherCases(r, now, req, addressing, h);
    }
  }

  lemma SecurityAndFlashCases(r: Ram, now: nat, req: bytes, addressing: Addressing, h: Hooks)
    requires req != [] && req[0] in {0x27, 0x34, 0x36, 0x37}
    ensures OneOf(r, now, req, h, Dispatch(r, now, req, addressing, h))
  {
  }

  lemma OtherCases(r: Ram, now: nat, req: bytes, addressing: Addressing, h: Hooks)
    requires req != [] && req[0] !in {0x27, 0x34, 0x36, 0x37}
    ensures OneOf(r, now, req, h, Dispatch(r, now, req, addressing, h))
  {
  }

  /** Which requests move the session, the definitions, the registry and the background services. */
  lemma DispatchMoves(r: Ram, now: nat, req: bytes, addressing: Addressing, h: Hooks)
    requires req != []
    ensures var s := Dispatch(r, now, req, addressing, h).state;
            && s.session == (if req[0] == 0x10 && SessionOf(req).Some? then SC.Set(r.session, now, SessionOf(req).value)
                             else r.session)
            && s.dynamic == (if req[0] == 0x2C && DD.Defines(req) then DD.Definition(req) else r.dynamic)
            && s.periodic == (if req[0] == 0x2A then PR.Handle(r.periodic, req).state else r.periodic)
            && s.clear == (if req[0] == 0x14 then CD.Handle(r.clear, req).state else r.clear)
            && s.routine == (if req[0] == 0x31 then RC.Handle(r.routine, r.session.session, req, h).state
                             else r.routine)
            && s.reset == (if req[0] == 0x11 then ER.Handle(r.reset, now, req).state else r.reset)
  {
  }

  /** The frames background work sends. */
  predicate Asynchronous(data: bytes) { data != [] && data[0] in {0x2A, 0x54, 0x71, 0x7F} }

  predicate FromBackground(e: Event) { e.Sampled? || (e.Frame? && Asynchronous(e.data)) }

  lemma BackgroundEvents(s: Sys, step: Step)
    requires Enabled(s, step) && Background(step)
    ensures forall e :: e in EventsOf(s, step) ==> FromBackground(e)
  {
    match step
    case ClearStep(c) => ClearFramesOnly(CD.NotesOf(s.ram.clear, c));
    case RoutineStep(c) => RoutineFramesOnly(RC.NotesOf(s.ram.routine, c));
    case PeriodicCycle(answers) => PR.OnlySamples(s.ram.periodic.active, answers);
  }

  /** So a summary that ignores such events is untouched by it. */
  lemma FoldBackground<M(!new)>(f: (M, Entry) -> M, m: M, s: Sys, step: Step)
    requires Enabled(s, step) && Background(step)
    requires forall e: Event :: FromBackground(e) ==> f(m, Entry(s.now, e)) == m
    ensures FoldEvents(f, m, s.now, EventsOf(s, step)) == m
  {
    var events := EventsOf(s, step);
    BackgroundEvents(s, step);
    forall k | 0 <= k < |events| ensures f(m, Entry(s.now, events[k])) == m {
      assert events[k] in events;
    }
    FoldIgnored(f, m, s.now, events);
  }

  lemma ClearFramesOnly(notes: seq<CD.Note>)
    ensures forall e :: e in ClearFrames(notes) ==> e.Frame? && Asynchronous(e.data)
  {
  }

  lemma RoutineFramesOnly(notes: seq<RC.Note>)
    ensures forall e :: e in RoutineFrames(notes) ==> e.Frame? && Asynchronous(e.data)
  {
  }
}
