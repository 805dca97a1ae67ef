/** The session, the dynamic identifier, the periodic registry and the pending reset as functions of the
    timed requests since power-on. */
module History {
  import opened Kernel
  import opened UdsServer
  import opened UdsSystem
  import SC = SessionControl
  import SA = SecurityAccess
  import DD = DynamicDid
  import FP = FlashPipeline
  import PR = Periodic
  import ER = EcuReset

  /** What the requests since the last boot say, and nothing else: the session last asked for unless a
      gap of S3 ended it, the time of the last request, the last definition of a dynamic identifier,
      the 0x2A requests, and the kind and time of the last accepted reset request. */
  datatype Heard = Heard(
    session: Session, last: nat, definition: Option<bytes>, asks: seq<bytes>, reset: Option<(ResetKind, nat)>)

  const NOTHING := Heard(Default, 0, None, [], None)

  /** The session at a later time without further requests. */
  function SessionAt(m: Heard, now: nat): Session {
    if m.session != Default && m.last + S3_TIMEOUT_MS <= now then Default else m.session
  }

  /** The session a 0x10 request asks for, by its second byte. */
  function AskedSession(req: bytes): Option<Session> {
    if |req| >= 2 && req[1] == 0x01 then Some(Default)
    else if |req| >= 2 && req[1] == 0x02 then Some(Programming)
    else if |req| >= 2 && req[1] == 0x03 then Some(Extended)
    else None
  }

  /** The kind a 0x11 request asks for, by its second byte. */
  function AskedReset(req: bytes): Option<ResetKind> {
    if |req| >= 2 && req[1] == 0x01 then Some(Cold)
    else if |req| >= 2 && req[1] == 0x03 then Some(Warm)
    else None
  }

  function Hear(m: Heard, e: Entry): Heard {
    match e.event
    case Reboot(_) => NOTHING
    case Received(req, _) =>
      if req == [] then m
      else Heard(
        if req[0] == 0x10 && AskedSession(req).Some? then AskedSession(req).value else SessionAt(m, e.at),
        e.at,
        if req[0] == 0x2C && |req| >= 9 && req[1] == 0x01 then Some(req) else m.definition,
        if req[0] == 0x2A then m.asks + [req] else m.asks,
        if req[0] == 0x11 && AskedReset(req).Some? then Some((AskedReset(req).value, e.at)) else m.reset)
    case _ => m
  }

  predicate SessionAgrees(now: nat, r: SC.SessionRam, m: Heard) {
    if r.session != Default then
      m.session == r.session && r.s3 == Armed(m.last + S3_TIMEOUT_MS) && now <= m.last + S3_TIMEOUT_MS
    else
      r.s3 == Stopped && SessionAt(m, now) == Default
  }

  predicate Agrees(now: nat, r: Ram, m: Heard) {
    && SessionAgrees(now, r.session, m)
    && (m.definition.Some? ==> DD.Defines(m.definition.value))
    && r.dynamic == (if m.definition.Some? then DD.Definition(m.definition.value) else DD.BOOT)
    && (forall k :: 0 <= k < |m.asks| ==> m.asks[k] != [])
    && r.periodic == PR.Registry(m.asks)
    && ResetAgrees(now, r.reset, m)
  }

  predicate ResetAgrees(now: nat, r: ER.ResetRam, m: Heard) {
    match m.reset
    case None => r == ER.BOOT
    case Some((kind, at)) => r == ER.ResetRam(kind, Armed(at + ER.RESET_DELAY_MS)) && now <= at + ER.RESET_DELAY_MS
  }

  ghost predicate Inv(s: Sys) { Agrees(s.now, s.ram, Fold(Hear, NOTHING, s.log)) }

  lemma RequestAgrees(s: Sys, req: bytes, addressing: Addressing, h: Hooks, m: Heard)
    requires Settled(s) && Agrees(s.now, s.ram, m)
    ensures var (r, events) := Process(s.ram, s.now, req, addressing, h);
            Agrees(s.now, r, FoldEvents(Hear, m, s.now, events))
  {
    if req != [] {
      var r := Refreshed(s.ram, s.now);
      var o := Dispatch(r, s.now, req, addressing, h);
      DispatchMoves(r, s.now, req, addressing, h);
      DispatchDiscipline(r, s.now, req, addressing, h);
      OnlyTheRequest(s.now, req, addressing, o, m);
      HeardAgrees(s.now, s.ram, o.state, req, addressing, m);
    }
  }

  lemma OnlyTheRequest(now: nat, req: bytes, addressing: Addressing, o: Outcome<Ram>, m: Heard)
    requires req != [] && forall e :: e in o.events ==> !e.Received? && !e.Reboot?
    ensures FoldEvents(Hear, m, now, [Received(req, addressing)] + Emitted(addressing, req[0], o))
            == Hear(m, Entry(now, Received(req, addressing)))
  {
    var rest := Emitted(addressing, req[0], o);
    var m' := Hear(m, Entry(now, Received(req, addressing)));
    FoldEventsConcat(Hear, m, now, [Received(req, addressing)], rest);
    FoldFew(Hear, m, now, [Received(req, addressing)]);
    FoldIgnored(Hear, m', now, rest);
  }

  lemma HeardAgrees(now: nat, r: Ram, r': Ram, req: bytes, addressing: Addressing, m: Heard)
    requires req != [] && Agrees(now, r, m) && !r.session.s3.Due(now)
    requires r'.session == if req[0] == 0x10 && SessionOf(req).Some?
                           then SC.Set(SC.Refresh(r.session, now), now, SessionOf(req).value)
                           else SC.Refresh(r.session, now)
    requires r'.dynamic == if req[0] == 0x2C && DD.Defines(req) then DD.Definition(req) else r.dynamic
    requires r'.periodic == if req[0] == 0x2A then PR.Handle(r.periodic, req).state else r.periodic
    requires r'.reset == if req[0] == 0x11 then ER.Handle(r.reset, now, req).state else r.reset
    ensures Agrees(now, r', Hear(m, Entry(now, Received(req, addressing))))
  {
    SessionHeard(now, r.session, r'.session, req, addressing, m);
    ResetHeard(now, r.reset, r'.reset, req, addressing, m);
    RegistryHeard(m.asks, req);
  }

  lemma SessionHeard(now: nat, r: SC.SessionRam, r': SC.SessionRam, req: bytes, addressing: Addressing, m: Heard)
    requires req != [] && SessionAgrees(now, r, m) && !r.s3.Due(now)
    requires r' == if req[0] == 0x10 && SessionOf(req).Some? then SC.Set(SC.Refresh(r, now), now, SessionOf(req).value)
                   else SC.Refresh(r, now)
    ensures SessionAgrees(now, r', Hear(m, Entry(now, Received(req, addressing))))
  {
  }

  lemma ResetHeard(now: nat, r: ER.ResetRam, r': ER.ResetRam, req: bytes, addressing: Addressing, m: Heard)
    requires req != [] && ResetAgrees(now, r, m)
    requires r' == if req[0] == 0x11 then ER.Handle(r, now, req).state else r
    ensures ResetAgrees(now, r', Hear(m, Entry(now, Received(req, addressing))))
  {
  }

  lemma RegistryHeard(asks: seq<bytes>, req: bytes)
    requires req != [] && forall k :: 0 <= k < |asks| ==> asks[k] != []
    ensures PR.Registry(asks + [req]) == PR.Handle(PR.Registry(asks), req).state
  {
    assert (asks + [req])[..|asks|] == asks;
  }

  /** A boot forgets everything, whatever came before it in the step. */
  lemma BootAgrees(s: Sys, step: Step, m: Heard)
    requires Enabled(s, step) && Boots(step)
    ensures Agrees(s.now, RamAfter(s, step), FoldEvents(Hear, m, s.now, EventsOf(s, step)))
  {
    var front, cut := BootsAtReboot(s, step);
    FoldEventsAppend(Hear, m, s.now, front, Reboot(cut));
  }

  lemma TimerAgrees(s: Sys, step: Step, m: Heard)
    requires step.Wait? || step.S3Fires? || step.LockoutFires?
    requires Enabled(s, step) && Agrees(s.now, s.ram, m)
    ensures var s' := Next(s, step); Agrees(s'.now, s'.ram, FoldEvents(Hear, m, s.now, EventsOf(s, step)))
  {
    FoldFew(Hear, m, s.now, EventsOf(s, step));
  }

  lemma StepAgrees(s: Sys, step: Step, m: Heard)
    requires Enabled(s, step) && Agrees(s.now, s.ram, m)
    ensures var s' := Next(s, step); Agrees(s'.now, s'.ram, FoldEvents(Hear, m, s.now, EventsOf(s, step)))
  {
    if Boots(step) {
      BootAgrees(s, step, m);
    } else if step.Request? {
      RequestAgrees(s, step.req, step.addressing, step.hooks, m);
    } else if Background(step) {
      FoldBackground(Hear, m, s, step);
    } else {
      TimerAgrees(s, step, m);
    }
  }

  lemma {:induction false} HeardInEveryRun(steps: seq<Step>)
    requires Run(steps).Some?
    ensures Inv(Run(steps).value)
  {
    if steps != [] {
      var s, step := Run(steps[..|steps| - 1]).value, steps[|steps| - 1];
      HeardInEveryRun(steps[..|steps| - 1]);
      StepAgrees(s, step, Fold(Hear, NOTHING, s.log));
      FoldNext(Hear, NOTHING, s, step);
    }
  }

  /** In every run, whenever no S3 expiry is pending: the session is what the timed requests since
      the last boot say, the S3 timer is armed exactly in a non-default session, and then for the time
      of the last request plus S3. */
  lemma WatchdogIsATimestampRule(steps: seq<Step>, s: Sys)
    requires Run(steps) == Some(s) && !s.ram.session.s3.Due(s.now)
    ensures var m := Fold(Hear, NOTHING, s.log);
            && s.ram.session.session == SessionAt(m, s.now)
            && (s.ram.session.s3.Armed? <==> s.ram.session.session != Default)
            && (s.ram.session.s3.Armed? ==> s.ram.session.s3.deadline == m.last + S3_TIMEOUT_MS)
  {
    HeardInEveryRun(steps);
  }

  /** An S3 expiry always falls back from a non-default session exactly S3 after the last request; it
      relocks security access, but a lockout and its timer stay as they were. */
  lemma S3ExpiryRelocks(steps: seq<Step>, s: Sys)
    requires Run(steps) == Some(s) && Enabled(s, S3Fires)
    ensures var s' := Next(s, S3Fires);
            && s.ram.session.session != Default && s'.ram.session.session == Default
            && s.now == Fold(Hear, NOTHING, s.log).last + S3_TIMEOUT_MS
            && (if s.ram.security.status == SA.Lockout then s'.ram.security == s.ram.security
                else s'.ram.security == s.ram.security.(status := SA.Locked))
  {
    HeardInEveryRun(steps);
  }

  /** The slice a 0x2C request defines, by its bytes: a readable source of at most 64 bytes, a position
      counted from 1, and a length. */
  predicate DefinesSlice(define: bytes, h: Hooks, source: bytes) {
    && |define| >= 9 && define[0] == 0x2C && define[1] == 0x01
    && FP.Value(define[4..6]) in h.dids && h.dids[FP.Value(define[4..6])] == DidData(source)
    && |source| <= 64 && 1 <= define[6] && define[6] - 1 + define[7] <= |source|
  }

  /** In every run, a 0x22 request for the last defined dynamic identifier puts on the bus exactly one frame,
      with exactly the defined slice of the source, if the slice lies within the source data and the source
      can be read. */
  lemma DynamicReadsAreSlices(steps: seq<Step>, s: Sys, define: bytes, req: bytes, addressing: Addressing, h: Hooks,
                              source: bytes)
    requires Run(steps) == Some(s) && Fold(Hear, NOTHING, s.log).definition == Some(define)
    requires |req| >= 3 && req[0] == 0x22 && DefinesSlice(define, h, source)
    requires req[1] == define[2] && req[2] == define[3]
    requires Enabled(s, Request(req, addressing, h))
    ensures EventsOf(s, Request(req, addressing, h))
         == [Received(req, addressing),
             Frame([0x62, req[1], req[2]] + source[define[6] - 1..define[6] - 1 + define[7]])]
  {
    DefinedInRun(steps, s, define);
    SliceInRange(define, h, source);
    DD.SliceAnswer(define, req, h);
    ReadAnswered(s.ram, s.now, req, addressing, h);
    OneFrame(s, req, addressing, h, [0x62, req[1], req[2]] + DD.Requested(DD.RuleOf(define), h));
  }

  lemma DefinedInRun(steps: seq<Step>, s: Sys, define: bytes)
    requires Run(steps) == Some(s) && Fold(Hear, NOTHING, s.log).definition == Some(define)
    ensures DD.Defines(define) && s.ram.dynamic == DD.Definition(define)
  {
    HeardInEveryRun(steps);
  }

  lemma SliceInRange(define: bytes, h: Hooks, source: bytes)
    requires DefinesSlice(define, h, source) && DD.Defines(define)
    ensures DD.InRange(DD.RuleOf(define), h)
    ensures DD.Requested(DD.RuleOf(define), h) == source[define[6] - 1..define[6] - 1 + define[7]]
  {
    FP.ValueOfTwo(define[4..6]);
  }

  lemma ReadAnswered(r: Ram, now: nat, req: bytes, addressing: Addressing, h: Hooks)
    requires req != [] && req[0] == 0x22
    ensures Answered(r, now, req, addressing, h)
         == Outcome(Refreshed(r, now), [], DD.ReadHandle(r.dynamic, req, h).reply)
  {
  }

  lemma OneFrame(s: Sys, req: bytes, addressing: Addressing, h: Hooks, frame: bytes)
    requires req != [] && Enabled(s, Request(req, addressing, h))
    requires Answered(s.ram, s.now, req, addressing, h).events == []
    requires Answered(s.ram, s.now, req, addressing, h).reply == Positive(frame)
    ensures EventsOf(s, Request(req, addressing, h)) == [Received(req, addressing), Frame(frame)]
  {
  }

  /** In every run, a 0x22 request for any other identifier has the same effect and the same frames as if
      nothing had been defined. */
  lemma OtherReadsAreUnaffected(steps: seq<Step>, s: Sys, req: bytes, addressing: Addressing, h: Hooks)
    requires Run(steps) == Some(s) && req != [] && req[0] == 0x22 && Enabled(s, Request(req, addressing, h))
    requires var d := Fold(Hear, NOTHING, s.log).definition;
             d.Some? && |d.value| >= 4 && |req| >= 3 ==> req[1] != d.value[2] || req[2] != d.value[3]
    ensures var undefined := s.(ram := s.ram.(dynamic := DD.BOOT));
            && EventsOf(s, Request(req, addressing, h)) == EventsOf(undefined, Request(req, addressing, h))
            && RamAfter(s, Request(req, addressing, h))
               == RamAfter(undefined, Request(req, addressing, h)).(dynamic := s.ram.dynamic)
  {
    HeardInEveryRun(steps);
    assert DD.ReadHandle(s.ram.dynamic, req, h) == DD.ReadHandle(DD.BOOT, req, h);
    ReadAnswered(s.ram, s.now, req, addressing, h);
    ReadAnswered(s.ram.(dynamic := DD.BOOT), s.now, req, addressing, h);
  }

  /** In every run, the delayed reboot comes exactly 50 ms after the last accepted reset request since the
      last boot, and is of the kind that request asked for. */
  lemma ResetFollowsTheRequest(steps: seq<Step>, s: Sys)
    requires Run(steps) == Some(s) && Enabled(s, ResetFires)
    ensures var m := Fold(Hear, NOTHING, s.log);
            && m.reset.Some? && s.now == m.reset.value.1 + 50
            && EventsOf(s, ResetFires) == [SysReboot(m.reset.value.0), Reboot(false)]
  {
    HeardInEveryRun(steps);
  }

  /** In every run the periodic registry is the first five starts since the last stop, over the 0x2A
      requests since the last boot, and a non-empty registry has a callback to send with. */
  lemma RegistryFollowsHistory(steps: seq<Step>, s: Sys)
    requires Run(steps) == Some(s)
    ensures var asks := Fold(Hear, NOTHING, s.log).asks;
            var starts := PR.StartsSinceStop(asks);
            && s.ram.periodic.active == (if |starts| <= PR.SLOTS then starts else starts[..PR.SLOTS])
            && (s.ram.periodic.active != [] ==> s.ram.periodic.attached)
  {
    HeardInEveryRun(steps);
    PR.RegistryIsTheFirstStarts(Fold(Hear, NOTHING, s.log).asks);
  }
}
