/** The two background services inside every run: their protocols, and their frames on the bus. */
module BackgroundServices {
  import opened Kernel
  import opened UdsServer
  import opened UdsSystem
  import CD = ClearDtc
  import RC = RoutineControl
  import PR = Periodic

  /** The asynchronous frames of the two services on the bus since the last boot, in order. */
  datatype Bus = Bus(clear: seq<Event>, routine: seq<Event>)

  const QUIET := Bus([], [])

  const CLEARED: bytes := [0x54]
  const CLEAR_PENDING: bytes := [0x7F, 0x14, NRC_RESPONSE_PENDING]
  const ROUTINE_PENDING: bytes := [0x7F, 0x31, NRC_RESPONSE_PENDING]

  predicate IsFinal(data: bytes) { |data| == 5 && data[0] == 0x71 && data[1] == 1 }

  predicate IsClearFrame(e: Event) { e == Frame(CLEARED) || e == Frame(CLEAR_PENDING) }

  predicate IsRoutineFrame(e: Event) { e.Frame? && (IsFinal(e.data) || e.data == ROUTINE_PENDING) }

  function Hear(b: Bus, e: Entry): Bus {
    if e.event.Reboot? then QUIET
    else if IsClearFrame(e.event) then b.(clear := b.clear + [e.event])
    else if IsRoutineFrame(e.event) then b.(routine := b.routine + [e.event])
    else b
  }

  /** The bus carries exactly the frames of the services' notes, in the order of the notes. */
  predicate SameFrames(r: Ram, b: Bus) {
    b.clear == ClearFrames(r.clear.log) && b.routine == RoutineFrames(r.routine.log)
  }

  ghost predicate Agrees(r: Ram, b: Bus, allowance: nat) {
    CD.Inv(r.clear, allowance) && RC.Inv(r.routine) && SameFrames(r, b)
  }

  ghost predicate Inv(s: Sys, allowance: nat) { Agrees(s.ram, Fold(Hear, QUIET, s.log), allowance) }

  // ----- Synchronous answers are never mistaken for asynchronous ones

  lemma SyncIsNotAsync(r: Ram, now: nat, req: bytes, addressing: Addressing, h: Hooks)
    requires req != []
    ensures forall e :: e in Transmit(addressing, req[0], Dispatch(r, now, req, addressing, h).reply) ==>
              e.Frame? && !IsClearFrame(e) && !IsRoutineFrame(e)
  {
    DispatchDiscipline(r, now, req, addressing, h);
    DispatchNegatives(r, now, req, addressing, h);
  }

  lemma DispatchNegatives(r: Ram, now: nat, req: bytes, addressing: Addressing, h: Hooks)
    requires req != []
    ensures var reply := Dispatch(r, now, req, addressing, h).reply;
            && (reply.Negative? && reply.nrc == NRC_RESPONSE_PENDING ==> req[0] == 0x22)
            && (reply.Positive? ==> req[0] != 0x14)
            && (reply.Positive? && req[0] == 0x31 ==> |reply.frame| == 6)
  {
  }

  lemma RequestFrames(s: Sys, req: bytes, addressing: Addressing, h: Hooks, b: Bus)
    requires req != []
    ensures FoldEvents(Hear, b, s.now, Process(s.ram, s.now, req, addressing, h).1) == b
  {
    var r := Refreshed(s.ram, s.now);
    DispatchDiscipline(r, s.now, req, addressing, h);
    SyncIsNotAsync(r, s.now, req, addressing, h);
    NothingHeard(s.now, req, addressing, Dispatch(r, s.now, req, addressing, h), b);
  }

  lemma NothingHeard(now: nat, req: bytes, addressing: Addressing, o: Outcome<Ram>, b: Bus)
    requires req != []
    requires forall e :: e in o.events ==> !e.Frame? && !e.Received? && !e.Reboot?
    requires forall e :: e in Transmit(addressing, req[0], o.reply) ==>
               e.Frame? && !IsClearFrame(e) && !IsRoutineFrame(e)
    ensures FoldEvents(Hear, b, now, [Received(req, addressing)] + Emitted(addressing, req[0], o)) == b
  {
    FoldIgnored(Hear, b, now, [Received(req, addressing)] + Emitted(addressing, req[0], o));
  }

  // ----- The frames of notes

  lemma {:induction false} ClearFramesConcat(a: seq<CD.Note>, b: seq<CD.Note>)
    ensures ClearFrames(a + b) == ClearFrames(a) + ClearFrames(b)
  {
    if b == [] {
      assert a + b == a;
    } else {
      var front := b[..|b| - 1];
      ClearFramesConcat(a, front);
      assert (a + b)[..|a + b| - 1] == a + front;
      Regroup(ClearFrames(a), ClearFrames(front), CD.FramesOf(b[|b| - 1]));
    }
  }

  lemma {:induction false} RoutineFramesConcat(a: seq<RC.Note>, b: seq<RC.Note>)
    ensures RoutineFrames(a + b) == RoutineFrames(a) + RoutineFrames(b)
  {
    if b == [] {
      assert a + b == a;
    } else {
      var front := b[..|b| - 1];
      RoutineFramesConcat(a, front);
      assert (a + b)[..|a + b| - 1] == a + front;
      Regroup(RoutineFrames(a), RoutineFrames(front), RC.FramesOf(b[|b| - 1]));
    }
  }

  lemma ClearFramesKind(notes: seq<CD.Note>)
    ensures forall e :: e in ClearFrames(notes) ==> IsClearFrame(e)
  {
  }

  lemma RoutineFramesKind(notes: seq<RC.Note>)
    ensures forall e :: e in RoutineFrames(notes) ==> IsRoutineFrame(e)
  {
  }

  lemma {:induction false} HearClear(b: Bus, now: nat, events: seq<Event>)
    requires forall k :: 0 <= k < |events| ==> IsClearFrame(events[k])
    ensures FoldEvents(Hear, b, now, events) == b.(clear := b.clear + events)
  {
    if events == [] {
      assert b.clear + events == b.clear;
    } else {
      var front, e := events[..|events| - 1], events[|events| - 1];
      HearClear(b, now, front);
      assert b.clear + events == b.clear + front + [e];
    }
  }

  lemma {:induction false} HearRoutine(b: Bus, now: nat, events: seq<Event>)
    requires forall k :: 0 <= k < |events| ==> IsRoutineFrame(events[k]) && !IsClearFrame(events[k])
    ensures FoldEvents(Hear, b, now, events) == b.(routine := b.routine + events)
  {
    if events == [] {
      assert b.routine + events == b.routine;
    } else {
      var front, e := events[..|events| - 1], events[|events| - 1];
      HearRoutine(b, now, front);
      assert b.routine + events == b.routine + front + [e];
    }
  }

  // ----- Handlers add notes that stand for no frame

  lemma ClearHandleFrames(r: CD.ClearRam, req: bytes)
    requires req != []
    ensures ClearFrames(CD.Handle(r, req).state.log) == ClearFrames(r.log)
  {
    if |req| == 4 {
      ClearSilent(r.log, if CD.WorkPending(r) then CD.Refused else CD.Accepted(CD.Group(req)));
    }
  }

  lemma ClearSilent(log: seq<CD.Note>, n: CD.Note)
    requires CD.FramesOf(n) == []
    ensures ClearFrames(log + [n]) == ClearFrames(log)
  {
    assert (log + [n])[..|log|] == log;
  }

  lemma RoutineHandleFrames(r: RC.RoutineRam, session: Session, req: bytes, h: Hooks)
    requires req != []
    ensures RoutineFrames(RC.Handle(r, session, req, h).state.log) == RoutineFrames(r.log)
  {
    if session != Default && |req| >= 4 && req[1] == 1 {
      RoutineSilent(r.log, if r.status == RC.Running then RC.Refused else RC.Accepted(Word16(req[2], req[3])));
    }
  }

  lemma RoutineSilent(log: seq<RC.Note>, n: RC.Note)
    requires RC.FramesOf(n) == []
    ensures RoutineFrames(log + [n]) == RoutineFrames(log)
  {
    assert (log + [n])[..|log|] == log;
  }

  lemma RequestAgrees(s: Sys, req: bytes, addressing: Addressing, h: Hooks, b: Bus, allowance: nat)
    requires RC.RequestsCanRun(s.ram.routine) && Agrees(s.ram, b, allowance)
    ensures var (ram, events) := Process(s.ram, s.now, req, addressing, h);
            Agrees(ram, FoldEvents(Hear, b, s.now, events), allowance)
  {
    if req != [] {
      var r := Refreshed(s.ram, s.now);
      DispatchMoves(r, s.now, req, addressing, h);
      CD.HandleKeeps(r.clear, req, allowance);
      RC.HandleKeeps(r.routine, r.session.session, req, h);
      ClearHandleFrames(r.clear, req);
      RoutineHandleFrames(r.routine, r.session.session, req, h);
      RequestFrames(s, req, addressing, h, b);
    }
  }

  // ----- Background steps add notes and their frames

  lemma ClearStepAgrees(r: Ram, c: CD.Step, now: nat, b: Bus, allowance: nat)
    requires CD.Enabled(r.clear, c) && Agrees(r, b, allowance) && (CD.SplitsCallback(c) ==> allowance >= 1)
    ensures Agrees(r.(clear := CD.Next(r.clear, c)),
                   FoldEvents(Hear, b, now, ClearFrames(CD.NotesOf(r.clear, c))), allowance)
  {
    var notes := CD.NotesOf(r.clear, c);
    CD.StepKeeps(r.clear, c, allowance);
    ClearFramesConcat(r.clear.log, notes);
    ClearFramesKind(notes);
    HearClear(b, now, ClearFrames(notes));
  }

  lemma RoutineNextLog(r: RC.RoutineRam, c: RC.Step)
    requires RC.Enabled(r, c)
    ensures RC.Next(r, c).log == r.log + RC.NotesOf(r, c)
  {
  }

  lemma RoutineStepAgrees(r: Ram, c: RC.Step, now: nat, b: Bus, allowance: nat)
    requires RC.Enabled(r.routine, c) && Agrees(r, b, allowance)
    ensures Agrees(r.(routine := RC.Next(r.routine, c)),
                   FoldEvents(Hear, b, now, RoutineFrames(RC.NotesOf(r.routine, c))), allowance)
  {
    var notes := RC.NotesOf(r.routine, c);
    RC.StepKeeps(r.routine, c);
    RoutineNextLog(r.routine, c);
    RoutineFramesConcat(r.routine.log, notes);
    RoutineFramesKind(notes);
    HearRoutine(b, now, RoutineFrames(notes));
  }

  lemma SampleFramesUnheard(active: bytes, answers: seq<Option<bytes>>)
    ensures forall e :: e in PR.SampleEvents(active, answers) ==> !e.Reboot? && !IsClearFrame(e) && !IsRoutineFrame(e)
  {
    PR.OnlySamples(active, answers);
    forall e | PR.IsSample(e) ensures !e.Reboot? && !IsClearFrame(e) && !IsRoutineFrame(e) {
      assert CLEARED[0] == 0x54 && CLEAR_PENDING[0] == ROUTINE_PENDING[0] == 0x7F;
    }
  }

  lemma CycleUnheard(r: PR.PeriodicRam, answers: seq<Option<bytes>>, now: nat, b: Bus)
    ensures FoldEvents(Hear, b, now, PR.CycleEvents(r, answers)) == b
  {
    SampleFramesUnheard(r.active, answers);
    FoldIgnored(Hear, b, now, PR.CycleEvents(r, answers));
  }

  lemma RebootForgets(b: Bus, now: nat, events: seq<Event>, cut: bool)
    ensures FoldEvents(Hear, b, now, events + [Reboot(cut)]) == QUIET
  {
    FoldEventsAppend(Hear, b, now, events, Reboot(cut));
  }

  lemma BootAgrees(nvs: map<nat, byte>, now: nat, allowance: nat)
    ensures Agrees(Boot(nvs, now), QUIET, allowance)
  {
  }

  lemma BootStepAgrees(s: Sys, step: Step, b: Bus, allowance: nat)
    requires Enabled(s, step) && Boots(step)
    ensures Agrees(RamAfter(s, step), FoldEvents(Hear, b, s.now, EventsOf(s, step)), allowance)
  {
    var front, cut := BootsAtReboot(s, step);
    RebootForgets(b, s.now, front, cut);
    BootAgrees(Persist(s.nvs, EventsOf(s, step)), s.now, allowance);
  }

  lemma StepAgrees(s: Sys, step: Step, b: Bus, allowance: nat)
    requires Enabled(s, step) && Agrees(s.ram, b, allowance)
    requires step.ClearStep? && CD.SplitsCallback(step.clear) ==> allowance >= 1
    ensures Agrees(RamAfter(s, step), FoldEvents(Hear, b, s.now, EventsOf(s, step)), allowance)
  {
    if Boots(step) {
      BootStepAgrees(s, step, b, allowance);
    } else if step.Request? {
      RequestAgrees(s, step.req, step.addressing, step.hooks, b, allowance);
    } else if step.ClearStep? {
      ClearStepAgrees(s.ram, step.clear, s.now, b, allowance);
    } else if step.RoutineStep? {
      RoutineStepAgrees(s.ram, step.routine, s.now, b, allowance);
    } else if step.PeriodicCycle? {
      CycleUnheard(s.ram.periodic, step.answers, s.now, b);
    } else {
      FoldFew(Hear, b, s.now, EventsOf(s, step));
    }
  }

  /** Timer callbacks of service 0x14 are split only if the allowance is at least 1. */
  predicate Splitting(steps: seq<Step>, allowance: nat) {
    forall k :: 0 <= k < |steps| && steps[k].ClearStep? && CD.SplitsCallback(steps[k].clear) ==> allowance >= 1
  }

  lemma {:induction false} ProtocolsInEveryRun(steps: seq<Step>, allowance: nat)
    requires Run(steps).Some? && Splitting(steps, allowance)
    ensures Inv(Run(steps).value, allowance)
  {
    if steps != [] {
      var s, step := Run(steps[..|steps| - 1]).value, steps[|steps| - 1];
      ProtocolsInEveryRun(steps[..|steps| - 1], allowance);
      StepAgrees(s, step, Fold(Hear, QUIET, s.log), allowance);
      FoldNext(Hear, QUIET, s, step);
    }
  }

  // ----- Counting frames

  function CountFrames(events: seq<Event>, data: bytes): nat {
    if events == [] then 0
    else CountFrames(events[..|events| - 1], data) + if events[|events| - 1] == Frame(data) then 1 else 0
  }

  lemma CountAppend(events: seq<Event>, e: Event, data: bytes)
    ensures CountFrames(events + [e], data) == CountFrames(events, data) + if e == Frame(data) then 1 else 0
  {
    assert (events + [e])[..|events|] == events;
  }

  lemma CountNote(events: seq<Event>, n: CD.Note)
    ensures CountFrames(events + CD.FramesOf(n), CLEARED)
         == CountFrames(events, CLEARED) + if n == CD.Answer54 then 1 else 0
    ensures CountFrames(events + CD.FramesOf(n), CLEAR_PENDING)
         == CountFrames(events, CLEAR_PENDING) + if n == CD.Pending78 then 1 else 0
  {
    assert |CLEARED| != |CLEAR_PENDING|;
    if n == CD.Answer54 {
      CountAppend(events, Frame(CLEARED), CLEARED);
      CountAppend(events, Frame(CLEARED), CLEAR_PENDING);
    } else if n == CD.Pending78 {
      CountAppend(events, Frame(CLEAR_PENDING), CLEARED);
      CountAppend(events, Frame(CLEAR_PENDING), CLEAR_PENDING);
    } else {
      assert events + [] == events;
    }
  }

  lemma {:induction false} ClearFramesCount(log: seq<CD.Note>)
    ensures CountFrames(ClearFrames(log), CLEARED) == CD.Answers(log)
    ensures CountFrames(ClearFrames(log), CLEAR_PENDING) == CD.PendingFrames(log)
  {
    if log != [] {
      ClearFramesCount(log[..|log| - 1]);
      CountNote(ClearFrames(log[..|log| - 1]), log[|log| - 1]);
    }
  }

  /** The final answers of service 0x31 among some frames. */
  function FinalFrames(events: seq<Event>): seq<bytes> {
    if events == [] then []
    else FinalFrames(events[..|events| - 1]) +
         match events[|events| - 1] case Frame(data) => if IsFinal(data) then [data] else [] case _ => []
  }

  lemma FinalAppend(events: seq<Event>, e: Event)
    requires e.Frame?
    ensures FinalFrames(events + [e]) == FinalFrames(events) + if IsFinal(e.data) then [e.data] else []
  {
    assert (events + [e])[..|events|] == events;
  }

  /** The frames are, in order, those of the answers. */
  ghost predicate Carry(frames: seq<bytes>, answers: seq<(nat, byte)>) {
    |frames| == |answers| && forall k :: 0 <= k < |frames| ==> frames[k] == RC.AnswerFrame(answers[k].0, answers[k].1)
  }

  lemma CarryAppend(frames: seq<bytes>, answers: seq<(nat, byte)>, id: nat, code: byte)
    requires Carry(frames, answers)
    ensures Carry(frames + [RC.AnswerFrame(id, code)], answers + [(id, code)])
  {
  }

  lemma CarryNote(events: seq<Event>, answers: seq<(nat, byte)>, n: RC.Note)
    requires Carry(FinalFrames(events), answers)
    ensures Carry(FinalFrames(events + RC.FramesOf(n)), if n.Answer? then answers + [(n.id, n.code)] else answers)
  {
    if n.Answer? {
      FinalAppend(events, Frame(RC.AnswerFrame(n.id, n.code)));
      CarryAppend(FinalFrames(events), answers, n.id, n.code);
    } else if n == RC.Pending78 {
      FinalAppend(events, Frame(ROUTINE_PENDING));
    } else {
      assert events + [] == events;
    }
  }

  lemma {:induction false} FinalsAreAnswers(log: seq<RC.Note>)
    ensures Carry(FinalFrames(RoutineFrames(log)), RC.Answers(log))
  {
    if log != [] {
      var front, n := log[..|log| - 1], log[|log| - 1];
      FinalsAreAnswers(front);
      CarryNote(RoutineFrames(front), RC.Answers(front), n);
      assert RC.Answers(log) == if n.Answer? then RC.Answers(front) + [(n.id, n.code)] else RC.Answers(front);
    }
  }

  // ----- Results

  /** In every run, over all interleavings of requests, worker statements and timer callbacks since the
      last boot: every accepted 0x14 has, in order, its own worker run with its own group (a hook call
      if there is a storage context), and its own 0x54 frame on the bus; only the last one may still be
      under way. */
  lemma ClearAnswersOnce(steps: seq<Step>, s: Sys, allowance: nat)
    requires Run(steps) == Some(s) && Splitting(steps, allowance)
    ensures var r := s.ram.clear;
            var accepted, cleared := CD.AcceptedGroups(r.log), CD.Cleared(r.log);
            var frames := CountFrames(Fold(Hear, QUIET, s.log).clear, CLEARED);
            && |accepted| - 1 <= |cleared| <= |accepted|
            && (forall k :: 0 <= k < |cleared| && cleared[k].Some? ==> cleared[k].value == accepted[k])
            && |accepted| - 1 <= frames <= |cleared|
            && (!CD.WorkPending(r) ==> |cleared| == frames == |accepted|)
  {
    ProtocolsInEveryRun(steps, allowance);
    CD.OneRunOneAnswerEach(s.ram.clear.log, allowance);
    ClearFramesCount(s.ram.clear.log);
  }

  /** In every run, a well-formed 0x14 request is refused with 0x22 exactly while an accepted one's worker
      has not returned, and accepted in silence otherwise. */
  lemma ClearRefusedWhileBusy(steps: seq<Step>, s: Sys, req: bytes, addressing: Addressing, h: Hooks)
    requires Run(steps) == Some(s) && |req| == 4 && req[0] == 0x14
    ensures Answered(s.ram, s.now, req, addressing, h).reply
            == if CD.Busy(s.ram.clear.log) then Negative(NRC_CONDITIONS_NOT_CORRECT) else Silent
  {
    ProtocolsInEveryRun(steps, 1);
    CD.BusyWhileNotIdle(s.ram.clear.log, 1);
    ClearAnswered(s.ram, s.now, req, addressing, h);
  }

  lemma ClearAnswered(r: Ram, now: nat, req: bytes, addressing: Addressing, h: Hooks)
    requires req != [] && req[0] == 0x14
    ensures Answered(r, now, req, addressing, h).reply == CD.Handle(r.clear, req).reply
  {
  }

  /** In every run, no 0x14 was ever accepted before the worker of the previous one returned, and none was
      ever refused otherwise. */
  lemma ClearOneAtATime(steps: seq<Step>, s: Sys, k: nat)
    requires Run(steps) == Some(s) && k < |s.ram.clear.log|
    requires s.ram.clear.log[k].Accepted? || s.ram.clear.log[k].Refused?
    ensures s.ram.clear.log[k].Refused? <==> CD.Busy(s.ram.clear.log[..k])
  {
    ProtocolsInEveryRun(steps, 1);
    CD.WellFormedPrefix(s.ram.clear.log, k, 1);
    CD.BusyWhileNotIdle(s.ram.clear.log[..k], 1);
  }

  /** In every run, of the frames of service 0x14 that follow `worker_done` on the bus before the next
      acceptance, none is a 0x78 if callbacks run to completion, and at most one if they are split at
      their reads of `worker_done`. Either way the timer expires at most once more, and silently: no 0x78
      follows that expiry. */
  lemma NoLatePending(steps: seq<Step>, s: Sys, from: nat)
    requires Run(steps) == Some(s) && from < |s.ram.clear.log| && s.ram.clear.log[from] == CD.Done
    requires forall k :: from < k < |s.ram.clear.log| ==> !s.ram.clear.log[k].Accepted?
    ensures var early, late := ClearFrames(s.ram.clear.log[..from]), ClearFrames(s.ram.clear.log[from..]);
            && Fold(Hear, QUIET, s.log).clear == early + late
            && CountFrames(late, CLEAR_PENDING) <= (if Splitting(steps, 0) then 0 else 1)
    ensures CD.Expiries(s.ram.clear.log[from..]) <= 1
    ensures forall fired, k :: from < fired < k < |s.ram.clear.log| && s.ram.clear.log[fired] == CD.Fired ==>
              s.ram.clear.log[k] != CD.Pending78
  {
    var log := s.ram.clear.log;
    ProtocolsInEveryRun(steps, 1);
    LateFrames(log, from, 1);
    forall fired, k | from < fired < k < |log| && log[fired] == CD.Fired ensures log[k] != CD.Pending78 {
      CD.SilentExpiry(log, from, fired, k, 1);
    }
    if Splitting(steps, 0) {
      ProtocolsInEveryRun(steps, 0);
      LateFrames(log, from, 0);
    }
  }

  lemma LateFrames(log: seq<CD.Note>, from: nat, allowance: nat)
    requires CD.Observed(log, allowance).ok && from < |log| && log[from] == CD.Done
    requires forall k :: from < k < |log| ==> !log[k].Accepted?
    ensures ClearFrames(log) == ClearFrames(log[..from]) + ClearFrames(log[from..])
    ensures CountFrames(ClearFrames(log[from..]), CLEAR_PENDING) <= allowance && CD.Expiries(log[from..]) <= 1
  {
    CD.LatePending(log, from, allowance);
    ClearFramesSplit(log, from);
    ClearFramesCount(log[from..]);
  }

  lemma ClearFramesSplit(log: seq<CD.Note>, from: nat)
    requires from <= |log|
    ensures ClearFrames(log) == ClearFrames(log[..from]) + ClearFrames(log[from..])
  {
    SplitAt(log, from);
    ClearFramesConcat(log[..from], log[from..]);
  }

  /** In every run, the final 0x71 01 frames on the bus since the last boot are, in order, the answers to
      the accepted starts: each carries its start's identifier, and status 0 exactly when its hook
      returned 0. Only the last start may be unanswered; whenever requests can run, the 0x78 timer is
      armed exactly while the status is RUNNING. */
  lemma RoutineAnswersMatchStarts(steps: seq<Step>, s: Sys, k: nat)
    requires Run(steps) == Some(s)
    ensures var log := s.ram.routine.log;
            var frames := FinalFrames(Fold(Hear, QUIET, s.log).routine);
            var starts, verdicts := RC.Starts(log), RC.Verdicts(log);
            && |starts| - 1 <= |frames| <= |starts| && |frames| <= |verdicts|
            && (k < |frames| ==> frames[k] == RC.AnswerFrame(starts[k], if verdicts[k] then 0 else 2))
            && (RC.RequestsCanRun(s.ram.routine) ==> (s.ram.routine.armed <==> s.ram.routine.status == RC.Running))
  {
    ProtocolsInEveryRun(steps, 1);
    RC.AnswersMatchStarts(s.ram.routine.log);
    FinalsAreAnswers(s.ram.routine.log);
  }

  /** In every run, every 0x78 frame of service 0x31 on the bus lies between an accepted start and that
      start's final answer: it is sent for note `k`, start `i` was accepted before it and not answered
      in between, and at that point one start more was accepted than final answers are on the bus. */
  lemma RoutinePendingIsCovered(steps: seq<Step>, s: Sys, p: nat) returns (i: nat, k: nat)
    requires Run(steps) == Some(s)
    requires p < |Fold(Hear, QUIET, s.log).routine| && Fold(Hear, QUIET, s.log).routine[p] == Frame(ROUTINE_PENDING)
    ensures var log := s.ram.routine.log;
            && i < k < |log| && log[i].Accepted? && log[k] == RC.Pending78
            && (forall m :: i < m < k ==> !log[m].Answer? && !log[m].Accepted?)
            && RoutineFrames(log[..k]) == Fold(Hear, QUIET, s.log).routine[..p]
            && |FinalFrames(RoutineFrames(log[..k]))| == |RC.Starts(log[..k])| - 1
  {
    var log := s.ram.routine.log;
    ProtocolsInEveryRun(steps, 1);
    k := FrameHasNote(log, p);
    RC.WellFormedPrefix(log, k);
    i := RC.UnansweredStart(log[..k]);
    assert forall m :: 0 <= m < k ==> log[..k][m] == log[m];
    RC.AnswersMatchStarts(log[..k]);
    FinalsAreAnswers(log[..k]);
  }

  /** The note a frame was sent for. */
  lemma {:induction false} FrameHasNote(log: seq<RC.Note>, p: nat) returns (k: nat)
    requires p < |RoutineFrames(log)|
    ensures k < |log| && RC.FramesOf(log[k]) == [RoutineFrames(log)[p]]
    ensures RoutineFrames(log[..k]) == RoutineFrames(log)[..p]
  {
    k := |log| - 1;
    if p < |RoutineFrames(log[..k])| {
      var last := k;
      k := FrameHasNote(log[..last], p);
      assert log[..last][..k] == log[..k];
      assert RoutineFrames(log)[..p] == RoutineFrames(log[..last])[..p];
    } else {
      assert RoutineFrames(log)[..p] == RoutineFrames(log[..k]);
    }
  }
}
