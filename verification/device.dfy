/** The server object in its world: it takes exactly the steps of the transition system. */
module Device {
  import opened Kernel
  import opened UdsServer
  import opened UdsSystem
  import CD = ClearDtc
  import RC = RoutineControl

  /** What can happen to the device, at the grain of the object's methods: a worker runs from one blocking
      call to the next, and timer callbacks are whole. */
  datatype Action =
    | Idle(duration: nat)
    | Receive(req: bytes, addressing: Addressing, hooks: Hooks)
    | CutReceive(req: bytes, addressing: Addressing, hooks: Hooks, after: nat)
    | S3Expiry
    | LockoutExpiry
    | CutLockoutExpiry(after: nat)
    | ResetExpiry
    | PowerOff
    | ClearExpiry
    | ClearUntilSleep(context: bool)
    | ClearAfterSleep
    | RoutineExpiry
    | RoutineUntilHook
    | RoutineUntilSend(result: int)
    | RoutineReturns
    | Cycle(answers: seq<Option<bytes>>)

  function ClearSteps(cs: seq<CD.Step>): seq<Step> {
    if cs == [] then [] else [ClearStep(cs[0])] + ClearSteps(cs[1..])
  }

  function RoutineSteps(cs: seq<RC.Step>): seq<Step> {
    if cs == [] then [] else [RoutineStep(cs[0])] + RoutineSteps(cs[1..])
  }

  function StepsOf(a: Action): seq<Step> {
    match a
    case Idle(d) => [Wait(d)]
    case Receive(req, addressing, h) => [Request(req, addressing, h)]
    case CutReceive(req, addressing, h, after) => [CutRequest(req, addressing, h, after)]
    case S3Expiry => [S3Fires]
    case LockoutExpiry => [LockoutFires]
    case CutLockoutExpiry(after) => [CutLockoutFires(after)]
    case ResetExpiry => [ResetFires]
    case PowerOff => [PowerCycle]
    case ClearExpiry => ClearSteps([CD.Callback])
    case ClearUntilSleep(context) => ClearSteps([CD.Take, CD.CallHook(context), CD.Mark, CD.StopTimer])
    case ClearAfterSleep => ClearSteps([CD.Wake, CD.Return])
    case RoutineExpiry => RoutineSteps([RC.Expire])
    case RoutineUntilHook => RoutineSteps([RC.Take, RC.CallHook])
    case RoutineUntilSend(result) => RoutineSteps([RC.HookReturns(result), RC.StopAndSend])
    case RoutineReturns => RoutineSteps([RC.Return])
    case Cycle(answers) => [PeriodicCycle(answers)]
  }

  /** Where some steps lead, if every one is possible. */
  function After(s: Sys, steps: seq<Step>): Option<Sys>
    decreases |steps|
  {
    if steps == [] then Some(s)
    else if Enabled(s, steps[0]) then After(Next(s, steps[0]), steps[1..])
    else None
  }

  predicate IsBackground(a: Action) {
    || a.ClearExpiry? || a.ClearUntilSleep? || a.ClearAfterSleep?
    || a.RoutineExpiry? || a.RoutineUntilHook? || a.RoutineUntilSend? || a.RoutineReturns?
  }

  /** The hooks of a request keep to their documented lengths. */
  predicate Obeys(a: Action) { a.Receive? || a.CutReceive? ==> Obedient(a.hooks) }

  class Unit {
    var server: Server
    var now: nat
    var store: map<nat, byte>
    var log: seq<Entry>
    /** The steps taken since the first power-on. */
    ghost var past: seq<Step>

    ghost predicate Valid()
      reads this, server, server.Footprint()
    {
      server.Valid()
    }

    ghost function State(): Sys
      requires Valid()
      reads this, server, server.Footprint()
    {
      Sys(now, server.State(), store, log)
    }

    /** The state is the one the run of those steps leads to, so every result about runs holds of it. */
    ghost predicate Lived()
      requires Valid()
      reads this, server, server.Footprint()
    {
      Run(past) == Some(State())
    }

    /** The first power-on. */
    constructor ()
      ensures Valid() && Lived() && State() == POWER_ON && fresh(server.Footprint())
    {
      now, store, log, past := 0, map[], [], [];
      server := new Server(map[], 0);
    }

    /** Events the server has just caused. */
    method Record(events: seq<Event>)
      modifies `store, `log
      ensures store == Persist(old(store), events) && log == old(log) + Stamp(now, events)
    {
      store := Persist(store, events);
      log := log + Stamp(now, events);
    }

    /** The events happen, then the power fails and comes back. */
    method Restart(events: seq<Event>)
      modifies this
      ensures Valid() && fresh(server.Footprint())
      ensures var stored := Persist(old(store), events);
              State() == Sys(old(now), Boot(stored, old(now)), stored, old(log) + Stamp(old(now), events))
    {
      Record(events);
      server := new Server(store, now);
    }

    method Pass(duration: nat)
      requires Valid() && Enabled(State(), Wait(duration))
      modifies this
      ensures Valid() && server == old(server) && State() == Next(old(State()), Wait(duration))
    {
      now := now + duration;
      assert Stamp(now, []) == [] && log + [] == log;
    }

    method HandleRequest(req: bytes, addressing: Addressing, h: Hooks)
      requires Valid() && Obedient(h) && Enabled(State(), Request(req, addressing, h))
      modifies this, server.Footprint()
      ensures Valid() && server == old(server) && State() == Next(old(State()), Request(req, addressing, h))
    {
      var heard := |server.board.log|;
      server.ProcessRequest(req, addressing, now, h);
      Record(server.board.log[heard..]);
    }

    method HandleCutRequest(req: bytes, addressing: Addressing, h: Hooks, after: nat)
      requires Valid() && Obedient(h) && Enabled(State(), CutRequest(req, addressing, h, after))
      modifies this, server.Footprint()
      ensures Valid() && fresh(server.Footprint())
      ensures State() == Next(old(State()), CutRequest(req, addressing, h, after))
    {
      var heard := |server.board.log|;
      server.ProcessRequest(req, addressing, now, h);
      Restart(Cut(server.board.log[heard..], after));
    }

    method ExpireS3()
      requires Valid() && Enabled(State(), S3Fires)
      modifies this, server.Footprint()
      ensures Valid() && server == old(server) && State() == Next(old(State()), S3Fires)
    {
      var heard := |server.board.log|;
      server.session.S3TimerExpiry(server.security, server.board);
      Record(server.board.log[heard..]);
    }

    method ExpireLockout()
      requires Valid() && Enabled(State(), LockoutFires)
      modifies this, server.Footprint()
      ensures Valid() && server == old(server) && State() == Next(old(State()), LockoutFires)
    {
      var heard := |server.board.log|;
      server.security.LockoutTimerExpiry();
      Record(server.board.log[heard..]);
    }

    method CutExpireLockout(after: nat)
      requires Valid() && Enabled(State(), CutLockoutFires(after))
      modifies this, server.Footprint()
      ensures Valid() && fresh(server.Footprint()) && State() == Next(old(State()), CutLockoutFires(after))
    {
      var heard := |server.board.log|;
      server.security.LockoutTimerExpiry();
      Restart(Cut(server.board.log[heard..], after));
    }

    method ExpireReset()
      requires Valid() && Enabled(State(), ResetFires)
      modifies this, server.Footprint()
      ensures Valid() && fresh(server.Footprint()) && State() == Next(old(State()), ResetFires)
    {
      var kind := server.reset.chosenResetType;
      server.reset.ResetTimerExpiry();
      Restart([SysReboot(kind), Reboot(false)]);
    }

    method CyclePower()
      requires Valid()
      modifies this
      ensures Valid() && fresh(server.Footprint()) && State() == Next(old(State()), PowerCycle)
    {
      Restart([Reboot(false)]);
    }

    method CyclePeriodic(answers: seq<Option<bytes>>)
      requires Valid()
      modifies this, server.Footprint()
      ensures Valid() && server == old(server) && State() == Next(old(State()), PeriodicCycle(answers))
    {
      var heard := |server.board.log|;
      server.periodic.Cycle(answers);
      Record(server.board.log[heard..]);
    }

    method ExpireClear()
      requires Valid() && CD.Enabled(State().ram.clear, CD.Callback)
      modifies this, server.Footprint()
      ensures Valid() && server == old(server)
      ensures State() == ClearExpirySys(old(State()))
    {
      var heard := |server.board.log|;
      server.ClearExpiry();
      Record(server.board.log[heard..]);
    }

    method RunClearUntilSleep(context: bool)
      requires Valid() && CD.Enabled(State().ram.clear, CD.Take)
      modifies this, server.Footprint()
      ensures Valid() && server == old(server)
      ensures State() == ClearUntilSleepSys(old(State()), context)
    {
      server.ClearUntilSleep(context);
      Record([]);
    }

    method RunClearAfterSleep()
      requires Valid() && CD.Enabled(State().ram.clear, CD.Wake)
      modifies this, server.Footprint()
      ensures Valid() && server == old(server)
      ensures State() == ClearAfterSleepSys(old(State()))
    {
      var heard := |server.board.log|;
      server.ClearAfterSleep();
      Record(server.board.log[heard..]);
    }

    method ExpireRoutine()
      requires Valid() && RC.Enabled(State().ram.routine, RC.Expire)
      modifies this, server.Footprint()
      ensures Valid() && server == old(server)
      ensures State() == RoutineExpirySys(old(State()))
    {
      var heard := |server.board.log|;
      server.RoutineExpiry();
      Record(server.board.log[heard..]);
    }

    method RunRoutineUntilHook()
      requires Valid() && RC.Enabled(State().ram.routine, RC.Take)
      modifies this, server.Footprint()
      ensures Valid() && server == old(server)
      ensures State() == RoutineUntilHookSys(old(State()))
    {
      server.RoutineUntilHook();
      Record([]);
    }

    method RunRoutineUntilSend(result: int)
      requires Valid() && RC.Enabled(State().ram.routine, RC.HookReturns(result))
      modifies this, server.Footprint()
      ensures Valid() && server == old(server)
      ensures State() == RoutineUntilSendSys(old(State()), result)
    {
      var heard := |server.board.log|;
      server.RoutineUntilSend(result);
      Record(server.board.log[heard..]);
    }

    method RunRoutineReturns()
      requires Valid() && RC.Enabled(State().ram.routine, RC.Return)
      modifies this, server.Footprint()
      ensures Valid() && server == old(server)
      ensures State() == RoutineReturnsSys(old(State()))
    {
      server.RoutineReturns();
      Record([]);
    }

    /** The object takes the steps of the transition system, and so stays at the end of a run. */
    method Perform(a: Action)
      requires Valid() && Lived() && Obeys(a) && After(State(), StepsOf(a)).Some?
      modifies this, server.Footprint()
      ensures Valid() && Lived() && past == old(past) + StepsOf(a)
      ensures After(old(State()), StepsOf(a)) == Some(State())
      ensures server == old(server) || fresh(server.Footprint())
    {
      ghost var s, before := State(), past;
      Move(a);
      ghost var s' := State();
      RunAfter(before, s, StepsOf(a), s');
      past := before + StepsOf(a);
      assert State() == s';
    }

    method Move(a: Action)
      requires Valid() && Obeys(a) && After(State(), StepsOf(a)).Some?
      modifies this, server.Footprint()
      ensures Valid() && After(old(State()), StepsOf(a)) == Some(State())
      ensures server == old(server) || fresh(server.Footprint())
    {
      if IsBackground(a) {
        PerformBackground(a);
      } else {
        PerformOther(a);
      }
    }

    method PerformBackground(a: Action)
      requires Valid() && IsBackground(a) && After(State(), StepsOf(a)).Some?
      modifies this, server.Footprint()
      ensures Valid() && server == old(server) && After(old(State()), StepsOf(a)) == Some(State())
    {
      ghost var s := State();
      FirstStep(s, StepsOf(a));
      if a.ClearExpiry? {
        ClearExpirySteps(s);
        ExpireClear();
      } else if a.ClearUntilSleep? {
        ClearUntilSleepSteps(s, a.context);
        RunClearUntilSleep(a.context);
      } else if a.ClearAfterSleep? {
        ClearAfterSleepSteps(s);
        RunClearAfterSleep();
      } else if a.RoutineExpiry? {
        RoutineExpirySteps(s);
        ExpireRoutine();
      } else if a.RoutineUntilHook? {
        RoutineUntilHookSteps(s);
        RunRoutineUntilHook();
      } else if a.RoutineUntilSend? {
        RoutineUntilSendSteps(s, a.result);
        RunRoutineUntilSend(a.result);
      } else {
        RoutineReturnsSteps(s);
        RunRoutineReturns();
      }
    }

    method PerformOther(a: Action)
      requires Valid() && Obeys(a) && !IsBackground(a) && After(State(), StepsOf(a)).Some?
      modifies this, server.Footprint()
      ensures Valid() && After(old(State()), StepsOf(a)) == Some(State())
      ensures server == old(server) || fresh(server.Footprint())
    {
      ghost var s := State();
      OneStep(s, StepsOf(a)[0]);
      assert StepsOf(a) == [StepsOf(a)[0]];
      match a
      case Idle(d) => Pass(d);
      case Receive(req, addressing, h) => HandleRequest(req, addressing, h);
      case CutReceive(req, addressing, h, after) => HandleCutRequest(req, addressing, h, after);
      case S3Expiry => ExpireS3();
      case LockoutExpiry => ExpireLockout();
      case CutLockoutExpiry(after) => CutExpireLockout(after);
      case ResetExpiry => ExpireReset();
      case PowerOff => CyclePower();
      case Cycle(answers) => CyclePeriodic(answers);
    }
  }

  // ----- What the statements of a worker come to

  /** The events happen and leave this RAM. */
  function Sent(s: Sys, ram: Ram, events: seq<Event>): Sys {
    Sys(s.now, ram, Persist(s.nvs, events), s.log + Stamp(s.now, events))
  }

  lemma SentNothing(s: Sys)
    ensures Sent(s, s.ram, []) == s
  {
    assert s.log + Stamp(s.now, []) == s.log;
  }

  lemma {:induction false} PersistConcat(nvs: map<nat, byte>, a: seq<Event>, b: seq<Event>)
    ensures Persist(nvs, a + b) == Persist(Persist(nvs, a), b)
  {
    if b == [] {
      assert a + b == a;
    } else {
      var front := b[..|b| - 1];
      PersistConcat(nvs, a, front);
      assert a + b == a + front + [b[|b| - 1]];
      PersistAppend(nvs, a + front, b[|b| - 1]);
    }
  }

  lemma SentTwice(s: Sys, ram: Ram, a: seq<Event>, ram': Ram, b: seq<Event>)
    ensures Sent(Sent(s, ram, a), ram', b) == Sent(s, ram', a + b)
  {
    PersistConcat(s.nvs, a, b);
    assert s.log + Stamp(s.now, a) + Stamp(s.now, b) == s.log + Stamp(s.now, a + b);
  }

  lemma SendingClear(s: Sys, c: CD.Step, frames: seq<Event>)
    requires CD.Enabled(s.ram.clear, c) && ClearFrames(CD.NotesOf(s.ram.clear, c)) == frames
    ensures Enabled(s, ClearStep(c))
    ensures Next(s, ClearStep(c)) == Sent(s, s.ram.(clear := CD.Next(s.ram.clear, c)), frames)
  {
  }

  lemma SendingRoutine(s: Sys, c: RC.Step, frames: seq<Event>)
    requires RC.Enabled(s.ram.routine, c) && RoutineFrames(RC.NotesOf(s.ram.routine, c)) == frames
    ensures Enabled(s, RoutineStep(c))
    ensures Next(s, RoutineStep(c)) == Sent(s, s.ram.(routine := RC.Next(s.ram.routine, c)), frames)
  {
  }

  /** Where some statements of the 0x14 service lead it, and the frames it sends on the way. */
  function ClearAfter(r: CD.ClearRam, cs: seq<CD.Step>): Option<CD.ClearRam>
    decreases |cs|
  {
    if cs == [] then Some(r)
    else if CD.Enabled(r, cs[0]) then ClearAfter(CD.Next(r, cs[0]), cs[1..])
    else None
  }

  function ClearSent(r: CD.ClearRam, cs: seq<CD.Step>): seq<Event>
    decreases |cs|
  {
    if cs == [] || !CD.Enabled(r, cs[0]) then []
    else ClearFrames(CD.NotesOf(r, cs[0])) + ClearSent(CD.Next(r, cs[0]), cs[1..])
  }

  /** The system takes these steps with it. */
  lemma {:induction false} ClearMoves(s: Sys, cs: seq<CD.Step>)
    requires ClearAfter(s.ram.clear, cs).Some?
    ensures After(s, ClearSteps(cs))
            == Some(Sent(s, s.ram.(clear := ClearAfter(s.ram.clear, cs).value), ClearSent(s.ram.clear, cs)))
    decreases |cs|
  {
    if cs == [] {
      SentNothing(s);
    } else {
      var r1 := CD.Next(s.ram.clear, cs[0]);
      var frames := ClearFrames(CD.NotesOf(s.ram.clear, cs[0]));
      var s1 := Sent(s, s.ram.(clear := r1), frames);
      SendingClear(s, cs[0], frames);
      ClearMoves(s1, cs[1..]);
      assert ClearSteps(cs)[1..] == ClearSteps(cs[1..]);
      SentTwice(s, s1.ram, frames, s1.ram.(clear := ClearAfter(r1, cs[1..]).value), ClearSent(r1, cs[1..]));
    }
  }

  /** Where some statements of the 0x31 service lead it, and the frames it sends on the way. */
  function RoutineAfter(r: RC.RoutineRam, cs: seq<RC.Step>): Option<RC.RoutineRam>
    decreases |cs|
  {
    if cs == [] then Some(r)
    else if RC.Enabled(r, cs[0]) then RoutineAfter(RC.Next(r, cs[0]), cs[1..])
    else None
  }

  function RoutineSent(r: RC.RoutineRam, cs: seq<RC.Step>): seq<Event>
    decreases |cs|
  {
    if cs == [] || !RC.Enabled(r, cs[0]) then []
    else RoutineFrames(RC.NotesOf(r, cs[0])) + RoutineSent(RC.Next(r, cs[0]), cs[1..])
  }

  /** The system takes these steps with it. */
  lemma {:induction false} RoutineMoves(s: Sys, cs: seq<RC.Step>)
    requires RoutineAfter(s.ram.routine, cs).Some?
    ensures After(s, RoutineSteps(cs))
            == Some(Sent(s, s.ram.(routine := RoutineAfter(s.ram.routine, cs).value), RoutineSent(s.ram.routine, cs)))
    decreases |cs|
  {
    if cs == [] {
      SentNothing(s);
    } else {
      var r1 := RC.Next(s.ram.routine, cs[0]);
      var frames := RoutineFrames(RC.NotesOf(s.ram.routine, cs[0]));
      var s1 := Sent(s, s.ram.(routine := r1), frames);
      SendingRoutine(s, cs[0], frames);
      RoutineMoves(s1, cs[1..]);
      assert RoutineSteps(cs)[1..] == RoutineSteps(cs[1..]);
      SentTwice(s, s1.ram, frames, s1.ram.(routine := RoutineAfter(r1, cs[1..]).value), RoutineSent(r1, cs[1..]));
    }
  }

  lemma ClearFramesOf(notes: seq<CD.Note>)
    ensures notes == [] ==> ClearFrames(notes) == []
    ensures |notes| == 1 ==> ClearFrames(notes) == CD.FramesOf(notes[0])
    ensures |notes| == 2 ==> ClearFrames(notes) == CD.FramesOf(notes[0]) + CD.FramesOf(notes[1])
  {
    if |notes| == 2 {
      assert notes[..1][..0] == [];
    }
  }

  lemma RoutineFramesOf(notes: seq<RC.Note>)
    ensures notes == [] ==> RoutineFrames(notes) == []
    ensures |notes| == 1 ==> RoutineFrames(notes) == RC.FramesOf(notes[0])
  {
  }

  lemma ClearOne(r: CD.ClearRam, c: CD.Step)
    requires CD.Enabled(r, c)
    ensures ClearAfter(r, [c]) == Some(CD.Next(r, c)) && ClearSent(r, [c]) == ClearFrames(CD.NotesOf(r, c))
  {
    assert [c][1..] == [];
  }

  lemma ClearMore(r: CD.ClearRam, c: CD.Step, cs: seq<CD.Step>)
    requires CD.Enabled(r, c)
    ensures ClearAfter(r, [c] + cs) == ClearAfter(CD.Next(r, c), cs)
    ensures ClearSent(r, [c] + cs) == ClearFrames(CD.NotesOf(r, c)) + ClearSent(CD.Next(r, c), cs)
  {
    assert ([c] + cs)[1..] == cs;
  }

  lemma RoutineOne(r: RC.RoutineRam, c: RC.Step)
    requires RC.Enabled(r, c)
    ensures RoutineAfter(r, [c]) == Some(RC.Next(r, c)) && RoutineSent(r, [c]) == RoutineFrames(RC.NotesOf(r, c))
  {
    assert [c][1..] == [];
  }

  lemma RoutineMore(r: RC.RoutineRam, c: RC.Step, cs: seq<RC.Step>)
    requires RC.Enabled(r, c)
    ensures RoutineAfter(r, [c] + cs) == RoutineAfter(RC.Next(r, c), cs)
    ensures RoutineSent(r, [c] + cs) == RoutineFrames(RC.NotesOf(r, c)) + RoutineSent(RC.Next(r, c), cs)
  {
    assert ([c] + cs)[1..] == cs;
  }

  lemma ClearExpiryMoves(r: CD.ClearRam)
    requires CD.Enabled(r, CD.Callback)
    ensures ClearAfter(r, [CD.Callback]) == Some(CD.Next(r, CD.Callback))
    ensures ClearSent(r, [CD.Callback]) == if r.done then [] else CD.FramesOf(CD.Pending78)
  {
    ClearOne(r, CD.Callback);
    ClearFramesOf(CD.NotesOf(r, CD.Callback));
    assert [] + CD.FramesOf(CD.Pending78) == CD.FramesOf(CD.Pending78);
  }

  lemma ClearMarkMoves(r: CD.ClearRam)
    requires CD.Enabled(r, CD.Mark)
    ensures ClearAfter(r, [CD.Mark, CD.StopTimer]) == Some(CD.Next(CD.Next(r, CD.Mark), CD.StopTimer))
    ensures ClearSent(r, [CD.Mark, CD.StopTimer]) == []
  {
    var r1 := CD.Next(r, CD.Mark);
    ClearFramesOf(CD.NotesOf(r, CD.Mark));
    ClearFramesOf(CD.NotesOf(r1, CD.StopTimer));
    ClearOne(r1, CD.StopTimer);
    ClearMore(r, CD.Mark, [CD.StopTimer]);
    assert [CD.Mark, CD.StopTimer] == [CD.Mark] + [CD.StopTimer];
  }

  lemma ClearHookMoves(r: CD.ClearRam, context: bool, cs: seq<CD.Step>)
    requires CD.Enabled(r, CD.Take)
    ensures var r2 := CD.Next(CD.Next(r, CD.Take), CD.CallHook(context));
            && ClearAfter(r, [CD.Take] + ([CD.CallHook(context)] + cs)) == ClearAfter(r2, cs)
            && ClearSent(r, [CD.Take] + ([CD.CallHook(context)] + cs)) == ClearSent(r2, cs)
  {
    var r1 := CD.Next(r, CD.Take);
    var sent := ClearSent(CD.Next(r1, CD.CallHook(context)), cs);
    ClearFramesOf(CD.NotesOf(r, CD.Take));
    ClearFramesOf(CD.NotesOf(r1, CD.CallHook(context)));
    ClearMore(r1, CD.CallHook(context), cs);
    ClearMore(r, CD.Take, [CD.CallHook(context)] + cs);
    assert [] + sent == sent;
  }

  lemma ClearUntilSleepMoves(r: CD.ClearRam, context: bool)
    requires CD.Enabled(r, CD.Take)
    ensures var cs := [CD.Take, CD.CallHook(context), CD.Mark, CD.StopTimer];
            var r2 := CD.Next(CD.Next(r, CD.Take), CD.CallHook(context));
            && ClearAfter(r, cs) == Some(CD.Next(CD.Next(r2, CD.Mark), CD.StopTimer))
            && ClearSent(r, cs) == []
  {
    ClearHookMoves(r, context, [CD.Mark, CD.StopTimer]);
    ClearMarkMoves(CD.Next(CD.Next(r, CD.Take), CD.CallHook(context)));
    assert [CD.Take, CD.CallHook(context), CD.Mark, CD.StopTimer]
        == [CD.Take] + ([CD.CallHook(context)] + [CD.Mark, CD.StopTimer]);
  }

  lemma ClearAfterSleepMoves(r: CD.ClearRam)
    requires CD.Enabled(r, CD.Wake)
    ensures ClearAfter(r, [CD.Wake, CD.Return]) == Some(CD.Next(CD.Next(r, CD.Wake), CD.Return))
    ensures ClearSent(r, [CD.Wake, CD.Return]) == CD.FramesOf(CD.Answer54)
  {
    var r1 := CD.Next(r, CD.Wake);
    ClearFramesOf(CD.NotesOf(r, CD.Wake));
    ClearFramesOf(CD.NotesOf(r1, CD.Return));
    ClearOne(r1, CD.Return);
    ClearMore(r, CD.Wake, [CD.Return]);
    assert [CD.Wake, CD.Return] == [CD.Wake] + [CD.Return];
  }

  lemma RoutineExpiryMoves(r: RC.RoutineRam)
    requires RC.Enabled(r, RC.Expire)
    ensures RoutineAfter(r, [RC.Expire]) == Some(RC.Next(r, RC.Expire))
    ensures RoutineSent(r, [RC.Expire]) == RC.FramesOf(RC.Pending78)
  {
    RoutineOne(r, RC.Expire);
    RoutineFramesOf(RC.NotesOf(r, RC.Expire));
  }

  lemma RoutineUntilHookMoves(r: RC.RoutineRam)
    requires RC.Enabled(r, RC.Take)
    ensures RoutineAfter(r, [RC.Take, RC.CallHook]) == Some(RC.Next(RC.Next(r, RC.Take), RC.CallHook))
    ensures RoutineSent(r, [RC.Take, RC.CallHook]) == []
  {
    var r1 := RC.Next(r, RC.Take);
    RoutineFramesOf(RC.NotesOf(r, RC.Take));
    RoutineFramesOf(RC.NotesOf(r1, RC.CallHook));
    RoutineOne(r1, RC.CallHook);
    RoutineMore(r, RC.Take, [RC.CallHook]);
    assert [RC.Take, RC.CallHook] == [RC.Take] + [RC.CallHook];
  }

  lemma RoutineUntilSendMoves(r: RC.RoutineRam, result: int)
    requires RC.Enabled(r, RC.HookReturns(result))
    ensures var cs := [RC.HookReturns(result), RC.StopAndSend];
            && RoutineAfter(r, cs) == Some(RC.Next(RC.Next(r, RC.HookReturns(result)), RC.StopAndSend))
            && RoutineSent(r, cs) == RC.FinalFrame(r, result)
  {
    var r1 := RC.Next(r, RC.HookReturns(result));
    FinalFrames(r, result);
    RoutineOne(r1, RC.StopAndSend);
    RoutineMore(r, RC.HookReturns(result), [RC.StopAndSend]);
    assert [RC.HookReturns(result), RC.StopAndSend] == [RC.HookReturns(result)] + [RC.StopAndSend];
    assert [] + RC.FinalFrame(r, result) == RC.FinalFrame(r, result);
  }

  lemma FinalFrames(r: RC.RoutineRam, result: int)
    requires RC.Enabled(r, RC.HookReturns(result))
    ensures var r1 := RC.Next(r, RC.HookReturns(result));
            && RC.Enabled(r1, RC.StopAndSend)
            && RoutineFrames(RC.NotesOf(r, RC.HookReturns(result))) == []
            && RoutineFrames(RC.NotesOf(r1, RC.StopAndSend)) == RC.FinalFrame(r, result)
  {
    var r1 := RC.Next(r, RC.HookReturns(result));
    RoutineFramesOf(RC.NotesOf(r, RC.HookReturns(result)));
    assert RC.NotesOf(r1, RC.StopAndSend) == [RC.Answer(r.id, if result == 0 then 0 else 2)];
    RoutineFramesOf(RC.NotesOf(r1, RC.StopAndSend));
  }

  lemma RoutineReturnsMoves(r: RC.RoutineRam)
    requires RC.Enabled(r, RC.Return)
    ensures RoutineAfter(r, [RC.Return]) == Some(RC.Next(r, RC.Return)) && RoutineSent(r, [RC.Return]) == []
  {
    RoutineOne(r, RC.Return);
    RoutineFramesOf(RC.NotesOf(r, RC.Return));
  }

  // ----- Each action as a step of the whole

  function ClearExpirySys(s: Sys): Sys
    requires CD.Enabled(s.ram.clear, CD.Callback)
  {
    Sent(s, s.ram.(clear := CD.Next(s.ram.clear, CD.Callback)),
         if s.ram.clear.done then [] else CD.FramesOf(CD.Pending78))
  }

  lemma ClearExpirySteps(s: Sys)
    requires CD.Enabled(s.ram.clear, CD.Callback)
    ensures After(s, StepsOf(ClearExpiry)) == Some(ClearExpirySys(s))
  {
    ClearExpiryMoves(s.ram.clear);
    ClearMoves(s, [CD.Callback]);
  }

  function ClearUntilSleepSys(s: Sys, context: bool): Sys
    requires CD.Enabled(s.ram.clear, CD.Take)
  {
    var hooked := CD.Next(CD.Next(s.ram.clear, CD.Take), CD.CallHook(context));
    Sent(s, s.ram.(clear := CD.Next(CD.Next(hooked, CD.Mark), CD.StopTimer)),
         [])
  }

  lemma ClearUntilSleepSteps(s: Sys, context: bool)
    requires CD.Enabled(s.ram.clear, CD.Take)
    ensures After(s, StepsOf(ClearUntilSleep(context))) == Some(ClearUntilSleepSys(s, context))
  {
    ClearUntilSleepMoves(s.ram.clear, context);
    ClearMoves(s, [CD.Take, CD.CallHook(context), CD.Mark, CD.StopTimer]);
  }

  function ClearAfterSleepSys(s: Sys): Sys
    requires CD.Enabled(s.ram.clear, CD.Wake)
  {
    Sent(s, s.ram.(clear := CD.Next(CD.Next(s.ram.clear, CD.Wake), CD.Return)),
         CD.FramesOf(CD.Answer54))
  }

  lemma ClearAfterSleepSteps(s: Sys)
    requires CD.Enabled(s.ram.clear, CD.Wake)
    ensures After(s, StepsOf(ClearAfterSleep)) == Some(ClearAfterSleepSys(s))
  {
    ClearAfterSleepMoves(s.ram.clear);
    ClearMoves(s, [CD.Wake, CD.Return]);
  }

  function RoutineExpirySys(s: Sys): Sys
    requires RC.Enabled(s.ram.routine, RC.Expire)
  {
    Sent(s, s.ram.(routine := RC.Next(s.ram.routine, RC.Expire)),
         RC.FramesOf(RC.Pending78))
  }

  lemma RoutineExpirySteps(s: Sys)
    requires RC.Enabled(s.ram.routine, RC.Expire)
    ensures After(s, StepsOf(RoutineExpiry)) == Some(RoutineExpirySys(s))
  {
    RoutineExpiryMoves(s.ram.routine);
    RoutineMoves(s, [RC.Expire]);
  }

  function RoutineUntilHookSys(s: Sys): Sys
    requires RC.Enabled(s.ram.routine, RC.Take)
  {
    Sent(s, s.ram.(routine := RC.Next(RC.Next(s.ram.routine, RC.Take), RC.CallHook)),
         [])
  }

  lemma RoutineUntilHookSteps(s: Sys)
    requires RC.Enabled(s.ram.routine, RC.Take)
    ensures After(s, StepsOf(RoutineUntilHook)) == Some(RoutineUntilHookSys(s))
  {
    RoutineUntilHookMoves(s.ram.routine);
    RoutineMoves(s, [RC.Take, RC.CallHook]);
  }

  function RoutineUntilSendSys(s: Sys, result: int): Sys
    requires RC.Enabled(s.ram.routine, RC.HookReturns(result))
  {
    Sent(s, s.ram.(routine := RC.Next(RC.Next(s.ram.routine, RC.HookReturns(result)), RC.StopAndSend)),
         RC.FinalFrame(s.ram.routine, result))
  }

  lemma RoutineUntilSendSteps(s: Sys, result: int)
    requires RC.Enabled(s.ram.routine, RC.HookReturns(result))
    ensures After(s, StepsOf(RoutineUntilSend(result))) == Some(RoutineUntilSendSys(s, result))
  {
    var cs := [RC.HookReturns(result), RC.StopAndSend];
    RoutineUntilSendMoves(s.ram.routine, result);
    MovedRoutine(s, cs, RC.Next(RC.Next(s.ram.routine, RC.HookReturns(result)), RC.StopAndSend),
                 RC.FinalFrame(s.ram.routine, result));
  }

  lemma MovedRoutine(s: Sys, cs: seq<RC.Step>, r: RC.RoutineRam, frames: seq<Event>)
    requires RoutineAfter(s.ram.routine, cs) == Some(r) && RoutineSent(s.ram.routine, cs) == frames
    ensures After(s, RoutineSteps(cs)) == Some(Sent(s, s.ram.(routine := r), frames))
  {
    RoutineMoves(s, cs);
  }

  function RoutineReturnsSys(s: Sys): Sys
    requires RC.Enabled(s.ram.routine, RC.Return)
  {
    Sent(s, s.ram.(routine := RC.Next(s.ram.routine, RC.Return)),
         [])
  }

  lemma RoutineReturnsSteps(s: Sys)
    requires RC.Enabled(s.ram.routine, RC.Return)
    ensures After(s, StepsOf(RoutineReturns)) == Some(RoutineReturnsSys(s))
  {
    RoutineReturnsMoves(s.ram.routine);
    RoutineMoves(s, [RC.Return]);
  }

  lemma OneStep(s: Sys, step: Step)
    ensures After(s, [step]) == if Enabled(s, step) then Some(Next(s, step)) else None
  {
    assert [step][1..] == [];
  }

  lemma FirstStep(s: Sys, steps: seq<Step>)
    requires steps != [] && After(s, steps).Some?
    ensures Enabled(s, steps[0])
  {
  }

  lemma {:induction false} RunAfter(before: seq<Step>, s: Sys, more: seq<Step>, s': Sys)
    requires Run(before) == Some(s) && After(s, more) == Some(s')
    ensures Run(before + more) == Some(s')
    decreases |more|
  {
    if more == [] {
      assert before + more == before;
    } else {
      var step, rest := more[0], more[1..];
      assert more == [step] + rest;
      Regroup(before, [step], rest);
      RunAppend(before, s, step);
      RunAfter(before + [step], Next(s, step), rest, s');
    }
  }
}
