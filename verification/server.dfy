/** Dispatch of requests to the services, and the response discipline (uds_server.c). */
module UdsServer {
  import opened Kernel
  import SC = SessionControl
  import SA = SecurityAccess
  import FP = FlashPipeline
  import CD = ClearDtc
  import RC = RoutineControl
  import DD = DynamicDid
  import PR = Periodic
  import RD = ReadDtc
  import GS = GatedServices
  import ER = EcuReset

  /** Everything the server keeps in RAM. */
  datatype Ram = Ram(
    session: SC.SessionRam, security: SA.SecurityRam, flash: FP.PipelineRam,
    dynamic: DD.DynMap, periodic: PR.PeriodicRam, clear: CD.ClearRam, routine: RC.RoutineRam, reset: ER.ResetRam)

  function Boot(nvs: map<nat, byte>, now: nat): Ram {
    Ram(SC.BOOT, SA.Boot(nvs, now), FP.BOOT, DD.BOOT, PR.BOOT, CD.BOOT, RC.BOOT, ER.BOOT)
  }

  predicate IsUnlocked(r: Ram) { r.security.status == SA.Unlocked }

  /** The sub-functions 0x10 accepts. */
  function SessionOf(req: bytes): Option<Session> {
    if |req| < 2 then None
    else if req[1] == 1 then Some(Default)
    else if req[1] == 2 then Some(Programming)
    else if req[1] == 3 then Some(Extended)
    else None
  }

  predicate OnlyPhysical(sid: byte) { sid in {0x27, 0x2F, 0x34, 0x36, 0x37} }

  function SessionControlHandle(r: Ram, now: nat, req: bytes): Outcome<Ram>
    requires req != []
  {
    if |req| < 2 then Outcome(r, [], Negative(NRC_INCORRECT_LENGTH))
    else match SessionOf(req)
      case None => Outcome(r, [], Negative(NRC_SUB_FUNCTION_NOT_SUPPORTED))
      case Some(session) =>
        Outcome(r.(security := SA.ResetLock(r.security), session := SC.Set(r.session, now, session)),
                [SessionSet(session)], Positive([Echo(req[0]), req[1]]))
  }

  function ResponseOnEventHandle(req: bytes): Reply
    requires req != []
  {
    if |req| < 3 then Negative(NRC_INCORRECT_LENGTH) else Positive([Echo(req[0]), req[1], req[2]])
  }

  function TesterPresentHandle(req: bytes): Reply
    requires req != []
  {
    if |req| < 2 then Negative(NRC_INCORRECT_LENGTH)
    else if req[1] < 0x80 then Positive([Echo(req[0]), req[1] % 0x80])
    else Silent
  }

  /** The switch on the service identifier, after the session timer has been refreshed. */
  function Dispatch(r: Ram, now: nat, req: bytes, addressing: Addressing, h: Hooks): Outcome<Ram>
    requires req != []
  {
    var sid := req[0];
    if addressing == Functional && OnlyPhysical(sid) then Outcome(r, [], Negative(NRC_CONDITIONS_NOT_CORRECT))
    else if sid == 0x10 then SessionControlHandle(r, now, req)
    else if sid == 0x11 then
      var o := ER.Handle(r.reset, now, req);
      Outcome(r.(reset := o.state), o.events, o.reply)
    else if sid == 0x14 then
      var o := CD.Handle(r.clear, req);
      Outcome(r.(clear := o.state), o.events, o.reply)
    else if sid == 0x19 then On(r, RD.Handle(req, h))
    else if sid == 0x22 then On(r, DD.ReadHandle(r.dynamic, req, h))
    else if sid == 0x27 then
      var o := SA.Handle(r.security, now, req, h);
      Outcome(r.(security := o.state), o.events, o.reply)
    else if sid == 0x2E then On(r, GS.WriteDidHandle(r.session.session, IsUnlocked(r), req, h))
    else if sid == 0x2A then
      var o := PR.Handle(r.periodic, req);
      Outcome(r.(periodic := o.state), o.events, o.reply)
    else if sid == 0x2C then
      var o := DD.DefineHandle(r.dynamic, req);
      Outcome(r.(dynamic := o.state), o.events, o.reply)
    else if sid == 0x2F then On(r, GS.IoControlHandle(r.session.session, IsUnlocked(r), req, h))
    else if sid == 0x31 then
      var o := RC.Handle(r.routine, r.session.session, req, h);
      Outcome(r.(routine := o.state), o.events, o.reply)
    else if sid == 0x34 then
      var o := FP.RequestDownload(r.flash, r.session.session, IsUnlocked(r), req, h);
      Outcome(r.(flash := o.state), o.events, o.reply)
    else if sid == 0x36 then
      var o := FP.TransferData(r.flash, req, h);
      Outcome(r.(flash := o.state), o.events, o.reply)
    else if sid == 0x37 then
      var o := FP.RequestTransferExit(r.flash, req);
      Outcome(r.(flash := o.state), o.events, o.reply)
    else if sid == 0x86 then Outcome(r, [], ResponseOnEventHandle(req))
    else if sid == 0x3E then Outcome(r, [], TesterPresentHandle(req))
    else Outcome(r, [], Negative(NRC_SERVICE_NOT_SUPPORTED))
  }

  function On(r: Ram, o: Outcome<()>): Outcome<Ram> { Outcome(r, o.events, o.reply) }

  function Refreshed(r: Ram, now: nat): Ram { r.(session := SC.Refresh(r.session, now)) }

  function Answered(r: Ram, now: nat, req: bytes, addressing: Addressing, h: Hooks): Outcome<Ram>
    requires req != []
  {
    Dispatch(Refreshed(r, now), now, req, addressing, h)
  }

  /** `uds_process_request`: an empty request is dropped, any other refreshes the session timer first. */
  function Process(r: Ram, now: nat, req: bytes, addressing: Addressing, h: Hooks): (Ram, seq<Event>) {
    if req == [] then (r, [])
    else
      var o := Answered(r, now, req, addressing, h);
      (o.state, [Received(req, addressing)] + Emitted(addressing, req[0], o))
  }

  lemma ProcessIs(r: Ram, now: nat, req: bytes, addressing: Addressing, h: Hooks, log: seq<Event>)
    requires req != []
    ensures var o := Answered(r, now, req, addressing, h);
            && Process(r, now, req, addressing, h).0 == o.state
            && log + Process(r, now, req, addressing, h).1
               == log + [Received(req, addressing)] + Emitted(addressing, req[0], o)
  {
    var o := Answered(r, now, req, addressing, h);
    var sent := Emitted(addressing, req[0], o);
    assert log + ([Received(req, addressing)] + sent) == log + [Received(req, addressing)] + sent;
  }

  /** If the request reads the dynamic identifier, the assembled slices fit the transmit buffer. */
  predicate ReadFits(m: DD.DynMap, req: bytes, h: Hooks) {
    |req| >= 3 && req[0] == 0x22 ==> DD.SlicesFit(m, Word16(req[1], req[2]), h)
  }

  /** The server's modules around one board and one transmit buffer. */
  class Server {
    const board: Board
    const tx: array<byte>
    /** The memory behind the transmit buffer. */
    const behind: array<byte>
    const session: SC.SessionManager
    const security: SA.SecurityServer
    const flash: FP.Pipeline
    const dynamic: DD.DynamicDids
    const periodic: PR.PeriodicReader
    const clear: CD.ClearService
    const routine: RC.RoutineService
    const reset: ER.ResetService

    ghost predicate Valid()
      reads this, security, dynamic, periodic, routine
    {
      && tx.Length == UDS_BUFF_SIZE && behind.Length == DD.SPILL
      && behind != tx && behind != security.generatedSeed && behind != periodic.active
      && routine.answer != tx && routine.answer != behind
      && routine.answer != security.generatedSeed && routine.answer != periodic.active
      && security.Valid() && dynamic.Valid() && periodic.Valid() && routine.Valid()
      && security.board == board && flash.board == board && dynamic.board == board
      && periodic.board == board && clear.board == board && routine.board == board && reset.board == board
      && tx != security.generatedSeed && tx != periodic.active && security.generatedSeed != periodic.active
    }

    ghost function State(): Ram
      requires Valid()
      reads this, session, security, security.generatedSeed, flash, dynamic, dynamic.entries
      reads periodic, periodic.active, clear, routine, reset
    {
      Ram(session.State(), security.State(), flash.State(),
          dynamic.State(), periodic.State(), clear.State(), routine.State(), reset.State())
    }

    /** Every object whose state the server changes. */
    ghost function Footprint(): set<object> {
      {board, tx, behind, session, security, security.generatedSeed, flash, dynamic, dynamic.entries,
       periodic, periodic.active, clear, routine, routine.answer, reset}
    }

    /** `uds_init`, with the store as the power-on found it. */
    constructor (nvs: map<nat, byte>, now: nat)
      ensures Valid() && board.log == [] && State() == Boot(nvs, now)
      ensures fresh(board) && fresh(tx) && fresh(behind) && fresh(session) && fresh(security)
      ensures fresh(security.generatedSeed) && fresh(flash) && fresh(dynamic) && fresh(dynamic.entries)
      ensures fresh(periodic) && fresh(periodic.active) && fresh(clear) && fresh(routine)
      ensures fresh(routine.answer) && fresh(reset)
    {
      var b := new Board();
      board := b;
      tx := new byte[UDS_BUFF_SIZE](_ => 0);
      behind := new byte[DD.SPILL](_ => 0);
      session := new SC.SessionManager();
      security := new SA.SecurityServer(b, nvs, now);
      flash := new FP.Pipeline(b);
      dynamic := new DD.DynamicDids(b);
      periodic := new PR.PeriodicReader(b);
      clear := new CD.ClearService(b);
      routine := new RC.RoutineService(b);
      reset := new ER.ResetService(b);
    }

    /** `uds_process_request`. Nothing is written behind the transmit buffer, unless the request reads the
        dynamic identifier and its slices do not fit. */
    method ProcessRequest(req: bytes, addressing: Addressing, now: nat, h: Hooks)
      requires Valid() && Obedient(h)
      modifies board, tx, behind, session, security, security.generatedSeed, flash, dynamic, dynamic.entries
      modifies periodic, periodic.active, clear, routine, reset
      ensures Valid()
      ensures State() == Process(old(State()), now, req, addressing, h).0
      ensures board.log == old(board.log) + Process(old(State()), now, req, addressing, h).1
      ensures old(ReadFits(dynamic.State(), req, h)) ==> behind[..] == old(behind[..])
    {
      if |req| == 0 {
        return;
      }
      board.addressing := addressing;
      board.Emit(Received(req, addressing));
      session.RefreshTimer(now);
      assert State() == Refreshed(old(State()), now);
      ghost var heard := board.log;
      ghost var o := Answered(old(State()), now, req, addressing, h);
      Route(req, now, h);
      assert board.log == heard + Emitted(addressing, req[0], o);
      ProcessIs(old(State()), now, req, addressing, h, old(board.log));
    }

    /** The switch on the service identifier. */
    method Route(req: bytes, now: nat, h: Hooks)
      requires Valid() && Obedient(h) && req != []
      modifies board, tx, behind, session, security, security.generatedSeed, flash, dynamic, dynamic.entries
      modifies periodic, periodic.active, clear, routine, reset
      ensures Valid() && board.addressing == old(board.addressing)
      ensures State() == Dispatch(old(State()), now, req, board.addressing, h).state
      ensures board.log == old(board.log)
                           + Emitted(board.addressing, req[0], Dispatch(old(State()), now, req, board.addressing, h))
      ensures old(ReadFits(dynamic.State(), req, h)) ==> behind[..] == old(behind[..])
    {
      var sid := req[0];
      if board.addressing == Functional && OnlyPhysical(sid) {
        board.SendNrc(sid, NRC_CONDITIONS_NOT_CORRECT);
      } else if sid == 0x10 {
        HandleSessionControl(req, now);
      } else if sid in {0x11, 0x3E, 0x86} {
        HandleBasic(req, now, h);
      } else if sid in {0x19, 0x22, 0x2E, 0x2F} {
        HandleStateless(req, now, h);
      } else if sid in {0x34, 0x36, 0x37} {
        HandleFlash(req, now, h);
      } else {
        HandleStateful(req, now, h);
      }
    }

    /** The cases of reset, tester present and response on event. */
    method HandleBasic(req: bytes, now: nat, ghost h: Hooks)
      requires Valid() && req != [] && req[0] in {0x11, 0x3E, 0x86}
      modifies board`log, tx, reset
      ensures Valid()
      ensures State() == Dispatch(old(State()), now, req, board.addressing, h).state
      ensures board.log == old(board.log)
                           + Emitted(board.addressing, req[0], Dispatch(old(State()), now, req, board.addressing, h))
    {
      var sid := req[0];
      ghost var before := State();
      if sid == 0x11 {
        reset.HandleReset(req, now, tx);
      } else if sid == 0x3E {
        HandleTesterPresent(req);
      } else {
        HandleResponseOnEvent(req);
      }
      assert State() == before.(reset := reset.State());
    }

    method HandleSessionControl(req: bytes, now: nat)
      requires Valid() && req != []
      modifies board`log, tx, session, security
      ensures Valid()
      ensures State() == SessionControlHandle(old(State()), now, req).state
      ensures board.log == old(board.log)
                           + Emitted(board.addressing, req[0], SessionControlHandle(old(State()), now, req))
    {
      var sid := req[0];
      if |req| < 2 {
        board.SendNrc(sid, NRC_INCORRECT_LENGTH);
        return;
      }
      var choice := SessionOf(req);
      if choice.None? {
        board.SendNrc(sid, NRC_SUB_FUNCTION_NOT_SUPPORTED);
        return;
      }
      security.ResetLockStatus();
      session.SetSession(choice.value, now);
      board.Emit(SessionSet(choice.value));
      SendTwo(Echo(sid), req[1]);
    }

    method HandleResponseOnEvent(req: bytes)
      requires Valid() && req != []
      modifies board`log, tx
      ensures board.log == old(board.log) + Transmit(board.addressing, req[0], ResponseOnEventHandle(req))
    {
      var sid := req[0];
      if |req| < 3 {
        board.SendNrc(sid, NRC_INCORRECT_LENGTH);
        return;
      }
      tx[0], tx[1], tx[2] := Echo(sid), req[1], req[2];
      assert tx[..3] == [Echo(sid), req[1], req[2]];
      board.SendResponse(tx[..3]);
    }

    method HandleTesterPresent(req: bytes)
      requires Valid() && req != []
      modifies board`log, tx
      ensures board.log == old(board.log) + Transmit(board.addressing, req[0], TesterPresentHandle(req))
    {
      var sid := req[0];
      if |req| < 2 {
        board.SendNrc(sid, NRC_INCORRECT_LENGTH);
        return;
      }
      if req[1] < 0x80 {
        SendTwo(Echo(sid), req[1] % 0x80);
      }
    }

    method SendTwo(a: byte, b: byte)
      requires tx.Length == UDS_BUFF_SIZE
      modifies board`log, tx
      ensures board.log == old(board.log) + [Frame([a, b])]
    {
      tx[0], tx[1] := a, b;
      assert tx[..2] == [a, b];
      board.SendResponse(tx[..2]);
    }

    /** The cases of services without state of their own. */
    method HandleStateless(req: bytes, ghost now: nat, h: Hooks)
      requires Valid() && Obedient(h) && req != [] && req[0] in {0x19, 0x22, 0x2E, 0x2F}
      requires board.addressing == Functional ==> !OnlyPhysical(req[0])
      modifies board`log, tx, behind
      ensures Valid()
      ensures State() == old(State())
      ensures Dispatch(State(), now, req, board.addressing, h).state == State()
      ensures ReadFits(dynamic.State(), req, h) ==> behind[..] == old(behind[..])
      ensures board.log == old(board.log)
                           + Emitted(board.addressing, req[0], Dispatch(State(), now, req, board.addressing, h))
    {
      var sid := req[0];
      if sid == 0x19 {
        RD.HandleReadDtc(board, req, tx, h);
      } else if sid == 0x22 {
        dynamic.HandleRead(req, tx, behind, h);
      } else if sid == 0x2E {
        GS.HandleWriteDid(board, session.current, security.status == SA.Unlocked, req, tx, h);
      } else {
        GS.HandleIoControl(board, session.current, security.status == SA.Unlocked, req, tx, h);
      }
    }

    /** The cases of services that keep state, and the default case. */
    method HandleStateful(req: bytes, now: nat, h: Hooks)
      requires Valid() && Obedient(h) && req != []
      requires req[0] !in {0x10, 0x86, 0x3E, 0x11, 0x19, 0x22, 0x2E, 0x2F, 0x34, 0x36, 0x37}
      requires board.addressing == Functional ==> !OnlyPhysical(req[0])
      modifies board, tx, security, security.generatedSeed, dynamic, dynamic.entries
      modifies periodic, periodic.active, clear, routine
      ensures Valid() && board.addressing == old(board.addressing)
      ensures State() == Dispatch(old(State()), now, req, board.addressing, h).state
      ensures board.log == old(board.log)
                           + Emitted(board.addressing, req[0], Dispatch(old(State()), now, req, board.addressing, h))
    {
      var sid := req[0];
      if sid == 0x14 {
        clear.HandleClearDtc(req);
      } else if sid == 0x27 {
        security.HandleRequest(req, now, tx, h);
      } else if sid == 0x2A {
        periodic.HandlePeriodicRequest(req);
      } else if sid == 0x2C {
        dynamic.HandleDefine(req);
      } else if sid == 0x31 {
        routine.HandleRoutineControl(session.current, req, h);
      } else {
        board.SendNrc(sid, NRC_SERVICE_NOT_SUPPORTED);
      }
    }

    /** The cases of the flash pipeline. */
    method HandleFlash(req: bytes, ghost now: nat, h: Hooks)
      requires Valid() && req != [] && req[0] in {0x34, 0x36, 0x37}
      requires board.addressing == Functional ==> !OnlyPhysical(req[0])
      modifies board`log, tx, flash
      ensures Valid()
      ensures State() == Dispatch(old(State()), now, req, board.addressing, h).state
      ensures board.log == old(board.log)
                           + Emitted(board.addressing, req[0], Dispatch(old(State()), now, req, board.addressing, h))
    {
      var sid := req[0];
      ghost var before := State();
      if sid == 0x34 {
        flash.HandleRequestDownload(session.current, security.status == SA.Unlocked, req, tx, h);
      } else if sid == 0x36 {
        flash.HandleTransferData(req, tx, h);
      } else {
        flash.HandleRequestTransferExit(req, tx);
      }
      assert State() == before.(flash := flash.State());
    }

    // The background services, from one blocking call to the next.

    method ClearExpiry()
      requires Valid() && CD.Enabled(clear.State(), CD.Callback)
      modifies clear, board`log
      ensures Valid() && State() == old(State()).(clear := CD.Next(old(State()).clear, CD.Callback))
      ensures board.log == old(board.log) + if old(State()).clear.done then [] else CD.FramesOf(CD.Pending78)
    {
      clear.TimerExpiry();
    }

    method ClearUntilSleep(context: bool)
      requires Valid() && CD.Enabled(clear.State(), CD.Take)
      modifies clear, board`log
      ensures Valid()
      ensures var hooked := CD.Next(CD.Next(old(State()).clear, CD.Take), CD.CallHook(context));
              State() == old(State()).(clear := CD.Next(CD.Next(hooked, CD.Mark), CD.StopTimer))
      ensures board.log == old(board.log) + []
    {
      clear.WorkerUntilSleep(context);
    }

    method ClearAfterSleep()
      requires Valid() && CD.Enabled(clear.State(), CD.Wake)
      modifies clear, board`log
      ensures Valid() && State() == old(State()).(clear := CD.Next(CD.Next(old(State()).clear, CD.Wake), CD.Return))
      ensures board.log == old(board.log) + CD.FramesOf(CD.Answer54)
    {
      clear.WorkerAfterSleep();
    }

    method RoutineExpiry()
      requires Valid() && RC.Enabled(routine.State(), RC.Expire)
      modifies routine, board`log
      ensures Valid() && State() == old(State()).(routine := RC.Next(old(State()).routine, RC.Expire))
      ensures board.log == old(board.log) + RC.FramesOf(RC.Pending78)
    {
      routine.TimerExpiry();
    }

    method RoutineUntilHook()
      requires Valid() && RC.Enabled(routine.State(), RC.Take)
      modifies routine, board`log
      ensures Valid()
      ensures State() == old(State()).(routine := RC.Next(RC.Next(old(State()).routine, RC.Take), RC.CallHook))
      ensures board.log == old(board.log) + []
    {
      routine.WorkerUntilHook();
    }

    method RoutineUntilSend(result: int)
      requires Valid() && RC.Enabled(routine.State(), RC.HookReturns(result))
      modifies routine, routine.answer, board`log
      ensures Valid()
      ensures var returned := RC.Next(old(State()).routine, RC.HookReturns(result));
              State() == old(State()).(routine := RC.Next(returned, RC.StopAndSend))
      ensures board.log == old(board.log) + RC.FinalFrame(old(State()).routine, result)
    {
      routine.WorkerUntilSend(result);
    }

    method RoutineReturns()
      requires Valid() && RC.Enabled(routine.State(), RC.Return)
      modifies routine, board`log
      ensures Valid() && State() == old(State()).(routine := RC.Next(old(State()).routine, RC.Return))
      ensures board.log == old(board.log) + []
    {
      routine.WorkerReturns();
    }
  }

  // ----- Response discipline

  /** The requests that never get a synchronous answer. */
  predicate Unanswered(r: Ram, req: bytes)
    requires req != []
  {
    || (req[0] == 0x3E && |req| >= 2 && req[1] >= 0x80)
    || (req[0] == 0x2A && |req| >= 3 && req[1] != 1 && req[1] != 4)
    || (req[0] == 0x14 && |req| == 4 && !CD.WorkPending(r.clear))
    || (req[0] == 0x31 && r.session.session != Default && |req| >= 4 && req[1] == 1 && r.routine.status != RC.Running)
  }

  predicate Supported(sid: byte) {
    sid in {0x10, 0x11, 0x14, 0x19, 0x22, 0x27, 0x2E, 0x2A, 0x2C, 0x2F, 0x31, 0x34, 0x36, 0x37, 0x86, 0x3E}
  }

  lemma DispatchDiscipline(r: Ram, now: nat, req: bytes, addressing: Addressing, h: Hooks)
    requires req != []
    ensures var o := Dispatch(r, now, req, addressing, h);
            && (o.reply.Silent? <==> Unanswered(r, req))
            && (o.reply.Positive? ==> Supported(req[0]) && o.reply.frame != [] && o.reply.frame[0] == req[0] + 0x40)
            && (forall e :: e in o.events ==> !e.Frame? && !e.Received? && !e.Reboot?)
  {
    HandlerEvents(r, now, req, addressing, h);
  }

  /** Handlers do not answer themselves. */
  lemma HandlerEvents(r: Ram, now: nat, req: bytes, addressing: Addressing, h: Hooks)
    requires req != []
    ensures forall e :: e in Dispatch(r, now, req, addressing, h).events ==> !e.Frame? && !e.Received? && !e.Reboot?
  {
  }

  function FramesIn(events: seq<Event>): seq<bytes> {
    if events == [] then []
    else FramesIn(events[..|events| - 1]) +
         match events[|events| - 1] case Frame(data) => [data] case _ => []
  }

  lemma {:induction false} NoFrames(events: seq<Event>)
    requires forall k :: 0 <= k < |events| ==> !events[k].Frame?
    ensures FramesIn(events) == []
  {
    if events != [] {
      NoFrames(events[..|events| - 1]);
    }
  }

  lemma SyncFrames(req: bytes, addressing: Addressing, o: Outcome<Ram>)
    requires req != [] && forall k :: 0 <= k < |o.events| ==> !o.events[k].Frame?
    ensures FramesIn([Received(req, addressing)] + Emitted(addressing, req[0], o)) ==
            match o.reply
            case Positive(frame) => [frame]
            case Negative(nrc) =>
              if addressing == Functional && nrc != NRC_RESPONSE_PENDING then [] else [[0x7F, req[0], nrc]]
            case Silent => []
  {
    var head := [Received(req, addressing)] + o.events;
    var sent := Transmit(addressing, req[0], o.reply);
    NoFrames(head);
    assert [Received(req, addressing)] + Emitted(addressing, req[0], o) == head + sent;
    if sent == [] {
      assert head + sent == head;
    } else {
      assert (head + sent)[..|head|] == head;
    }
  }

  /** The service identifier a tester reads off a response frame. */
  function AnsweredSid(frame: bytes): Option<byte> {
    if |frame| == 3 && frame[0] == 0x7F then Some(frame[1])
    else if frame != [] && frame[0] != 0x7F && frame[0] >= 0x40 then Some(frame[0] - 0x40)
    else None
  }

  /** Over all states and non-empty requests: at most one synchronous frame, and it names the service it
      answers; none at all exactly for the unanswered requests and for a functional negative answer
      other than 0x78. */
  lemma ResponseDiscipline(r: Ram, now: nat, req: bytes, addressing: Addressing, h: Hooks)
    requires req != []
    ensures var reply := Answered(r, now, req, addressing, h).reply;
            var frames := FramesIn(Process(r, now, req, addressing, h).1);
            && |frames| <= 1
            && (forall f :: f in frames ==> AnsweredSid(f) == Some(req[0]))
            && (frames == [] <==>
                  || Unanswered(r, req)
                  || (addressing == Functional && reply.Negative? && reply.nrc != NRC_RESPONSE_PENDING))
  {
    var o := Answered(r, now, req, addressing, h);
    DispatchDiscipline(Refreshed(r, now), now, req, addressing, h);
    SyncFrames(req, addressing, o);
  }
}
