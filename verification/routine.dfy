/** Routine control: a request thread, a work item that can be queued again while it is still sending,
    and a periodic 0x78 timer (uds_routine.c). */
module RoutineControl {
  import opened Kernel

  datatype RoutineStatus = RoutineIdle | Running | Completed | Failed

  datatype Note =
    | Accepted(id: nat)
    | Refused
    | Pending78
    | HookCalled(id: nat)
    | HookReturned(success: bool)
    | Answer(id: nat, code: byte)

  function AnswerFrame(id: nat, code: byte): bytes { [0x71, 1, id / 256 % 256, id % 256, code] }

  function FramesOf(n: Note): seq<Event> {
    match n
    case Pending78 => [Frame([0x7F, 0x31, NRC_RESPONSE_PENDING])]
    case Answer(id, code) => [Frame(AnswerFrame(id, code))]
    case _ => []
  }

  /** Where the worker is. Requests can come in while it is not running, in the hook, or sending;
      timer callbacks can come in everywhere. */
  datatype WorkerPc = NotRunning | AtHook | InHook | AtTimerStop | InSend

  datatype RoutineRam = RoutineRam(
    status: RoutineStatus, id: nat, armed: bool, queued: bool, worker: WorkerPc, log: seq<Note>)

  const BOOT := RoutineRam(RoutineIdle, 0, false, false, NotRunning, [])

  /** The system work queue is cooperative: the request thread runs only while the worker blocks. */
  predicate RequestsCanRun(r: RoutineRam) { r.worker != AtHook && r.worker != AtTimerStop }

  function Handle(r: RoutineRam, session: Session, req: bytes, h: Hooks): Outcome<RoutineRam>
    requires req != []
  {
    if session == Default then Outcome(r, [], Negative(NRC_NOT_SUPPORTED_IN_ACTIVE_SESSION))
    else if |req| < 4 then Outcome(r, [], Negative(NRC_INCORRECT_LENGTH))
    else if req[1] == 1 then Start(r, Word16(req[2], req[3]))
    else if req[1] == 3 then
      Outcome(r, [], Results(req, h))
    else Outcome(r, [], Negative(NRC_SUB_FUNCTION_NOT_SUPPORTED))
  }

  function Results(req: bytes, h: Hooks): Reply
    requires |req| >= 4
  {
    var id := Word16(req[2], req[3]);
    if id !in h.results then Negative(NRC_REQUEST_OUT_OF_RANGE)
    else Positive([Echo(req[0]), req[1], req[2], req[3], h.results[id].0, h.results[id].1])
  }

  function Start(r: RoutineRam, id: nat): Outcome<RoutineRam> {
    if r.status == Running then Outcome(r.(log := r.log + [Refused]), [], Negative(NRC_CONDITIONS_NOT_CORRECT))
    else Outcome(r.(id := id, status := Running, armed := true, queued := true, log := r.log + [Accepted(id)]),
                 [], Silent)
  }

  datatype Step = Take | CallHook | HookReturns(result: int) | StopAndSend | Return | Expire

  predicate Enabled(r: RoutineRam, s: Step) {
    match s
    case Take => r.queued && r.worker == NotRunning
    case CallHook => r.worker == AtHook
    case HookReturns(_) => r.worker == InHook
    case StopAndSend => r.worker == AtTimerStop
    case Return => r.worker == InSend
    case Expire => r.armed
  }

  function Code(r: RoutineRam): byte { if r.status == Completed then 0 else 2 }

  function NotesOf(r: RoutineRam, s: Step): seq<Note> {
    match s
    case CallHook => [HookCalled(r.id)]
    case HookReturns(result) => [HookReturned(result == 0)]
    case StopAndSend => [Answer(r.id, Code(r))]
    case Expire => [Pending78]
    case _ => []
  }

  function Next(r: RoutineRam, s: Step): RoutineRam
    requires Enabled(r, s)
  {
    var log := r.log + NotesOf(r, s);
    match s
    case Take => r.(queued := false, worker := AtHook, log := log)
    case CallHook => r.(worker := InHook, log := log)
    case HookReturns(result) =>
      r.(worker := AtTimerStop, status := if result == 0 then Completed else Failed, log := log)
    case StopAndSend => r.(worker := InSend, armed := false, log := log)
    case Return => r.(worker := NotRunning, log := log)
    case Expire => r.(log := log)
  }

  /** The frame the worker sends when its hook has returned. */
  function FinalFrame(r: RoutineRam, result: int): seq<Event> {
    FramesOf(Answer(r.id, if result == 0 then 0 else 2))
  }

  class RoutineService {
    var status: RoutineStatus
    var activeId: nat
    var timerArmed: bool
    var workQueued: bool
    var worker: WorkerPc
    const answer: array<byte>
    ghost var log: seq<Note>
    const board: Board

    ghost predicate Valid() reads this { answer.Length == 5 }

    ghost function State(): RoutineRam
      reads this
    {
      RoutineRam(status, activeId, timerArmed, workQueued, worker, log)
    }

    constructor (board: Board)
      ensures Valid() && State() == BOOT && fresh(answer) && this.board == board
    {
      status, activeId, timerArmed, workQueued, worker, log := RoutineIdle, 0, false, false, NotRunning, [];
      answer := new byte[5](_ => 0);
      this.board := board;
    }

    method HandleRoutineControl(session: Session, req: bytes, h: Hooks)
      requires Valid() && req != []
      modifies this, board`log
      ensures Valid() && State() == Handle(old(State()), session, req, h).state
      ensures board.log == old(board.log) + Emitted(board.addressing, req[0], Handle(old(State()), session, req, h))
    {
      var sid := req[0];
      if session == Default {
        board.SendNrc(sid, NRC_NOT_SUPPORTED_IN_ACTIVE_SESSION);
        return;
      }
      if |req| < 4 {
        board.SendNrc(sid, NRC_INCORRECT_LENGTH);
        return;
      }
      var id := Word16(req[2], req[3]);
      if req[1] == 1 {
        if status == Running {
          log := log + [Refused];
          board.SendNrc(sid, NRC_CONDITIONS_NOT_CORRECT);
          return;
        }
        activeId := id;
        status := Running;
        log := log + [Accepted(id)];
        timerArmed := true;
        workQueued := true;
      } else if req[1] == 3 {
        if id !in h.results {
          board.SendNrc(sid, NRC_REQUEST_OUT_OF_RANGE);
          return;
        }
        board.SendResponse([Echo(sid), req[1], req[2], req[3], h.results[id].0, h.results[id].1]);
      } else {
        board.SendNrc(sid, NRC_SUB_FUNCTION_NOT_SUPPORTED);
      }
    }

    method TimerExpiry()
      requires Enabled(State(), Expire)
      modifies this, board`log
      ensures State() == Next(old(State()), Expire)
      ensures board.log == old(board.log) + FramesOf(Pending78)
    {
      board.SendResponse([0x7F, 0x31, NRC_RESPONSE_PENDING]);
      log := log + [Pending78];
    }

    /** The worker up to the moment its hook blocks. */
    method WorkerUntilHook()
      requires Enabled(State(), Take)
      modifies this
      ensures State() == Next(Next(old(State()), Take), CallHook)
    {
      workQueued := false;
      log := log + [HookCalled(activeId)];
      worker := InHook;
    }

    /** The worker from the return of its hook to the moment it sends. */
    method WorkerUntilSend(result: int)
      requires Valid() && Enabled(State(), HookReturns(result))
      modifies this, answer, board`log
      ensures Valid() && State() == Next(Next(old(State()), HookReturns(result)), StopAndSend)
      ensures board.log == old(board.log) + FinalFrame(old(State()), result)
    {
      if result == 0 {
        status := Completed;
      } else {
        status := Failed;
      }
      log := log + [HookReturned(result == 0)];
      timerArmed := false;
      FillAnswer();
      worker := InSend;
      log := log + [Answer(activeId, answer[4])];
      board.SendResponse(answer[..]);
    }

    method WorkerReturns()
      requires Enabled(State(), Return)
      modifies this
      ensures State() == Next(old(State()), Return)
    {
      worker := NotRunning;
    }

    method FillAnswer()
      requires Valid()
      modifies answer
      ensures answer[..] == AnswerFrame(activeId, if status == Completed then 0 else 2)
    {
      answer[0] := 0x71;
      answer[1] := 1;
      answer[2] := activeId / 256 % 256;
      answer[3] := activeId % 256;
      answer[4] := if status == Completed then 0 else 2;
    }
  }

  // ----- The protocol, as a recogniser of logs that knows nothing of the module's variables.

  datatype Stage = Quiet | Waiting | Hooked | Decided(success: bool)

  datatype Watch = Watch(ok: bool, stage: Stage, id: nat)

  function Observe(w: Watch, n: Note): Watch {
    match n
    case Accepted(id) => Watch(w.ok && w.stage == Quiet, Waiting, id)
    case Refused => w.(ok := w.ok && w.stage != Quiet)
    case Pending78 => w.(ok := w.ok && w.stage != Quiet)
    case HookCalled(id) => w.(ok := w.ok && w.stage == Waiting && id == w.id, stage := Hooked)
    case HookReturned(success) => w.(ok := w.ok && w.stage == Hooked, stage := Decided(success))
    case Answer(id, code) =>
      w.(ok := w.ok && id == w.id && w.stage == Decided(code == 0) && (code == 0 || code == 2), stage := Quiet)
  }

  function Observed(log: seq<Note>): Watch {
    if log == [] then Watch(true, Quiet, 0) else Observe(Observed(log[..|log| - 1]), log[|log| - 1])
  }

  lemma ObservedAppend(log: seq<Note>, n: Note)
    ensures Observed(log + [n]) == Observe(Observed(log), n)
  {
    assert (log + [n])[..|log|] == log;
  }

  function StageOf(r: RoutineRam): Stage {
    match r.worker
    case AtHook => Waiting
    case InHook => Hooked
    case AtTimerStop => Decided(r.status == Completed)
    case _ => if r.queued then Waiting else Quiet
  }

  /** What every step keeps: in particular the 0x78 timer is armed exactly while a start waits for its
      answer. */
  ghost predicate Inv(r: RoutineRam) { Agrees(r, Observed(r.log)) }

  predicate Agrees(r: RoutineRam, w: Watch) {
    && w.ok
    && w.stage == StageOf(r)
    && (r.queued ==> r.worker == NotRunning || r.worker == InSend)
    && (w.stage != Quiet ==> w.id == r.id)
    && (r.status == Running <==> w.stage == Waiting || w.stage == Hooked)
    && (r.armed <==> w.stage != Quiet)
  }

  lemma HandleKeeps(r: RoutineRam, session: Session, req: bytes, h: Hooks)
    requires req != [] && Inv(r) && RequestsCanRun(r)
    ensures Inv(Handle(r, session, req, h).state)
  {
    if |req| >= 4 && req[1] == 1 {
      ObservedAppend(r.log, if r.status == Running then Refused else Accepted(Word16(req[2], req[3])));
    }
  }

  lemma StepAgrees(r: RoutineRam, w: Watch, s: Step)
    requires Enabled(r, s) && Agrees(r, w)
    ensures var notes := NotesOf(r, s);
            Agrees(Next(r, s), if notes == [] then w else Observe(w, notes[0]))
  {
  }

  lemma StepKeeps(r: RoutineRam, s: Step)
    requires Enabled(r, s) && Inv(r)
    ensures Inv(Next(r, s))
  {
    var notes := NotesOf(r, s);
    StepAgrees(r, Observed(r.log), s);
    if notes == [] {
      assert Next(r, s).log == r.log;
    } else {
      ObservedAppend(r.log, notes[0]);
      assert Next(r, s).log == r.log + [notes[0]];
    }
  }

  /** Each note of a well-formed log is in place after the notes before it. */
  lemma {:induction false} WellFormedPrefix(log: seq<Note>, k: nat)
    requires Observed(log).ok && k < |log|
    ensures Observed(log[..k]).ok && Observe(Observed(log[..k]), log[k]).ok
    decreases |log|
  {
    if k < |log| - 1 {
      WellFormedPrefix(log[..|log| - 1], k);
      assert log[..|log| - 1][..k] == log[..k];
    }
  }

  /** While the protocol is not quiet, the last accepted start is still unanswered. */
  lemma {:induction false} UnansweredStart(log: seq<Note>) returns (i: nat)
    requires Observed(log).ok && Observed(log).stage != Quiet
    ensures i < |log| && log[i].Accepted? && forall m :: i < m < |log| ==> !log[m].Answer? && !log[m].Accepted?
  {
    i := |log| - 1;
    if !log[i].Accepted? {
      var front := log[..i];
      i := UnansweredStart(front);
      assert forall m :: 0 <= m < |front| ==> front[m] == log[m];
    }
  }

  function Starts(log: seq<Note>): seq<nat> {
    if log == [] then []
    else Starts(log[..|log| - 1]) + match log[|log| - 1] case Accepted(id) => [id] case _ => []
  }

  /** The identifiers the hook was called with. */
  function Called(log: seq<Note>): seq<nat> {
    if log == [] then []
    else Called(log[..|log| - 1]) + match log[|log| - 1] case HookCalled(id) => [id] case _ => []
  }

  /** Per hook call that returned, whether it returned 0. */
  function Verdicts(log: seq<Note>): seq<bool> {
    if log == [] then []
    else Verdicts(log[..|log| - 1]) + match log[|log| - 1] case HookReturned(success) => [success] case _ => []
  }

  /** Per final answer, the routine and the status byte it carries. */
  function Answers(log: seq<Note>): seq<(nat, byte)> {
    if log == [] then []
    else Answers(log[..|log| - 1]) + match log[|log| - 1] case Answer(id, code) => [(id, code)] case _ => []
  }

  /** In a well-formed log the k-th answer is the k-th start's: its id, and status 0 exactly when its
      hook returned 0. Only the last start may still be unanswered. */
  lemma {:induction false} AnswersMatchStarts(log: seq<Note>)
    requires Observed(log).ok
    ensures var w := Observed(log);
            var starts, verdicts, answers := Starts(log), Verdicts(log), Answers(log);
            && |answers| == (if w.stage == Quiet then |starts| else |starts| - 1)
            && |verdicts| == (if w.stage == Waiting || w.stage == Hooked then |starts| - 1 else |starts|)
            && (forall k :: 0 <= k < |answers| ==>
                  answers[k] == (starts[k], if verdicts[k] then 0 else 2))
            && (w.stage != Quiet ==> starts != [] && w.id == starts[|starts| - 1])
            && (w.stage.Decided? ==> verdicts[|verdicts| - 1] == w.stage.success)
  {
    if log != [] {
      AnswersMatchStarts(log[..|log| - 1]);
    }
  }

  /** In a well-formed log the k-th hook call is for the k-th start. */
  lemma {:induction false} CalledInOrder(log: seq<Note>)
    requires Observed(log).ok
    ensures var w := Observed(log);
            && |Called(log)| == (if w.stage == Waiting then |Starts(log)| - 1 else |Starts(log)|)
            && |Verdicts(log)| == (if w.stage == Waiting || w.stage == Hooked then |Starts(log)| - 1 else |Starts(log)|)
            && (forall k :: 0 <= k < |Called(log)| ==> Called(log)[k] == Starts(log)[k])
            && (w.stage != Quiet ==> Starts(log) != [] && w.id == Starts(log)[|Starts(log)| - 1])
  {
    if log != [] {
      CalledInOrder(log[..|log| - 1]);
    }
  }

  /** The worker's next statement, with the hook's result if it is in the hook. */
  function WorkerStep(r: RoutineRam, result: int): (s: Step)
    requires r.queued || r.worker != NotRunning
    ensures Enabled(r, s) && s != Expire
  {
    match r.worker
    case NotRunning => Take
    case AtHook => CallHook
    case InHook => HookReturns(result)
    case AtTimerStop => StopAndSend
    case InSend => Return
  }

  function Left(r: RoutineRam): nat {
    (if r.queued then 5 else 0) +
    match r.worker case NotRunning => 0 case AtHook => 4 case InHook => 3 case AtTimerStop => 2 case InSend => 1
  }

  /** The worker's own statements from here until nothing is queued or running. */
  function WorkerRun(r: RoutineRam, result: int): RoutineRam
    decreases Left(r)
  {
    if r.queued || r.worker != NotRunning then WorkerRun(Next(r, WorkerStep(r, result)), result) else r
  }

  lemma {:induction false} SameStarts(log: seq<Note>, notes: seq<Note>)
    requires |notes| <= 1 && forall k :: 0 <= k < |notes| ==> !notes[k].Accepted?
    ensures Starts(log + notes) == Starts(log)
  {
    if notes == [] {
      assert log + notes == log;
    } else {
      assert (log + notes)[..|log|] == log;
    }
  }

  /** From every reachable state the worker's remaining statements answer every accepted start, also one
      that was accepted while the worker was still sending. */
  lemma {:induction false} WorkerAnswersEveryStart(r: RoutineRam, result: int)
    requires Inv(r)
    ensures var r' := WorkerRun(r, result);
            && Inv(r') && r'.status != Running && !r'.armed
            && Starts(r'.log) == Starts(r.log) && |Answers(r'.log)| == |Starts(r.log)|
    decreases Left(r)
  {
    if r.queued || r.worker != NotRunning {
      WorkerProgress(r, result);
      WorkerAnswersEveryStart(Next(r, WorkerStep(r, result)), result);
    } else {
      AnswersMatchStarts(r.log);
    }
  }

  lemma WorkerProgress(r: RoutineRam, result: int)
    requires Inv(r) && (r.queued || r.worker != NotRunning)
    ensures var r' := Next(r, WorkerStep(r, result));
            Inv(r') && Left(r') < Left(r) && Starts(r'.log) == Starts(r.log)
  {
    var s := WorkerStep(r, result);
    StepKeeps(r, s);
    SameStarts(r.log, NotesOf(r, s));
  }
}
