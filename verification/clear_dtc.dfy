/** Clear diagnostic information: a request thread, a work item and a 0x78 supervisor timer that share
    `worker_done` (uds_clear_dtc.c). */
module ClearDtc {
  import opened Kernel

  /** What happened since power-on, as far as service 0x14 is concerned. */
  datatype Note =
    | Accepted(group: nat)
    | Refused
    | Fired                       // the supervisor timer expired
    | Pending78
    | HookCalled(group: nat)
    | NoContext                   // the worker found no storage context, so no hook to call
    | Done                        // worker_done was set
    | Answer54
    | Returned                    // the work item is no longer pending

  function FramesOf(n: Note): seq<Event> {
    match n
    case Pending78 => [Frame([0x7F, 0x14, NRC_RESPONSE_PENDING])]
    case Answer54 => [Frame([0x54])]
    case _ => []
  }

  /** Where the worker is, in program order. */
  datatype WorkerPc = NotRunning | AtContext | InHook | AtTimerStop | Asleep | InSend

  /** Where a started timer callback is: before its send, its second read, or its restart. */
  datatype CallbackPc = NoCallback | AtSend | AtRecheck | AtRestart

  datatype ClearRam = ClearRam(
    group: nat, done: bool, armed: bool,
    queued: bool, worker: WorkerPc, callback: CallbackPc,
    log: seq<Note>)

  const BOOT := ClearRam(0, false, false, false, NotRunning, NoCallback, [])

  /** `k_work_is_pending`. */
  predicate WorkPending(r: ClearRam) { r.queued || r.worker != NotRunning }

  function Group(req: bytes): nat requires |req| == 4 { Word16(req[1], req[2]) * 256 + req[3] }

  function Handle(r: ClearRam, req: bytes): Outcome<ClearRam>
    requires req != []
  {
    if |req| != 4 then Outcome(r, [], Negative(NRC_INCORRECT_LENGTH))
    else if WorkPending(r) then Outcome(r.(log := r.log + [Refused]), [], Negative(NRC_CONDITIONS_NOT_CORRECT))
    else Outcome(r.(group := Group(req), done := false, armed := true, queued := true,
                    log := r.log + [Accepted(Group(req))]), [], Silent)
  }

  /** One statement of the worker or of the timer callback; `Callback` is a callback that nothing
      interrupts, the last four its pieces when it is split at its two reads of `worker_done`. */
  datatype Step =
    | Take | CallHook(context: bool) | Mark | StopTimer | Wake | Return
    | Callback
    | Expire | SendPending | Recheck | Restart

  predicate Enabled(r: ClearRam, s: Step) {
    match s
    case Take => r.queued && r.worker == NotRunning
    case CallHook(_) => r.worker == AtContext
    case Mark => r.worker == InHook
    case StopTimer => r.worker == AtTimerStop
    case Wake => r.worker == Asleep
    case Return => r.worker == InSend
    case Callback => r.armed && r.callback == NoCallback
    case Expire => r.armed && r.callback == NoCallback
    case SendPending => r.callback == AtSend
    case Recheck => r.callback == AtRecheck
    case Restart => r.callback == AtRestart
  }

  /** What a step adds to the log. */
  function NotesOf(r: ClearRam, s: Step): seq<Note> {
    match s
    case CallHook(context) => [if context then HookCalled(r.group) else NoContext]
    case Mark => [Done]
    case Wake => [Answer54]
    case Return => [Returned]
    case Callback => if r.done then [Fired] else [Fired, Pending78]
    case Expire => [Fired]
    case SendPending => [Pending78]
    case _ => []
  }

  function Move(r: ClearRam, s: Step): ClearRam
    requires Enabled(r, s)
  {
    match s
    case Take => r.(queued := false, worker := AtContext)
    case CallHook(_) => r.(worker := InHook)
    case Mark => r.(worker := AtTimerStop, done := true)
    case StopTimer => r.(worker := Asleep, armed := false)
    case Wake => r.(worker := InSend)
    case Return => r.(worker := NotRunning)
    case Callback => if r.done then r.(armed := false) else r
    case Expire => r.(armed := false, callback := if r.done then NoCallback else AtSend)
    case SendPending => r.(callback := AtRecheck)
    case Recheck => r.(callback := if r.done then NoCallback else AtRestart)
    case Restart => r.(callback := NoCallback, armed := true)
  }

  function Next(r: ClearRam, s: Step): ClearRam
    requires Enabled(r, s)
  {
    Move(r, s).(log := r.log + NotesOf(r, s))
  }

  predicate SplitsCallback(s: Step) { s.Expire? || s.SendPending? || s.Recheck? || s.Restart? }

  /** The module's statics. The methods are the pieces of code between blocking points. */
  class ClearService {
    var targetGroup: nat
    var workerDone: bool
    var timerArmed: bool
    var workQueued: bool
    var worker: WorkerPc
    ghost var log: seq<Note>
    const board: Board

    ghost function State(): ClearRam
      reads this
    {
      ClearRam(targetGroup, workerDone, timerArmed, workQueued, worker, NoCallback, log)
    }

    constructor (board: Board)
      ensures State() == BOOT && this.board == board
    {
      targetGroup, workerDone, timerArmed, workQueued, worker, log := 0, false, false, false, NotRunning, [];
      this.board := board;
    }

    method HandleClearDtc(req: bytes)
      requires req != []
      modifies this, board`log
      ensures State() == Handle(old(State()), req).state
      ensures board.log == old(board.log) + Emitted(board.addressing, req[0], Handle(old(State()), req))
    {
      var sid := req[0];
      if |req| != 4 {
        board.SendNrc(sid, NRC_INCORRECT_LENGTH);
        return;
      }
      if workQueued || worker != NotRunning {
        log := log + [Refused];
        board.SendNrc(sid, NRC_CONDITIONS_NOT_CORRECT);
        return;
      }
      targetGroup := Word16(req[1], req[2]) * 256 + req[3];
      log := log + [Accepted(targetGroup)];
      workerDone := false;
      timerArmed := true;
      workQueued := true;
    }

    method TimerExpiry()
      requires Enabled(State(), Callback)
      modifies this, board`log
      ensures State() == Next(old(State()), Callback)
      ensures board.log == old(board.log) + if old(workerDone) then [] else FramesOf(Pending78)
    {
      timerArmed := false;
      log := log + [Fired];
      if workerDone {
        return;
      }
      board.SendResponse([0x7F, 0x14, NRC_RESPONSE_PENDING]);
      log := log + [Pending78];
      assert log == old(log) + [Fired, Pending78];
      if !workerDone {
        timerArmed := true;
      }
    }

    /** The worker up to its sleep. */
    method WorkerUntilSleep(context: bool)
      requires Enabled(State(), Take)
      modifies this
      ensures State() == var taken := Next(old(State()), Take);
                         var called := Next(taken, CallHook(context));
                         Next(Next(called, Mark), StopTimer)
    {
      workQueued := false;
      log := log + [if context then HookCalled(targetGroup) else NoContext];
      workerDone := true;
      log := log + [Done];
      timerArmed := false;
      worker := Asleep;
    }

    /** The worker from its sleep to its end. */
    method WorkerAfterSleep()
      requires Enabled(State(), Wake)
      modifies this, board`log
      ensures State() == Next(Next(old(State()), Wake), Return)
      ensures board.log == old(board.log) + FramesOf(Answer54)
    {
      board.SendResponse([0x54]);
      log := log + [Answer54];
      log := log + [Returned];
      worker := NotRunning;
    }
  }

  // ----- The protocol, as a recogniser of logs that knows nothing of the module's variables.

  datatype Stage = Idle | Waiting | Hooked | Finished | Answered

  /** `late` and `fires` are how many more 0x78 frames and timer expiries are allowed while no
      accepted request is waiting for `worker_done`; an expiry then is silent, so it ends the frames. */
  datatype Watch = Watch(ok: bool, stage: Stage, group: nat, late: nat, fires: nat)

  predicate Open(w: Watch) { w.stage == Waiting || w.stage == Hooked }

  function Observe(w: Watch, n: Note, allowance: nat): Watch {
    match n
    case Accepted(group) => Watch(w.ok && w.stage == Idle, Waiting, group, 0, 0)
    case Refused => w.(ok := w.ok && w.stage != Idle)
    case Fired =>
      if Open(w) then w
      else w.(ok := w.ok && w.fires > 0, fires := if w.fires > 0 then w.fires - 1 else 0, late := 0)
    case Pending78 =>
      if Open(w) then w else w.(ok := w.ok && w.late > 0, late := if w.late > 0 then w.late - 1 else 0)
    case HookCalled(group) => w.(ok := w.ok && w.stage == Waiting && group == w.group, stage := Hooked)
    case NoContext => w.(ok := w.ok && w.stage == Waiting, stage := Hooked)
    case Done => w.(ok := w.ok && w.stage == Hooked, stage := Finished, late := allowance, fires := 1)
    case Answer54 => w.(ok := w.ok && w.stage == Finished, stage := Answered)
    case Returned => w.(ok := w.ok && w.stage == Answered, stage := Idle)
  }

  /** With `allowance` late 0x78 frames per round. */
  function Observed(log: seq<Note>, allowance: nat): Watch {
    if log == [] then Watch(true, Idle, 0, 0, 0)
    else Observe(Observed(log[..|log| - 1], allowance), log[|log| - 1], allowance)
  }

  lemma ObservedAppend(log: seq<Note>, n: Note, allowance: nat)
    ensures Observed(log + [n], allowance) == Observe(Observed(log, allowance), n, allowance)
  {
    assert (log + [n])[..|log|] == log;
  }

  function StageOf(r: ClearRam): Stage {
    match r.worker
    case NotRunning => if r.queued then Waiting else Idle
    case AtContext => Waiting
    case InHook => Hooked
    case AtTimerStop => Finished
    case Asleep => Finished
    case InSend => Answered
  }

  /** What every step keeps. `allowance` is 1, or 0 when callbacks are never split. */
  ghost predicate Inv(r: ClearRam, allowance: nat) {
    Agrees(r, Observed(r.log, allowance), allowance)
  }

  ghost predicate Agrees(r: ClearRam, w: Watch, allowance: nat) {
    && w.ok
    && w.stage == StageOf(r)
    && (r.queued ==> r.worker == NotRunning)
    && (w.stage != Idle ==> w.group == r.group)
    && (allowance == 0 ==> r.callback == NoCallback)
    && (Open(w) ==> !r.done)
    && (w.stage == Finished || w.stage == Answered ==> r.done)
    && (w.stage == Idle ==> r.done || (!r.armed && r.callback == NoCallback))
    && (!Open(w) && r.callback == AtSend ==> w.late > 0)
    && (!Open(w) && (r.armed || r.callback == AtRestart) ==> w.fires > 0)
  }

  lemma HandleKeeps(r: ClearRam, req: bytes, allowance: nat)
    requires req != [] && Inv(r, allowance)
    ensures Inv(Handle(r, req).state, allowance)
  {
    if |req| == 4 {
      ObservedAppend(r.log, if WorkPending(r) then Refused else Accepted(Group(req)), allowance);
    }
  }

  function ObserveAll(w: Watch, notes: seq<Note>, allowance: nat): Watch {
    if notes == [] then w else Observe(ObserveAll(w, notes[..|notes| - 1], allowance), notes[|notes| - 1], allowance)
  }

  lemma {:induction false} ObservedConcat(log: seq<Note>, notes: seq<Note>, allowance: nat)
    ensures Observed(log + notes, allowance) == ObserveAll(Observed(log, allowance), notes, allowance)
  {
    if notes == [] {
      assert log + notes == log;
    } else {
      var front := notes[..|notes| - 1];
      ObservedConcat(log, front, allowance);
      ObservedAppend(log + front, notes[|notes| - 1], allowance);
      assert log + front + [notes[|notes| - 1]] == log + notes;
    }
  }

  lemma StepAgrees(r: ClearRam, w: Watch, s: Step, allowance: nat)
    requires Enabled(r, s) && Agrees(r, w, allowance)
    requires SplitsCallback(s) ==> allowance >= 1
    ensures Agrees(Next(r, s), ObserveAll(w, NotesOf(r, s), allowance), allowance)
  {
    var notes := NotesOf(r, s);
    if |notes| == 1 {
      assert notes[..0] == [];
    } else if |notes| == 2 {
      assert notes[..1] == [Fired] && [Fired][..0] == [];
      assert ObserveAll(w, [Fired], allowance) == Observe(w, Fired, allowance);
    }
  }

  lemma StepKeeps(r: ClearRam, s: Step, allowance: nat)
    requires Enabled(r, s) && Inv(r, allowance)
    requires SplitsCallback(s) ==> allowance >= 1
    ensures Inv(Next(r, s), allowance)
  {
    StepAgrees(r, Observed(r.log, allowance), s, allowance);
    ObservedConcat(r.log, NotesOf(r, s), allowance);
  }

  // ----- What a well-formed log says about requests, hook calls and answers.

  function AcceptedGroups(log: seq<Note>): seq<nat> {
    if log == [] then []
    else AcceptedGroups(log[..|log| - 1]) + match log[|log| - 1] case Accepted(g) => [g] case _ => []
  }

  /** Per worker run, the group its hook was given, or none without a storage context. */
  function Cleared(log: seq<Note>): seq<Option<nat>> {
    if log == [] then []
    else Cleared(log[..|log| - 1]) +
         match log[|log| - 1] case HookCalled(g) => [Some(g)] case NoContext => [None] case _ => []
  }

  function Answers(log: seq<Note>): nat {
    if log == [] then 0 else Answers(log[..|log| - 1]) + if log[|log| - 1] == Answer54 then 1 else 0
  }

  /** In a well-formed log every accepted request, in order, has its own worker run, given its own
      group, and its own answer; only the last may still be under way. */
  lemma {:induction false} OneRunOneAnswerEach(log: seq<Note>, allowance: nat)
    requires Observed(log, allowance).ok
    ensures var w := Observed(log, allowance);
            var accepted, cleared := AcceptedGroups(log), Cleared(log);
            && |cleared| == (if w.stage == Waiting then |accepted| - 1 else |accepted|)
            && (forall k :: 0 <= k < |cleared| && cleared[k].Some? ==> cleared[k].value == accepted[k])
            && Answers(log) == (if Open(w) || w.stage == Finished then |accepted| - 1 else |accepted|)
            && (w.stage != Idle ==> accepted != [] && w.group == accepted[|accepted| - 1])
  {
    if log != [] {
      OneRunOneAnswerEach(log[..|log| - 1], allowance);
    }
  }

  /** From `worker_done` on: the 0x78 frames and expiries so far and those still allowed. */
  predicate Account(w: Watch, pendings: nat, expiries: nat, allowance: nat) {
    !Open(w) && pendings + w.late <= allowance && expiries + w.fires == 1
  }

  lemma AccountStep(w: Watch, n: Note, pendings: nat, expiries: nat, allowance: nat)
    requires Account(w, pendings, expiries, allowance) && !n.Accepted? && Observe(w, n, allowance).ok
    ensures Account(Observe(w, n, allowance), pendings + (if n == Pending78 then 1 else 0),
                    expiries + (if n == Fired then 1 else 0), allowance)
  {
  }

  /** Between acceptance and `worker_done` 0x78 frames are free; from there to the next acceptance there
      is none at all if callbacks are never split, and at most one if they are. */
  lemma {:induction false} LatePending(log: seq<Note>, from: nat, allowance: nat)
    requires Observed(log, allowance).ok && from < |log| && log[from] == Done
    requires forall k :: from < k < |log| ==> !log[k].Accepted?
    ensures Account(Observed(log, allowance), PendingFrames(log[from..]), Expiries(log[from..]), allowance)
  {
    var before, n := log[..|log| - 1], log[|log| - 1];
    assert log[from..] == before[from..] + [n];
    CountsAppend(before[from..], n);
    if from < |before| {
      assert forall k :: from < k < |before| ==> before[k] == log[k];
      LatePending(before, from, allowance);
      AccountStep(Observed(before, allowance), n, PendingFrames(before[from..]), Expiries(before[from..]), allowance);
    }
  }

  /** After an expiry that follows `worker_done`, no 0x78 frame is left until the next acceptance. */
  lemma {:induction false} NoneLeft(log: seq<Note>, from: nat, fired: nat, allowance: nat)
    requires Observed(log, allowance).ok && from < fired < |log| && log[from] == Done && log[fired] == Fired
    requires forall k :: from < k < |log| ==> !log[k].Accepted?
    ensures Observed(log, allowance).late == 0 && !Open(Observed(log, allowance))
  {
    var front, n := log[..|log| - 1], log[|log| - 1];
    assert forall k :: 0 <= k < |front| ==> front[k] == log[k];
    LatePending(front, from, allowance);
    if fired < |front| {
      NoneLeft(front, from, fired, allowance);
    }
  }

  /** So that expiry is silent: no 0x78 frame follows it. */
  lemma SilentExpiry(log: seq<Note>, from: nat, fired: nat, k: nat, allowance: nat)
    requires Observed(log, allowance).ok && from < fired < k < |log| && log[from] == Done && log[fired] == Fired
    requires forall m :: from < m <= k ==> !log[m].Accepted?
    ensures log[k] != Pending78
  {
    WellFormedPrefix(log, k, allowance);
    assert forall m :: 0 <= m < k ==> log[..k][m] == log[m];
    NoneLeft(log[..k], from, fired, allowance);
  }

  lemma CountsAppend(log: seq<Note>, n: Note)
    ensures PendingFrames(log + [n]) == PendingFrames(log) + if n == Pending78 then 1 else 0
    ensures Expiries(log + [n]) == Expiries(log) + if n == Fired then 1 else 0
  {
    assert (log + [n])[..|log|] == log;
  }

  /** Some accepted request's worker has not returned. */
  ghost predicate Busy(log: seq<Note>) {
    exists i :: 0 <= i < |log| && log[i].Accepted? && forall m :: i < m < |log| ==> log[m] != Returned
  }

  lemma BusyAppend(log: seq<Note>, n: Note)
    ensures Busy(log + [n]) <==> n.Accepted? || (n != Returned && Busy(log))
  {
    var longer := log + [n];
    assert longer[|log|] == n;
    if Busy(log) && n != Returned {
      var i :| 0 <= i < |log| && log[i].Accepted? && forall m :: i < m < |log| ==> log[m] != Returned;
      assert longer[i] == log[i];
    }
    if Busy(longer) && !n.Accepted? {
      var i :| 0 <= i < |longer| && longer[i].Accepted? && forall m :: i < m < |longer| ==> longer[m] != Returned;
      assert log[i] == longer[i] && forall m :: 0 <= m < |log| ==> log[m] == longer[m];
    }
  }

  lemma {:induction false} BusyWhileNotIdle(log: seq<Note>, allowance: nat)
    requires Observed(log, allowance).ok
    ensures Busy(log) <==> Observed(log, allowance).stage != Idle
  {
    if log != [] {
      var front, n := log[..|log| - 1], log[|log| - 1];
      BusyWhileNotIdle(front, allowance);
      assert log == front + [n];
      BusyAppend(front, n);
    }
  }

  /** Each note of a well-formed log is in place after the notes before it. */
  lemma {:induction false} WellFormedPrefix(log: seq<Note>, k: nat, allowance: nat)
    requires Observed(log, allowance).ok && k < |log|
    ensures Observed(log[..k], allowance).ok && Observe(Observed(log[..k], allowance), log[k], allowance).ok
    decreases |log|
  {
    if k < |log| - 1 {
      WellFormedPrefix(log[..|log| - 1], k, allowance);
      assert log[..|log| - 1][..k] == log[..k];
    }
  }

  /** Before the first acceptance there is no 0x78 frame and no answer. */
  lemma {:induction false} NothingBeforeAcceptance(log: seq<Note>, allowance: nat)
    requires Observed(log, allowance).ok
    requires forall k :: 0 <= k < |log| ==> !log[k].Accepted?
    ensures log == []
  {
    if log != [] {
      NothingBeforeAcceptance(log[..|log| - 1], allowance);
    }
  }

  function PendingFrames(log: seq<Note>): nat {
    if log == [] then 0 else PendingFrames(log[..|log| - 1]) + if log[|log| - 1] == Pending78 then 1 else 0
  }

  function Expiries(log: seq<Note>): nat {
    if log == [] then 0 else Expiries(log[..|log| - 1]) + if log[|log| - 1] == Fired then 1 else 0
  }

  /** The worker's next statement. */
  function WorkerStep(r: ClearRam, context: bool): (s: Step)
    requires WorkPending(r)
    ensures Enabled(r, s) && !SplitsCallback(s)
  {
    match r.worker
    case NotRunning => Take
    case AtContext => CallHook(context)
    case InHook => Mark
    case AtTimerStop => StopTimer
    case Asleep => Wake
    case InSend => Return
  }

  function Left(r: ClearRam): nat {
    (if r.queued then 6 else 0) +
    match r.worker
    case NotRunning => 0 case AtContext => 5 case InHook => 4 case AtTimerStop => 3 case Asleep => 2 case InSend => 1
  }

  /** The worker's own statements from here until nothing is pending. */
  function WorkerRun(r: ClearRam, context: bool): ClearRam
    decreases Left(r)
  {
    if WorkPending(r) then WorkerRun(Next(r, WorkerStep(r, context)), context) else r
  }

  /** From every reachable state the worker's remaining statements bring every accepted request its
      answer and make the service ready again. */
  lemma {:induction false} WorkerAnswersEveryRequest(r: ClearRam, context: bool, allowance: nat)
    requires Inv(r, allowance)
    ensures var r' := WorkerRun(r, context);
            && Inv(r', allowance) && !WorkPending(r')
            && AcceptedGroups(r'.log) == AcceptedGroups(r.log)
            && Answers(r'.log) == |AcceptedGroups(r.log)|
    decreases Left(r)
  {
    if WorkPending(r) {
      WorkerProgress(r, context, allowance);
      WorkerAnswersEveryRequest(Next(r, WorkerStep(r, context)), context, allowance);
    } else {
      OneRunOneAnswerEach(r.log, allowance);
    }
  }

  lemma WorkerProgress(r: ClearRam, context: bool, allowance: nat)
    requires Inv(r, allowance) && WorkPending(r)
    ensures var r' := Next(r, WorkerStep(r, context));
            Inv(r', allowance) && Left(r') < Left(r) && AcceptedGroups(r'.log) == AcceptedGroups(r.log)
  {
    StepKeeps(r, WorkerStep(r, context), allowance);
    WorkerShortens(r, context);
    SameAccepted(r.log, NotesOf(r, WorkerStep(r, context)));
  }

  lemma WorkerShortens(r: ClearRam, context: bool)
    requires WorkPending(r) && (r.queued ==> r.worker == NotRunning)
    ensures var s := WorkerStep(r, context);
            && Left(Next(r, s)) < Left(r) && Next(r, s).log == r.log + NotesOf(r, s)
            && forall k :: 0 <= k < |NotesOf(r, s)| ==> !NotesOf(r, s)[k].Accepted?
  {
  }

  lemma {:induction false} SameAccepted(log: seq<Note>, notes: seq<Note>)
    requires forall k :: 0 <= k < |notes| ==> !notes[k].Accepted?
    ensures AcceptedGroups(log + notes) == AcceptedGroups(log)
  {
    if notes == [] {
      assert log + notes == log;
    } else {
      SameAccepted(log, notes[..|notes| - 1]);
      assert (log + notes)[..|log + notes| - 1] == log + notes[..|notes| - 1];
    }
  }
}
