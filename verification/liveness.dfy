/** Every accepted request of the background services can still be answered: the workers' own statements,
    and nothing else, lead there from every run. */
module Liveness {
  import opened Kernel
  import opened UdsSystem
  import opened BackgroundServices
  import CD = ClearDtc
  import RC = RoutineControl

  /** Steps of the 0x14 worker; timer callbacks are not among them. */
  predicate ClearWorkerOnly(steps: seq<Step>) {
    forall k :: 0 <= k < |steps| ==>
      steps[k].ClearStep? && !steps[k].clear.Callback? && !CD.SplitsCallback(steps[k].clear)
  }

  predicate RoutineWorkerOnly(steps: seq<Step>) {
    forall k :: 0 <= k < |steps| ==> steps[k].RoutineStep? && !steps[k].routine.Expire?
  }

  /** From every run, the worker's remaining statements lead to a run in which there are as many 0x54
      frames on the bus as accepted 0x14 requests, and the service is ready again. */
  lemma {:induction false} ClearRequestsGetAnswered(steps: seq<Step>, s: Sys, context: bool)
    returns (more: seq<Step>, s': Sys)
    requires Run(steps) == Some(s)
    ensures ClearWorkerOnly(more) && Run(steps + more) == Some(s')
    ensures CD.AcceptedGroups(s'.ram.clear.log) == CD.AcceptedGroups(s.ram.clear.log) && !CD.WorkPending(s'.ram.clear)
    ensures CountFrames(Fold(Hear, QUIET, s'.log).clear, CLEARED) == |CD.AcceptedGroups(s.ram.clear.log)|
    decreases CD.Left(s.ram.clear)
  {
    if CD.WorkPending(s.ram.clear) {
      var step, next := ClearWorkerMoves(steps, s, context);
      var rest;
      rest, s' := ClearRequestsGetAnswered(steps + [step], next, context);
      more := [step] + rest;
      Regroup(steps, [step], rest);
    } else {
      more, s' := [], s;
      assert steps + [] == steps;
      ClearAnswersOnce(steps, s, 1);
    }
  }

  lemma ClearWorkerMoves(steps: seq<Step>, s: Sys, context: bool) returns (step: Step, next: Sys)
    requires Run(steps) == Some(s) && CD.WorkPending(s.ram.clear)
    ensures step.ClearStep? && !step.clear.Callback? && !CD.SplitsCallback(step.clear)
    ensures Run(steps + [step]) == Some(next) && CD.Left(next.ram.clear) < CD.Left(s.ram.clear)
    ensures CD.AcceptedGroups(next.ram.clear.log) == CD.AcceptedGroups(s.ram.clear.log)
  {
    var c := CD.WorkerStep(s.ram.clear, context);
    step := ClearStep(c);
    ClearInvInRun(steps, s);
    CD.WorkerProgress(s.ram.clear, context, 1);
    next := Next(s, step);
    assert next.ram.clear == CD.Next(s.ram.clear, c);
    RunAppend(steps, s, step);
  }

  lemma ClearInvInRun(steps: seq<Step>, s: Sys)
    requires Run(steps) == Some(s)
    ensures CD.Inv(s.ram.clear, 1)
  {
    ProtocolsInEveryRun(steps, 1);
  }

  /** From every run, the worker's remaining statements lead to a run in which every accepted start has its
      final 0x71 01 frame on the bus, and the 0x78 timer is stopped. */
  lemma {:induction false} RoutineStartsGetAnswered(steps: seq<Step>, s: Sys, result: int)
    returns (more: seq<Step>, s': Sys)
    requires Run(steps) == Some(s)
    ensures RoutineWorkerOnly(more) && Run(steps + more) == Some(s')
    ensures RC.Starts(s'.ram.routine.log) == RC.Starts(s.ram.routine.log) && !s'.ram.routine.armed
    ensures |FinalFrames(Fold(Hear, QUIET, s'.log).routine)| == |RC.Starts(s.ram.routine.log)|
    decreases RC.Left(s.ram.routine)
  {
    if s.ram.routine.queued || s.ram.routine.worker != RC.NotRunning {
      var step, next := RoutineWorkerMoves(steps, s, result);
      var rest;
      rest, s' := RoutineStartsGetAnswered(steps + [step], next, result);
      more := [step] + rest;
      Regroup(steps, [step], rest);
    } else {
      more, s' := [], s;
      assert steps + [] == steps;
      IdleRoutineIsAnswered(steps, s);
    }
  }

  lemma IdleRoutineIsAnswered(steps: seq<Step>, s: Sys)
    requires Run(steps) == Some(s) && !s.ram.routine.queued && s.ram.routine.worker == RC.NotRunning
    ensures !s.ram.routine.armed
    ensures |FinalFrames(Fold(Hear, QUIET, s.log).routine)| == |RC.Starts(s.ram.routine.log)|
  {
    ProtocolsInEveryRun(steps, 1);
    RC.AnswersMatchStarts(s.ram.routine.log);
    FinalsAreAnswers(s.ram.routine.log);
  }

  lemma RoutineWorkerMoves(steps: seq<Step>, s: Sys, result: int) returns (step: Step, next: Sys)
    requires Run(steps) == Some(s) && (s.ram.routine.queued || s.ram.routine.worker != RC.NotRunning)
    ensures step.RoutineStep? && !step.routine.Expire?
    ensures Run(steps + [step]) == Some(next) && RC.Left(next.ram.routine) < RC.Left(s.ram.routine)
    ensures RC.Starts(next.ram.routine.log) == RC.Starts(s.ram.routine.log)
  {
    ProtocolsInEveryRun(steps, 1);
    step := RoutineStep(RC.WorkerStep(s.ram.routine, result));
    next := Next(s, step);
    RunAppend(steps, s, step);
    RC.WorkerProgress(s.ram.routine, result);
  }
}
