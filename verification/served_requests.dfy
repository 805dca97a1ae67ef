/** From the bytes a tester sends to the hooks and frames they lead to, over whole runs. */
module ServedRequests {
  import opened Kernel
  import opened UdsServer
  import opened UdsSystem
  import opened OnTheBus
  import AC = Access
  import FP = FlashPipeline
  import CD = ClearDtc
  import RC = RoutineControl
  import BG = BackgroundServices

  // ----- An accepted key opens the guarded services

  lemma {:induction false} GrantStands(log: seq<Entry>, j: nat)
    requires Fold(AC.Observe, AC.NO_TITLE, log).ok
    requires j < |log| && log[j].event.Verify? && log[j].event.granted && AC.NoneEnds(log, j, |log|)
    ensures Fold(AC.Observe, AC.NO_TITLE, log).unlocked
  {
    var front := log[..|log| - 1];
    if j < |front| {
      assert forall m :: 0 <= m < |front| ==> front[m] == log[m];
      GrantStands(front, j);
    }
  }

  lemma {:induction false} SessionStands(log: seq<Entry>, i: nat, session: Session)
    requires i < |log| && log[i].event == SessionSet(session) && AC.NoneEnds(log, i, |log|)
    ensures Fold(AC.Observe, AC.NO_TITLE, log).session == session
  {
    var front := log[..|log| - 1];
    if i < |front| {
      assert forall m :: 0 <= m < |front| ==> front[m] == log[m];
      SessionStands(front, i, session);
    }
  }

  lemma EntitlementStands(steps: seq<Step>, s: Sys, i: nat, j: nat, session: Session)
    requires Run(steps) == Some(s) && AC.Entitled(s.log, i, j, |s.log|, session) && !s.ram.session.s3.Due(s.now)
    ensures Title(s).unlocked && SessionNow(s) == session
  {
    AC.TitleInEveryRun(steps);
    RunIsAsLogged(steps, s);
    GrantStands(s.log, j);
    SessionStands(s.log, i, session);
  }

  /** In every run, after an accepted 0x10 to a non-default session and an accepted key, with nothing ending
      the session since, a physical 0x34 for any address and size, encoded at any widths that hold them,
      calls the erase hook with exactly that address and size, and is answered by the hook's verdict. */
  lemma GrantedDownloadErases(steps: seq<Step>, s: Sys, i: nat, j: nat, session: Session, req: bytes, format: byte,
                              address: nat, addressWidth: nat, size: nat, sizeWidth: nat, h: Hooks)
    requires Run(steps) == Some(s) && AC.Entitled(s.log, i, j, |s.log|, session) && session != Default
    requires addressWidth < 16 && sizeWidth < 16 && addressWidth + sizeWidth >= 2
    requires address < U32 && address < FP.Power256(addressWidth) && size < U32 && size < FP.Power256(sizeWidth)
    requires req == FP.DownloadRequest(format, address, addressWidth, size, sizeWidth)
    requires Enabled(s, Request(req, Physical, h))
    ensures Causes(s, req, Physical, h,
                   [Erase(address, size, h.eraseResult == 0, h.residue)]
                   + if h.eraseResult == 0 then [Frame([0x74, 0x20, UDS_BUFF_SIZE / 256, UDS_BUFF_SIZE % 256])]
                     else [Frame([0x7F, 0x34, 0x70])])
  {
    EntitlementStands(steps, s, i, j, session);
    DownloadRequests(steps, s, req, h);
    FP.DownloadRoundTrip(req, format, address, addressWidth, size, sizeWidth);
  }

  /** Likewise, in the extended session a 0x2E calls the write hook with the identifier and data sent. */
  lemma GrantedWriteIsPassedOn(steps: seq<Step>, s: Sys, i: nat, j: nat, req: bytes, addressing: Addressing, h: Hooks)
    requires Run(steps) == Some(s) && AC.Entitled(s.log, i, j, |s.log|, Extended)
    requires |req| >= 3 && req[0] == 0x2E && Enabled(s, Request(req, addressing, h))
    ensures Causes(s, req, addressing, h,
                   [WriteDid(FP.Value(req[1..3]), req[3..])]
                   + if h.writeDidResult == 0 then [Frame([0x6E, req[1], req[2]])]
                     else HookRefusal(addressing, 0x2E, h.writeDidResult))
  {
    EntitlementStands(steps, s, i, j, Extended);
    WriteRequests(steps, s, req, addressing, h);
  }

  /** And a physical 0x2F the control hook, with identifier, parameter and option bytes. */
  lemma GrantedControlIsPassedOn(steps: seq<Step>, s: Sys, i: nat, j: nat, req: bytes, h: Hooks)
    requires Run(steps) == Some(s) && AC.Entitled(s.log, i, j, |s.log|, Extended)
    requires |req| >= 4 && req[0] == 0x2F && Enabled(s, Request(req, Physical, h))
    ensures Causes(s, req, Physical, h,
                   [IoControl(FP.Value(req[1..3]), req[3], req[4..])]
                   + if h.ioResult == 0 then [Frame([0x6F, req[1], req[2], req[3], h.ioStatus])]
                     else HookRefusal(Physical, 0x2F, h.ioResult))
  {
    EntitlementStands(steps, s, i, j, Extended);
    IoControlRequests(steps, s, req, h);
  }

  // ----- Requests accepted in silence

  predicate AsksToClear(req: bytes) { |req| == 4 && req[0] == 0x14 }

  predicate AsksToStart(req: bytes) { |req| >= 4 && req[0] == 0x31 && req[1] == 0x01 }

  /** The step is a request of the kind, and neither answered nor refused. */
  predicate AcceptsSilently(s: Sys, step: Step, kind: bytes -> bool) {
    && step.Request? && step.req != [] && kind(step.req)
    && Answered(s.ram, s.now, step.req, step.addressing, step.hooks).reply.Silent?
  }

  /** The requests of a kind accepted since the last boot, in order. */
  function AcceptedRequests(steps: seq<Step>, kind: bytes -> bool): seq<bytes> {
    if steps == [] then []
    else
      var front, step := steps[..|steps| - 1], steps[|steps| - 1];
      match Run(front)
      case None => []
      case Some(s) =>
        if Boots(step) then []
        else AcceptedRequests(front, kind) + if AcceptsSilently(s, step, kind) then [step.req] else []
  }

  /** The numbers are those the requests carry at the given place, big-endian. */
  ghost predicate Carried(numbers: seq<nat>, reqs: seq<bytes>, from: nat, to: nat) {
    && |numbers| == |reqs|
    && forall k :: 0 <= k < |reqs| ==> from <= to <= |reqs[k]| && numbers[k] == FP.Value(reqs[k][from..to])
  }

  lemma CarriedAppend(numbers: seq<nat>, reqs: seq<bytes>, from: nat, to: nat, req: bytes)
    requires Carried(numbers, reqs, from, to) && from <= to <= |req|
    ensures Carried(numbers + [FP.Value(req[from..to])], reqs + [req], from, to)
  {
  }

  // ----- 0x14

  lemma GroupsAppend(log: seq<CD.Note>, n: CD.Note)
    ensures CD.AcceptedGroups(log + [n])
         == CD.AcceptedGroups(log) + match n case Accepted(g) => [g] case _ => []
  {
    assert (log + [n])[..|log|] == log;
  }

  lemma ClearRequestNoted(r: CD.ClearRam, req: bytes, reqs: seq<bytes>)
    requires req != [] && req[0] == 0x14 && Carried(CD.AcceptedGroups(r.log), reqs, 1, 4)
    ensures var o := CD.Handle(r, req);
            Carried(CD.AcceptedGroups(o.state.log), if o.reply.Silent? then reqs + [req] else reqs, 1, 4)
            && (o.reply.Silent? ==> AsksToClear(req))
  {
    var o := CD.Handle(r, req);
    if |req| == 4 {
      FP.ValueOfThree(req[1..4]);
      if o.reply.Silent? {
        GroupsAppend(r.log, CD.Accepted(FP.Value(req[1..4])));
        CarriedAppend(CD.AcceptedGroups(r.log), reqs, 1, 4, req);
      } else {
        GroupsAppend(r.log, CD.Refused);
      }
    }
  }

  lemma ClearStepNoted(s: Sys, step: Step, reqs: seq<bytes>)
    requires Enabled(s, step) && !Boots(step) && Carried(CD.AcceptedGroups(s.ram.clear.log), reqs, 1, 4)
    ensures Carried(CD.AcceptedGroups(RamAfter(s, step).clear.log),
                    if AcceptsSilently(s, step, AsksToClear) then reqs + [step.req] else reqs, 1, 4)
  {
    if step.Request? && step.req != [] {
      DispatchMoves(Refreshed(s.ram, s.now), s.now, step.req, step.addressing, step.hooks);
      if step.req[0] == 0x14 {
        BG.ClearAnswered(s.ram, s.now, step.req, step.addressing, step.hooks);
        ClearRequestNoted(s.ram.clear, step.req, reqs);
      }
    } else if step.ClearStep? {
      CD.SameAccepted(s.ram.clear.log, CD.NotesOf(s.ram.clear, step.clear));
    }
  }

  lemma {:induction false} ClearRequestsAreNoted(steps: seq<Step>, s: Sys)
    requires Run(steps) == Some(s)
    ensures Carried(CD.AcceptedGroups(s.ram.clear.log), AcceptedRequests(steps, AsksToClear), 1, 4)
  {
    if steps != [] {
      var front, step := steps[..|steps| - 1], steps[|steps| - 1];
      var before := Run(front).value;
      if Boots(step) {
        var events, cut := BootsAtReboot(before, step);
      } else {
        ClearRequestsAreNoted(front, before);
        ClearStepNoted(before, step, AcceptedRequests(front, AsksToClear));
      }
    }
  }

  /** In every run, the accepted 0x14 requests since the last boot have, in order, each its own worker run,
      whose hook call carries exactly the three bytes the tester sent, and its own 0x54 frame on the bus; only
      the last may still be under way. */
  lemma ClearRequestsAreServed(steps: seq<Step>, s: Sys)
    requires Run(steps) == Some(s)
    ensures var reqs, cleared := AcceptedRequests(steps, AsksToClear), CD.Cleared(s.ram.clear.log);
            var frames := BG.CountFrames(Fold(BG.Hear, BG.QUIET, s.log).clear, [0x54]);
            && |reqs| - 1 <= |cleared| <= |reqs| && |reqs| - 1 <= frames <= |cleared|
            && (forall k :: 0 <= k < |cleared| && cleared[k].Some? ==>
                  |reqs[k]| == 4 && cleared[k].value == FP.Value(reqs[k][1..4]))
  {
    BG.ClearAnswersOnce(steps, s, 1);
    ClearRequestsAreNoted(steps, s);
    AcceptedAreOfKind(steps, AsksToClear);
  }

  lemma {:induction false} AcceptedAreOfKind(steps: seq<Step>, kind: bytes -> bool)
    ensures forall k :: 0 <= k < |AcceptedRequests(steps, kind)| ==> kind(AcceptedRequests(steps, kind)[k])
  {
    if steps != [] {
      AcceptedAreOfKind(steps[..|steps| - 1], kind);
    }
  }

  // ----- 0x31

  lemma StartsAppend(log: seq<RC.Note>, n: RC.Note)
    ensures RC.Starts(log + [n]) == RC.Starts(log) + match n case Accepted(id) => [id] case _ => []
  {
    assert (log + [n])[..|log|] == log;
  }

  lemma StartRequestNoted(r: RC.RoutineRam, session: Session, req: bytes, h: Hooks, reqs: seq<bytes>)
    requires req != [] && req[0] == 0x31 && Carried(RC.Starts(r.log), reqs, 2, 4)
    ensures var o := RC.Handle(r, session, req, h);
            Carried(RC.Starts(o.state.log), if o.reply.Silent? then reqs + [req] else reqs, 2, 4)
            && (o.reply.Silent? ==> AsksToStart(req))
  {
    if session != Default && |req| >= 4 && req[1] == 1 {
      FP.ValueOfTwo(req[2..4]);
      if r.status == RC.Running {
        StartsAppend(r.log, RC.Refused);
      } else {
        StartsAppend(r.log, RC.Accepted(FP.Value(req[2..4])));
        CarriedAppend(RC.Starts(r.log), reqs, 2, 4, req);
      }
    }
  }

  lemma StartStepNoted(s: Sys, step: Step, reqs: seq<bytes>)
    requires Enabled(s, step) && !Boots(step) && Carried(RC.Starts(s.ram.routine.log), reqs, 2, 4)
    ensures Carried(RC.Starts(RamAfter(s, step).routine.log),
                    if AcceptsSilently(s, step, AsksToStart) then reqs + [step.req] else reqs, 2, 4)
  {
    if step.Request? && step.req != [] {
      DispatchMoves(Refreshed(s.ram, s.now), s.now, step.req, step.addressing, step.hooks);
      if step.req[0] == 0x31 {
        RoutineAnswered(s.ram, s.now, step.req, step.addressing, step.hooks);
        StartRequestNoted(s.ram.routine, s.ram.session.session, step.req, step.hooks, reqs);
      }
    } else if step.RoutineStep? {
      BG.RoutineNextLog(s.ram.routine, step.routine);
      RC.SameStarts(s.ram.routine.log, RC.NotesOf(s.ram.routine, step.routine));
    }
  }

  lemma {:induction false} StartRequestsAreNoted(steps: seq<Step>, s: Sys)
    requires Run(steps) == Some(s)
    ensures Carried(RC.Starts(s.ram.routine.log), AcceptedRequests(steps, AsksToStart), 2, 4)
  {
    if steps != [] {
      var front, step := steps[..|steps| - 1], steps[|steps| - 1];
      var before := Run(front).value;
      if Boots(step) {
        var events, cut := BootsAtReboot(before, step);
      } else {
        StartRequestsAreNoted(front, before);
        StartStepNoted(before, step, AcceptedRequests(front, AsksToStart));
      }
    }
  }

  /** The two bytes of a big-endian number. */
  lemma BytesOfTwo(bs: bytes)
    requires |bs| == 2
    ensures [FP.Value(bs) / 256 % 256, FP.Value(bs) % 256] == bs
  {
    FP.ValueOfTwo(bs);
  }

  /** In every run, the accepted starts since the last boot are served in order: the k-th hook call gets
      exactly the two identifier bytes of the k-th request, and the k-th final frame on the bus is `71 01`,
      those two bytes, and 00 if that hook returned 0, otherwise 02. Only the last start may be unserved. */
  lemma StartRequestsAreServed(steps: seq<Step>, s: Sys)
    requires Run(steps) == Some(s)
    ensures var reqs, log := AcceptedRequests(steps, AsksToStart), s.ram.routine.log;
            var frames, called := BG.FinalFrames(Fold(BG.Hear, BG.QUIET, s.log).routine), RC.Called(log);
            && |reqs| - 1 <= |frames| <= |RC.Verdicts(log)| <= |called| <= |reqs|
            && (forall k :: 0 <= k < |reqs| ==> |reqs[k]| >= 4)
            && (forall k :: 0 <= k < |called| ==> called[k] == FP.Value(reqs[k][2..4]))
            && (forall k :: 0 <= k < |frames| ==>
                  frames[k] == [0x71, 0x01] + reqs[k][2..4] + [if RC.Verdicts(log)[k] then 0x00 else 0x02])
  {
    var reqs, log := AcceptedRequests(steps, AsksToStart), s.ram.routine.log;
    var frames := BG.FinalFrames(Fold(BG.Hear, BG.QUIET, s.log).routine);
    BG.ProtocolsInEveryRun(steps, 1);
    RC.CalledInOrder(log);
    StartRequestsAreNoted(steps, s);
    AcceptedAreOfKind(steps, AsksToStart);
    BG.RoutineAnswersMatchStarts(steps, s, 0);
    forall k | 0 <= k < |frames|
      ensures frames[k] == [0x71, 0x01] + reqs[k][2..4] + [if RC.Verdicts(log)[k] then 0x00 else 0x02]
    {
      BG.RoutineAnswersMatchStarts(steps, s, k);
      FinalFrame(reqs[k], RC.Starts(log)[k], RC.Verdicts(log)[k]);
    }
  }

  lemma FinalFrame(req: bytes, id: nat, success: bool)
    requires |req| >= 4 && id == FP.Value(req[2..4])
    ensures RC.AnswerFrame(id, if success then 0 else 2) == [0x71, 0x01] + req[2..4] + [if success then 0x00 else 0x02]
  {
    BytesOfTwo(req[2..4]);
  }
}
