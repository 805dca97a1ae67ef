/** What the tally means: the attempt bound, its limit, and the enforced lockout period. */
module AttemptResults {
  import opened Kernel
  import opened UdsSystem
  import opened AttemptBound
  import SA = SecurityAccess

  /** A success or a completed lockout expiry. */
  predicate Resets(e: Event) {
    (e.Verify? && e.granted) || (e.NvsWrite? && e.id == NVS_LOCKOUT_ID && e.value != 1)
  }

  /** Failed verifications since the last success or completed lockout expiry. */
  function Failures(log: seq<Entry>): nat {
    if log == [] || Resets(log[|log| - 1].event) then 0
    else Failures(log[..|log| - 1]) + if log[|log| - 1].event.Verify? then 1 else 0
  }

  /** Power cuts in the middle of a handler since then. */
  function Cuts(log: seq<Entry>): nat {
    if log == [] || Resets(log[|log| - 1].event) then 0
    else Cuts(log[..|log| - 1]) + if log[|log| - 1].event == Reboot(true) then 1 else 0
  }

  lemma {:induction false} TallyCounts(log: seq<Entry>)
    ensures var t := Fold(Observe, START, log);
            && t.fails == Failures(log) && t.cuts == Cuts(log)
            && (t.safe && FewCuts(t) ==> t.fails <= LIMIT + t.cuts)
  {
    if log != [] {
      TallyCounts(log[..|log| - 1]);
    }
  }

  /** Over every run with any number of boots, session changes and expiries, and at every point of its
      log, also in the middle of a handler: while the power cuts since the last success or completed
      lockout expiry fit the one-byte counter, the failed verifications since then number at most
      MAX_FAILED_ATTEMPTS plus those power cuts. */
  lemma FailedAttemptsAreBounded(steps: seq<Step>, log: seq<Entry>, k: nat)
    requires Run(steps).Some? && Run(steps).value.log == log && k <= |log|
    requires Cuts(log[..k]) < 256 - MAX_FAILED_ATTEMPTS
    ensures Failures(log[..k]) <= MAX_FAILED_ATTEMPTS + Cuts(log[..k])
  {
    TallyInEveryRun(steps);
    FoldLogPrefix(Observe, Safe, START, log, k);
    TallyCounts(log[..k]);
  }

  /** In every run, the verify hook is never called once that bound has been reached. */
  lemma NoVerificationAtTheLimit(steps: seq<Step>, log: seq<Entry>, k: nat)
    requires Run(steps).Some? && Run(steps).value.log == log
    requires k < |log| && log[k].event.Verify? && Cuts(log[..k]) < 256 - MAX_FAILED_ATTEMPTS
    ensures Failures(log[..k]) < MAX_FAILED_ATTEMPTS + Cuts(log[..k])
  {
    TallyInEveryRun(steps);
    FoldLogEntry(Observe, Safe, START, log, k);
    TallyCounts(log[..k]);
  }

  /** Without power cuts since the last success or completed lockout expiry the bound is
      MAX_FAILED_ATTEMPTS itself, and reaching it means that the last lockout write of the log set the
      flag, and that the server is locked out. */
  lemma WithoutCuts(steps: seq<Step>, s: Sys)
    requires Run(steps) == Some(s) && Cuts(s.log) == 0
    ensures Failures(s.log) <= MAX_FAILED_ATTEMPTS
    ensures Failures(s.log) == MAX_FAILED_ATTEMPTS ==> LockedOut(s.log) && s.ram.security.status == SA.Lockout
  {
    TallyInEveryRun(steps);
    TallyCounts(s.log);
    LockedOnTheLog(s.log);
  }

  /** The last write of the lockout flag set it. */
  predicate LockedOut(log: seq<Entry>) {
    log != [] && match log[|log| - 1].event
                 case NvsWrite(id, value) => if id == NVS_LOCKOUT_ID then value == 1 else LockedOut(log[..|log| - 1])
                 case _ => LockedOut(log[..|log| - 1])
  }

  lemma {:induction false} LockedOnTheLog(log: seq<Entry>)
    ensures Fold(Observe, START, log).locked == LockedOut(log)
  {
    if log != [] {
      LockedOnTheLog(log[..|log| - 1]);
    }
  }

  predicate EntersLockout(e: Event) { e == NvsWrite(NVS_LOCKOUT_ID, 1) }

  predicate LeavesLockout(e: Event) { e.NvsWrite? && e.id == NVS_LOCKOUT_ID && e.value != 1 }

  /** Entry `j` ends a lockout, at least the lockout period after every lockout entry and every boot
      from position `i` on. */
  predicate ServedOut(log: seq<Entry>, i: nat, j: nat) {
    && i < j < |log| && LeavesLockout(log[j].event)
    && forall m :: i <= m < j && (EntersLockout(log[m].event) || log[m].event.Reboot?) ==>
         log[m].at + LOCKOUT_TIME_MS <= log[j].at
  }

  lemma {:induction false} SinceCovers(log: seq<Entry>)
    ensures forall m :: 0 <= m < |log| && (EntersLockout(log[m].event) || log[m].event.Reboot?) ==>
              log[m].at <= Fold(Observe, START, log).since
  {
    if log != [] {
      SinceCovers(log[..|log| - 1]);
    }
  }

  /** If the lockout entered at `i` is over before `k`, some entry in between served it out. */
  lemma {:induction false} LockoutServedOut(log: seq<Entry>, i: nat, k: nat) returns (j: nat)
    requires Fold(Observe, START, log).safe && i < k <= |log| && EntersLockout(log[i].event)
    requires !Fold(Observe, START, log[..k]).locked
    ensures j < k && ServedOut(log, i, j)
    decreases k
  {
    FoldLogEntry(Observe, Safe, START, log, k - 1);
    if Fold(Observe, START, log[..k - 1]).locked {
      j := k - 1;
      SinceCovers(log[..j]);
      assert forall m :: 0 <= m < j ==> log[..j][m] == log[m];
    } else {
      j := LockoutServedOut(log, i, k - 1);
    }
  }

  /** In every run, between entering the lockout and the next call of the verify hook the lockout period
      has passed uninterrupted since the later of the lockout entry and the last boot, whatever
      requests, session changes and S3 expiries there were. */
  lemma LockoutIsEnforced(steps: seq<Step>, log: seq<Entry>, i: nat, k: nat) returns (j: nat)
    requires Run(steps).Some? && Run(steps).value.log == log
    requires i < k < |log| && EntersLockout(log[i].event) && log[k].event.Verify?
    ensures j < k && ServedOut(log, i, j)
  {
    TallyInEveryRun(steps);
    FoldLogEntry(Observe, Safe, START, log, k);
    j := LockoutServedOut(log, i, k);
  }

  /** A log that is locked out has the entry that did it, and no entry since that left the lockout. */
  lemma {:induction false} LockedOutHasEntry(log: seq<Entry>) returns (e: nat)
    requires LockedOut(log)
    ensures e < |log| && EntersLockout(log[e].event) && forall m :: e < m < |log| ==> !LeavesLockout(log[m].event)
  {
    e := |log| - 1;
    if !EntersLockout(log[e].event) {
      var front := log[..e];
      e := LockedOutHasEntry(front);
      assert forall m :: 0 <= m < |front| ==> front[m] == log[m];
    }
  }

  /** Taken together: once MAX_FAILED_ATTEMPTS verifications have failed since the last success or completed
      lockout expiry, with no handler cut since then, the verify hook is not called again until a lockout
      expiry that comes a whole lockout period after the lockout entry and after every boot since,
      however the run goes on. */
  lemma LimitIsServedOut(before: seq<Step>, s: Sys, steps: seq<Step>, log: seq<Entry>, k: nat) returns (e: nat, j: nat)
    requires Run(before) == Some(s) && Cuts(s.log) == 0 && Failures(s.log) == MAX_FAILED_ATTEMPTS
    requires Run(steps).Some? && Run(steps).value.log == log && s.log <= log
    requires |s.log| <= k < |log| && log[k].event.Verify?
    ensures e < |s.log| <= j < k && EntersLockout(log[e].event) && ServedOut(log, e, j)
  {
    WithoutCuts(before, s);
    e := LockedOutHasEntry(s.log);
    assert forall m :: 0 <= m < |s.log| ==> s.log[m] == log[m];
    j := LockoutIsEnforced(steps, log, e, k);
  }
}
