/** Summaries of the log that agree with session, security level and flash pipeline in every run. */
module Monitors {
  import opened Kernel
  import opened UdsServer
  import opened UdsSystem
  import SC = SessionControl
  import AB = AttemptBound
  import SA = SecurityAccess

  /** Events that say nothing about session, security level and flash. */
  predicate Uneventful(e: Event) { FromBackground(e) || e.NvsWrite? || e.SysReboot? }

  /** Everything but the background services and timers is as it was, but for an expired lockout. */
  predicate SameCore(r: Ram, r': Ram) {
    && r'.session.session == r.session.session && r'.flash == r.flash
    && (r'.security == r.security || (r.security.status == SA.Lockout && r'.security == SA.Expire(r.security)))
  }

  function AfterS3(r: Ram): Ram {
    r.(session := SC.Expire(r.session), security := SA.ResetLock(r.security))
  }

  /** What is asked of a summary, of the states it never recovers from, and of its agreement with the RAM,
      apart from requests. */
  ghost predicate IsMonitor<M(!new)>(f: (M, Entry) -> M, good: M -> bool, agrees: (Ram, M) -> bool) {
    && (forall m: M, e: Entry :: good(f(m, e)) ==> good(m))
    && (forall m: M, e: Entry :: Uneventful(e.event) ==> f(m, e) == m)
    && (forall r: Ram, m: M :: agrees(r, m) ==> good(m))
    && (forall r: Ram, r': Ram, m: M :: agrees(r, m) && SameCore(r, r') ==> agrees(r', m))
    && (forall r: Ram, m: M, now: nat :: agrees(r, m) ==> agrees(AfterS3(r), f(m, Entry(now, S3Expired))))
    && (forall m: M, nvs: map<nat, byte>, now: nat, cut: bool ::
          good(m) ==> agrees(Boot(nvs, now), f(m, Entry(now, Reboot(cut)))))
  }

  /** A request keeps the agreement. */
  predicate RequestKept<M>(f: (M, Entry) -> M, agrees: (Ram, M) -> bool, s: Sys, req: bytes,
                           addressing: Addressing, h: Hooks, m: M) {
    var (ram, events) := Process(s.ram, s.now, req, addressing, h);
    agrees(s.ram, m) ==> agrees(ram, FoldEvents(f, m, s.now, events))
  }

  /** A boot, however much of the step's events came before it. */
  lemma BootKept<M(!new)>(f: (M, Entry) -> M, good: M -> bool, agrees: (Ram, M) -> bool, m: M,
                          nvs: map<nat, byte>, now: nat, front: seq<Event>, cut: bool)
    requires IsMonitor(f, good, agrees) && good(FoldEvents(f, m, now, front))
    ensures agrees(Boot(nvs, now), FoldEvents(f, m, now, front + [Reboot(cut)]))
  {
    FoldEventsAppend(f, m, now, front, Reboot(cut));
  }

  lemma UneventfulKept<M(!new)>(f: (M, Entry) -> M, good: M -> bool, agrees: (Ram, M) -> bool, m: M,
                                now: nat, events: seq<Event>)
    requires IsMonitor(f, good, agrees) && forall e :: e in events ==> Uneventful(e)
    ensures FoldEvents(f, m, now, events) == m
  {
    forall k | 0 <= k < |events| ensures f(m, Entry(now, events[k])) == m {
      assert events[k] in events && Uneventful(Entry(now, events[k]).event);
    }
    FoldIgnored(f, m, now, events);
  }

  /** The steps after which the server boots. */
  lemma BootStepKept<M(!new)>(f: (M, Entry) -> M, good: M -> bool, agrees: (Ram, M) -> bool, s: Sys, step: Step, m: M)
    requires IsMonitor(f, good, agrees) && Enabled(s, step) && Boots(step) && agrees(s.ram, m)
    requires step.CutRequest? ==> RequestKept(f, agrees, s, step.req, step.addressing, step.hooks, m)
    ensures agrees(RamAfter(s, step), FoldEvents(f, m, s.now, EventsOf(s, step)))
  {
    var front, cut := BootsAtReboot(s, step);
    if step.CutRequest? {
      var events := Process(s.ram, s.now, step.req, step.addressing, step.hooks).1;
      assert front == events[..step.after];
      FoldPrefix(f, good, m, s.now, events, step.after);
    } else {
      UneventfulKept(f, good, agrees, m, s.now, front);
    }
    BootKept(f, good, agrees, m, Persist(s.nvs, EventsOf(s, step)), s.now, front, cut);
  }

  lemma StepKept<M(!new)>(f: (M, Entry) -> M, good: M -> bool, agrees: (Ram, M) -> bool, s: Sys, step: Step, m: M)
    requires IsMonitor(f, good, agrees) && Enabled(s, step) && agrees(s.ram, m)
    requires step.Request? || step.CutRequest? ==>
               RequestKept(f, agrees, s, step.req, step.addressing, step.hooks, m)
    requires step.LockoutFires? ==> s.ram.security.status == SA.Lockout
    ensures agrees(RamAfter(s, step), FoldEvents(f, m, s.now, EventsOf(s, step)))
  {
    if Boots(step) {
      BootStepKept(f, good, agrees, s, step, m);
    } else if step.S3Fires? && s.ram.session.session != Default {
      FoldEventsAppend(f, m, s.now, [], S3Expired);
      assert [] + [S3Expired] == EventsOf(s, step) && RamAfter(s, step) == AfterS3(s.ram);
    } else if !step.Request? {
      QuietIsUneventful(s, step);
      UneventfulKept(f, good, agrees, m, s.now, EventsOf(s, step));
    }
  }

  lemma QuietIsUneventful(s: Sys, step: Step)
    requires Enabled(s, step) && !Boots(step) && !step.Request?
    requires step.S3Fires? ==> s.ram.session.session == Default
    requires step.LockoutFires? ==> s.ram.security.status == SA.Lockout
    ensures SameCore(s.ram, RamAfter(s, step)) && forall e :: e in EventsOf(s, step) ==> Uneventful(e)
  {
    if Background(step) {
      BackgroundEvents(s, step);
    }
  }

  /** A monitor that every request keeps agrees with the RAM after every run. */
  lemma {:induction false} AgreesInEveryRun<M(!new)>(f: (M, Entry) -> M, good: M -> bool, agrees: (Ram, M) -> bool,
                                                     m: M, steps: seq<Step>)
    requires IsMonitor(f, good, agrees) && agrees(POWER_ON.ram, m)
    requires forall s: Sys, req: bytes, addressing: Addressing, h: Hooks, x: M ::
               RequestKept(f, agrees, s, req, addressing, h, x)
    requires Run(steps).Some?
    ensures agrees(Run(steps).value.ram, Fold(f, m, Run(steps).value.log))
  {
    if steps != [] {
      var s, step := Run(steps[..|steps| - 1]).value, steps[|steps| - 1];
      AgreesInEveryRun(f, good, agrees, m, steps[..|steps| - 1]);
      AB.TallyInEveryRun(steps[..|steps| - 1]);
      StepKept(f, good, agrees, s, step, Fold(f, m, s.log));
      FoldNext(f, m, s, step);
    }
  }
}
