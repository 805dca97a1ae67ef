/** The cyclic sampler inside every run. */
module Sampling {
  import opened Kernel
  import opened UdsSystem
  import H = History
  import PR = Periodic
  import CD = ClearDtc
  import RC = RoutineControl

  /** The identifiers the application was asked for, in order. */
  function Collect(sampled: bytes, e: Entry): bytes {
    if e.event.Sampled? then sampled + [e.event.slot] else sampled
  }

  /** No request is handled and nothing reboots. */
  predicate Undisturbed(steps: seq<Step>) {
    forall k :: 0 <= k < |steps| ==> !steps[k].Request? && !Boots(steps[k])
  }

  function CyclesIn(steps: seq<Step>): nat {
    if steps == [] then 0 else CyclesIn(steps[..|steps| - 1]) + if steps[|steps| - 1].PeriodicCycle? then 1 else 0
  }

  lemma {:induction false} CollectEvents(sampled: bytes, now: nat, events: seq<Event>)
    ensures FoldEvents(Collect, sampled, now, events) == sampled + PR.SampledIn(events)
  {
    if events != [] {
      CollectEvents(sampled, now, events[..|events| - 1]);
    }
  }

  lemma FramesAskNothing(sampled: bytes, now: nat, events: seq<Event>)
    requires forall e :: e in events ==> e.Frame?
    ensures FoldEvents(Collect, sampled, now, events) == sampled
  {
    forall k | 0 <= k < |events| ensures Collect(sampled, Entry(now, events[k])) == sampled {
      assert events[k] in events;
    }
    FoldIgnored(Collect, sampled, now, events);
  }

  /** A cycle asks for every slot once; other steps ask for nothing. */
  lemma StepSamples(s: Sys, step: Step, sampled: bytes)
    requires Enabled(s, step) && !step.Request? && !Boots(step)
    requires s.ram.periodic.active != [] ==> s.ram.periodic.attached
    ensures RamAfter(s, step).periodic == s.ram.periodic
    ensures FoldEvents(Collect, sampled, s.now, EventsOf(s, step))
         == if step.PeriodicCycle? then sampled + s.ram.periodic.active else sampled
  {
    if step.ClearStep? {
      ClearFramesOnly(CD.NotesOf(s.ram.clear, step.clear));
      FramesAskNothing(sampled, s.now, EventsOf(s, step));
    } else if step.RoutineStep? {
      RoutineFramesOnly(RC.NotesOf(s.ram.routine, step.routine));
      FramesAskNothing(sampled, s.now, EventsOf(s, step));
    } else if step.PeriodicCycle? {
      CollectEvents(sampled, s.now, PR.CycleEvents(s.ram.periodic, step.answers));
      PR.CycleSamplesRegistry(s.ram.periodic, step.answers);
    } else {
      FoldFew(Collect, sampled, s.now, EventsOf(s, step));
    }
  }

  /** A sequence followed by `n` copies of another. */
  function Followed(base: bytes, copy: bytes, n: nat): bytes {
    if n == 0 then base else Followed(base, copy, n - 1) + copy
  }

  lemma {:induction false} FollowedIsRepeated(base: bytes, copy: bytes, n: nat)
    ensures Followed(base, copy, n) == base + PR.Repeated(copy, n)
  {
    if n == 0 {
      assert base + [] == base;
    } else {
      FollowedIsRepeated(base, copy, n - 1);
      Regroup(base, PR.Repeated(copy, n - 1), copy);
    }
  }

  ghost predicate HasSampled(s: Sys, r: PR.PeriodicRam, sampled: bytes) {
    s.ram.periodic == r && Fold(Collect, [], s.log) == sampled
  }

  lemma NextSamples(s: Sys, step: Step, r: PR.PeriodicRam, sampled: bytes)
    requires Enabled(s, step) && !step.Request? && !Boots(step)
    requires HasSampled(s, r, sampled) && (r.active != [] ==> r.attached)
    ensures HasSampled(Next(s, step), r, if step.PeriodicCycle? then sampled + r.active else sampled)
  {
    StepSamples(s, step, sampled);
    FoldNext(Collect, [], s, step);
  }

  lemma {:induction false} CyclesFrom(before: seq<Step>, more: seq<Step>, s: Sys, s': Sys,
                                      r: PR.PeriodicRam, base: bytes)
    requires Run(before) == Some(s) && Run(before + more) == Some(s') && Undisturbed(more)
    requires HasSampled(s, r, base) && (r.active != [] ==> r.attached)
    ensures HasSampled(s', r, Followed(base, r.active, CyclesIn(more)))
  {
    if more == [] {
      assert before + more == before;
    } else {
      var middle := RunLast(before, more);
      UndisturbedPrefix(more);
      CyclesFrom(before, more[..|more| - 1], s, middle, r, base);
      CyclesLast(more, middle, r, base);
    }
  }

  lemma CyclesLast(more: seq<Step>, s: Sys, r: PR.PeriodicRam, base: bytes)
    requires more != [] && Undisturbed(more) && Enabled(s, more[|more| - 1]) && (r.active != [] ==> r.attached)
    requires HasSampled(s, r, Followed(base, r.active, CyclesIn(more[..|more| - 1])))
    ensures HasSampled(Next(s, more[|more| - 1]), r, Followed(base, r.active, CyclesIn(more)))
  {
    NextSamples(s, more[|more| - 1], r, Followed(base, r.active, CyclesIn(more[..|more| - 1])));
  }

  lemma UndisturbedPrefix(steps: seq<Step>)
    requires steps != [] && Undisturbed(steps)
    ensures Undisturbed(steps[..|steps| - 1]) && !steps[|steps| - 1].Request? && !Boots(steps[|steps| - 1])
  {
  }

  /** In every run, over any steps free of requests and reboots that contain `n` cycles of the periodic
      thread, between any worker statements and timer callbacks: each listed slot is asked for exactly
      `n` times, in registration order, and nothing else is. */
  lemma CyclesSampleTheRegistry(before: seq<Step>, more: seq<Step>, s: Sys, s': Sys)
    requires Run(before) == Some(s) && Run(before + more) == Some(s') && Undisturbed(more)
    ensures Fold(Collect, [], s'.log) == Fold(Collect, [], s.log) + PR.Repeated(s.ram.periodic.active, CyclesIn(more))
  {
    H.RegistryFollowsHistory(before, s);
    CyclesFrom(before, more, s, s', s.ram.periodic, Fold(Collect, [], s.log));
    FollowedIsRepeated(Fold(Collect, [], s.log), s.ram.periodic.active, CyclesIn(more));
  }
}
