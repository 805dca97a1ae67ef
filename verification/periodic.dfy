/** Read data by periodic identifier: the bounded registry and its cyclic sampler (uds_periodic.c). */
module Periodic {
  import opened Kernel

  const SLOTS: nat := 5

  /** `attached` is whether `periodic_send_cb` has been set. */
  datatype PeriodicRam = PeriodicRam(active: bytes, attached: bool)

  const BOOT := PeriodicRam([], false)

  function Handle(r: PeriodicRam, req: bytes): Outcome<PeriodicRam>
    requires req != []
  {
    var attached := r.(attached := true);
    if |req| < 3 then Outcome(attached, [], Negative(NRC_INCORRECT_LENGTH))
    else if req[1] == 4 then Outcome(PeriodicRam([], true), [], Positive([0x6A, 4]))
    else if req[1] == 1 then
      if |r.active| >= SLOTS then Outcome(attached, [], Negative(NRC_REQUEST_OUT_OF_RANGE))
      else Outcome(PeriodicRam(r.active + [req[2]], true), [], Positive([0x6A, 1, req[2]]))
    else Outcome(attached, [], Silent)
  }

  predicate Starts(req: bytes) { |req| >= 3 && req[1] == 1 }

  predicate Stops(req: bytes) { |req| >= 3 && req[1] == 4 }

  /** What the application answers for slot `i` in one cycle; an answer not given is an error. */
  function AnswerFor(answers: seq<Option<bytes>>, i: nat): Option<bytes> {
    if i < |answers| then answers[i] else None
  }

  /** One slot in one cycle: its identifier is asked for, and what the application has is sent. */
  function SlotEvents(did: byte, answer: Option<bytes>): seq<Event> {
    [Sampled(did)] + if answer.Some? then [Frame([0x2A, did] + answer.value)] else []
  }

  /** The first slots of one cycle. */
  function SampleEvents(active: bytes, answers: seq<Option<bytes>>): seq<Event> {
    if active == [] then []
    else
      var last := |active| - 1;
      SampleEvents(active[..last], answers) + SlotEvents(active[last], AnswerFor(answers, last))
  }

  predicate IsSample(e: Event) { e.Sampled? || (e.Frame? && |e.data| >= 2 && e.data[0] == 0x2A) }

  lemma {:induction false} OnlySamples(active: bytes, answers: seq<Option<bytes>>)
    ensures forall e :: e in SampleEvents(active, answers) ==> IsSample(e)
  {
    if active != [] {
      OnlySamples(active[..|active| - 1], answers);
    }
  }

  function CycleEvents(r: PeriodicRam, answers: seq<Option<bytes>>): seq<Event> {
    if r.attached then SampleEvents(r.active, answers) else []
  }

  /** The identifiers asked for, in order. */
  function SampledIn(events: seq<Event>): bytes {
    if events == [] then []
    else SampledIn(events[..|events| - 1]) +
         match events[|events| - 1] case Sampled(did) => [did] case _ => []
  }

  lemma SampledInAppend(events: seq<Event>, e: Event)
    ensures SampledIn(events + [e]) == SampledIn(events) + match e case Sampled(did) => [did] case _ => []
  {
    assert (events + [e])[..|events|] == events;
  }

  lemma {:induction false} SampledInConcat(a: seq<Event>, b: seq<Event>)
    ensures SampledIn(a + b) == SampledIn(a) + SampledIn(b)
  {
    if b == [] {
      assert a + b == a;
    } else {
      var front, last := b[..|b| - 1], b[|b| - 1];
      SampledInConcat(a, front);
      assert a + b == a + front + [last];
      SampledInAppend(a + front, last);
    }
  }

  lemma SlotIsSampled(did: byte, answer: Option<bytes>)
    ensures SampledIn(SlotEvents(did, answer)) == [did]
  {
    SampledInAppend([], Sampled(did));
    assert [] + [Sampled(did)] == [Sampled(did)];
    if answer.Some? {
      SampledInAppend([Sampled(did)], Frame([0x2A, did] + answer.value));
    }
  }

  /** One cycle asks for every slot once, in registration order. */
  lemma {:induction false} CycleSamplesEverySlot(active: bytes, answers: seq<Option<bytes>>)
    ensures SampledIn(SampleEvents(active, answers)) == active
  {
    if active != [] {
      var last := |active| - 1;
      CycleSamplesEverySlot(active[..last], answers);
      SlotIsSampled(active[last], AnswerFor(answers, last));
      SampledInConcat(SampleEvents(active[..last], answers), SlotEvents(active[last], AnswerFor(answers, last)));
      assert active == active[..last] + [active[last]];
    }
  }

  lemma CycleSamplesRegistry(r: PeriodicRam, answers: seq<Option<bytes>>)
    requires r.active != [] ==> r.attached
    ensures SampledIn(CycleEvents(r, answers)) == r.active
  {
    CycleSamplesEverySlot(r.active, answers);
  }

  lemma CycleAddsRegistry(log: seq<Event>, r: PeriodicRam, answers: seq<Option<bytes>>, start: bytes, n: nat)
    requires r.active != [] ==> r.attached
    requires SampledIn(log) == start + Repeated(r.active, n)
    ensures SampledIn(log + CycleEvents(r, answers)) == start + Repeated(r.active, n + 1)
  {
    var before := Repeated(r.active, n);
    CycleSamplesRegistry(r, answers);
    SampledInConcat(log, CycleEvents(r, answers));
    Regroup(start, before, r.active);
  }

  class PeriodicReader {
    const active: array<byte>
    var count: nat
    var attached: bool
    const board: Board

    ghost predicate Valid() reads this { active.Length == SLOTS && count <= SLOTS }

    function State(): PeriodicRam
      requires Valid()
      reads this, active
    {
      PeriodicRam(active[..count], attached)
    }

    constructor (board: Board)
      ensures Valid() && State() == BOOT && fresh(active) && this.board == board
    {
      active := new byte[SLOTS](_ => 0);
      count, attached := 0, false;
      this.board := board;
    }

    method HandlePeriodicRequest(req: bytes)
      requires Valid() && req != []
      modifies this, active, board`log
      ensures Valid() && State() == Handle(old(State()), req).state
      ensures board.log == old(board.log) + Emitted(board.addressing, req[0], Handle(old(State()), req))
    {
      var sid := req[0];
      attached := true;
      if |req| < 3 {
        board.SendNrc(sid, NRC_INCORRECT_LENGTH);
        return;
      }
      if req[1] == 4 {
        count := 0;
        board.SendResponse([0x6A, 4]);
        return;
      }
      if req[1] == 1 {
        if count >= SLOTS {
          board.SendNrc(sid, NRC_REQUEST_OUT_OF_RANGE);
          return;
        }
        active[count] := req[2];
        count := count + 1;
        board.SendResponse([0x6A, 1, req[2]]);
      }
    }

    /** One pass of the thread's endless loop: every listed slot is asked for once, in registration
        order, and what the application answers is sent. */
    method Cycle(answers: seq<Option<bytes>>)
      requires Valid()
      modifies board`log
      ensures board.log == old(board.log) + CycleEvents(State(), answers)
    {
      if count == 0 || !attached {
        return;
      }
      for i := 0 to count
        invariant board.log == old(board.log) + SampleEvents(active[..i], answers)
      {
        assert active[..i + 1][..i] == active[..i];
        var did, answer := active[i], AnswerFor(answers, i);
        board.Emit(Sampled(did));
        if answer.Some? {
          board.SendResponse([0x2A, did] + answer.value);
        }
        assert board.log == old(board.log) + (SampleEvents(active[..i], answers) + SlotEvents(did, answer));
      }
    }

    /** `n` cycles free of requests ask for `n` copies of the registry, end to end. */
    method Cycles(n: nat, answers: seq<seq<Option<bytes>>>)
      requires Valid() && |answers| == n
      requires State().active != [] ==> attached
      modifies board`log
      ensures SampledIn(board.log) == SampledIn(old(board.log)) + Repeated(State().active, n)
    {
      ghost var r, start := State(), SampledIn(board.log);
      for i := 0 to n
        invariant State() == r && SampledIn(board.log) == start + Repeated(r.active, i)
      {
        CycleAddsRegistry(board.log, r, answers[i], start, i);
        Cycle(answers[i]);
      }
    }
  }

  function Repeated(s: bytes, n: nat): bytes { if n == 0 then [] else Repeated(s, n - 1) + s }

  /** Slot `k` comes up exactly once in each of the `n` rounds, at the same place. */
  lemma {:induction false} RepeatedAt(s: bytes, n: nat, round: nat, k: nat)
    requires round < n && k < |s|
    ensures |Repeated(s, n)| == n * |s|
    ensures 0 <= round * |s| + k < n * |s| && Repeated(s, n)[round * |s| + k] == s[k]
  {
    if n == 1 {
      assert Repeated(s, 1) == s by { assert Repeated(s, 0) == []; }
    } else if round == n - 1 {
      RepeatedAt(s, n - 1, 0, k);
      assert n * |s| == (n - 1) * |s| + |s|;
    } else {
      RepeatedAt(s, n - 1, round, k);
      assert n * |s| == (n - 1) * |s| + |s|;
    }
  }

  /** The starts since the last stop, oldest first. */
  function StartsSinceStop(history: seq<bytes>): bytes {
    if history == [] then []
    else
      var req := history[|history| - 1];
      var before := StartsSinceStop(history[..|history| - 1]);
      if Stops(req) then [] else if Starts(req) then before + [req[2]] else before
  }

  /** What the handler makes of a history of 0x2A requests since power-on. */
  function Registry(history: seq<bytes>): PeriodicRam
    requires forall k :: 0 <= k < |history| ==> history[k] != []
  {
    if history == [] then BOOT
    else Handle(Registry(history[..|history| - 1]), history[|history| - 1]).state
  }

  /** The registry is the first five starts since the last stop, in order; it is attached as soon as
      there was any request. */
  lemma {:induction false} RegistryIsTheFirstStarts(history: seq<bytes>)
    requires forall k :: 0 <= k < |history| ==> history[k] != []
    ensures var starts := StartsSinceStop(history);
            Registry(history).active == if |starts| <= SLOTS then starts else starts[..SLOTS]
    ensures Registry(history).attached == (history != [])
  {
    if history != [] {
      RegistryIsTheFirstStarts(history[..|history| - 1]);
    }
  }
}
