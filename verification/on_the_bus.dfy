/** What every request puts on the bus and does to the hooks and the store, byte by byte, as a function of
    the request, the hooks' answers and the log of the run so far. */
module OnTheBus {
  import opened Kernel
  import opened UdsServer
  import opened UdsSystem
  import SA = SecurityAccess
  import FP = FlashPipeline
  import CD = ClearDtc
  import RC = RoutineControl
  import PR = Periodic
  import RD = ReadDtc
  import DD = DynamicDid
  import AB = AttemptBound
  import AR = AttemptResults
  import AC = Access
  import FI = FlashImage
  import BG = BackgroundServices
  import HI = History

  /** The request step adds exactly these events after the request itself. */
  predicate Causes(s: Sys, req: bytes, addressing: Addressing, h: Hooks, events: seq<Event>)
    requires Enabled(s, Request(req, addressing, h))
  {
    EventsOf(s, Request(req, addressing, h)) == [Received(req, addressing)] + events
  }

  /** A refusal: three bytes, or nothing to a functional request unless the code is 0x78. */
  function Refusal(addressing: Addressing, sid: byte, nrc: byte): seq<Event> {
    if addressing == Functional && nrc != 0x78 then [] else [Frame([0x7F, sid, nrc])]
  }

  // ----- What the log says before the request

  function SessionNow(s: Sys): Session { HI.SessionAt(Fold(HI.Hear, HI.NOTHING, s.log), s.now) }

  function Title(s: Sys): AC.Title { Fold(AC.Observe, AC.NO_TITLE, s.log) }

  function Download(s: Sys): FI.Download { Fold(FI.Observe, FI.NO_DOWNLOAD, s.log) }

  /** The counter entry of the store, by the writes in the log. */
  function StoredCounter(log: seq<Entry>): byte {
    if log == [] then 0
    else match log[|log| - 1].event
      case NvsWrite(id, value) => if id == 1 then value else StoredCounter(log[..|log| - 1])
      case _ => StoredCounter(log[..|log| - 1])
  }

  lemma {:induction false} CounterOfTally(log: seq<Entry>)
    ensures Fold(AB.Observe, AB.START, log).counter == StoredCounter(log)
  {
    if log != [] {
      CounterOfTally(log[..|log| - 1]);
    }
  }

  /** The RAM a request meets is what the log says. */
  ghost predicate AsLogged(s: Sys) {
    && s.ram.session.session == SessionNow(s)
    && (IsUnlocked(s.ram) <==> Title(s).unlocked)
    && (s.ram.security.status == SA.Lockout <==> AR.LockedOut(s.log))
    && (s.ram.security.status == SA.SeedRequested <==> Title(s).seed.Some? && !Title(s).unlocked)
    && (s.ram.security.status == SA.SeedRequested ==> Title(s).seed == Some(s.ram.security.seed))
    && (s.ram.security.status != SA.Lockout ==> s.ram.security.counter == StoredCounter(s.log))
  }

  lemma RunIsAsLogged(steps: seq<Step>, s: Sys)
    requires Run(steps) == Some(s) && !s.ram.session.s3.Due(s.now)
    ensures AsLogged(s)
  {
    HI.WatchdogIsATimestampRule(steps, s);
    AC.TitleInEveryRun(steps);
    AB.TallyInEveryRun(steps);
    AR.LockedOnTheLog(s.log);
    CounterOfTally(s.log);
  }

  /** What an answer looks like on the bus. */
  function Shown(addressing: Addressing, sid: byte, reply: Reply): seq<Event> {
    match reply
    case Positive(frame) => [Frame(frame)]
    case Negative(nrc) => Refusal(addressing, sid, nrc)
    case Silent => []
  }

  /** From the handler's outcome to the bus. */
  lemma Handled(s: Sys, req: bytes, addressing: Addressing, h: Hooks, events: seq<Event>, reply: Reply)
    requires req != [] && Enabled(s, Request(req, addressing, h))
    requires Answered(s.ram, s.now, req, addressing, h).events == events
    requires Answered(s.ram, s.now, req, addressing, h).reply == reply
    ensures Causes(s, req, addressing, h, events + Shown(addressing, req[0], reply))
  {
  }

  // ----- 0x10, 0x11, 0x3E, 0x86 and unknown services

  /** The second byte chooses the session: 01 default, 02 programming, 03 extended. The session changes
      with no other request. */
  lemma SessionRequests(s: Sys, req: bytes, addressing: Addressing, h: Hooks)
    requires req != [] && Enabled(s, Request(req, addressing, h))
    ensures var session' := RamAfter(s, Request(req, addressing, h)).session.session;
            if req[0] == 0x10 && |req| >= 2 && req[1] == 0x01 then
              session' == Default && Causes(s, req, addressing, h, [SessionSet(Default), Frame([0x50, 0x01])])
            else if req[0] == 0x10 && |req| >= 2 && req[1] == 0x02 then
              session' == Programming && Causes(s, req, addressing, h, [SessionSet(Programming), Frame([0x50, 0x02])])
            else if req[0] == 0x10 && |req| >= 2 && req[1] == 0x03 then
              session' == Extended && Causes(s, req, addressing, h, [SessionSet(Extended), Frame([0x50, 0x03])])
            else
              && session' == s.ram.session.session
              && (req[0] == 0x10 ==>
                    Causes(s, req, addressing, h, Refusal(addressing, 0x10, if |req| < 2 then 0x13 else 0x12)))
  {
    DispatchMoves(Refreshed(s.ram, s.now), s.now, req, addressing, h);
    if req[0] == 0x10 {
      var o := Answered(s.ram, s.now, req, addressing, h);
      Handled(s, req, addressing, h, o.events, o.reply);
    }
  }

  lemma ResetRequests(s: Sys, req: bytes, addressing: Addressing, h: Hooks)
    requires req != [] && req[0] == 0x11 && Enabled(s, Request(req, addressing, h))
    ensures Causes(s, req, addressing, h,
                   if |req| < 2 then Refusal(addressing, 0x11, 0x13)
                   else if req[1] == 0x01 || req[1] == 0x03 then [Frame([0x51, req[1]])]
                   else Refusal(addressing, 0x11, 0x12))
  {
    var o := Answered(s.ram, s.now, req, addressing, h);
    Handled(s, req, addressing, h, o.events, o.reply);
  }

  lemma TesterPresentRequests(s: Sys, req: bytes, addressing: Addressing, h: Hooks)
    requires req != [] && req[0] == 0x3E && Enabled(s, Request(req, addressing, h))
    ensures Causes(s, req, addressing, h,
                   if |req| < 2 then Refusal(addressing, 0x3E, 0x13)
                   else if req[1] < 0x80 then [Frame([0x7E, req[1]])] else [])
  {
    var o := Answered(s.ram, s.now, req, addressing, h);
    Handled(s, req, addressing, h, o.events, o.reply);
  }

  lemma EventRequests(s: Sys, req: bytes, addressing: Addressing, h: Hooks)
    requires req != [] && req[0] == 0x86 && Enabled(s, Request(req, addressing, h))
    ensures Causes(s, req, addressing, h,
                   if |req| < 3 then Refusal(addressing, 0x86, 0x13) else [Frame([0xC6, req[1], req[2]])])
  {
    var o := Answered(s.ram, s.now, req, addressing, h);
    Handled(s, req, addressing, h, o.events, o.reply);
  }

  lemma UnknownRequests(s: Sys, req: bytes, addressing: Addressing, h: Hooks)
    requires req != [] && Enabled(s, Request(req, addressing, h))
    requires req[0] !in {0x10, 0x11, 0x14, 0x19, 0x22, 0x27, 0x2A, 0x2C, 0x2E, 0x2F, 0x31, 0x34, 0x36, 0x37, 0x3E, 0x86}
    ensures Causes(s, req, addressing, h, Refusal(addressing, req[0], 0x11))
  {
    var o := Answered(s.ram, s.now, req, addressing, h);
    Handled(s, req, addressing, h, o.events, o.reply);
  }

  /** The five services that take physical requests only say nothing to functional ones. */
  lemma PhysicalOnly(s: Sys, req: bytes, h: Hooks)
    requires req != [] && req[0] in {0x27, 0x2F, 0x34, 0x36, 0x37} && Enabled(s, Request(req, Functional, h))
    ensures Causes(s, req, Functional, h, [])
  {
    var o := Answered(s.ram, s.now, req, Functional, h);
    Handled(s, req, Functional, h, o.events, o.reply);
  }

  // ----- 0x27

  /** Seeds: the entropy of the moment, or zeros once unlocked. */
  lemma SeedRequests(steps: seq<Step>, s: Sys, req: bytes, h: Hooks)
    requires Run(steps) == Some(s) && Enabled(s, Request(req, Physical, h))
    requires |req| >= 2 && req[0] == 0x27 && (req[1] == 0x01 || req[1] == 0x03)
    ensures Causes(s, req, Physical, h,
                   if AR.LockedOut(s.log) then [Frame([0x7F, 0x27, 0x36])]
                   else if |req| != 2 then [Frame([0x7F, 0x27, 0x13])]
                   else if Title(s).unlocked then [Frame([0x67, req[1]] + seq(SEED_SIZE, _ => 0))]
                   else [Frame([0x67, req[1]] + h.entropy)])
  {
    RunIsAsLogged(steps, s);
    var o := Answered(s.ram, s.now, req, Physical, h);
    SecurityAnswered(s.ram, s.now, req, h);
    Handled(s, req, Physical, h, o.events, o.reply);
    assert SA.Zeros() == seq(SEED_SIZE, _ => 0);
  }

  lemma SecurityAnswered(r: Ram, now: nat, req: bytes, h: Hooks)
    requires req != [] && req[0] == 0x27
    ensures var o, so := Answered(r, now, req, Physical, h), SA.Handle(r.security, now, req, h);
            o.events == so.events && o.reply == so.reply && o.state.security == so.state
  {
  }

  /** What a key causes, given what the log says: locked out or not, the seed that may be answered, whether
      a key has been accepted already, and the counter entry. The hook is asked about the level, that seed and
      the key bytes; the counter entry is written before the flag entry; the answer is the hook's verdict. */
  function KeyEvents(locked: bool, seed: Option<bytes>, unlocked: bool, counter: byte, req: bytes, h: Hooks): seq<Event>
    requires |req| >= 2 && req[1] >= 1
  {
    var failed := (counter + 1) % 256;
    if locked then [Frame([0x7F, 0x27, 0x36])]
    else if |req| != 2 + SEED_SIZE then [Frame([0x7F, 0x27, 0x13])]
    else if seed.None? || unlocked then [Frame([0x7F, 0x27, 0x24])]
    else if h.keyVerdict == 0 then
      [Verify(req[1] - 1, seed.value, req[2..], true), NvsWrite(1, 0), Frame([0x67, req[1]])]
    else if failed < MAX_FAILED_ATTEMPTS then
      [Verify(req[1] - 1, seed.value, req[2..], false), NvsWrite(1, failed), Frame([0x7F, 0x27, 0x35])]
    else
      [Verify(req[1] - 1, seed.value, req[2..], false), NvsWrite(1, failed), NvsWrite(2, 1), Frame([0x7F, 0x27, 0x36])]
  }

  lemma KeyOutcome(r: SA.SecurityRam, now: nat, req: bytes, h: Hooks, seed: Option<bytes>, unlocked: bool,
                   counter: byte)
    requires |req| >= 2 && req[0] == 0x27 && (req[1] == 0x02 || req[1] == 0x04)
    requires r.status == SA.SeedRequested <==> seed.Some? && !unlocked
    requires r.status == SA.SeedRequested ==> seed == Some(r.seed)
    requires r.status != SA.Lockout ==> r.counter == counter
    ensures var o := SA.Handle(r, now, req, h);
            o.events + Shown(Physical, 0x27, o.reply)
            == KeyEvents(r.status == SA.Lockout, seed, unlocked, counter, req, h)
  {
  }

  lemma KeyRequests(steps: seq<Step>, s: Sys, req: bytes, h: Hooks)
    requires Run(steps) == Some(s) && Enabled(s, Request(req, Physical, h))
    requires |req| >= 2 && req[0] == 0x27 && (req[1] == 0x02 || req[1] == 0x04)
    ensures Causes(s, req, Physical, h,
                   KeyEvents(AR.LockedOut(s.log), Title(s).seed, Title(s).unlocked, StoredCounter(s.log), req, h))
  {
    RunIsAsLogged(steps, s);
    SecurityAnswered(s.ram, s.now, req, h);
    KeyOutcome(s.ram.security, s.now, req, h, Title(s).seed, Title(s).unlocked, StoredCounter(s.log));
    var so := SA.Handle(s.ram.security, s.now, req, h);
    Handled(s, req, Physical, h, so.events, so.reply);
  }

  lemma OtherSecurityRequests(steps: seq<Step>, s: Sys, req: bytes, h: Hooks)
    requires Run(steps) == Some(s) && Enabled(s, Request(req, Physical, h))
    requires req != [] && req[0] == 0x27 && (|req| >= 2 ==> req[1] == 0 || req[1] > 4)
    ensures Causes(s, req, Physical, h,
                   [Frame([0x7F, 0x27, if |req| < 2 then 0x13 else if AR.LockedOut(s.log) then 0x36 else 0x12])])
  {
    RunIsAsLogged(steps, s);
    var o := Answered(s.ram, s.now, req, Physical, h);
    SecurityAnswered(s.ram, s.now, req, h);
    Handled(s, req, Physical, h, o.events, o.reply);
  }

  // ----- 0x2E and 0x2F

  /** How an error of these two hooks is answered. */
  function HookRefusal(addressing: Addressing, sid: byte, code: int): seq<Event> {
    Refusal(addressing, sid, if code == -22 then 0x13 else if code == -2 then 0x31 else 0x22)
  }

  /** In the extended session with an accepted key, and only then, the hook is called, with the identifier and
      the data of the request. */
  lemma WriteRequests(steps: seq<Step>, s: Sys, req: bytes, addressing: Addressing, h: Hooks)
    requires Run(steps) == Some(s) && Enabled(s, Request(req, addressing, h)) && req != [] && req[0] == 0x2E
    ensures Causes(s, req, addressing, h,
                   if SessionNow(s) != Extended then Refusal(addressing, 0x2E, 0x7E)
                   else if |req| < 3 then Refusal(addressing, 0x2E, 0x13)
                   else if !Title(s).unlocked then Refusal(addressing, 0x2E, 0x33)
                   else [WriteDid(FP.Value(req[1..3]), req[3..])]
                        + if h.writeDidResult == 0 then [Frame([0x6E, req[1], req[2]])]
                          else HookRefusal(addressing, 0x2E, h.writeDidResult))
  {
    RunIsAsLogged(steps, s);
    if |req| >= 3 {
      FP.ValueOfTwo(req[1..3]);
    }
    var o := Answered(s.ram, s.now, req, addressing, h);
    Handled(s, req, addressing, h, o.events, o.reply);
  }

  lemma IoControlRequests(steps: seq<Step>, s: Sys, req: bytes, h: Hooks)
    requires Run(steps) == Some(s) && Enabled(s, Request(req, Physical, h)) && req != [] && req[0] == 0x2F
    ensures Causes(s, req, Physical, h,
                   if SessionNow(s) != Extended then [Frame([0x7F, 0x2F, 0x7E])]
                   else if !Title(s).unlocked then [Frame([0x7F, 0x2F, 0x33])]
                   else if |req| < 4 then [Frame([0x7F, 0x2F, 0x13])]
                   else [IoControl(FP.Value(req[1..3]), req[3], req[4..])]
                        + if h.ioResult == 0 then [Frame([0x6F, req[1], req[2], req[3], h.ioStatus])]
                          else HookRefusal(Physical, 0x2F, h.ioResult))
  {
    RunIsAsLogged(steps, s);
    if |req| >= 3 {
      FP.ValueOfTwo(req[1..3]);
    }
    var o := Answered(s.ram, s.now, req, Physical, h);
    Handled(s, req, Physical, h, o.events, o.reply);
  }

  // ----- 0x34, 0x36, 0x37

  /** In a non-default session with an accepted key, and only then, the erase hook is called: with the
      big-endian address and size of the request, modulo 2^32. */
  lemma DownloadRequests(steps: seq<Step>, s: Sys, req: bytes, h: Hooks)
    requires Run(steps) == Some(s) && Enabled(s, Request(req, Physical, h)) && req != [] && req[0] == 0x34
    ensures Causes(s, req, Physical, h,
                   if SessionNow(s) == Default then [Frame([0x7F, 0x34, 0x7E])]
                   else if !Title(s).unlocked then [Frame([0x7F, 0x34, 0x33])]
                   else if |req| < 5 || |req| != 3 + req[2] % 16 + req[2] / 16 then [Frame([0x7F, 0x34, 0x13])]
                   else
                     var start := 3 + req[2] % 16;
                     [Erase(FP.Value(req[3..start]) % U32, FP.Value(req[start..]) % U32, h.eraseResult == 0, h.residue)]
                     + if h.eraseResult == 0 then [Frame([0x74, 0x20, UDS_BUFF_SIZE / 256, UDS_BUFF_SIZE % 256])]
                       else [Frame([0x7F, 0x34, 0x70])])
  {
    RunIsAsLogged(steps, s);
    var o := Answered(s.ram, s.now, req, Physical, h);
    DownloadAnswered(s.ram, s.now, req, h);
    Handled(s, req, Physical, h, o.events, o.reply);
  }

  lemma DownloadAnswered(r: Ram, now: nat, req: bytes, h: Hooks)
    requires req != [] && req[0] == 0x34
    ensures var o := Answered(r, now, req, Physical, h);
            var fo := FP.RequestDownload(r.flash, r.session.session, IsUnlocked(r), req, h);
            o.events == fo.events && o.reply == fo.reply
  {
  }

  /** What a block causes, given whether a download is open and how many of its blocks were written: the
      number must be one more than those, modulo 256. */
  function BlockEvents(open: bool, blocks: nat, offset: nat, req: bytes, h: Hooks): seq<Event> {
    if !open then [Frame([0x7F, 0x36, 0x24])]
    else if |req| < 3 then [Frame([0x7F, 0x36, 0x13])]
    else if req[1] != (1 + blocks) % 256 then [Frame([0x7F, 0x36, 0x73])]
    else [FlashWrite(offset, req[2..], h.writeResult == 0, h.residue)]
         + if h.writeResult == 0 then [Frame([0x76, req[1]])] else [Frame([0x7F, 0x36, 0x71])]
  }

  lemma BlockOutcome(r: FP.PipelineRam, d: FI.Download, req: bytes, h: Hooks)
    requires req != [] && req[0] == 0x36
    requires (r.phase == FP.Idle <==> !d.open) && (d.open ==> r.expected == (1 + d.blocks) % 256)
    ensures var o := FP.TransferData(r, req, h);
            o.events + Shown(Physical, 0x36, o.reply)
            == BlockEvents(d.open, d.blocks, (r.address + r.received) % U32, req, h)
  {
  }

  lemma OffsetOutcome(r: FP.PipelineRam, d: FI.Download)
    requires r.address == d.address && r.received == |d.acked| % U32 && d.address + |d.acked| < U32
    ensures (r.address + r.received) % U32 == d.address + |d.acked|
  {
    assert |d.acked| % U32 == |d.acked|;
  }

  /** A block's payload is written where the log says the image continues. */
  lemma BlockRequests(steps: seq<Step>, s: Sys, req: bytes, h: Hooks) returns (offset: nat)
    requires Run(steps) == Some(s) && Enabled(s, Request(req, Physical, h)) && req != [] && req[0] == 0x36
    ensures Causes(s, req, Physical, h, BlockEvents(Download(s).open, Download(s).blocks, offset, req, h))
    ensures Download(s).open && Download(s).clean && Download(s).address + |Download(s).acked| < U32 ==>
              offset == Download(s).address + |Download(s).acked|
  {
    PipelineIsAsLogged(steps, s);
    offset := BlockRequestAt(s, Download(s), req, h);
  }

  /** The pipeline is what the download says. */
  predicate FlashAsLogged(r: FP.PipelineRam, d: FI.Download) {
    && (r.phase == FP.Idle <==> !d.open)
    && (r.phase == FP.Transferring <==> d.open && d.blocks > 0)
    && (d.open ==> r.expected == (1 + d.blocks) % 256)
    && (d.open && d.clean ==> r.address == d.address && r.received == |d.acked| % U32)
  }

  lemma BlockRequestAt(s: Sys, d: FI.Download, req: bytes, h: Hooks) returns (offset: nat)
    requires FlashAsLogged(s.ram.flash, d)
    requires Enabled(s, Request(req, Physical, h)) && req != [] && req[0] == 0x36
    ensures Causes(s, req, Physical, h, BlockEvents(d.open, d.blocks, offset, req, h))
    ensures d.open && d.clean && d.address + |d.acked| < U32 ==> offset == d.address + |d.acked|
  {
    offset := NextOffset(s.ram.flash, d);
    BlockOutcome(s.ram.flash, d, req, h);
    TransferCauses(s, req, h);
  }

  lemma NextOffset(r: FP.PipelineRam, d: FI.Download) returns (offset: nat)
    requires d.open && d.clean ==> r.address == d.address && r.received == |d.acked| % U32
    ensures offset == (r.address + r.received) % U32
    ensures d.open && d.clean && d.address + |d.acked| < U32 ==> offset == d.address + |d.acked|
  {
    offset := (r.address + r.received) % U32;
    if d.open && d.clean && d.address + |d.acked| < U32 {
      OffsetOutcome(r, d);
    }
  }

  lemma TransferCauses(s: Sys, req: bytes, h: Hooks)
    requires req != [] && req[0] == 0x36 && Enabled(s, Request(req, Physical, h))
    ensures var fo := FP.TransferData(s.ram.flash, req, h);
            Causes(s, req, Physical, h, fo.events + Shown(Physical, 0x36, fo.reply))
  {
    TransferAnswered(s.ram, s.now, req, h);
    var fo := FP.TransferData(s.ram.flash, req, h);
    Handled(s, req, Physical, h, fo.events, fo.reply);
  }

  lemma PipelineIsAsLogged(steps: seq<Step>, s: Sys)
    requires Run(steps) == Some(s)
    ensures FlashAsLogged(s.ram.flash, Download(s))
  {
    FI.DownloadInEveryRun(steps);
  }

  lemma TransferAnswered(r: Ram, now: nat, req: bytes, h: Hooks)
    requires req != [] && req[0] == 0x36
    ensures var o, fo := Answered(r, now, req, Physical, h), FP.TransferData(r.flash, req, h);
            o.events == fo.events && o.reply == fo.reply
  {
  }

  /** A 0x37 is accepted exactly if a download is open and at least one of its blocks was written. */
  lemma ExitRequests(steps: seq<Step>, s: Sys, req: bytes, h: Hooks)
    requires Run(steps) == Some(s) && Enabled(s, Request(req, Physical, h)) && req != [] && req[0] == 0x37
    ensures Causes(s, req, Physical, h,
                   if Download(s).open && Download(s).blocks > 0 then [TransferExit, Frame([0x77])]
                   else [Frame([0x7F, 0x37, 0x24])])
  {
    PipelineIsAsLogged(steps, s);
    ExitAnswered(s.ram, s.now, req, h);
    var fo := FP.RequestTransferExit(s.ram.flash, req);
    Handled(s, req, Physical, h, fo.events, fo.reply);
  }

  lemma ExitAnswered(r: Ram, now: nat, req: bytes, h: Hooks)
    requires req != [] && req[0] == 0x37
    ensures var o, fo := Answered(r, now, req, Physical, h), FP.RequestTransferExit(r.flash, req);
            o.events == fo.events && o.reply == fo.reply
  {
  }

  // ----- 0x14 and 0x31

  lemma ClearRequests(steps: seq<Step>, s: Sys, req: bytes, addressing: Addressing, h: Hooks)
    requires Run(steps) == Some(s) && Enabled(s, Request(req, addressing, h)) && req != [] && req[0] == 0x14
    ensures Causes(s, req, addressing, h,
                   if |req| != 4 then Refusal(addressing, 0x14, 0x13)
                   else if CD.Busy(s.ram.clear.log) then Refusal(addressing, 0x14, 0x22)
                   else [])
  {
    BG.ProtocolsInEveryRun(steps, 1);
    CD.BusyWhileNotIdle(s.ram.clear.log, 1);
    var o := Answered(s.ram, s.now, req, addressing, h);
    Handled(s, req, addressing, h, o.events, o.reply);
  }

  /** A start is refused exactly while an accepted start's hook has not returned. */
  lemma RoutineRequests(steps: seq<Step>, s: Sys, req: bytes, addressing: Addressing, h: Hooks)
    requires Run(steps) == Some(s) && Enabled(s, Request(req, addressing, h)) && req != [] && req[0] == 0x31
    ensures Causes(s, req, addressing, h,
                   if SessionNow(s) == Default then Refusal(addressing, 0x31, 0x7E)
                   else if |req| < 4 then Refusal(addressing, 0x31, 0x13)
                   else if req[1] == 0x01 then
                     if |RC.Verdicts(s.ram.routine.log)| < |RC.Starts(s.ram.routine.log)|
                     then Refusal(addressing, 0x31, 0x22) else []
                   else if req[1] == 0x03 then
                     if FP.Value(req[2..4]) !in h.results then Refusal(addressing, 0x31, 0x31)
                     else var (status, code) := h.results[FP.Value(req[2..4])];
                          [Frame([0x71, 0x03, req[2], req[3], status, code])]
                   else Refusal(addressing, 0x31, 0x12))
  {
    RunIsAsLogged(steps, s);
    RunningIsLogged(steps, s);
    if |req| >= 4 {
      FP.ValueOfTwo(req[2..4]);
    }
    var o := RC.Handle(s.ram.routine, s.ram.session.session, req, h);
    RoutineAnswered(s.ram, s.now, req, addressing, h);
    Handled(s, req, addressing, h, o.events, o.reply);
  }

  lemma RunningIsLogged(steps: seq<Step>, s: Sys)
    requires Run(steps) == Some(s)
    ensures s.ram.routine.status == RC.Running
            <==> |RC.Verdicts(s.ram.routine.log)| < |RC.Starts(s.ram.routine.log)|
  {
    BG.ProtocolsInEveryRun(steps, 1);
    RC.AnswersMatchStarts(s.ram.routine.log);
  }

  lemma RoutineAnswered(r: Ram, now: nat, req: bytes, addressing: Addressing, h: Hooks)
    requires req != [] && req[0] == 0x31
    ensures var o, ro := Answered(r, now, req, addressing, h), RC.Handle(r.routine, r.session.session, req, h);
            o.events == ro.events && o.reply == ro.reply
  {
  }

  // ----- 0x22, 0x2C, 0x2A

  /** An identifier that is not the dynamic one is answered with the application's data for it. */
  lemma ReadRequests(steps: seq<Step>, s: Sys, req: bytes, addressing: Addressing, h: Hooks)
    requires Run(steps) == Some(s) && Enabled(s, Request(req, addressing, h)) && req != [] && req[0] == 0x22
    requires var d := Fold(HI.Hear, HI.NOTHING, s.log).definition;
             d.Some? && |d.value| >= 4 && |req| >= 3 ==> req[1] != d.value[2] || req[2] != d.value[3]
    ensures Causes(s, req, addressing, h,
                   if |req| < 3 then Refusal(addressing, 0x22, 0x13)
                   else if FP.Value(req[1..3]) !in h.dids then Refusal(addressing, 0x22, 0x31)
                   else match h.dids[FP.Value(req[1..3])]
                     case DidData(data) =>
                       if |data| <= UDS_BUFF_SIZE - 3 then [Frame([0x62, req[1], req[2]] + data)]
                       else Refusal(addressing, 0x22, 0x31)
                     case DidError(code) => Refusal(addressing, 0x22, if code == -12 then 0x78 else 0x31))
  {
    HI.OtherReadsAreUnaffected(steps, s, req, addressing, h);
    var undefined := s.(ram := s.ram.(dynamic := DD.BOOT));
    HI.ReadAnswered(undefined.ram, s.now, req, addressing, h);
    if |req| >= 3 {
      FP.ValueOfTwo(req[1..3]);
    }
    var reply := DD.ReadHandle(DD.BOOT, req, h).reply;
    Handled(undefined, req, addressing, h, [], reply);
  }

  /** Reading the last defined dynamic identifier always gets one frame: the header alone if its source cannot
      be read into 64 bytes, otherwise as many bytes as the definition asks for, and wherever the slice lies
      within the source these are the source's. */
  lemma DynamicReads(steps: seq<Step>, s: Sys, define: bytes, req: bytes, addressing: Addressing, h: Hooks)
    returns (frame: bytes)
    requires Run(steps) == Some(s) && Fold(HI.Hear, HI.NOTHING, s.log).definition == Some(define)
    requires Enabled(s, Request(req, addressing, h)) && |req| >= 3 && req[0] == 0x22
    requires |define| >= 4 ==> req[1] == define[2] && req[2] == define[3]
    ensures Causes(s, req, addressing, h, [Frame(frame)])
    ensures |define| >= 9 && |frame| >= 3 && frame[..3] == [0x62, req[1], req[2]]
    ensures match Source(define, h)
            case None => |frame| == 3
            case Some(source) => TakenFrom(source, define[6], define[7], frame[3..])
  {
    HI.DefinedInRun(steps, s, define);
    HI.ReadAnswered(s.ram, s.now, req, addressing, h);
    var payload := DD.Assemble(DD.Definition(define).entries, h);
    PayloadOfOne(define, h);
    frame := [0x62, req[1], req[2]] + payload;
    Handled(s, req, addressing, h, [], Positive(frame));
  }

  predicate TakenFrom(source: bytes, position: byte, length: byte, slice: bytes) {
    && |slice| == length
    && forall k :: 0 <= k < |slice| && 0 <= position - 1 + k < |source| ==> slice[k] == source[position - 1 + k]
  }

  /** What the definition's source holds, if it can be read. */
  function Source(define: bytes, h: Hooks): Option<bytes> {
    if |define| < 6 then None
    else match Looked(h.dids, FP.Value(define[4..6]))
      case Some(DidData(data)) => if |data| <= 64 then Some(data) else None
      case _ => None
  }

  function Looked(dids: map<nat, DidRead>, id: nat): Option<DidRead> {
    if id in dids then Some(dids[id]) else None
  }

  lemma PayloadOfOne(define: bytes, h: Hooks)
    requires DD.Defines(define)
    ensures var payload := DD.Assemble(DD.Definition(define).entries, h);
            match Source(define, h)
            case None => payload == []
            case Some(source) => TakenFrom(source, define[6], define[7], payload)
  {
    FP.ValueOfTwo(define[4..6]);
    var entries := DD.Definition(define).entries;
    assert entries[..0] == [];
    assert DD.Assemble(entries, h) == DD.Assemble([], h) + DD.Part(entries[0], h);
  }

  lemma DefineRequests(s: Sys, req: bytes, addressing: Addressing, h: Hooks)
    requires Enabled(s, Request(req, addressing, h)) && req != [] && req[0] == 0x2C
    ensures Causes(s, req, addressing, h,
                   if |req| < 9 then Refusal(addressing, 0x2C, 0x13)
                   else if req[1] != 0x01 then Refusal(addressing, 0x2C, 0x12)
                   else [Frame([0x6C, 0x01, req[2], req[3]])])
  {
    var o := Answered(s.ram, s.now, req, addressing, h);
    Handled(s, req, addressing, h, o.events, o.reply);
  }

  function PeriodicEvents(started: nat, req: bytes, addressing: Addressing): seq<Event> {
    if |req| < 3 then Refusal(addressing, 0x2A, 0x13)
    else if req[1] == 0x04 then [Frame([0x6A, 0x04])]
    else if req[1] == 0x01 then
      if started < 5 then [Frame([0x6A, 0x01, req[2]])] else Refusal(addressing, 0x2A, 0x31)
    else []
  }

  lemma PeriodicOutcome(r: PR.PeriodicRam, started: nat, req: bytes, addressing: Addressing)
    requires req != [] && req[0] == 0x2A && (|r.active| < 5 <==> started < 5)
    ensures var o := PR.Handle(r, req);
            o.events + Shown(addressing, 0x2A, o.reply) == PeriodicEvents(started, req, addressing)
  {
  }

  lemma PeriodicAnswered(r: Ram, now: nat, req: bytes, addressing: Addressing, h: Hooks)
    requires req != [] && req[0] == 0x2A
    ensures var o, po := Answered(r, now, req, addressing, h), PR.Handle(r.periodic, req);
            o.events == po.events && o.reply == po.reply
  {
  }

  /** A start is accepted exactly if there were fewer than five since the last stop. */
  lemma PeriodicRequests(steps: seq<Step>, s: Sys, req: bytes, addressing: Addressing, h: Hooks)
    requires Run(steps) == Some(s) && Enabled(s, Request(req, addressing, h)) && req != [] && req[0] == 0x2A
    ensures var started := PR.StartsSinceStop(Fold(HI.Hear, HI.NOTHING, s.log).asks);
            Causes(s, req, addressing, h, PeriodicEvents(|started|, req, addressing))
  {
    HI.RegistryFollowsHistory(steps, s);
    var started := PR.StartsSinceStop(Fold(HI.Hear, HI.NOTHING, s.log).asks);
    PeriodicAnswered(s.ram, s.now, req, addressing, h);
    PeriodicOutcome(s.ram.periodic, |started|, req, addressing);
    var o := PR.Handle(s.ram.periodic, req);
    Handled(s, req, addressing, h, o.events, o.reply);
  }

  /** A cycle of the periodic thread asks for every listed slot in order and sends `2A`, the slot and the data
      the application has for it. */
  lemma PeriodicFrames(s: Sys, answers: seq<Option<bytes>>, k: nat)
    requires k < |s.ram.periodic.active| && s.ram.periodic.attached && |answers| == |s.ram.periodic.active|
    ensures var active := s.ram.periodic.active;
            var before := PR.SampleEvents(active[..k], answers);
            var own := [Sampled(active[k])]
                       + (if answers[k].Some? then [Frame([0x2A, active[k]] + answers[k].value)] else []);
            before + own <= EventsOf(s, PeriodicCycle(answers))
  {
    SamplesGrow(s.ram.periodic.active, answers, k + 1);
    assert s.ram.periodic.active[..k + 1][..k] == s.ram.periodic.active[..k];
  }

  lemma {:induction false} SamplesGrow(active: bytes, answers: seq<Option<bytes>>, n: nat)
    requires n <= |active|
    ensures PR.SampleEvents(active[..n], answers) <= PR.SampleEvents(active, answers)
    decreases |active|
  {
    if n == |active| {
      assert active[..n] == active;
    } else {
      SamplesGrow(active[..|active| - 1], answers, n);
      assert active[..|active| - 1][..n] == active[..n];
    }
  }

  // ----- 0x19

  /** Two bytes have a set bit in common, bit by bit. */
  predicate ShareABit(a: byte, b: byte) {
    || (a % 2 == 1 && b % 2 == 1) || (a / 2 % 2 == 1 && b / 2 % 2 == 1)
    || (a / 4 % 2 == 1 && b / 4 % 2 == 1) || (a / 8 % 2 == 1 && b / 8 % 2 == 1)
    || (a / 16 % 2 == 1 && b / 16 % 2 == 1) || (a / 32 % 2 == 1 && b / 32 % 2 == 1)
    || (a / 64 % 2 == 1 && b / 64 % 2 == 1) || (a / 128 % 2 == 1 && b / 128 % 2 == 1)
  }

  /** The store has a trouble code under entry 0x100 + i: four bytes, the last its status. */
  predicate Stored(store: map<nat, bytes>, i: nat) { 0x100 + i in store && |store[0x100 + i]| == 4 }

  predicate Wanted(store: map<nat, bytes>, mask: byte, i: nat) {
    Stored(store, i) && ShareABit(store[0x100 + i][3], mask)
  }

  /** The frame is `59 02 09` and then, in id order, the four stored bytes of every wanted code among the
      sixteen entries, and of no other. */
  ghost predicate IsReport(frame: bytes, ids: seq<nat>, store: map<nat, bytes>, mask: byte) {
    && |frame| == 3 + 4 * |ids| && frame[0] == 0x59 && frame[1] == 0x02 && frame[2] == 0x09
    && (forall k :: 0 <= k < |ids| ==>
          ids[k] < 16 && Wanted(store, mask, ids[k]) && RecordAt(frame, k, store[0x100 + ids[k]]))
    && (forall j, k :: 0 <= j < k < |ids| ==> ids[j] < ids[k])
    && (forall i: nat :: i < 16 && Wanted(store, mask, i) ==> i in ids)
  }

  predicate RecordAt(frame: bytes, k: nat, entry: bytes) {
    |frame| >= 7 + 4 * k && |entry| == 4 && frame[3 + 4 * k..7 + 4 * k] == entry
  }

  lemma BitsOf(a: nat)
    ensures RD.Bit(a, 0) <==> a % 2 == 1
    ensures RD.Bit(a, 1) <==> a / 2 % 2 == 1
    ensures RD.Bit(a, 2) <==> a / 4 % 2 == 1
    ensures RD.Bit(a, 3) <==> a / 8 % 2 == 1
  {
    assert RD.Bit(a, 1) == RD.Bit(a / 2, 0);
    assert RD.Bit(a, 2) == RD.Bit(a / 2, 1) == RD.Bit(a / 2 / 2, 0);
    assert RD.Bit(a, 3) == RD.Bit(a / 2, 2) == RD.Bit(a / 2 / 2, 1) == RD.Bit(a / 2 / 2 / 2, 0);
    assert a / 2 / 2 == a / 4 && a / 2 / 2 / 2 == a / 8;
  }

  lemma HighBitsOf(a: nat)
    ensures RD.Bit(a, 4) <==> a / 16 % 2 == 1
    ensures RD.Bit(a, 5) <==> a / 32 % 2 == 1
    ensures RD.Bit(a, 6) <==> a / 64 % 2 == 1
    ensures RD.Bit(a, 7) <==> a / 128 % 2 == 1
  {
    BitsOf(a / 16);
    Shifted(a, 4, 0);
    Shifted(a, 4, 1);
    Shifted(a, 4, 2);
    Shifted(a, 4, 3);
    assert a / 16 / 2 == a / 32 && a / 16 / 4 == a / 64 && a / 16 / 8 == a / 128;
  }

  lemma Shifted(a: nat, n: nat, k: nat)
    requires n == 4
    ensures RD.Bit(a, n + k) == RD.Bit(a / 16, k)
  {
    assert RD.Bit(a, k + 4) == RD.Bit(a / 2, k + 3);
    assert RD.Bit(a / 2, k + 3) == RD.Bit(a / 2 / 2, k + 2);
    assert RD.Bit(a / 2 / 2, k + 2) == RD.Bit(a / 2 / 2 / 2, k + 1);
    assert RD.Bit(a / 2 / 2 / 2, k + 1) == RD.Bit(a / 2 / 2 / 2 / 2, k);
    assert a / 2 / 2 / 2 / 2 == a / 16;
  }

  lemma SharingIsIntersecting(a: byte, b: byte)
    ensures ShareABit(a, b) <==> RD.Intersects(a, b)
  {
    BitsOf(a);
    BitsOf(b);
    HighBitsOf(a);
    HighBitsOf(b);
    if RD.Intersects(a, b) {
      var k: nat :| k < 8 && RD.Bit(a, k) && RD.Bit(b, k);
      assert k == 0 || k == 1 || k == 2 || k == 3 || k == 4 || k == 5 || k == 6 || k == 7;
    }
  }

  lemma WantedIsReported(store: map<nat, bytes>, mask: byte, i: nat)
    ensures Wanted(store, mask, i) <==> RD.Reported(store, mask, i)
  {
    if Stored(store, i) {
      SharingIsIntersecting(store[0x100 + i][3], mask);
    }
  }

  lemma ReportIsReport(store: map<nat, bytes>, mask: byte, ds: seq<RD.Dtc>, ids: seq<nat>)
    requires RD.InIdOrder(ds, ids, store, mask, 16)
    ensures IsReport([0x59, 0x02, 0x09] + RD.Records(ds), ids, store, mask)
  {
    var frame := [0x59, 0x02, 0x09] + RD.Records(ds);
    forall i: nat ensures Wanted(store, mask, i) <==> RD.Reported(store, mask, i) {
      WantedIsReported(store, mask, i);
    }
    forall k | 0 <= k < |ids|
      ensures Wanted(store, mask, ids[k]) && RecordAt(frame, k, store[0x100 + ids[k]])
    {
      assert RD.Reported(store, mask, ids[k]) && ds[k] == RD.Entry(store, ids[k]);
      RecordIsEntry([0x59, 0x02, 0x09], ds, k, store[0x100 + ids[k]]);
    }
  }

  lemma RecordIsEntry(head: bytes, ds: seq<RD.Dtc>, k: nat, entry: bytes)
    requires |head| == 3 && k < |ds| && |entry| == 4 && ds[k] == RD.Dtc(entry[0], entry[1], entry[2], entry[3])
    ensures RecordAt(head + RD.Records(ds), k, entry)
  {
    RecordStands(ds, k);
    FrameShift(head, RD.Records(ds), 4 * k, 4 * k + 4);
    assert RD.Record(ds[k]) == entry;
  }

  /** In any state, a report request with a storage context is answered by the report. */
  lemma ReportRequests(s: Sys, req: bytes, addressing: Addressing, h: Hooks) returns (ids: seq<nat>, frame: bytes)
    requires Enabled(s, Request(req, addressing, h)) && |req| >= 3 && req[0] == 0x19 && req[1] == 0x02 && h.nvs.Some?
    ensures Causes(s, req, addressing, h, [Frame(frame)]) && IsReport(frame, ids, h.nvs.value, req[2])
  {
    var ds := RD.Matching(h.nvs.value, req[2], 16);
    ids := RD.MatchingIsTheFilter(h.nvs.value, req[2], 16);
    ReportIsReport(h.nvs.value, req[2], ds, ids);
    frame := [0x59, 0x02, 0x09] + RD.Records(ds);
    DtcAnswered(s.ram, s.now, req, addressing, h);
    Handled(s, req, addressing, h, [], Positive(frame));
  }

  lemma DtcAnswered(r: Ram, now: nat, req: bytes, addressing: Addressing, h: Hooks)
    requires req != [] && req[0] == 0x19
    ensures var o, ro := Answered(r, now, req, addressing, h), RD.Handle(req, h);
            o.events == [] && o.reply == ro.reply
  {
  }

  lemma FrameShift(head: bytes, tail: bytes, from: nat, to: nat)
    requires from <= to <= |tail|
    ensures (head + tail)[|head| + from..|head| + to] == tail[from..to]
  {
  }

  lemma {:induction false} RecordStands(ds: seq<RD.Dtc>, k: nat)
    requires k < |ds|
    ensures RD.Records(ds)[4 * k..4 * k + 4] == RD.Record(ds[k])
    decreases |ds|
  {
    var front := ds[..|ds| - 1];
    if k < |front| {
      RecordStands(front, k);
      assert RD.Records(ds)[4 * k..4 * k + 4] == RD.Records(front)[4 * k..4 * k + 4];
    }
  }

  /** The other requests of service 0x19. */
  lemma OtherDtcRequests(s: Sys, req: bytes, addressing: Addressing, h: Hooks)
    requires Enabled(s, Request(req, addressing, h)) && req != [] && req[0] == 0x19
    requires |req| >= 3 && req[1] == 0x02 ==> h.nvs.None?
    ensures Causes(s, req, addressing, h,
                   if |req| < 2 then Refusal(addressing, 0x19, 0x13)
                   else if h.nvs.None? then Refusal(addressing, 0x19, 0x22)
                   else if req[1] == 0x02 then Refusal(addressing, 0x19, 0x13)
                   else if req[1] != 0x04 then Refusal(addressing, 0x19, 0x12)
                   else if |req| < 6 then Refusal(addressing, 0x19, 0x13)
                   else if (FP.Value(req[2..5]), req[5]) !in h.freezeFrames then Refusal(addressing, 0x19, 0x31)
                   else [Frame([0x59, 0x04, req[2], req[3], req[4]] + h.freezeFrames[(FP.Value(req[2..5]), req[5])])])
  {
    if |req| >= 6 {
      FP.ValueOfThree(req[2..5]);
    }
    DtcAnswered(s.ram, s.now, req, addressing, h);
    Handled(s, req, addressing, h, [], RD.Handle(req, h).reply);
  }
}
