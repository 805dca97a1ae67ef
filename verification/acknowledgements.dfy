/** The positive responses to 0x36 on the bus, against the blocks written to the flash. */
module Acknowledgements {
  import opened Kernel
  import opened UdsServer
  import opened UdsSystem
  import opened Monitors
  import FP = FlashPipeline
  import FI = FlashImage

  /** Since the last successful erase: how many blocks were written, the block numbers of the 0x76 frames,
      and whether the server has rebooted. `ok` is lost for good once the two are more than one apart or a
      number is wrong. */
  datatype Ledger = Ledger(ok: bool, blocks: nat, acks: bytes, rebooted: bool)

  const OPENING := Ledger(true, 0, [], false)

  predicate IsAck(e: Event) { e.Frame? && |e.data| == 2 && e.data[0] == 0x76 }

  function Enter(l: Ledger, e: Event): Ledger {
    match e
    case Erase(_, _, ok, _) => if ok then Ledger(l.ok, 0, [], false) else l
    case FlashWrite(_, _, ok, _) => if ok then l.(blocks := l.blocks + 1) else l
    case Reboot(_) => l.(rebooted := true)
    case Frame(data) => if IsAck(e) then l.(acks := l.acks + [data[1]]) else l
    case _ => l
  }

  /** The k-th frame, counted from 1, carries `k` modulo 256. */
  predicate Numbered(acks: bytes) { forall i :: 0 <= i < |acks| ==> acks[i] == (i + 1) % 256 }

  /** Every written block has its frame, but perhaps for the last one. */
  predicate Owing(l: Ledger) { Numbered(l.acks) && |l.acks| <= l.blocks <= |l.acks| + 1 }

  predicate Good(l: Ledger) { l.ok && Owing(l) }

  function Observe(l: Ledger, e: Entry): Ledger {
    var l' := Enter(l, e.event);
    if l' == l then l else l'.(ok := Good(l) && Owing(l'))
  }

  predicate Agrees(r: FP.PipelineRam, l: Ledger) {
    && Good(l)
    && (!l.rebooted ==> l.blocks == |l.acks|)
    && (r.phase != FP.Idle ==> !l.rebooted && r.expected == (1 + l.blocks) % 256)
  }

  ghost predicate Inv(s: Sys) { Agrees(s.ram.flash, Fold(Observe, OPENING, s.log)) }

  lemma NumberedAppend(acks: bytes, number: byte)
    requires Numbered(acks) && number == (|acks| + 1) % 256
    ensures Numbered(acks + [number])
  {
  }

  /** What a handler's events and then its answer do to the ledger. */
  function Settle(l: Ledger, now: nat, events: seq<Event>, reply: Reply): Ledger {
    var l' := FoldEvents(Observe, l, now, events);
    if reply.Positive? then Observe(l', Entry(now, Frame(reply.frame))) else l'
  }

  lemma DownloadAgrees(r: FP.PipelineRam, session: Session, unlocked: bool, req: bytes, h: Hooks, now: nat, l: Ledger)
    requires req != [] && Agrees(r, l)
    ensures var o := FP.RequestDownload(r, session, unlocked, req, h);
            Agrees(o.state, Settle(l, now, o.events, o.reply))
  {
    FoldFew(Observe, l, now, FP.RequestDownload(r, session, unlocked, req, h).events);
  }

  lemma TransferAgrees(r: FP.PipelineRam, req: bytes, h: Hooks, now: nat, l: Ledger)
    requires req != [] && req[0] == 0x36 && Agrees(r, l)
    ensures var o := FP.TransferData(r, req, h);
            Agrees(o.state, Settle(l, now, o.events, o.reply))
  {
    var o := FP.TransferData(r, req, h);
    FoldFew(Observe, l, now, o.events);
    if o.reply.Positive? {
      NumberedAppend(l.acks, req[1]);
    }
  }

  lemma ExitAgrees(r: FP.PipelineRam, req: bytes, now: nat, l: Ledger)
    requires req != [] && Agrees(r, l)
    ensures var o := FP.RequestTransferExit(r, req);
            Agrees(o.state, Settle(l, now, o.events, o.reply))
  {
    FoldFew(Observe, l, now, FP.RequestTransferExit(r, req).events);
  }

  lemma HandlerAgrees(r: Ram, now: nat, req: bytes, h: Hooks, o: Outcome<Ram>, l: Ledger)
    requires req != [] && OneOf(r, now, req, h, o) && Agrees(r.flash, l)
    requires o.reply.Positive? && IsAck(Frame(o.reply.frame)) ==> MovesFlash(r, req, h, o)
    ensures Agrees(o.state.flash, Settle(l, now, o.events, o.reply))
  {
    if MovesFlash(r, req, h, o) {
      if req[0] == 0x34 {
        DownloadAgrees(r.flash, r.session.session, IsUnlocked(r), req, h, now, l);
      } else if req[0] == 0x36 {
        TransferAgrees(r.flash, req, h, now, l);
      } else {
        ExitAgrees(r.flash, req, now, l);
      }
    } else {
      FoldFew(Observe, l, now, o.events);
    }
  }

  /** Only the 0x36 handler answers with a 0x76 frame. */
  lemma AcksAreTransfers(r: Ram, now: nat, req: bytes, addressing: Addressing, h: Hooks)
    requires req != []
    ensures var o := Dispatch(r, now, req, addressing, h);
            o.reply.Positive? && IsAck(Frame(o.reply.frame)) ==> MovesFlash(r, req, h, o)
  {
    DispatchDiscipline(r, now, req, addressing, h);
  }

  lemma AnswerAgrees(r: FP.PipelineRam, now: nat, req: bytes, addressing: Addressing, o: Outcome<Ram>, l: Ledger)
    requires req != [] && Agrees(r, Settle(l, now, o.events, o.reply))
    ensures Agrees(r, FoldEvents(Observe, l, now, [Received(req, addressing)] + Emitted(addressing, req[0], o)))
  {
    FoldHandled(Observe, l, now, req, addressing, o);
    FoldFew(Observe, FoldEvents(Observe, l, now, o.events), now, Transmit(addressing, req[0], o.reply));
  }

  lemma RequestAgrees(s: Sys, req: bytes, addressing: Addressing, h: Hooks, l: Ledger)
    requires Agrees(s.ram.flash, l)
    ensures var (r, events) := Process(s.ram, s.now, req, addressing, h);
            Agrees(r.flash, FoldEvents(Observe, l, s.now, events))
  {
    if req != [] {
      var r := Refreshed(s.ram, s.now);
      var o := Dispatch(r, s.now, req, addressing, h);
      DispatchCases(r, s.now, req, addressing, h);
      AcksAreTransfers(r, s.now, req, addressing, h);
      HandlerAgrees(r, s.now, req, h, o, l);
      AnswerAgrees(o.state.flash, s.now, req, addressing, o, l);
    }
  }

  predicate Matches(r: Ram, l: Ledger) { Agrees(r.flash, l) }

  lemma LedgerIsMonitor()
    ensures IsMonitor(Observe, Good, Matches)
  {
  }

  lemma LedgerInEveryRun(steps: seq<Step>)
    requires Run(steps).Some?
    ensures Inv(Run(steps).value)
  {
    LedgerIsMonitor();
    forall s: Sys, req: bytes, addressing: Addressing, h: Hooks, l: Ledger
      ensures RequestKept(Observe, Matches, s, req, addressing, h, l)
    {
      if Matches(s.ram, l) {
        RequestAgrees(s, req, addressing, h, l);
      }
    }
    AgreesInEveryRun(Observe, Good, Matches, OPENING, steps);
  }

  /** The ledger counts the blocks the download counts, and an open download saw no reboot. */
  lemma {:induction false} SameBlocks(log: seq<Entry>)
    ensures var l, d := Fold(Observe, OPENING, log), Fold(FI.Observe, FI.NO_DOWNLOAD, log);
            l.blocks == d.blocks && (d.open ==> !l.rebooted)
  {
    if log != [] {
      SameBlocks(log[..|log| - 1]);
    }
  }

  /** In every run, the 0x76 frames on the bus since the last successful erase carry the numbers 1, 2, ...
      modulo 256, and are as many as blocks were written since then; only after a reboot may the last
      written block lack its frame. */
  lemma AcknowledgementsCountBlocks(steps: seq<Step>, s: Sys)
    requires Run(steps) == Some(s)
    ensures var l, d := Fold(Observe, OPENING, s.log), Fold(FI.Observe, FI.NO_DOWNLOAD, s.log);
            && Numbered(l.acks)
            && |l.acks| <= d.blocks <= |l.acks| + 1
            && (d.open || !l.rebooted ==> d.blocks == |l.acks|)
  {
    LedgerInEveryRun(steps);
    SameBlocks(s.log);
  }
}
