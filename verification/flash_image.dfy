/** From the wire to the flash: what a download leaves in memory, over whole histories. */
module FlashImage {
  import opened Kernel
  import opened UdsServer
  import opened UdsSystem
  import opened Monitors
  import FP = FlashPipeline

  // ----- The flash as the log of hook calls leaves it

  predicate In(x: nat, start: nat, length: nat) { start <= x < start + length }

  /** A successful erase leaves 0xFF, a successful write its data; a failed call leaves arbitrary bytes
      in its own range. */
  function Cell(e: Event, x: nat, before: byte): byte {
    match e
    case Erase(address, size, ok, residue) =>
      if !In(x, address, size) then before else if ok then 0xFF else if x in residue then residue[x] else before
    case FlashWrite(offset, data, ok, residue) =>
      if !In(x, offset, |data|) then before
      else if ok then data[x - offset] else if x in residue then residue[x] else before
    case _ => before
  }

  function ByteAt(log: seq<Entry>, x: nat): byte {
    if log == [] then 0xFF else Cell(log[|log| - 1].event, x, ByteAt(log[..|log| - 1], x))
  }

  /** Successful writes to an address since the last successful erase call. */
  function Writes(log: seq<Entry>, x: nat): nat {
    if log == [] then 0
    else
      var before := Writes(log[..|log| - 1], x);
      match log[|log| - 1].event
      case Erase(_, _, ok, _) => if ok then 0 else before
      case FlashWrite(offset, data, ok, _) => if ok && In(x, offset, |data|) then before + 1 else before
      case _ => before
  }

  // ----- A download as the log tells it

  /** The last accepted 0x34 (its address and size), the payloads acknowledged since, and whether blocks
      may still come. `clean` is lost by an erase that fails and by a block that would pass the end of
      the 32-bit address space; `ok` is lost for good by a call or an exit out of phase. */
  datatype Download = Download(
    ok: bool, open: bool, clean: bool, address: nat, size: nat, acked: bytes, blocks: nat)

  const NO_DOWNLOAD := Download(true, false, false, 0, 0, [], 0)

  function Observe(d: Download, e: Entry): Download {
    match e.event
    case Erase(address, size, ok, _) =>
      if ok then Download(d.ok, true, true, address, size, [], 0) else d.(clean := false)
    case FlashWrite(offset, data, ok, _) =>
      var clean := d.clean && d.address + |d.acked| + |data| <= U32;
      Download(d.ok && d.open && (clean ==> offset == d.address + |d.acked|), d.open, clean, d.address, d.size,
               if ok then d.acked + data else d.acked, if ok then d.blocks + 1 else d.blocks)
    case TransferExit => d.(ok := d.ok && d.open && d.blocks > 0, open := false)
    case Reboot(_) => d.(open := false)
    case _ => d
  }

  predicate Good(d: Download) { d.ok }

  predicate Agrees(r: FP.PipelineRam, d: Download) {
    && d.ok
    && (r.phase == FP.Idle <==> !d.open)
    && (r.phase == FP.Transferring <==> d.open && d.blocks > 0)
    && (d.open ==> r.expected == (1 + d.blocks) % 256)
    && (d.open && d.clean ==>
          && d.address + |d.acked| <= U32
          && r.address == d.address && r.size == d.size && r.received == |d.acked| % U32)
  }

  ghost predicate Inv(s: Sys) { Agrees(s.ram.flash, Fold(Observe, NO_DOWNLOAD, s.log)) }

  lemma DownloadAgrees(r: FP.PipelineRam, session: Session, unlocked: bool, req: bytes, h: Hooks, now: nat, d: Download)
    requires req != [] && Agrees(r, d)
    ensures var o := FP.RequestDownload(r, session, unlocked, req, h);
            Agrees(o.state, FoldEvents(Observe, d, now, o.events))
  {
    FoldFew(Observe, d, now, FP.RequestDownload(r, session, unlocked, req, h).events);
  }

  lemma TransferAgrees(r: FP.PipelineRam, req: bytes, h: Hooks, now: nat, d: Download)
    requires req != [] && Agrees(r, d)
    ensures var o := FP.TransferData(r, req, h);
            Agrees(o.state, FoldEvents(Observe, d, now, o.events))
  {
    var o := FP.TransferData(r, req, h);
    FoldFew(Observe, d, now, o.events);
    if o.reply.Positive? {
      BlockAgrees(r, (r.address + r.received) % U32, req[2..], h.residue, now, d);
    }
  }

  /** A written block: the counter, the byte count and the address advance as the log says. */
  lemma BlockAgrees(r: FP.PipelineRam, offset: nat, data: bytes, residue: map<nat, byte>, now: nat, d: Download)
    requires Agrees(r, d) && r.phase != FP.Idle && offset == (r.address + r.received) % U32 && data != []
    ensures Agrees(r.(phase := FP.Transferring, received := (r.received + |data|) % U32,
                      expected := (r.expected + 1) % 256),
                   Observe(d, Entry(now, FlashWrite(offset, data, true, residue))))
  {
    NextCounter(d.blocks);
    if d.clean && d.address + |d.acked| + |data| <= U32 {
      NextOffset(d.address, |d.acked|, |data|);
    }
  }

  lemma NextCounter(blocks: nat)
    ensures ((1 + blocks) % 256 + 1) % 256 == (1 + (blocks + 1)) % 256
  {
  }

  /** Inside the address space the 32-bit offset and byte count are the true ones. */
  lemma NextOffset(address: nat, acked: nat, length: nat)
    requires length > 0 && address + acked + length <= U32
    ensures (address + acked % U32) % U32 == address + acked
    ensures (acked % U32 + length) % U32 == (acked + length) % U32
  {
    assert acked % U32 == acked;
  }

  lemma ExitAgrees(r: FP.PipelineRam, req: bytes, now: nat, d: Download)
    requires req != [] && Agrees(r, d)
    ensures var o := FP.RequestTransferExit(r, req);
            Agrees(o.state, FoldEvents(Observe, d, now, o.events))
  {
    FoldFew(Observe, d, now, FP.RequestTransferExit(r, req).events);
  }

  lemma HandlerAgrees(r: Ram, now: nat, req: bytes, h: Hooks, o: Outcome<Ram>, d: Download)
    requires req != [] && OneOf(r, now, req, h, o) && Agrees(r.flash, d)
    ensures Agrees(o.state.flash, FoldEvents(Observe, d, now, o.events))
  {
    if MovesFlash(r, req, h, o) {
      if req[0] == 0x34 {
        DownloadAgrees(r.flash, r.session.session, IsUnlocked(r), req, h, now, d);
      } else if req[0] == 0x36 {
        TransferAgrees(r.flash, req, h, now, d);
      } else {
        ExitAgrees(r.flash, req, now, d);
      }
    } else {
      FoldFew(Observe, d, now, o.events);
    }
  }

  lemma RequestAgrees(s: Sys, req: bytes, addressing: Addressing, h: Hooks, d: Download)
    requires Agrees(s.ram.flash, d)
    ensures var (r, events) := Process(s.ram, s.now, req, addressing, h);
            Agrees(r.flash, FoldEvents(Observe, d, s.now, events))
  {
    if req != [] {
      var r := Refreshed(s.ram, s.now);
      var o := Dispatch(r, s.now, req, addressing, h);
      DispatchCases(r, s.now, req, addressing, h);
      HandlerAgrees(r, s.now, req, h, o, d);
      FoldRequest(Observe, d, s.now, req, addressing, o);
    }
  }

  predicate Matches(r: Ram, d: Download) { Agrees(r.flash, d) }

  lemma DownloadIsMonitor()
    ensures IsMonitor(Observe, Good, Matches)
  {
  }

  lemma DownloadInEveryRun(steps: seq<Step>)
    requires Run(steps).Some?
    ensures Inv(Run(steps).value)
  {
    DownloadIsMonitor();
    forall s: Sys, req: bytes, addressing: Addressing, h: Hooks, d: Download
      ensures RequestKept(Observe, Matches, s, req, addressing, h, d)
    {
      if Matches(s.ram, d) {
        RequestAgrees(s, req, addressing, h, d);
      }
    }
    AgreesInEveryRun(Observe, Good, Matches, NO_DOWNLOAD, steps);
  }

  // ----- Results

  /** Address `x` holds its byte of the acknowledged payload and was written once, or was not written. */
  predicate InPlace(log: seq<Entry>, d: Download, x: nat) {
    && Writes(log, x) == (if In(x, d.address, |d.acked|) then 1 else 0)
    && (In(x, d.address, |d.acked|) ==> ByteAt(log, x) == d.acked[x - d.address])
  }

  /** A log in phase leaves the acknowledged payload in place, every byte of it written once. */
  lemma {:induction false} LogLeavesImage(log: seq<Entry>, x: nat)
    requires Fold(Observe, NO_DOWNLOAD, log).ok
    ensures var d := Fold(Observe, NO_DOWNLOAD, log); d.clean ==> InPlace(log, d, x)
  {
    if log != [] {
      LogLeavesImage(log[..|log| - 1], x);
    }
  }

  /** In every run, from an accepted 0x34 on, through retries, the 0x37 and any later reboots: the bytes
      from its address on are the payloads acknowledged since, in order, and no other address was
      written. If they are no more than the announced size, all of them lie in the erased range. */
  lemma ImageIsTheAcknowledgedPayload(steps: seq<Step>, s: Sys, x: nat)
    requires Run(steps) == Some(s) && Fold(Observe, NO_DOWNLOAD, s.log).clean
    ensures var d := Fold(Observe, NO_DOWNLOAD, s.log);
            && InPlace(s.log, d, x)
            && (In(x, d.address, |d.acked|) && |d.acked| <= d.size ==> In(x, d.address, d.size))
  {
    GoodInEveryRun(steps);
    LogLeavesImage(s.log, x);
  }

  lemma GoodInEveryRun(steps: seq<Step>)
    requires Run(steps).Some?
    ensures Fold(Observe, NO_DOWNLOAD, Run(steps).value.log).ok
  {
    DownloadInEveryRun(steps);
  }

  /** Position `i` is the last successful erase before `k`, and there was no accepted 0x37 and no reboot
      since. */
  predicate OpenSince(log: seq<Entry>, i: nat, k: nat)
    requires k <= |log|
  {
    && i < k && log[i].event.Erase? && log[i].event.ok
    && forall m :: i < m < k ==>
         !log[m].event.TransferExit? && !log[m].event.Reboot? && !(log[m].event.Erase? && log[m].event.ok)
  }

  lemma {:induction false} OpenHasOrigin(log: seq<Entry>) returns (i: nat, j: nat)
    ensures var d := Fold(Observe, NO_DOWNLOAD, log);
            && (d.open ==> OpenSince(log, i, |log|))
            && (d.open && d.blocks > 0 ==> i < j < |log| && log[j].event.FlashWrite? && log[j].event.ok)
  {
    i, j := 0, 0;
    if log != [] {
      var e := log[|log| - 1].event;
      i, j := OpenHasOrigin(log[..|log| - 1]);
      if e.Erase? && e.ok {
        i := |log| - 1;
      } else if e.FlashWrite? && e.ok {
        j := |log| - 1;
      }
    }
  }

  lemma PhaseOrigin(log: seq<Entry>, k: nat) returns (i: nat, j: nat)
    requires Fold(Observe, NO_DOWNLOAD, log).ok && k < |log|
    ensures log[k].event.FlashWrite? || log[k].event.TransferExit? ==> OpenSince(log, i, k)
    ensures log[k].event.TransferExit? ==> i < j < k && log[j].event.FlashWrite? && log[j].event.ok
  {
    FoldLogEntry(Observe, Good, NO_DOWNLOAD, log, k);
    i, j := OpenHasOrigin(log[..k]);
    assert forall m :: 0 <= m < k ==> log[..k][m] == log[m];
  }

  /** In every run, every call of the write hook follows a successful erase with no accepted 0x37 and no
      reboot in between, and every accepted 0x37 moreover has an acknowledged block since that erase. */
  lemma PipelinePhases(steps: seq<Step>, log: seq<Entry>, k: nat) returns (i: nat, j: nat)
    requires Run(steps).Some? && Run(steps).value.log == log && k < |log|
    ensures log[k].event.FlashWrite? || log[k].event.TransferExit? ==> OpenSince(log, i, k)
    ensures log[k].event.TransferExit? ==> i < j < k && log[j].event.FlashWrite? && log[j].event.ok
  {
    DownloadInEveryRun(steps);
    i, j := PhaseOrigin(log, k);
  }

  /** What a 0x34 or 0x36 request does to the pipeline, however it is addressed. Refused before its hook, or
      with a failed write, it leaves all five variables unchanged; with a failed erase it has replaced
      address and size, and nothing else; a 0x36 is answered positively exactly if it moves the pipeline. */
  lemma RefusalsChangeNothing(s: Sys, req: bytes, addressing: Addressing, h: Hooks)
    requires Enabled(s, Request(req, addressing, h)) && req != [] && (req[0] == 0x34 || req[0] == 0x36)
    ensures var o, flash := Answered(s.ram, s.now, req, addressing, h), RamAfter(s, Request(req, addressing, h)).flash;
            && (o.events == [] ==> flash == s.ram.flash && o.reply.Negative?)
            && (o.events != [] ==> addressing == Physical && |o.events| == 1)
            && (req[0] == 0x34 && o.events != [] ==>
                  && o.events[0].Erase?
                  && (!o.events[0].ok ==>
                        o.reply.Negative?
                        && flash == s.ram.flash.(address := o.events[0].address, size := o.events[0].size)))
            && (req[0] == 0x36 ==> (o.reply.Negative? <==> flash == s.ram.flash))
            && (req[0] == 0x36 && o.events != [] ==>
                  o.events[0].FlashWrite? && (!o.events[0].ok <==> o.reply.Negative?))
  {
    if addressing == Physical && req[0] == 0x36 && FP.TransferData(s.ram.flash, req, h).reply.Positive? {
      assert (s.ram.flash.expected + 1) % 256 != s.ram.flash.expected;
    }
  }

  /** After a 0x34 whose erase failed in the middle of a download, the next block continues the image
      exactly if the new address is the old one. */
  lemma FailedEraseRedirects(r: FP.PipelineRam, session: Session, req: bytes, block: bytes, h: Hooks, h': Hooks)
    requires r.phase != FP.Idle && r.address < U32 && session != Default && FP.WellFormed(req)
    requires h.eraseResult != 0
    requires |block| >= 3 && block[1] == r.expected
    ensures var r' := FP.RequestDownload(r, session, true, req, h).state;
            var o := FP.TransferData(r', block, h');
            && o.events != [] && o.events[0].FlashWrite?
            && (o.events[0].offset == (r.address + r.received) % U32 <==> FP.AddressOf(req) == r.address)
  {
    var a := FP.AddressOf(req);
    assert (a + r.received) % U32 == (r.address + r.received) % U32 <==> a == r.address by {
      SameOffset(a, r.address, r.received);
    }
  }

  lemma SameOffset(a: nat, b: nat, c: nat)
    requires a < U32 && b < U32
    ensures (a + c) % U32 == (b + c) % U32 <==> a == b
  {
  }

  /** Only physically addressed 0x34, 0x36 and 0x37 requests and reboots move the pipeline. */
  lemma OtherStepsLeaveThePipeline(s: Sys, step: Step)
    requires Enabled(s, step) && !Boots(step)
    requires step.Request? ==>
               step.req == [] || step.addressing == Functional || step.req[0] !in {0x34, 0x36, 0x37}
    ensures Next(s, step).ram.flash == s.ram.flash
  {
    if step.Request? && step.req != [] && step.req[0] !in {0x34, 0x36, 0x37} {
      DispatchCases(Refreshed(s.ram, s.now), s.now, step.req, step.addressing, step.hooks);
    }
  }
}
