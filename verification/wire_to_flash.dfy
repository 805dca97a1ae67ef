/** End to end: a tester streaming an image over a link that loses, duplicates and reorders blocks, with
    any other traffic, timers and failed flash writes in between, and the flash it leaves behind. */
module WireToFlash {
  import opened Kernel
  import opened UdsServer
  import opened UdsSystem
  import opened FlashImage
  import FP = FlashPipeline
  import BS = BlockSequence
  import AK = Acknowledgements

  /** The step hands a block to the 0x36 handler. */
  predicate Delivers(step: Step) {
    step.Request? && step.req != [] && step.req[0] == 0x36 && step.addressing == Physical
  }

  /** A step during a transfer: anything but a reboot, a 0x34 or a 0x37; and a 0x36 is a block of the
      image, the one with the given index. */
  predicate Allowed(step: Step, blocks: seq<bytes>, index: nat) {
    && !Boots(step)
    && (step.Request? && step.req != [] ==>
          && step.req[0] != 0x34 && step.req[0] != 0x37
          && (step.req[0] == 0x36 ==> 1 <= index <= |blocks| && step.req == BS.BlockRequest(blocks, index)))
  }

  predicate AllAllowed(more: seq<Step>, blocks: seq<bytes>, indices: seq<nat>) {
    |indices| == |more| && forall k :: 0 <= k < |more| ==> Allowed(more[k], blocks, indices[k])
  }

  /** The deliveries among some steps. */
  function Deliveries(more: seq<Step>, blocks: seq<bytes>, indices: seq<nat>): (ds: seq<BS.Delivery>)
    requires AllAllowed(more, blocks, indices)
    ensures BS.Deliverable(blocks, ds)
  {
    if more == [] then []
    else
      var last := |more| - 1;
      Deliveries(more[..last], blocks, indices[..last]) +
      if Delivers(more[last]) then [BS.Delivery(indices[last], more[last].hooks)] else []
  }

  /** The image fits the address space from the given address on. */
  predicate Fits(address: nat, blocks: seq<bytes>) { address + |BS.Join(blocks)| <= U32 }

  // ----- A run is its deliveries

  /** The pipeline and the open download are those of a stream of deliveries. */
  predicate Follows(r: FP.PipelineRam, d: Download, st: BS.Stream, address: nat) {
    r == st.pipeline && d.open && d.address == address && d.blocks == |st.accepted| && d.acked == st.written
  }

  ghost predicate RunFollows(s: Sys, st: BS.Stream, address: nat) {
    Follows(s.ram.flash, Fold(Observe, NO_DOWNLOAD, s.log), st, address)
  }

  /** The handler's own effect on a physically addressed 0x36. */
  lemma TransferAnswered(r: Ram, now: nat, req: bytes, h: Hooks)
    requires req != [] && req[0] == 0x36
    ensures var o, fo := Answered(r, now, req, Physical, h), FP.TransferData(r.flash, req, h);
            o.state.flash == fo.state && o.events == fo.events && o.reply == fo.reply
  {
  }

  lemma BlockFollows(r: FP.PipelineRam, d: Download, st: BS.Stream, address: nat, req: bytes, index: nat,
                     h: Hooks, now: nat)
    requires req != [] && Follows(r, d, st, address)
    ensures Follows(FP.TransferData(r, req, h).state, FoldEvents(Observe, d, now, FP.TransferData(r, req, h).events),
                    BS.Receive(st, req, index, h), address)
  {
    FoldFew(Observe, d, now, FP.TransferData(r, req, h).events);
    assert st.written + [] == st.written;
  }

  lemma DeliveryFollows(s: Sys, step: Step, st: BS.Stream, address: nat, index: nat)
    requires Enabled(s, step) && Delivers(step) && RunFollows(s, st, address)
    ensures RunFollows(Next(s, step), BS.Receive(st, step.req, index, step.hooks), address)
  {
    var d := Fold(Observe, NO_DOWNLOAD, s.log);
    FoldNext(Observe, NO_DOWNLOAD, s, step);
    FoldRequest(Observe, d, s.now, step.req, Physical, Answered(s.ram, s.now, step.req, Physical, step.hooks));
    TransferAnswered(s.ram, s.now, step.req, step.hooks);
    BlockFollows(s.ram.flash, d, st, address, step.req, index, step.hooks, s.now);
  }

  /** Any other allowed step leaves pipeline and download alone. */
  lemma OthersLeaveDownload(s: Sys, step: Step, blocks: seq<bytes>, index: nat, d: Download)
    requires Enabled(s, step) && Allowed(step, blocks, index) && !Delivers(step)
    ensures RamAfter(s, step).flash == s.ram.flash && FoldEvents(Observe, d, s.now, EventsOf(s, step)) == d
  {
    OtherStepsLeaveThePipeline(s, step);
    if step.Request? && step.req != [] {
      var r := Refreshed(s.ram, s.now);
      var o := Dispatch(r, s.now, step.req, step.addressing, step.hooks);
      FoldRequest(Observe, d, s.now, step.req, step.addressing, o);
      OtherHandlers(r, s.now, step.req, step.addressing, step.hooks, d);
    } else if Background(step) {
      FoldBackground(Observe, d, s, step);
    } else {
      FoldFew(Observe, d, s.now, EventsOf(s, step));
    }
  }

  lemma OtherHandlers(r: Ram, now: nat, req: bytes, addressing: Addressing, h: Hooks, d: Download)
    requires req != [] && req[0] != 0x34 && req[0] != 0x37 && (req[0] == 0x36 ==> addressing == Functional)
    ensures FoldEvents(Observe, d, now, Dispatch(r, now, req, addressing, h).events) == d
  {
    if req[0] == 0x36 {
      assert Dispatch(r, now, req, addressing, h).events == [];
    } else {
      DispatchCases(r, now, req, addressing, h);
      FoldFew(Observe, d, now, Dispatch(r, now, req, addressing, h).events);
    }
  }

  lemma AllowedPrefix(more: seq<Step>, blocks: seq<bytes>, indices: seq<nat>)
    requires more != [] && AllAllowed(more, blocks, indices)
    ensures AllAllowed(more[..|more| - 1], blocks, indices[..|more| - 1])
    ensures Allowed(more[|more| - 1], blocks, indices[|more| - 1])
  {
  }

  /** The block sequence after a step. */
  lemma LastDelivery(more: seq<Step>, blocks: seq<bytes>, indices: seq<nat>, start: FP.PipelineRam)
    requires more != [] && AllAllowed(more, blocks, indices)
    requires AllAllowed(more[..|more| - 1], blocks, indices[..|more| - 1])
    ensures var step, index := more[|more| - 1], indices[|more| - 1];
            var before := Deliveries(more[..|more| - 1], blocks, indices[..|more| - 1]);
            var ds := Deliveries(more, blocks, indices);
            if Delivers(step) then
              && ds == before + [BS.Delivery(index, step.hooks)] && ds[..|ds| - 1] == before
              && BS.Deliver(start, blocks, ds)
                 == BS.Receive(BS.Deliver(start, blocks, before), step.req, index, step.hooks)
            else ds == before
  {
  }

  /** In every run: between an accepted 0x34 and whatever ends the transfer, pipeline and download are what
      the deliveries alone make of them. */
  lemma {:induction false} RunIsItsDeliveries(before: seq<Step>, more: seq<Step>, blocks: seq<bytes>, indices: seq<nat>,
                                              s: Sys, s': Sys, start: FP.PipelineRam, address: nat)
    requires Run(before) == Some(s) && Run(before + more) == Some(s') && AllAllowed(more, blocks, indices)
    requires RunFollows(s, BS.Stream(start, [], []), address)
    ensures RunFollows(s', BS.Deliver(start, blocks, Deliveries(more, blocks, indices)), address)
  {
    if more == [] {
      assert before + more == before;
    } else {
      var last := |more| - 1;
      var middle := RunLast(before, more);
      AllowedPrefix(more, blocks, indices);
      RunIsItsDeliveries(before, more[..last], blocks, indices[..last], s, middle, start, address);
      LastDelivery(more, blocks, indices, start);
      StepFollows(middle, more[last], blocks, indices[last],
                  BS.Deliver(start, blocks, Deliveries(more[..last], blocks, indices[..last])), address);
    }
  }

  lemma StepFollows(s: Sys, step: Step, blocks: seq<bytes>, index: nat, st: BS.Stream, address: nat)
    requires Enabled(s, step) && Allowed(step, blocks, index) && RunFollows(s, st, address)
    ensures RunFollows(Next(s, step), if Delivers(step) then BS.Receive(st, step.req, index, step.hooks) else st,
                       address)
  {
    if Delivers(step) {
      DeliveryFollows(s, step, st, address, index);
    } else {
      OthersLeaveDownload(s, step, blocks, index, Fold(Observe, NO_DOWNLOAD, s.log));
      FoldNext(Observe, NO_DOWNLOAD, s, step);
    }
  }

  // ----- What is acknowledged on the bus

  /** The step puts the 0x76 frame of a block on the bus. */
  predicate Acknowledges(s: Sys, step: Step) {
    && Delivers(step) && Enabled(s, step) && |step.req| >= 2
    && Frame([0x76, step.req[1]]) in EventsOf(s, step)
  }

  lemma AcknowledgedIffPositive(s: Sys, step: Step)
    requires Enabled(s, step) && Delivers(step) && |step.req| >= 2
    ensures Acknowledges(s, step) <==> FP.TransferData(s.ram.flash, step.req, step.hooks).reply.Positive?
  {
    var o := Answered(s.ram, s.now, step.req, Physical, step.hooks);
    TransferAnswered(s.ram, s.now, step.req, step.hooks);
    var events := EventsOf(s, step);
    assert events == [Received(step.req, Physical)] + (o.events + Transmit(Physical, 0x36, o.reply));
    if o.reply.Positive? {
      assert events[|events| - 1] == Frame([0x76, step.req[1]]);
    }
  }

  /** The true indices of the blocks acknowledged on the bus, in order. */
  function Acknowledged(before: seq<Step>, more: seq<Step>, indices: seq<nat>): seq<nat>
    requires |indices| == |more|
  {
    if more == [] then []
    else
      var last := |more| - 1;
      Acknowledged(before, more[..last], indices[..last]) +
      match Run(before + more[..last])
      case Some(s) => if Acknowledges(s, more[last]) then [indices[last]] else []
      case None => []
  }

  lemma {:induction false} AcknowledgedAreAccepted(before: seq<Step>, more: seq<Step>, blocks: seq<bytes>,
                                                   indices: seq<nat>, s: Sys, s': Sys,
                                                   start: FP.PipelineRam, address: nat)
    requires Run(before) == Some(s) && Run(before + more) == Some(s') && AllAllowed(more, blocks, indices)
    requires RunFollows(s, BS.Stream(start, [], []), address)
    ensures Acknowledged(before, more, indices)
         == BS.Deliver(start, blocks, Deliveries(more, blocks, indices)).accepted
  {
    if more != [] {
      var last := |more| - 1;
      var middle := RunLast(before, more);
      AllowedPrefix(more, blocks, indices);
      AcknowledgedAreAccepted(before, more[..last], blocks, indices[..last], s, middle, start, address);
      RunIsItsDeliveries(before, more[..last], blocks, indices[..last], s, middle, start, address);
      LastDelivery(more, blocks, indices, start);
      if Delivers(more[last]) {
        AcknowledgedIffPositive(middle, more[last]);
      }
    }
  }

  // ----- What reaches the flash

  /** A block that is not aliased leaves the download clean. */
  lemma BlockStaysClean(r: FP.PipelineRam, d: Download, st: BS.Stream, address: nat, blocks: seq<bytes>, index: nat,
                        h: Hooks, now: nat)
    requires Follows(r, d, st, address) && d.clean
    requires BS.InStep(st) && BS.WrotePrefix(blocks, st) && Fits(address, blocks)
    requires 1 <= index <= |blocks|
    requires index % 256 == (|st.accepted| + 1) % 256 ==> index == |st.accepted| + 1
    ensures FoldEvents(Observe, d, now, FP.TransferData(r, BS.BlockRequest(blocks, index), h).events).clean
  {
    var n, req := |st.accepted|, BS.BlockRequest(blocks, index);
    FoldFew(Observe, d, now, FP.TransferData(r, req, h).events);
    if FP.TransferData(r, req, h).events != [] {
      assert req[1] == index % 256 && req[2..] == blocks[index - 1];
      BS.JoinPrefix(blocks, n);
      BS.JoinGrows(blocks, n + 1);
    }
  }

  lemma DeliveryStaysClean(s: Sys, step: Step, st: BS.Stream, address: nat, blocks: seq<bytes>, index: nat)
    requires Enabled(s, step) && Delivers(step) && Allowed(step, blocks, index)
    requires RunFollows(s, st, address) && Fold(Observe, NO_DOWNLOAD, s.log).clean
    requires BS.InStep(st) && BS.WrotePrefix(blocks, st) && Fits(address, blocks)
    requires index % 256 == (|st.accepted| + 1) % 256 ==> index == |st.accepted| + 1
    ensures Fold(Observe, NO_DOWNLOAD, Next(s, step).log).clean
  {
    var d := Fold(Observe, NO_DOWNLOAD, s.log);
    FoldNext(Observe, NO_DOWNLOAD, s, step);
    FoldRequest(Observe, d, s.now, step.req, Physical, Answered(s.ram, s.now, step.req, Physical, step.hooks));
    TransferAnswered(s.ram, s.now, step.req, step.hooks);
    BlockStaysClean(s.ram.flash, d, st, address, blocks, index, step.hooks, s.now);
  }

  lemma {:induction false} RunStaysClean(before: seq<Step>, more: seq<Step>, blocks: seq<bytes>, indices: seq<nat>,
                                         s: Sys, s': Sys, start: FP.PipelineRam, address: nat)
    requires Run(before) == Some(s) && Run(before + more) == Some(s') && AllAllowed(more, blocks, indices)
    requires RunFollows(s, BS.Stream(start, [], []), address) && Fold(Observe, NO_DOWNLOAD, s.log).clean
    requires BS.Fresh(start) && BS.IsImage(blocks) && Fits(address, blocks)
    requires BS.NoClash(start, blocks, Deliveries(more, blocks, indices))
    ensures Fold(Observe, NO_DOWNLOAD, s'.log).clean
  {
    if more == [] {
      assert before + more == before;
    } else {
      var last := |more| - 1;
      var middle := RunLast(before, more);
      AllowedPrefix(more, blocks, indices);
      LastDelivery(more, blocks, indices, start);
      var ds := Deliveries(more[..last], blocks, indices[..last]);
      if Delivers(more[last]) {
        BS.NoClashPrefix(start, blocks, Deliveries(more, blocks, indices));
      }
      RunStaysClean(before, more[..last], blocks, indices[..last], s, middle, start, address);
      if Delivers(more[last]) {
        RunIsItsDeliveries(before, more[..last], blocks, indices[..last], s, middle, start, address);
        BS.NoClashWritesPrefix(start, blocks, ds);
        DeliveryStaysClean(middle, more[last], BS.Deliver(start, blocks, ds), address, blocks, indices[last]);
      } else {
        OthersLeaveDownload(middle, more[last], blocks, indices[last], Fold(Observe, NO_DOWNLOAD, middle.log));
        FoldNext(Observe, NO_DOWNLOAD, middle, more[last]);
      }
    }
  }

  /** The flash holds these bytes from the address on. */
  ghost predicate InFlash(log: seq<Entry>, address: nat, data: bytes) {
    forall i :: 0 <= i < |data| ==> ByteAt(log, address + i) == data[i]
  }

  lemma AckedIsInFlash(log: seq<Entry>, d: Download)
    requires d == Fold(Observe, NO_DOWNLOAD, log) && d.ok && d.clean
    ensures InFlash(log, d.address, d.acked)
  {
    forall i | 0 <= i < |d.acked| ensures ByteAt(log, d.address + i) == d.acked[i] {
      LogLeavesImage(log, d.address + i);
    }
  }

  // ----- Results

  /** A download just opened by an accepted 0x34. */
  predicate JustOpened(d: Download) { d.open && d.clean && d.blocks == 0 && d.acked == [] }

  lemma OpeningIsFresh(before: seq<Step>, s: Sys)
    requires Run(before) == Some(s) && JustOpened(Fold(Observe, NO_DOWNLOAD, s.log))
    ensures BS.Fresh(s.ram.flash)
    ensures RunFollows(s, BS.Stream(s.ram.flash, [], []), Fold(Observe, NO_DOWNLOAD, s.log).address)
  {
    DownloadInEveryRun(before);
  }

  /** In every run, let a 0x34 be accepted and let the tester then deliver blocks of an image in any order,
      among any other traffic, timers and failed writes: the blocks acknowledged on the bus are the image's
      first blocks, in order and each once, if and only if no delivered block is aliased; and there is one
      0x76 frame for each. */
  lemma OrderedIffNoAlias(before: seq<Step>, more: seq<Step>, blocks: seq<bytes>, indices: seq<nat>, s: Sys, s': Sys)
    requires BS.IsImage(blocks) && Run(before) == Some(s) && Run(before + more) == Some(s')
    requires JustOpened(Fold(Observe, NO_DOWNLOAD, s.log)) && AllAllowed(more, blocks, indices)
    ensures BS.InOrder(Acknowledged(before, more, indices))
            <==> !BS.AnyAlias(s.ram.flash, blocks, Deliveries(more, blocks, indices))
    ensures |Fold(AK.Observe, AK.OPENING, s'.log).acks| == |Acknowledged(before, more, indices)|
  {
    var address := Fold(Observe, NO_DOWNLOAD, s.log).address;
    OpeningIsFresh(before, s);
    AcknowledgedAreAccepted(before, more, blocks, indices, s, s', s.ram.flash, address);
    RunIsItsDeliveries(before, more, blocks, indices, s, s', s.ram.flash, address);
    BS.InOrderIffNoAlias(s.ram.flash, blocks, Deliveries(more, blocks, indices));
    AK.AcknowledgementsCountBlocks(before + more, s');
  }

  /** The index is added exactly if it has the next number and the flash write succeeds. */
  predicate AddsIfNext(acked: seq<nat>, acked': seq<nat>, index: nat, h: Hooks) {
    acked' == if index % 256 == (|acked| + 1) % 256 && h.writeResult == 0 then acked + [index] else acked
  }

  /** Progress: a delivered block is acknowledged exactly if it has the next number and its flash write
      succeeds; so the next block, delivered with a successful write, always adds itself. */
  lemma NextBlockIsAcknowledged(before: seq<Step>, more: seq<Step>, blocks: seq<bytes>, indices: seq<nat>,
                                s: Sys, s': Sys)
    requires BS.IsImage(blocks) && Run(before) == Some(s) && Run(before + more) == Some(s') && more != []
    requires JustOpened(Fold(Observe, NO_DOWNLOAD, s.log)) && AllAllowed(more, blocks, indices)
    requires Delivers(more[|more| - 1])
    ensures AddsIfNext(Acknowledged(before, more[..|more| - 1], indices[..|more| - 1]),
                       Acknowledged(before, more, indices), indices[|more| - 1], more[|more| - 1].hooks)
  {
    var last, start := |more| - 1, s.ram.flash;
    var address := Fold(Observe, NO_DOWNLOAD, s.log).address;
    var middle := RunLast(before, more);
    OpeningIsFresh(before, s);
    AllowedPrefix(more, blocks, indices);
    AcknowledgedAreAccepted(before, more, blocks, indices, s, s', start, address);
    AcknowledgedAreAccepted(before, more[..last], blocks, indices[..last], s, middle, start, address);
    LastDelivery(more, blocks, indices, start);
    DeliveryAdds(start, blocks, Deliveries(more[..last], blocks, indices[..last]), indices[last], more[last].hooks);
  }

  lemma DeliveryAdds(start: FP.PipelineRam, blocks: seq<bytes>, ds: seq<BS.Delivery>, index: nat, h: Hooks)
    requires BS.Fresh(start) && BS.IsImage(blocks) && 1 <= index <= |blocks| && BS.Deliverable(blocks, ds)
    ensures var longer := ds + [BS.Delivery(index, h)];
            && BS.Deliverable(blocks, longer)
            && AddsIfNext(BS.Deliver(start, blocks, ds).accepted, BS.Deliver(start, blocks, longer).accepted, index, h)
  {
    var longer := ds + [BS.Delivery(index, h)];
    assert longer[..|longer| - 1] == ds;
    BS.CounterFollows(start, blocks, longer);
  }

  /** In every run, let a 0x34 be accepted and let the tester then stream an image that fits the address
      space, numbering block `i` with `i` modulo 256, each delivered block within 255 of the next one.
      Whatever else happens short of a reboot, another 0x34 or a 0x37, and however many flash writes
      fail and are retried, the flash holds exactly the image's first blocks from the announced address
      on, as many as the tester has seen 0x76 frames since that 0x34. */
  lemma StreamedImageReachesTheFlash(before: seq<Step>, more: seq<Step>, blocks: seq<bytes>, indices: seq<nat>,
                                     s: Sys, s': Sys)
    requires BS.IsImage(blocks) && Run(before) == Some(s) && Run(before + more) == Some(s')
    requires JustOpened(Fold(Observe, NO_DOWNLOAD, s.log)) && AllAllowed(more, blocks, indices)
    requires Fits(Fold(Observe, NO_DOWNLOAD, s.log).address, blocks)
    requires BS.Windowed(s.ram.flash, blocks, Deliveries(more, blocks, indices))
    ensures var n := |Fold(AK.Observe, AK.OPENING, s'.log).acks|;
            && n <= |blocks|
            && InFlash(s'.log, Fold(Observe, NO_DOWNLOAD, s.log).address, BS.Join(blocks[..n]))
  {
    var start, ds := s.ram.flash, Deliveries(more, blocks, indices);
    var address := Fold(Observe, NO_DOWNLOAD, s.log).address;
    OpeningIsFresh(before, s);
    BS.WindowPreventsClash(start, blocks, ds);
    BS.NoClashWritesPrefix(start, blocks, ds);
    RunIsItsDeliveries(before, more, blocks, indices, s, s', start, address);
    RunStaysClean(before, more, blocks, indices, s, s', start, address);
    GoodInEveryRun(before + more);
    AckedIsInFlash(s'.log, Fold(Observe, NO_DOWNLOAD, s'.log));
    AK.AcknowledgementsCountBlocks(before + more, s');
  }
}
