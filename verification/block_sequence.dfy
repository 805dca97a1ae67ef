/** The 8-bit block counter against a link that loses, duplicates and reorders blocks. */
module BlockSequence {
  import opened Kernel
  import opened FlashPipeline

  /** The image a tester sends: block `i`, counted from 1, is `blocks[i - 1]`. */
  predicate IsImage(blocks: seq<bytes>) { forall i :: 0 <= i < |blocks| ==> blocks[i] != [] }

  /** One block reaching the server, with what the flash write hook and its failures do. */
  datatype Delivery = Delivery(index: nat, hooks: Hooks)

  predicate Deliverable(blocks: seq<bytes>, ds: seq<Delivery>) {
    forall k :: 0 <= k < |ds| ==> 1 <= ds[k].index <= |blocks|
  }

  /** The tester numbers block `i` with `i` modulo 256. */
  function BlockRequest(blocks: seq<bytes>, index: nat): bytes
    requires 1 <= index <= |blocks|
  {
    [0x36, index % 256] + blocks[index - 1]
  }

  /** After some deliveries: the pipeline, the true indices of the acknowledged blocks, and what has been
      written to the flash, in the order of the write calls. */
  datatype Stream = Stream(pipeline: PipelineRam, accepted: seq<nat>, written: bytes)

  /** What the hook calls of one block write. */
  function Payload(events: seq<Event>): bytes {
    if |events| == 1 && events[0].FlashWrite? && events[0].ok then events[0].data else []
  }

  function Receive(before: Stream, req: bytes, index: nat, h: Hooks): Stream
    requires req != []
  {
    var o := TransferData(before.pipeline, req, h);
    Stream(o.state, if o.reply.Positive? then before.accepted + [index] else before.accepted,
           before.written + Payload(o.events))
  }

  function Deliver(start: PipelineRam, blocks: seq<bytes>, ds: seq<Delivery>): Stream
    requires Deliverable(blocks, ds)
  {
    if ds == [] then Stream(start, [], [])
    else
      var d := ds[|ds| - 1];
      Receive(Deliver(start, blocks, ds[..|ds| - 1]), BlockRequest(blocks, d.index), d.index, d.hooks)
  }

  /** The index of the block the tester's numbering says should come next. */
  function NextIndex(start: PipelineRam, blocks: seq<bytes>, ds: seq<Delivery>): nat
    requires Deliverable(blocks, ds)
  {
    |Deliver(start, blocks, ds).accepted| + 1
  }

  /** Delivery `k` is not the next block but has the next block's number, and is written. */
  predicate Aliased(start: PipelineRam, blocks: seq<bytes>, ds: seq<Delivery>, k: nat)
    requires Deliverable(blocks, ds) && k < |ds|
  {
    var next := NextIndex(start, blocks, ds[..k]);
    ds[k].index != next && ds[k].index % 256 == next % 256 && ds[k].hooks.writeResult == 0
  }

  predicate InOrder(accepted: seq<nat>) { forall i :: 0 <= i < |accepted| ==> accepted[i] == i + 1 }

  /** The state right after an accepted 0x34. */
  predicate Fresh(start: PipelineRam) { start.phase == Approved && start.expected == 1 && start.received == 0 }

  predicate InStep(s: Stream) { s.pipeline.phase != Idle && s.pipeline.expected == (1 + |s.accepted|) % 256 }

  /** A block with this number is acknowledged and written exactly if the number is the next one and the
      flash write succeeds. */
  predicate Takes(before: Stream, s: Stream, number: byte, index: nat, block: bytes, h: Hooks) {
    if number == (1 + |before.accepted|) % 256 && h.writeResult == 0
    then s.accepted == before.accepted + [index] && s.written == before.written + block
    else s.accepted == before.accepted && s.written == before.written
  }

  lemma TakenBlock(s: Stream, req: bytes, index: nat, h: Hooks)
    requires InStep(s) && |req| >= 3 && req[1] == s.pipeline.expected && h.writeResult == 0
    ensures Receive(s, req, index, h)
            == Stream(TransferData(s.pipeline, req, h).state, s.accepted + [index], s.written + req[2..])
    ensures TransferData(s.pipeline, req, h).state.phase == Transferring
    ensures TransferData(s.pipeline, req, h).state.expected == (s.pipeline.expected + 1) % 256
  {
  }

  lemma RefusedBlock(s: Stream, req: bytes, index: nat, h: Hooks)
    requires InStep(s) && |req| >= 3 && (req[1] != s.pipeline.expected || h.writeResult != 0)
    ensures Receive(s, req, index, h) == s
  {
    assert Payload(TransferData(s.pipeline, req, h).events) == [];
    assert s.written + [] == s.written;
  }

  lemma NextNumber(n: nat)
    ensures ((1 + n) % 256 + 1) % 256 == (1 + (n + 1)) % 256
  {
  }

  /** What one delivered block does to a stream in step. */
  lemma OneBlock(s: Stream, req: bytes, index: nat, h: Hooks)
    requires InStep(s) && |req| >= 3
    ensures InStep(Receive(s, req, index, h)) && Takes(s, Receive(s, req, index, h), req[1], index, req[2..], h)
  {
    if req[1] == s.pipeline.expected && h.writeResult == 0 {
      TakenBlock(s, req, index, h);
      NextNumber(|s.accepted|);
    } else {
      RefusedBlock(s, req, index, h);
    }
  }

  lemma RequestShape(blocks: seq<bytes>, index: nat)
    requires IsImage(blocks) && 1 <= index <= |blocks|
    ensures var req := BlockRequest(blocks, index);
            |req| >= 3 && req[1] == index % 256 && req[2..] == blocks[index - 1]
  {
  }

  /** The counter follows the number of acknowledged blocks; and the last delivery is acknowledged, and its
      block written, exactly if it carries the next number and the flash write succeeds. */
  lemma {:induction false} CounterFollows(start: PipelineRam, blocks: seq<bytes>, ds: seq<Delivery>)
    requires Fresh(start) && IsImage(blocks) && Deliverable(blocks, ds)
    ensures InStep(Deliver(start, blocks, ds))
    ensures ds != [] ==>
              var d := ds[|ds| - 1];
              Takes(Deliver(start, blocks, ds[..|ds| - 1]), Deliver(start, blocks, ds),
                    d.index % 256, d.index, blocks[d.index - 1], d.hooks)
  {
    if ds != [] {
      var d := ds[|ds| - 1];
      var before, req := Deliver(start, blocks, ds[..|ds| - 1]), BlockRequest(blocks, d.index);
      CounterFollows(start, blocks, ds[..|ds| - 1]);
      RequestShape(blocks, d.index);
      OneBlock(before, req, d.index, d.hooks);
      assert Deliver(start, blocks, ds) == Receive(before, req, d.index, d.hooks);
    }
  }

  lemma OrderExtends(before: seq<nat>, index: nat)
    ensures InOrder(before + [index]) <==> InOrder(before) && index == |before| + 1
  {
    var after := before + [index];
    assert after[|before|] == index;
    assert forall i :: 0 <= i < |before| ==> after[i] == before[i];
  }

  lemma AliasPrefix(start: PipelineRam, blocks: seq<bytes>, ds: seq<Delivery>)
    requires Deliverable(blocks, ds) && ds != []
    ensures forall k :: 0 <= k < |ds| - 1 ==>
              (Aliased(start, blocks, ds, k) <==> Aliased(start, blocks, ds[..|ds| - 1], k))
  {
    assert forall k :: 0 <= k < |ds| - 1 ==> ds[..|ds| - 1][..k] == ds[..k];
  }

  ghost predicate AnyAlias(start: PipelineRam, blocks: seq<bytes>, ds: seq<Delivery>)
    requires Deliverable(blocks, ds)
  {
    exists k :: 0 <= k < |ds| && Aliased(start, blocks, ds, k)
  }

  lemma AliasStep(start: PipelineRam, blocks: seq<bytes>, ds: seq<Delivery>)
    requires Deliverable(blocks, ds) && ds != []
    ensures AnyAlias(start, blocks, ds) <==>
            AnyAlias(start, blocks, ds[..|ds| - 1]) || Aliased(start, blocks, ds, |ds| - 1)
  {
    AliasPrefix(start, blocks, ds);
    if AnyAlias(start, blocks, ds[..|ds| - 1]) {
      var k :| 0 <= k < |ds| - 1 && Aliased(start, blocks, ds[..|ds| - 1], k);
      assert Aliased(start, blocks, ds, k);
    }
  }

  /** For every image and every sequence of deliveries: the acknowledged blocks are exactly a prefix of the
      image, in order and each once, if and only if no delivered block is aliased. */
  lemma {:induction false} InOrderIffNoAlias(start: PipelineRam, blocks: seq<bytes>, ds: seq<Delivery>)
    requires Fresh(start) && IsImage(blocks) && Deliverable(blocks, ds)
    ensures InOrder(Deliver(start, blocks, ds).accepted) <==> !AnyAlias(start, blocks, ds)
  {
    if ds != [] {
      InOrderIffNoAlias(start, blocks, ds[..|ds| - 1]);
      AliasStep(start, blocks, ds);
      CounterFollows(start, blocks, ds);
      OrderExtends(Deliver(start, blocks, ds[..|ds| - 1]).accepted, ds[|ds| - 1].index);
    }
  }

  /** Delivery `k` has the next block's number only if it is the next block. */
  predicate Unclashed(start: PipelineRam, blocks: seq<bytes>, ds: seq<Delivery>, k: nat)
    requires Deliverable(blocks, ds) && k < |ds|
  {
    var next := NextIndex(start, blocks, ds[..k]);
    ds[k].index % 256 == next % 256 ==> ds[k].index == next
  }

  ghost predicate NoClash(start: PipelineRam, blocks: seq<bytes>, ds: seq<Delivery>)
    requires Deliverable(blocks, ds)
  {
    forall k :: 0 <= k < |ds| ==> Unclashed(start, blocks, ds, k)
  }

  lemma NoClashPrefix(start: PipelineRam, blocks: seq<bytes>, ds: seq<Delivery>)
    requires Deliverable(blocks, ds) && ds != [] && NoClash(start, blocks, ds)
    ensures NoClash(start, blocks, ds[..|ds| - 1]) && Unclashed(start, blocks, ds, |ds| - 1)
  {
    var front := ds[..|ds| - 1];
    forall k | 0 <= k < |front| ensures Unclashed(start, blocks, front, k) {
      assert front[..k] == ds[..k] && Unclashed(start, blocks, ds, k);
    }
  }

  predicate InWindow(next: nat, index: nat) { next - 255 <= index <= next + 255 }

  predicate WindowedAt(start: PipelineRam, blocks: seq<bytes>, ds: seq<Delivery>, k: nat)
    requires Deliverable(blocks, ds) && k < |ds|
  {
    InWindow(NextIndex(start, blocks, ds[..k]), ds[k].index)
  }

  /** Every delivered block is within 255 of the next one expected. */
  ghost predicate Windowed(start: PipelineRam, blocks: seq<bytes>, ds: seq<Delivery>)
    requires Deliverable(blocks, ds)
  {
    forall k :: 0 <= k < |ds| ==> WindowedAt(start, blocks, ds, k)
  }

  lemma InWindowIsUnique(next: nat, index: nat)
    requires InWindow(next, index) && index % 256 == next % 256
    ensures index == next
  {
  }

  /** Inside that window no number clashes. */
  lemma WindowPreventsClash(start: PipelineRam, blocks: seq<bytes>, ds: seq<Delivery>)
    requires Deliverable(blocks, ds) && Windowed(start, blocks, ds)
    ensures NoClash(start, blocks, ds)
  {
    forall k | 0 <= k < |ds| ensures Unclashed(start, blocks, ds, k) {
      var next := NextIndex(start, blocks, ds[..k]);
      assert WindowedAt(start, blocks, ds, k);
      if ds[k].index % 256 == next % 256 {
        InWindowIsUnique(next, ds[k].index);
      }
    }
  }

  lemma NoClashGivesOrder(start: PipelineRam, blocks: seq<bytes>, ds: seq<Delivery>)
    requires Fresh(start) && IsImage(blocks) && Deliverable(blocks, ds) && NoClash(start, blocks, ds)
    ensures InOrder(Deliver(start, blocks, ds).accepted)
  {
    forall k | 0 <= k < |ds| ensures !Aliased(start, blocks, ds, k) {
      assert Unclashed(start, blocks, ds, k);
    }
    InOrderIffNoAlias(start, blocks, ds);
  }

  /** Inside that window the acknowledged blocks are always a prefix of the image, across every wrap of
      the counter. */
  lemma WindowGivesOrder(start: PipelineRam, blocks: seq<bytes>, ds: seq<Delivery>)
    requires Fresh(start) && IsImage(blocks) && Deliverable(blocks, ds) && Windowed(start, blocks, ds)
    ensures InOrder(Deliver(start, blocks, ds).accepted)
  {
    WindowPreventsClash(start, blocks, ds);
    NoClashGivesOrder(start, blocks, ds);
  }

  // ----- What reaches the flash

  function Join(blocks: seq<bytes>): bytes {
    if blocks == [] then [] else Join(blocks[..|blocks| - 1]) + blocks[|blocks| - 1]
  }

  lemma JoinPrefix(blocks: seq<bytes>, n: nat)
    requires n < |blocks|
    ensures Join(blocks[..n + 1]) == Join(blocks[..n]) + blocks[n]
  {
    assert blocks[..n + 1][..n] == blocks[..n];
  }

  lemma {:induction false} JoinGrows(blocks: seq<bytes>, n: nat)
    requires n <= |blocks|
    ensures |Join(blocks[..n])| <= |Join(blocks)|
    decreases |blocks|
  {
    if n == |blocks| {
      assert blocks[..n] == blocks;
    } else {
      JoinGrows(blocks[..|blocks| - 1], n);
      assert blocks[..|blocks| - 1][..n] == blocks[..n];
    }
  }

  /** What is written is the image's first blocks, joined. */
  predicate WrotePrefix(blocks: seq<bytes>, s: Stream) {
    |s.accepted| <= |blocks| && s.written == Join(blocks[..|s.accepted|])
  }

  lemma PrefixGrows(blocks: seq<bytes>, before: Stream, s: Stream)
    requires WrotePrefix(blocks, before) && |before.accepted| < |blocks|
    requires |s.accepted| == |before.accepted| + 1 && s.written == before.written + blocks[|before.accepted|]
    ensures WrotePrefix(blocks, s)
  {
    JoinPrefix(blocks, |before.accepted|);
  }

  /** Without aliases, what has been written is a prefix of the image. */
  lemma {:induction false} WrittenIsThePrefix(start: PipelineRam, blocks: seq<bytes>, ds: seq<Delivery>)
    requires Fresh(start) && IsImage(blocks) && Deliverable(blocks, ds)
    requires InOrder(Deliver(start, blocks, ds).accepted)
    ensures WrotePrefix(blocks, Deliver(start, blocks, ds))
  {
    if ds != [] {
      var before, s := Deliver(start, blocks, ds[..|ds| - 1]), Deliver(start, blocks, ds);
      CounterFollows(start, blocks, ds);
      OrderExtends(before.accepted, ds[|ds| - 1].index);
      WrittenIsThePrefix(start, blocks, ds[..|ds| - 1]);
      if s.accepted != before.accepted {
        PrefixGrows(blocks, before, s);
      }
    }
  }

  lemma NoClashWritesPrefix(start: PipelineRam, blocks: seq<bytes>, ds: seq<Delivery>)
    requires Fresh(start) && IsImage(blocks) && Deliverable(blocks, ds) && NoClash(start, blocks, ds)
    ensures InStep(Deliver(start, blocks, ds)) && WrotePrefix(blocks, Deliver(start, blocks, ds))
  {
    CounterFollows(start, blocks, ds);
    NoClashGivesOrder(start, blocks, ds);
    WrittenIsThePrefix(start, blocks, ds);
  }
}
