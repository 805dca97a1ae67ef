/** Dynamically defined data identifiers (uds_dynamic_did.c) and read data by identifier
    (case 0x22 of uds_server.c). */
module DynamicDid {
  import opened Kernel

  /** A slice of a source identifier: 1-based start position and length. */
  datatype SliceRule = SliceRule(source: nat, position: byte, length: byte)

  datatype DynMap = DynMap(did: nat, entries: seq<SliceRule>)

  const BOOT := DynMap(0, [])

  const SOURCE_BUFFER: nat := 64
  const MAX_ENTRIES: nat := 4

  /** How much memory behind the transmit buffer the slices of all entries could reach. */
  const SPILL: nat := MAX_ENTRIES * 255

  /** The application's answer for an identifier, given room for `room` bytes. */
  function ReadDid(h: Hooks, did: nat, room: nat): (r: DidRead)
    ensures r.DidData? ==> |r.data| <= room
  {
    if did !in h.dids then DidError(ENOENT)
    else if h.dids[did].DidData? && |h.dids[did].data| > room then DidError(EINVAL)
    else h.dids[did]
  }

  /** What copying a slice out of the source buffer yields; positions outside the source data hold
      whatever the stack held. */
  function Copied(source: bytes, rule: SliceRule, stack: bytes): (s: bytes)
    ensures |s| == rule.length
  {
    seq(rule.length, k requires k >= 0 =>
      if 0 <= rule.position - 1 + k < |source| then source[rule.position - 1 + k]
      else if k < |stack| then stack[k] else 0)
  }

  /** What one entry adds to the payload: nothing if its source cannot be read. */
  function Part(rule: SliceRule, h: Hooks): bytes {
    match ReadDid(h, rule.source, SOURCE_BUFFER)
    case DidData(source) => Copied(source, rule, h.stack)
    case DidError(_) => []
  }

  function Assemble(entries: seq<SliceRule>, h: Hooks): bytes {
    if entries == [] then []
    else
      var last := entries[|entries| - 1];
      Assemble(entries[..|entries| - 1], h) + Part(last, h)
  }

  /** The sum of the lengths of the slices whose source can be read. */
  function CopiedLength(entries: seq<SliceRule>, h: Hooks): nat {
    if entries == [] then 0
    else
      var last := entries[|entries| - 1];
      CopiedLength(entries[..|entries| - 1], h) +
      if ReadDid(h, last.source, SOURCE_BUFFER).DidData? then last.length else 0
  }

  predicate Defines(req: bytes) { |req| >= 9 && req[1] == 1 }

  function Definition(req: bytes): DynMap
    requires Defines(req)
  {
    DynMap(Word16(req[2], req[3]), [SliceRule(Word16(req[4], req[5]), req[6], req[7])])
  }

  function DefineHandle(m: DynMap, req: bytes): Outcome<DynMap>
    requires req != []
  {
    if |req| < 9 then Outcome(m, [], Negative(NRC_INCORRECT_LENGTH))
    else if req[1] != 1 then Outcome(m, [], Negative(NRC_SUB_FUNCTION_NOT_SUPPORTED))
    else Outcome(Definition(req), [], Positive([0x6C, req[1], req[2], req[3]]))
  }

  function ReadHandle(m: DynMap, req: bytes, h: Hooks): Outcome<()>
    requires req != []
  {
    if |req| < 3 then Outcome((), [], Negative(NRC_INCORRECT_LENGTH))
    else
      var did := Word16(req[1], req[2]);
      var header := [Echo(req[0]), req[1], req[2]];
      if m.did == did && m.entries != [] then Outcome((), [], Positive(header + Assemble(m.entries, h)))
      else Outcome((), [], PlainReply(req, h))
  }

  /** The answer to reading an identifier that is not the defined one. */
  function PlainReply(req: bytes, h: Hooks): Reply
    requires |req| >= 3
  {
    match ReadDid(h, Word16(req[1], req[2]), UDS_BUFF_SIZE - 3)
    case DidData(data) => Positive([Echo(req[0]), req[1], req[2]] + data)
    case DidError(code) => Negative(if code == ENOMEM then NRC_RESPONSE_PENDING else NRC_REQUEST_OUT_OF_RANGE)
  }

  /** Reading the defined identifier stays inside the transmit buffer; any other read always does. The
      code does not check it: longer slices are copied on into the memory behind the buffer. */
  predicate SlicesFit(m: DynMap, did: nat, h: Hooks) {
    m.did == did && m.entries != [] ==> 3 + |Assemble(m.entries, h)| <= UDS_BUFF_SIZE
  }

  class DynamicDids {
    var dynDid: nat
    const entries: array<SliceRule>
    var entryCount: nat
    const board: Board

    ghost predicate Valid() reads this { entries.Length == MAX_ENTRIES && entryCount <= MAX_ENTRIES }

    function State(): DynMap
      requires Valid()
      reads this, entries
    {
      DynMap(dynDid, entries[..entryCount])
    }

    constructor (board: Board)
      ensures Valid() && State() == BOOT && this.board == board && fresh(entries)
    {
      dynDid, entryCount := 0, 0;
      entries := new SliceRule[MAX_ENTRIES](_ => SliceRule(0, 0, 0));
      this.board := board;
    }

    method HandleDefine(req: bytes)
      requires Valid() && req != []
      modifies this, entries, board`log
      ensures Valid() && State() == DefineHandle(old(State()), req).state
      ensures board.log == old(board.log) + Emitted(board.addressing, req[0], DefineHandle(old(State()), req))
    {
      var sid := req[0];
      if |req| < 9 {
        board.SendNrc(sid, NRC_INCORRECT_LENGTH);
        return;
      }
      if req[1] != 1 {
        board.SendNrc(sid, NRC_SUB_FUNCTION_NOT_SUPPORTED);
        return;
      }
      dynDid := Word16(req[2], req[3]);
      entries[0] := SliceRule(Word16(req[4], req[5]), req[6], req[7]);
      entryCount := 1;
      board.SendResponse([0x6C, req[1], req[2], req[3]]);
    }

    /** The assembly loop: copies one slice after the other behind the three header bytes, and on into
        the memory behind the transmit buffer if they do not fit. */
    method ReadPayload(did: nat, tx: array<byte>, behind: array<byte>, h: Hooks) returns (found: bool, length: nat)
      requires Valid() && tx.Length == UDS_BUFF_SIZE && behind.Length == SPILL && tx != behind
      modifies tx, behind
      ensures found == (dynDid == did && State().entries != [])
      ensures found ==> 3 + length <= |Memory(tx, behind)|
                        && Memory(tx, behind)[3..3 + length] == Assemble(State().entries, h)
      ensures SlicesFit(State(), did, h) ==> behind[..] == old(behind[..])
    {
      found, length := false, 0;
      if dynDid != did || entryCount == 0 {
        return;
      }
      var rules := entries[..entryCount];
      for i := 0 to entryCount
        invariant length == |Assemble(rules[..i], h)| && 3 + length <= tx.Length + behind.Length
        invariant Memory(tx, behind)[3..3 + length] == Assemble(rules[..i], h)
        invariant 3 + length <= tx.Length ==> behind[..] == old(behind[..])
      {
        AssembleStep(rules, i, h);
        length := CopyPart(rules[i], tx, behind, length, h);
      }
      assert rules[..entryCount] == rules;
      found := true;
    }

    /** One round of the loop. */
    method CopyPart(rule: SliceRule, tx: array<byte>, behind: array<byte>, length: nat, h: Hooks) returns (total: nat)
      requires 3 + length + |Part(rule, h)| <= tx.Length + behind.Length && tx != behind
      modifies tx, behind
      ensures total == length + |Part(rule, h)|
      ensures Memory(tx, behind)[3..3 + total] == old(Memory(tx, behind)[3..3 + length]) + Part(rule, h)
      ensures 3 + total <= tx.Length ==> behind[..] == old(behind[..])
    {
      total := length;
      var source := ReadDid(h, rule.source, SOURCE_BUFFER);
      if source.DidData? {
        CopySlice(tx, behind, 3 + length, Copied(source.data, rule, h.stack));
        total := total + rule.length;
      }
    }

    method CopySlice(tx: array<byte>, behind: array<byte>, at: nat, slice: bytes)
      requires 3 <= at && at + |slice| <= tx.Length + behind.Length && tx != behind
      modifies tx, behind
      ensures Memory(tx, behind)[3..at + |slice|] == old(Memory(tx, behind)[3..at]) + slice
      ensures at + |slice| <= tx.Length ==> behind[..] == old(behind[..])
    {
      var n := tx.Length;
      forall i | at <= i < at + |slice| && i < n { tx[i] := slice[i - at]; }
      forall i | 0 <= i < behind.Length && at <= n + i < at + |slice| { behind[i] := slice[n + i - at]; }
    }

    method HandleRead(req: bytes, tx: array<byte>, behind: array<byte>, h: Hooks)
      requires Valid() && req != [] && tx.Length == UDS_BUFF_SIZE && behind.Length == SPILL && tx != behind
      modifies board`log, tx, behind
      ensures board.log == old(board.log) + Emitted(board.addressing, req[0], ReadHandle(State(), req, h))
      ensures (|req| >= 3 ==> SlicesFit(State(), Word16(req[1], req[2]), h)) ==> behind[..] == old(behind[..])
    {
      var sid := req[0];
      if |req| < 3 {
        board.SendNrc(sid, NRC_INCORRECT_LENGTH);
        return;
      }
      var did := Word16(req[1], req[2]);
      var found, length := ReadPayload(did, tx, behind, h);
      if found {
        SendRecord(req, tx, behind, length);
        return;
      }
      SendPlain(req, tx, behind, h);
    }

    method SendPlain(req: bytes, tx: array<byte>, behind: array<byte>, h: Hooks)
      requires |req| >= 3 && tx.Length == UDS_BUFF_SIZE && tx != behind
      modifies board`log, tx
      ensures board.log == old(board.log) + Transmit(board.addressing, req[0], PlainReply(req, h))
    {
      var answer := ReadDid(h, Word16(req[1], req[2]), UDS_BUFF_SIZE - 3);
      if answer.DidData? {
        forall i | 3 <= i < 3 + |answer.data| { tx[i] := answer.data[i - 3]; }
        assert Memory(tx, behind)[3..3 + |answer.data|] == answer.data;
        SendRecord(req, tx, behind, |answer.data|);
      } else if answer.code == ENOMEM {
        board.SendNrc(req[0], NRC_RESPONSE_PENDING);
      } else {
        board.SendNrc(req[0], NRC_REQUEST_OUT_OF_RANGE);
      }
    }

    method SendRecord(req: bytes, tx: array<byte>, behind: array<byte>, length: nat)
      requires |req| >= 3 && tx.Length >= 3 && 3 + length <= tx.Length + behind.Length && tx != behind
      modifies board`log, tx
      ensures board.log == old(board.log)
                           + [Frame([Echo(req[0]), req[1], req[2]] + old(Memory(tx, behind)[3..3 + length]))]
    {
      tx[0] := Echo(req[0]);
      tx[1] := req[1];
      tx[2] := req[2];
      var frame := (tx[..] + behind[..])[..3 + length];
      assert frame == [Echo(req[0]), req[1], req[2]] + old(Memory(tx, behind)[3..3 + length]);
      board.SendResponse(frame);
    }
  }

  /** The transmit buffer and what lies behind it. */
  ghost function Memory(tx: array<byte>, behind: array<byte>): (m: bytes)
    reads tx, behind
    ensures |m| == tx.Length + behind.Length
  {
    tx[..] + behind[..]
  }

  lemma {:induction false} AssembleBound(entries: seq<SliceRule>, h: Hooks)
    ensures |Assemble(entries, h)| <= 255 * |entries|
  {
    if entries != [] {
      AssembleBound(entries[..|entries| - 1], h);
    }
  }

  lemma AssembleStep(rules: seq<SliceRule>, i: nat, h: Hooks)
    requires i < |rules|
    ensures Assemble(rules[..i + 1], h) == Assemble(rules[..i], h) + Part(rules[i], h)
    ensures |Assemble(rules[..i + 1], h)| == |Assemble(rules[..i], h)| + |Part(rules[i], h)| <= 255 * |rules|
  {
    assert rules[..i + 1][..i] == rules[..i];
    AssembleBound(rules[..i + 1], h);
  }

  lemma {:induction false} AssembleLength(entries: seq<SliceRule>, h: Hooks)
    ensures |Assemble(entries, h)| == CopiedLength(entries, h)
  {
    if entries != [] {
      AssembleLength(entries[..|entries| - 1], h);
    }
  }

  /** The source of a slice can be read and covers it. */
  predicate InRange(rule: SliceRule, h: Hooks) {
    var source := ReadDid(h, rule.source, SOURCE_BUFFER);
    source.DidData? && 1 <= rule.position && rule.position - 1 + rule.length <= |source.data|
  }

  function Requested(rule: SliceRule, h: Hooks): bytes
    requires InRange(rule, h)
  {
    ReadDid(h, rule.source, SOURCE_BUFFER).data[rule.position - 1..rule.position - 1 + rule.length]
  }

  lemma CopiedIsRequested(rule: SliceRule, h: Hooks)
    requires InRange(rule, h)
    ensures Copied(ReadDid(h, rule.source, SOURCE_BUFFER).data, rule, h.stack) == Requested(rule, h)
  {
  }

  lemma AssembleAppend(front: seq<SliceRule>, rule: SliceRule, h: Hooks)
    requires InRange(rule, h)
    ensures Assemble(front + [rule], h) == Assemble(front, h) + Requested(rule, h)
  {
    assert (front + [rule])[..|front|] == front;
    CopiedIsRequested(rule, h);
  }

  predicate StandsAt(payload: bytes, start: nat, slice: bytes) {
    start + |slice| <= |payload| && payload[start..start + |slice|] == slice
  }

  lemma StillStands(payload: bytes, more: bytes, start: nat, slice: bytes)
    requires StandsAt(payload, start, slice)
    ensures StandsAt(payload + more, start, slice)
  {
    assert (payload + more)[start..start + |slice|] == payload[start..start + |slice|];
  }

  lemma StandsLast(payload: bytes, slice: bytes)
    ensures StandsAt(payload + slice, |payload|, slice)
  {
  }

  /** Where the k-th slice starts in the assembled payload: after all earlier copied slices; and there
      it holds exactly the requested bytes of its source. */
  lemma {:induction false} AssembledSlice(entries: seq<SliceRule>, k: nat, h: Hooks)
    requires k < |entries| && InRange(entries[k], h)
    ensures StandsAt(Assemble(entries, h), CopiedLength(entries[..k], h), Requested(entries[k], h))
    decreases |entries|
  {
    var front, last := entries[..|entries| - 1], entries[|entries| - 1];
    if k == |front| {
      AssembleLength(front, h);
      CopiedIsRequested(last, h);
      StandsLast(Assemble(front, h), Requested(last, h));
    } else {
      AssembledSlice(front, k, h);
      assert front[..k] == entries[..k];
      StillStands(Assemble(front, h), Part(last, h), CopiedLength(entries[..k], h), Requested(entries[k], h));
    }
  }

  /** The slice a definition asks for. */
  function RuleOf(define: bytes): SliceRule
    requires Defines(define)
  {
    SliceRule(Word16(define[4], define[5]), define[6], define[7])
  }

  /** A definition within its source always fits the transmit buffer. */
  lemma DefinitionFits(define: bytes, did: nat, h: Hooks)
    requires Defines(define) && InRange(RuleOf(define), h)
    ensures SlicesFit(Definition(define), did, h)
  {
    AssembleAppend([], RuleOf(define), h);
    assert [] + [RuleOf(define)] == Definition(define).entries;
  }

  lemma SliceAnswer(define: bytes, req: bytes, h: Hooks)
    requires Defines(define) && InRange(RuleOf(define), h)
    requires |req| >= 3 && req[0] == 0x22 && req[1] == define[2] && req[2] == define[3]
    ensures ReadHandle(Definition(define), req, h).reply
            == Positive([0x62, req[1], req[2]] + Requested(RuleOf(define), h))
  {
    var rule := RuleOf(define);
    AssembleAppend([], rule, h);
    assert [] + [rule] == [rule] == Definition(define).entries;
    assert [] + Requested(rule, h) == Requested(rule, h);
  }
}
