/** Request download, transfer data and transfer exit (uds_flash_pipeline.c). */
module FlashPipeline {
  import opened Kernel

  datatype Phase = Idle | Approved | Transferring

  datatype PipelineRam = PipelineRam(phase: Phase, address: nat, size: nat, received: nat, expected: byte)

  const BOOT := PipelineRam(Idle, 0, 0, 0, 1)

  /** The unbounded big-endian value of a byte string. */
  function Value(bs: bytes): nat {
    if bs == [] then 0 else Value(bs[..|bs| - 1]) * 256 + bs[|bs| - 1]
  }

  function AddressLength(req: bytes): nat requires |req| >= 3 { req[2] % 16 }

  function SizeLength(req: bytes): nat requires |req| >= 3 { req[2] / 16 }

  /** Both length checks of 0x34. */
  predicate WellFormed(req: bytes) {
    |req| >= 5 && |req| == 3 + AddressLength(req) + SizeLength(req)
  }

  function AddressOf(req: bytes): nat
    requires WellFormed(req)
  {
    Value(req[3..3 + AddressLength(req)]) % U32
  }

  function SizeOf(req: bytes): nat
    requires WellFormed(req)
  {
    Value(req[3 + AddressLength(req)..]) % U32
  }

  function RequestDownload(r: PipelineRam, session: Session, unlocked: bool, req: bytes, h: Hooks): Outcome<PipelineRam>
    requires req != []
  {
    if session == Default then Outcome(r, [], Negative(NRC_NOT_SUPPORTED_IN_ACTIVE_SESSION))
    else if !unlocked then Outcome(r, [], Negative(NRC_SECURITY_ACCESS_DENIED))
    else if !WellFormed(req) then Outcome(r, [], Negative(NRC_INCORRECT_LENGTH))
    else
      var aimed := r.(address := AddressOf(req), size := SizeOf(req));
      var erase := Erase(aimed.address, aimed.size, h.eraseResult == 0, h.residue);
      if h.eraseResult != 0 then Outcome(aimed, [erase], Negative(NRC_UPLOAD_DOWNLOAD_NOT_ACCEPTED))
      else Outcome(PipelineRam(Approved, aimed.address, aimed.size, 0, 1), [erase],
                   Positive([Echo(req[0]), 0x20, UDS_BUFF_SIZE / 256, UDS_BUFF_SIZE % 256]))
  }

  function TransferData(r: PipelineRam, req: bytes, h: Hooks): Outcome<PipelineRam>
    requires req != []
  {
    if r.phase == Idle then Outcome(r, [], Negative(NRC_REQUEST_SEQUENCE_ERROR))
    else if |req| < 3 then Outcome(r, [], Negative(NRC_INCORRECT_LENGTH))
    else if req[1] != r.expected then Outcome(r, [], Negative(NRC_WRONG_BLOCK_SEQUENCE_COUNTER))
    else
      var write := FlashWrite((r.address + r.received) % U32, req[2..], h.writeResult == 0, h.residue);
      if h.writeResult != 0 then Outcome(r, [write], Negative(NRC_TRANSFER_DATA_SUSPENDED))
      else Outcome(r.(phase := Transferring, received := (r.received + |req| - 2) % U32,
                      expected := (r.expected + 1) % 256),
                   [write], Positive([Echo(req[0]), req[1]]))
  }

  function RequestTransferExit(r: PipelineRam, req: bytes): Outcome<PipelineRam>
    requires req != []
  {
    if r.phase != Transferring then Outcome(r, [], Negative(NRC_REQUEST_SEQUENCE_ERROR))
    else Outcome(r.(phase := Idle), [TransferExit], Positive([Echo(req[0])]))
  }

  class Pipeline {
    var phase: Phase
    var memoryAddress: nat
    var memorySize: nat
    var bytesReceived: nat
    var expectedBlockCounter: byte
    const board: Board

    function State(): PipelineRam
      reads this
    {
      PipelineRam(phase, memoryAddress, memorySize, bytesReceived, expectedBlockCounter)
    }

    constructor (board: Board)
      ensures State() == BOOT && this.board == board
    {
      phase, memoryAddress, memorySize, bytesReceived, expectedBlockCounter := Idle, 0, 0, 0, 1;
      this.board := board;
    }

    method HandleRequestDownload(session: Session, unlocked: bool, req: bytes, tx: array<byte>, h: Hooks)
      requires req != [] && tx.Length == UDS_BUFF_SIZE
      modifies this, board`log, tx
      ensures State() == RequestDownload(old(State()), session, unlocked, req, h).state
      ensures board.log == old(board.log) + Emitted(board.addressing, req[0],
                                                    RequestDownload(old(State()), session, unlocked, req, h))
    {
      var sid := req[0];
      if session == Default {
        board.SendNrc(sid, NRC_NOT_SUPPORTED_IN_ACTIVE_SESSION);
        return;
      }
      if !unlocked {
        board.SendNrc(sid, NRC_SECURITY_ACCESS_DENIED);
        return;
      }
      if |req| < 5 {
        board.SendNrc(sid, NRC_INCORRECT_LENGTH);
        return;
      }
      var addressLength := req[2] % 16;
      var sizeLength := req[2] / 16;
      if |req| != 3 + addressLength + sizeLength {
        board.SendNrc(sid, NRC_INCORRECT_LENGTH);
        return;
      }
      ParseFields(req, addressLength, sizeLength);
      board.Emit(Erase(memoryAddress, memorySize, h.eraseResult == 0, h.residue));
      if h.eraseResult != 0 {
        board.SendNrc(sid, NRC_UPLOAD_DOWNLOAD_NOT_ACCEPTED);
        return;
      }
      bytesReceived := 0;
      expectedBlockCounter := 1;
      phase := Approved;
      tx[0] := Echo(sid);
      tx[1] := 0x20;
      tx[2] := UDS_BUFF_SIZE / 256;
      tx[3] := UDS_BUFF_SIZE % 256;
      assert tx[..4] == [Echo(sid), 0x20, UDS_BUFF_SIZE / 256, UDS_BUFF_SIZE % 256];
      board.SendResponse(tx[..4]);
    }

    /** The two parsing loops: 32-bit shift-and-or over the address bytes, then over the size bytes. */
    method ParseFields(req: bytes, addressLength: nat, sizeLength: nat)
      requires |req| == 3 + addressLength + sizeLength
      modifies `memoryAddress, `memorySize
      ensures memoryAddress == Value(req[3..3 + addressLength]) % U32
      ensures memorySize == Value(req[3 + addressLength..]) % U32
    {
      memoryAddress := 0;
      var idx := 3;
      for i := 0 to addressLength
        invariant idx == 3 + i
        invariant memoryAddress == Value(req[3..idx]) % U32
      {
        NextByte(req, 3, idx);
        memoryAddress := memoryAddress * 256 % U32 + req[idx];
        idx := idx + 1;
      }
      memorySize := 0;
      for i := 0 to sizeLength
        invariant idx == 3 + addressLength + i
        invariant memoryAddress == Value(req[3..3 + addressLength]) % U32
        invariant memorySize == Value(req[3 + addressLength..idx]) % U32
      {
        NextByte(req, 3 + addressLength, idx);
        memorySize := memorySize * 256 % U32 + req[idx];
        idx := idx + 1;
      }
      assert req[..idx] == req;
    }

    method HandleTransferData(req: bytes, tx: array<byte>, h: Hooks)
      requires req != [] && tx.Length == UDS_BUFF_SIZE
      modifies this, board`log, tx
      ensures State() == TransferData(old(State()), req, h).state
      ensures board.log == old(board.log) + Emitted(board.addressing, req[0], TransferData(old(State()), req, h))
    {
      var sid := req[0];
      if phase != Approved && phase != Transferring {
        board.SendNrc(sid, NRC_REQUEST_SEQUENCE_ERROR);
        return;
      }
      if |req| < 3 {
        board.SendNrc(sid, NRC_INCORRECT_LENGTH);
        return;
      }
      var blockCounter := req[1];
      if blockCounter != expectedBlockCounter {
        board.SendNrc(sid, NRC_WRONG_BLOCK_SEQUENCE_COUNTER);
        return;
      }
      var payloadLength := |req| - 2;
      var currentOffset := (memoryAddress + bytesReceived) % U32;
      board.Emit(FlashWrite(currentOffset, req[2..], h.writeResult == 0, h.residue));
      if h.writeResult != 0 {
        board.SendNrc(sid, NRC_TRANSFER_DATA_SUSPENDED);
        return;
      }
      bytesReceived := (bytesReceived + payloadLength) % U32;
      expectedBlockCounter := (expectedBlockCounter + 1) % 256;
      phase := Transferring;
      tx[0] := Echo(sid);
      tx[1] := blockCounter;
      assert tx[..2] == [Echo(sid), blockCounter];
      board.SendResponse(tx[..2]);
    }

    method HandleRequestTransferExit(req: bytes, tx: array<byte>)
      requires req != [] && tx.Length == UDS_BUFF_SIZE
      modifies this, board`log, tx
      ensures State() == RequestTransferExit(old(State()), req).state
      ensures board.log == old(board.log) + Emitted(board.addressing, req[0], RequestTransferExit(old(State()), req))
    {
      var sid := req[0];
      if phase != Transferring {
        board.SendNrc(sid, NRC_REQUEST_SEQUENCE_ERROR);
        return;
      }
      phase := Idle;
      board.Emit(TransferExit);
      tx[0] := Echo(sid);
      assert tx[..1] == [Echo(sid)];
      board.SendResponse(tx[..1]);
    }
  }

  lemma ValueOfTwo(bs: bytes)
    requires |bs| == 2
    ensures Value(bs) == Word16(bs[0], bs[1])
  {
    var front := bs[..1];
    assert front[..0] == [] && Value(front) == bs[0];
  }

  lemma ValueOfThree(bs: bytes)
    requires |bs| == 3
    ensures Value(bs) == Word16(bs[0], bs[1]) * 256 + bs[2]
  {
    ValueOfTwo(bs[..2]);
  }

  lemma ShiftIn(bs: bytes, b: byte)
    ensures Value(bs + [b]) % U32 == Value(bs) % U32 * 256 % U32 + b
  {
    assert (bs + [b])[..|bs|] == bs;
    ShiftMod(Value(bs), b);
  }

  lemma NextByte(req: bytes, start: nat, idx: nat)
    requires start <= idx < |req|
    ensures Value(req[start..idx + 1]) % U32 == Value(req[start..idx]) % U32 * 256 % U32 + req[idx]
  {
    assert req[start..idx + 1] == req[start..idx] + [req[idx]];
    ShiftIn(req[start..idx], req[idx]);
  }

  lemma ShiftMod(v: nat, b: byte)
    ensures (v * 256 + b) % U32 == v % U32 * 256 % U32 + b
  {
    var high, low := v / 0x100_0000, v % 0x100_0000;
    Remainder(v * 256 + b, high, low * 256 + b);
    Remainder(v, high / 256, high % 256 * 0x100_0000 + low);
    Remainder(v % U32 * 256, high % 256, low * 256);
  }

  lemma Remainder(x: nat, quotient: nat, rest: nat)
    requires x == quotient * U32 + rest && rest < U32
    ensures x % U32 == rest
  {
  }

  /** The big-endian encoding of the low `width` bytes of a number. */
  function Encode(v: nat, width: nat): (bs: bytes)
    ensures |bs| == width
  {
    if width == 0 then [] else Encode(v / 256, width - 1) + [v % 256]
  }

  function Power256(width: nat): (p: nat)
    ensures p > 0
  {
    if width == 0 then 1 else 256 * Power256(width - 1)
  }

  lemma {:induction false} ValueOfEncode(v: nat, width: nat)
    requires v < Power256(width)
    ensures Value(Encode(v, width)) == v
  {
    if width > 0 {
      assert Encode(v, width)[..width - 1] == Encode(v / 256, width - 1);
      ValueOfEncode(v / 256, width - 1);
    }
  }

  lemma WordOfEncode(v: nat, width: nat)
    requires v < U32 && v < Power256(width)
    ensures Value(Encode(v, width)) % U32 == v
  {
    ValueOfEncode(v, width);
  }

  /** The 0x34 request for an address and size at chosen field widths. */
  function DownloadRequest(format: byte, address: nat, addressWidth: nat, size: nat, sizeWidth: nat): bytes
    requires addressWidth < 16 && sizeWidth < 16
  {
    [0x34, format, sizeWidth * 16 + addressWidth] + Encode(address, addressWidth) + Encode(size, sizeWidth)
  }

  lemma FieldsOf(req: bytes, head: bytes, a: bytes, z: bytes)
    requires |a| < 16 && |z| < 16 && |a| + |z| >= 2
    requires |head| == 3 && head[2] == |z| * 16 + |a| && req == head + a + z
    ensures WellFormed(req) && AddressOf(req) == Value(a) % U32 && SizeOf(req) == Value(z) % U32
  {
    FieldSlices(req, head, a, z);
    FieldLengths(req, |a|, |z|);
    assert Value(req[3..3 + AddressLength(req)]) == Value(a);
    assert Value(req[3 + AddressLength(req)..]) == Value(z);
  }

  lemma FieldLengths(req: bytes, addressLength: nat, sizeLength: nat)
    requires addressLength < 16 && sizeLength < 16 && addressLength + sizeLength >= 2
    requires |req| == 3 + addressLength + sizeLength && req[2] == sizeLength * 16 + addressLength
    ensures WellFormed(req) && AddressLength(req) == addressLength && SizeLength(req) == sizeLength
  {
    Nibbles(sizeLength, addressLength);
  }

  lemma FieldSlices(req: bytes, head: bytes, a: bytes, z: bytes)
    requires |head| == 3 && req == head + a + z
    ensures |req| == 3 + |a| + |z| && req[2] == head[2]
    ensures req[3..3 + |a|] == a && req[3 + |a|..] == z
  {
  }

  lemma Nibbles(high: nat, low: nat)
    requires low < 16
    ensures (high * 16 + low) % 16 == low && (high * 16 + low) / 16 == high
  {
  }

  /** Encoding an address and a size and running the parser recovers both, at every pair of widths
      wide enough to hold them. */
  lemma DownloadRoundTrip(req: bytes, format: byte, address: nat, addressWidth: nat, size: nat, sizeWidth: nat)
    requires addressWidth < 16 && sizeWidth < 16 && addressWidth + sizeWidth >= 2
    requires address < U32 && address < Power256(addressWidth)
    requires size < U32 && size < Power256(sizeWidth)
    requires req == DownloadRequest(format, address, addressWidth, size, sizeWidth)
    ensures WellFormed(req) && AddressOf(req) == address && SizeOf(req) == size
  {
    FieldsOf(req, [0x34, format, sizeWidth * 16 + addressWidth],
             Encode(address, addressWidth), Encode(size, sizeWidth));
    WordOfEncode(address, addressWidth);
    WordOfEncode(size, sizeWidth);
  }
}
