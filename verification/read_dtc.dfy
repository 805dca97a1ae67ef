/** Read DTC information (uds_read_dtc.c): the stored trouble codes whose status meets a mask. */
module ReadDtc {
  import opened Kernel

  const NVS_DTC_START_ID: nat := 0x100
  const NVS_DTC_MAX_ENTRIES: nat := 16
  const STATUS_AVAILABILITY_MASK: byte := 0x09

  /** A stored code: three code bytes and a status byte. */
  datatype Dtc = Dtc(c0: byte, c1: byte, c2: byte, status: byte)

  predicate Bit(a: nat, k: nat) { if k == 0 then a % 2 == 1 else Bit(a / 2, k - 1) }

  /** Two bytes have a set bit in common: their bitwise conjunction is not zero. */
  predicate Intersects(a: byte, b: byte) { exists k: nat | k < 8 :: Bit(a, k) && Bit(b, k) }

  lemma {:induction k} NoBits(k: nat)
    ensures !Bit(0, k)
  {
  }

  /** An entry is readable when exactly the size of a code is stored under its id. */
  predicate Readable(store: map<nat, bytes>, i: nat) {
    NVS_DTC_START_ID + i in store && |store[NVS_DTC_START_ID + i]| == 4
  }

  function Entry(store: map<nat, bytes>, i: nat): Dtc
    requires Readable(store, i)
  {
    var e := store[NVS_DTC_START_ID + i];
    Dtc(e[0], e[1], e[2], e[3])
  }

  predicate Reported(store: map<nat, bytes>, mask: byte, i: nat) {
    Readable(store, i) && Intersects(Entry(store, i).status, mask)
  }

  /** The reported codes among the first `n` ids, in id order. */
  function Matching(store: map<nat, bytes>, mask: byte, n: nat): (ds: seq<Dtc>)
    ensures |ds| <= n
  {
    if n == 0 then []
    else Matching(store, mask, n - 1) + if Reported(store, mask, n - 1) then [Entry(store, n - 1)] else []
  }

  function Record(d: Dtc): bytes { [d.c0, d.c1, d.c2, d.status] }

  function Records(ds: seq<Dtc>): (bs: bytes)
    ensures |bs| == 4 * |ds|
  {
    if ds == [] then [] else Records(ds[..|ds| - 1]) + Record(ds[|ds| - 1])
  }

  /** A tester's reading of the records of a report. */
  function Parse(bs: bytes): seq<Dtc> {
    if |bs| < 4 then [] else [Dtc(bs[0], bs[1], bs[2], bs[3])] + Parse(bs[4..])
  }

  function Handle(req: bytes, h: Hooks): Outcome<()>
    requires req != []
  {
    if |req| < 2 then Outcome((), [], Negative(NRC_INCORRECT_LENGTH))
    else if h.nvs.None? then Outcome((), [], Negative(NRC_CONDITIONS_NOT_CORRECT))
    else if req[1] == 2 then
      if |req| < 3 then Outcome((), [], Negative(NRC_INCORRECT_LENGTH))
      else Outcome((), [], Positive([Echo(req[0]), req[1], STATUS_AVAILABILITY_MASK]
                                    + Records(Matching(h.nvs.value, req[2], NVS_DTC_MAX_ENTRIES))))
    else if req[1] == 4 then
      if |req| < 6 then Outcome((), [], Negative(NRC_INCORRECT_LENGTH)) else FreezeFrame(req, h)
    else Outcome((), [], Negative(NRC_SUB_FUNCTION_NOT_SUPPORTED))
  }

  /** The freeze frame of a code, for a record number. */
  function FreezeFrame(req: bytes, h: Hooks): Outcome<()>
    requires |req| >= 6
  {
    var wanted: (nat, byte) := (Word16(req[2], req[3]) * 256 + req[4], req[5]);
    if wanted !in h.freezeFrames then Outcome((), [], Negative(NRC_REQUEST_OUT_OF_RANGE))
    else Outcome((), [], Positive([Echo(req[0]), req[1], req[2], req[3], req[4]] + h.freezeFrames[wanted]))
  }

  method HandleReadDtc(board: Board, req: bytes, tx: array<byte>, h: Hooks)
    requires req != [] && Obedient(h) && tx.Length == UDS_BUFF_SIZE
    modifies board`log, tx
    ensures board.log == old(board.log) + Emitted(board.addressing, req[0], Handle(req, h))
  {
    var sid := req[0];
    if |req| < 2 {
      board.SendNrc(sid, NRC_INCORRECT_LENGTH);
      return;
    }
    if h.nvs.None? {
      board.SendNrc(sid, NRC_CONDITIONS_NOT_CORRECT);
      return;
    }
    if req[1] == 2 {
      if |req| < 3 {
        board.SendNrc(sid, NRC_INCORRECT_LENGTH);
        return;
      }
      var length := FillReport(sid, req[1], req[2], h.nvs.value, NVS_DTC_MAX_ENTRIES, tx);
      board.SendResponse(tx[..length]);
      return;
    }
    if req[1] == 4 {
      if |req| < 6 {
        board.SendNrc(sid, NRC_INCORRECT_LENGTH);
        return;
      }
      HandleFreezeFrame(board, req, tx, h);
      return;
    }
    board.SendNrc(sid, NRC_SUB_FUNCTION_NOT_SUPPORTED);
  }

  method HandleFreezeFrame(board: Board, req: bytes, tx: array<byte>, h: Hooks)
    requires |req| >= 6 && Obedient(h) && tx.Length == UDS_BUFF_SIZE
    modifies board`log, tx
    ensures board.log == old(board.log) + Emitted(board.addressing, req[0], FreezeFrame(req, h))
  {
    var sid := req[0];
    var wanted: (nat, byte) := (Word16(req[2], req[3]) * 256 + req[4], req[5]);
    tx[0], tx[1], tx[2], tx[3], tx[4] := Echo(sid), req[1], req[2], req[3], req[4];
    if wanted in h.freezeFrames {
      var frame := h.freezeFrames[wanted];
      forall i | 0 <= i < |frame| { tx[5 + i] := frame[i]; }
      assert tx[..5 + |frame|] == [Echo(sid), req[1], req[2], req[3], req[4]] + frame;
      board.SendResponse(tx[..5 + |frame|]);
    } else {
      board.SendNrc(sid, NRC_REQUEST_OUT_OF_RANGE);
    }
  }

  /** The scan over the ids, writing four bytes for every match. */
  method FillReport(sid: byte, subFunction: byte, mask: byte, store: map<nat, bytes>, count: nat, tx: array<byte>)
    returns (length: nat)
    requires 3 + 4 * count <= tx.Length
    modifies tx
    ensures length <= tx.Length
    ensures tx[..length] == [Echo(sid), subFunction, STATUS_AVAILABILITY_MASK]
                            + Records(Matching(store, mask, count))
  {
    ghost var header := [Echo(sid), subFunction, STATUS_AVAILABILITY_MASK];
    tx[0], tx[1], tx[2] := Echo(sid), subFunction, STATUS_AVAILABILITY_MASK;
    length := 3;
    ghost var ds: seq<Dtc> := [];
    for i := 0 to count
      invariant length == 3 + 4 * |ds| && |ds| <= i
      invariant ds == Matching(store, mask, i)
      invariant tx[..length] == header + Records(ds)
    {
      MatchingStep(store, mask, i);
      if Readable(store, i) {
        var entry := Entry(store, i);
        if entry.status != 0 && Intersects(entry.status, mask) {
          AppendRecord(tx, length, entry);
          length := length + 4;
          RecordsAppend(ds, entry);
          ds := ds + [entry];
        }
      }
    }
  }

  method AppendRecord(tx: array<byte>, length: nat, d: Dtc)
    requires length + 4 <= tx.Length
    modifies tx
    ensures tx[..length + 4] == old(tx[..length]) + Record(d)
  {
    tx[length] := d.c0;
    tx[length + 1] := d.c1;
    tx[length + 2] := d.c2;
    tx[length + 3] := d.status;
  }

  lemma MatchingStep(store: map<nat, bytes>, mask: byte, n: nat)
    ensures Matching(store, mask, n + 1) ==
            if Readable(store, n) && Entry(store, n).status != 0 && Intersects(Entry(store, n).status, mask)
            then Matching(store, mask, n) + [Entry(store, n)] else Matching(store, mask, n)
  {
    forall k: nat | k < 8 ensures !Bit(0, k) { NoBits(k); }
  }

  lemma RecordsAppend(ds: seq<Dtc>, d: Dtc)
    ensures Records(ds + [d]) == Records(ds) + Record(d)
  {
    assert (ds + [d])[..|ds|] == ds;
  }

  lemma {:induction false} ParseAppend(bs: bytes, d: Dtc)
    requires |bs| % 4 == 0
    ensures Parse(bs + Record(d)) == Parse(bs) + [d]
    decreases |bs|
  {
    if bs == [] {
      assert bs + Record(d) == Record(d);
      assert Record(d)[4..] == [];
    } else {
      assert (bs + Record(d))[4..] == bs[4..] + Record(d);
      ParseAppend(bs[4..], d);
    }
  }

  lemma {:induction false} ParseRecords(ds: seq<Dtc>)
    ensures Parse(Records(ds)) == ds
  {
    if ds != [] {
      ParseRecords(ds[..|ds| - 1]);
      ParseAppend(Records(ds[..|ds| - 1]), ds[|ds| - 1]);
    }
  }

  /** `Matching` keeps exactly the reported entries, in id order: position by position, the k-th code
      is the entry of some id, ids strictly increase, and no reported id is missed. */
  ghost predicate InIdOrder(ds: seq<Dtc>, ids: seq<nat>, store: map<nat, bytes>, mask: byte, n: nat) {
    && |ids| == |ds|
    && (forall k :: 0 <= k < |ids| ==> ids[k] < n && Reported(store, mask, ids[k]) && ds[k] == Entry(store, ids[k]))
    && (forall j, k :: 0 <= j < k < |ids| ==> ids[j] < ids[k])
    && (forall i: nat :: i < n && Reported(store, mask, i) ==> i in ids)
  }

  lemma {:induction false} MatchingIsTheFilter(store: map<nat, bytes>, mask: byte, n: nat) returns (ids: seq<nat>)
    ensures InIdOrder(Matching(store, mask, n), ids, store, mask, n)
  {
    ids := [];
    if n > 0 {
      ids := MatchingIsTheFilter(store, mask, n - 1);
      if Reported(store, mask, n - 1) {
        ids := ids + [n - 1];
      }
    }
  }

  /** For every store and mask: the report is at most 67 bytes, and reading it back record by record
      gives exactly the readable entries whose status meets the mask, in id order. */
  lemma ReportParsesBack(req: bytes, h: Hooks) returns (ids: seq<nat>)
    requires |req| >= 3 && req[1] == 2 && h.nvs.Some?
    ensures var reply := Handle(req, h).reply;
            && reply.Positive?
            && 3 <= |reply.frame| <= 67 && |reply.frame| == 3 + 4 * |ids|
            && InIdOrder(Parse(reply.frame[3..]), ids, h.nvs.value, req[2], NVS_DTC_MAX_ENTRIES)
  {
    var ds := Matching(h.nvs.value, req[2], NVS_DTC_MAX_ENTRIES);
    ids := MatchingIsTheFilter(h.nvs.value, req[2], NVS_DTC_MAX_ENTRIES);
    ParseRecords(ds);
    assert Handle(req, h).reply.frame[3..] == Records(ds);
  }
}
