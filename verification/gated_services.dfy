/** Services that only pass a request on to the application: write data by identifier
    (uds_write_did.c) and input/output control (uds_iocontrol.c). */
module GatedServices {
  import opened Kernel

  /** The answer to a hook that returned an error code. */
  function HookError(code: int): Reply {
    if code == EINVAL then Negative(NRC_INCORRECT_LENGTH)
    else if code == ENOENT then Negative(NRC_REQUEST_OUT_OF_RANGE)
    else Negative(NRC_CONDITIONS_NOT_CORRECT)
  }

  function WriteDidHandle(session: Session, unlocked: bool, req: bytes, h: Hooks): Outcome<()>
    requires req != []
  {
    if session != Extended then Outcome((), [], Negative(NRC_NOT_SUPPORTED_IN_ACTIVE_SESSION))
    else if |req| < 3 then Outcome((), [], Negative(NRC_INCORRECT_LENGTH))
    else if !unlocked then Outcome((), [], Negative(NRC_SECURITY_ACCESS_DENIED))
    else Outcome((), [WriteDid(Word16(req[1], req[2]), req[3..])],
                 if h.writeDidResult == 0 then Positive([Echo(req[0]), req[1], req[2]])
                 else HookError(h.writeDidResult))
  }

  function IoControlHandle(session: Session, unlocked: bool, req: bytes, h: Hooks): Outcome<()>
    requires req != []
  {
    if session != Extended then Outcome((), [], Negative(NRC_NOT_SUPPORTED_IN_ACTIVE_SESSION))
    else if !unlocked then Outcome((), [], Negative(NRC_SECURITY_ACCESS_DENIED))
    else if |req| < 4 then Outcome((), [], Negative(NRC_INCORRECT_LENGTH))
    else Outcome((), [IoControl(Word16(req[1], req[2]), req[3], req[4..])],
                 if h.ioResult == 0 then Positive([Echo(req[0]), req[1], req[2], req[3], h.ioStatus])
                 else HookError(h.ioResult))
  }

  method SendHookError(board: Board, sid: byte, code: int)
    modifies board`log
    ensures board.log == old(board.log) + Transmit(board.addressing, sid, HookError(code))
  {
    if code == EINVAL {
      board.SendNrc(sid, NRC_INCORRECT_LENGTH);
    } else if code == ENOENT {
      board.SendNrc(sid, NRC_REQUEST_OUT_OF_RANGE);
    } else {
      board.SendNrc(sid, NRC_CONDITIONS_NOT_CORRECT);
    }
  }

  method HandleWriteDid(board: Board, session: Session, unlocked: bool, req: bytes, tx: array<byte>, h: Hooks)
    requires req != [] && tx.Length == UDS_BUFF_SIZE
    modifies board`log, tx
    ensures board.log == old(board.log) + Emitted(board.addressing, req[0], WriteDidHandle(session, unlocked, req, h))
  {
    var sid := req[0];
    if session != Extended {
      board.SendNrc(sid, NRC_NOT_SUPPORTED_IN_ACTIVE_SESSION);
      return;
    }
    if |req| < 3 {
      board.SendNrc(sid, NRC_INCORRECT_LENGTH);
      return;
    }
    if !unlocked {
      board.SendNrc(sid, NRC_SECURITY_ACCESS_DENIED);
      return;
    }
    board.Emit(WriteDid(Word16(req[1], req[2]), req[3..]));
    if h.writeDidResult == 0 {
      tx[0] := Echo(sid);
      tx[1] := req[1];
      tx[2] := req[2];
      assert tx[..3] == [Echo(sid), req[1], req[2]];
      board.SendResponse(tx[..3]);
    } else {
      SendHookError(board, sid, h.writeDidResult);
    }
  }

  method HandleIoControl(board: Board, session: Session, unlocked: bool, req: bytes, tx: array<byte>, h: Hooks)
    requires req != [] && tx.Length == UDS_BUFF_SIZE
    modifies board`log, tx
    ensures board.log == old(board.log) + Emitted(board.addressing, req[0], IoControlHandle(session, unlocked, req, h))
  {
    var sid := req[0];
    if session != Extended {
      board.SendNrc(sid, NRC_NOT_SUPPORTED_IN_ACTIVE_SESSION);
      return;
    }
    if !unlocked {
      board.SendNrc(sid, NRC_SECURITY_ACCESS_DENIED);
      return;
    }
    if |req| < 4 {
      board.SendNrc(sid, NRC_INCORRECT_LENGTH);
      return;
    }
    board.Emit(IoControl(Word16(req[1], req[2]), req[3], req[4..]));
    if h.ioResult == 0 {
      tx[0] := Echo(sid);
      tx[1] := req[1];
      tx[2] := req[2];
      tx[3] := req[3];
      tx[4] := h.ioStatus;
      assert tx[..5] == [Echo(sid), req[1], req[2], req[3], h.ioStatus];
      board.SendResponse(tx[..5]);
    } else {
      SendHookError(board, sid, h.ioResult);
    }
  }
}
