/** ECU reset: the answer, the chosen kind, and the delayed reboot (uds_reset.c). */
module EcuReset {
  import opened Kernel

  const RESET_DELAY_MS: nat := 50

  datatype ResetRam = ResetRam(kind: ResetKind, timer: Timer)

  const BOOT := ResetRam(Cold, Stopped)

  /** The kinds of reset service 0x11 accepts: hard and soft. */
  function KindOf(req: bytes): Option<ResetKind> {
    if |req| < 2 then None
    else if req[1] == 1 then Some(Cold)
    else if req[1] == 3 then Some(Warm)
    else None
  }

  function Handle(r: ResetRam, now: nat, req: bytes): Outcome<ResetRam>
    requires req != []
  {
    if |req| < 2 then Outcome(r, [], Negative(NRC_INCORRECT_LENGTH))
    else match KindOf(req)
      case None => Outcome(r, [], Negative(NRC_SUB_FUNCTION_NOT_SUPPORTED))
      case Some(kind) => Outcome(ResetRam(kind, Armed(now + RESET_DELAY_MS)), [], Positive([Echo(req[0]), req[1]]))
  }

  class ResetService {
    var chosenResetType: ResetKind
    var resetTimer: Timer
    const board: Board

    function State(): ResetRam reads this { ResetRam(chosenResetType, resetTimer) }

    constructor (board: Board)
      ensures State() == BOOT && this.board == board
    {
      chosenResetType, resetTimer := Cold, Stopped;
      this.board := board;
    }

    method HandleReset(req: bytes, now: nat, tx: array<byte>)
      requires req != [] && tx.Length == UDS_BUFF_SIZE
      modifies this, board`log, tx
      ensures State() == Handle(old(State()), now, req).state
      ensures board.log == old(board.log) + Emitted(board.addressing, req[0], Handle(old(State()), now, req))
    {
      var sid := req[0];
      if |req| < 2 {
        board.SendNrc(sid, NRC_INCORRECT_LENGTH);
        return;
      }
      if req[1] == 1 {
        chosenResetType := Cold;
      } else if req[1] == 3 {
        chosenResetType := Warm;
      } else {
        board.SendNrc(sid, NRC_SUB_FUNCTION_NOT_SUPPORTED);
        return;
      }
      tx[0] := Echo(sid);
      tx[1] := req[1];
      assert tx[..2] == [Echo(sid), req[1]];
      board.SendResponse(tx[..2]);
      resetTimer := Armed(now + RESET_DELAY_MS);
    }

    method ResetTimerExpiry()
      modifies `resetTimer, board`log
      ensures resetTimer == Stopped && board.log == old(board.log) + [SysReboot(chosenResetType)]
    {
      resetTimer := Stopped;
      board.Emit(SysReboot(chosenResetType));
    }
  }
}
