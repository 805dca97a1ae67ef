/** Security access with the persisted brute-force lockout (uds_security.c). */
module SecurityAccess {
  import opened Kernel

  datatype Status = Locked | SeedRequested | Unlocked | Lockout

  datatype SecurityRam = SecurityRam(status: Status, seed: bytes, counter: byte, timer: Timer)

  function Zeros(): (z: bytes)
    ensures |z| == SEED_SIZE
  {
    seq(SEED_SIZE, _ => 0)
  }

  /** Initialisation from the store: a persisted lockout starts a whole new lockout period. */
  function Boot(nvs: map<nat, byte>, now: nat): SecurityRam {
    if NVS_LOCKOUT_ID in nvs && nvs[NVS_LOCKOUT_ID] == 1 then
      SecurityRam(Lockout, Zeros(), MAX_FAILED_ATTEMPTS, Armed(now + LOCKOUT_TIME_MS))
    else
      SecurityRam(Locked, Zeros(), if NVS_COUNTER_ID in nvs then nvs[NVS_COUNTER_ID] else 0, Stopped)
  }

  function ResetLock(r: SecurityRam): SecurityRam {
    if r.status != Lockout then r.(status := Locked) else r
  }

  /** The lockout timer fires: the counter entry is zeroed before the flag entry. */
  const EXPIRY_EVENTS := [NvsWrite(NVS_COUNTER_ID, 0), NvsWrite(NVS_LOCKOUT_ID, 0)]

  function Expire(r: SecurityRam): SecurityRam {
    r.(status := Locked, counter := 0, timer := Stopped)
  }

  function Handle(r: SecurityRam, now: nat, req: bytes, h: Hooks): Outcome<SecurityRam>
    requires req != []
  {
    if |req| < 2 then Outcome(r, [], Negative(NRC_INCORRECT_LENGTH))
    else if r.status == Lockout then Outcome(r, [], Negative(NRC_EXCEEDED_NUMBER_OF_ATTEMPTS))
    else if req[1] == 1 || req[1] == 3 then RequestSeed(r, req, h)
    else if req[1] == 2 || req[1] == 4 then SendKey(r, now, req, h)
    else Outcome(r, [], Negative(NRC_SUB_FUNCTION_NOT_SUPPORTED))
  }

  function RequestSeed(r: SecurityRam, req: bytes, h: Hooks): Outcome<SecurityRam>
    requires |req| >= 2
  {
    if |req| != 2 then Outcome(r, [], Negative(NRC_INCORRECT_LENGTH))
    else
      var r' := if r.status == Unlocked then r.(seed := Zeros())
                else r.(seed := h.entropy, status := SeedRequested);
      Outcome(r', [], Positive([Echo(req[0]), req[1]] + r'.seed))
  }

  function SendKey(r: SecurityRam, now: nat, req: bytes, h: Hooks): Outcome<SecurityRam>
    requires |req| >= 2 && req[1] >= 1
  {
    if |req| != 2 + SEED_SIZE then Outcome(r, [], Negative(NRC_INCORRECT_LENGTH))
    else if r.status != SeedRequested then Outcome(r, [], Negative(NRC_REQUEST_SEQUENCE_ERROR))
    else
      var verified := Verify(req[1] - 1, r.seed, req[2..], h.keyVerdict == 0);
      if h.keyVerdict == 0 then
        Outcome(r.(status := Unlocked, counter := 0), [verified, NvsWrite(NVS_COUNTER_ID, 0)],
                Positive([Echo(req[0]), req[1]]))
      else
        var failed := (r.counter + 1) % 256;
        if failed >= MAX_FAILED_ATTEMPTS then
          Outcome(r.(status := Lockout, counter := failed, timer := Armed(now + LOCKOUT_TIME_MS)),
                  [verified, NvsWrite(NVS_COUNTER_ID, failed), NvsWrite(NVS_LOCKOUT_ID, 1)],
                  Negative(NRC_EXCEEDED_NUMBER_OF_ATTEMPTS))
        else
          Outcome(r.(status := Locked, counter := failed), [verified, NvsWrite(NVS_COUNTER_ID, failed)],
                  Negative(NRC_INVALID_KEY))
  }

  class SecurityServer {
    var status: Status
    const generatedSeed: array<byte>
    var failedAttempts: byte
    var lockoutTimer: Timer
    const board: Board

    ghost predicate Valid() reads this { generatedSeed.Length == SEED_SIZE }

    function State(): SecurityRam
      reads this, generatedSeed
    {
      SecurityRam(status, generatedSeed[..], failedAttempts, lockoutTimer)
    }

    /** Power-on: the statics start at zero and are then initialised from the store. */
    constructor (board: Board, nvs: map<nat, byte>, now: nat)
      ensures Valid() && fresh(generatedSeed) && this.board == board
      ensures State() == Boot(nvs, now)
    {
      status, failedAttempts, lockoutTimer := Locked, 0, Stopped;
      generatedSeed := new byte[SEED_SIZE](_ => 0);
      this.board := board;
      new;
      assert generatedSeed[..] == Zeros();
      if NVS_LOCKOUT_ID in nvs && nvs[NVS_LOCKOUT_ID] == 1 {
        status := Lockout;
        failedAttempts := MAX_FAILED_ATTEMPTS;
        lockoutTimer := Armed(now + LOCKOUT_TIME_MS);
        return;
      }
      if NVS_COUNTER_ID in nvs {
        failedAttempts := nvs[NVS_COUNTER_ID];
      }
    }

    method ResetLockStatus()
      requires Valid()
      modifies this
      ensures Valid() && State() == ResetLock(old(State()))
    {
      if status != Lockout {
        status := Locked;
      }
    }

    method LockoutTimerExpiry()
      requires Valid()
      modifies this, board
      ensures Valid() && State() == Expire(old(State()))
      ensures board.log == old(board.log) + EXPIRY_EVENTS
    {
      status := Locked;
      failedAttempts := 0;
      lockoutTimer := Stopped;
      board.Emit(NvsWrite(NVS_COUNTER_ID, 0));
      board.Emit(NvsWrite(NVS_LOCKOUT_ID, 0));
    }

    method HandleRequest(req: bytes, now: nat, tx: array<byte>, h: Hooks)
      requires Valid() && req != [] && Obedient(h)
      requires tx.Length == UDS_BUFF_SIZE && tx != generatedSeed
      modifies this, generatedSeed, board, tx
      ensures Valid() && board.addressing == old(board.addressing)
      ensures State() == Handle(old(State()), now, req, h).state
      ensures board.log == old(board.log) + Emitted(board.addressing, req[0], Handle(old(State()), now, req, h))
    {
      var sid := req[0];
      if |req| < 2 {
        board.SendNrc(sid, NRC_INCORRECT_LENGTH);
        return;
      }
      if status == Lockout {
        board.SendNrc(sid, NRC_EXCEEDED_NUMBER_OF_ATTEMPTS);
        return;
      }
      var subFunction := req[1];
      if subFunction == 1 || subFunction == 3 {
        HandleSeed(req, tx, h);
      } else if subFunction == 2 || subFunction == 4 {
        HandleKey(req, now, tx, h);
      } else {
        board.SendNrc(sid, NRC_SUB_FUNCTION_NOT_SUPPORTED);
      }
    }

    method HandleSeed(req: bytes, tx: array<byte>, h: Hooks)
      requires Valid() && |req| >= 2 && Obedient(h)
      requires tx.Length == UDS_BUFF_SIZE && tx != generatedSeed
      modifies this, generatedSeed, board, tx
      ensures Valid() && board.addressing == old(board.addressing)
      ensures State() == RequestSeed(old(State()), req, h).state
      ensures board.log == old(board.log) + Emitted(board.addressing, req[0], RequestSeed(old(State()), req, h))
    {
      if |req| != 2 {
        board.SendNrc(req[0], NRC_INCORRECT_LENGTH);
        return;
      }
      if status == Unlocked {
        forall i | 0 <= i < SEED_SIZE { generatedSeed[i] := 0; }
        assert generatedSeed[..] == Zeros();
      } else {
        forall i | 0 <= i < SEED_SIZE { generatedSeed[i] := h.entropy[i]; }
        assert generatedSeed[..] == h.entropy;
        status := SeedRequested;
      }
      tx[0] := Echo(req[0]);
      tx[1] := req[1];
      forall i | 0 <= i < SEED_SIZE { tx[2 + i] := generatedSeed[i]; }
      assert tx[..2 + SEED_SIZE] == [Echo(req[0]), req[1]] + generatedSeed[..];
      board.SendResponse(tx[..2 + SEED_SIZE]);
    }

    method HandleKey(req: bytes, now: nat, tx: array<byte>, h: Hooks)
      requires Valid() && |req| >= 2 && req[1] >= 1
      requires tx.Length == UDS_BUFF_SIZE && tx != generatedSeed
      modifies this, board, tx
      ensures Valid() && board.addressing == old(board.addressing)
      ensures State() == SendKey(old(State()), now, req, h).state
      ensures board.log == old(board.log) + Emitted(board.addressing, req[0], SendKey(old(State()), now, req, h))
    {
      if |req| != 2 + SEED_SIZE {
        board.SendNrc(req[0], NRC_INCORRECT_LENGTH);
        return;
      }
      if status != SeedRequested {
        board.SendNrc(req[0], NRC_REQUEST_SEQUENCE_ERROR);
        return;
      }
      board.Emit(Verify(req[1] - 1, generatedSeed[..], req[2..], h.keyVerdict == 0));
      if h.keyVerdict == 0 {
        status := Unlocked;
        failedAttempts := 0;
        board.Emit(NvsWrite(NVS_COUNTER_ID, 0));
        tx[0] := Echo(req[0]);
        tx[1] := req[1];
        assert tx[..2] == [Echo(req[0]), req[1]];
        board.SendResponse(tx[..2]);
      } else {
        failedAttempts := (failedAttempts + 1) % 256;
        board.Emit(NvsWrite(NVS_COUNTER_ID, failedAttempts));
        if failedAttempts >= MAX_FAILED_ATTEMPTS {
          status := Lockout;
          board.Emit(NvsWrite(NVS_LOCKOUT_ID, 1));
          lockoutTimer := Armed(now + LOCKOUT_TIME_MS);
          board.SendNrc(req[0], NRC_EXCEEDED_NUMBER_OF_ATTEMPTS);
        } else {
          status := Locked;
          board.SendNrc(req[0], NRC_INVALID_KEY);
        }
      }
    }
  }
}
