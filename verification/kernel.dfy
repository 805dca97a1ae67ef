/** Bytes, kernel timers, configuration, response codes and the observable events of the server. */
module Kernel {
  type byte = b: int | 0 <= b < 256
  type bytes = seq<byte>

  datatype Option<+T> = None | Some(value: T)

  /** Number of values of a `uint32_t`. */
  const U32: nat := 0x1_0000_0000

  // The Kconfig symbols, each any value of its configured range. The seed must also fit the
  // 16-byte key buffer, and the transmit buffer a complete DTC report.
  type AttemptLimit = n: nat | 1 <= n <= 10 witness 3
  type LockoutPeriod = n: nat | 1000 <= n <= 600000 witness 10000
  type S3Period = n: nat | 1000 <= n <= 10000 witness 5000
  type SeedSize = n: nat | 4 <= n <= 16 witness 4
  type BufferSize = n: nat | 67 <= n <= 4095 witness 4095

  const MAX_FAILED_ATTEMPTS: AttemptLimit
  const LOCKOUT_TIME_MS: LockoutPeriod
  const S3_TIMEOUT_MS: S3Period
  const SEED_SIZE: SeedSize
  const UDS_BUFF_SIZE: BufferSize

  const NRC_SERVICE_NOT_SUPPORTED: byte := 0x11
  const NRC_SUB_FUNCTION_NOT_SUPPORTED: byte := 0x12
  const NRC_INCORRECT_LENGTH: byte := 0x13
  const NRC_CONDITIONS_NOT_CORRECT: byte := 0x22
  const NRC_REQUEST_SEQUENCE_ERROR: byte := 0x24
  const NRC_REQUEST_OUT_OF_RANGE: byte := 0x31
  const NRC_SECURITY_ACCESS_DENIED: byte := 0x33
  const NRC_INVALID_KEY: byte := 0x35
  const NRC_EXCEEDED_NUMBER_OF_ATTEMPTS: byte := 0x36
  const NRC_UPLOAD_DOWNLOAD_NOT_ACCEPTED: byte := 0x70
  const NRC_TRANSFER_DATA_SUSPENDED: byte := 0x71
  const NRC_WRONG_BLOCK_SEQUENCE_COUNTER: byte := 0x73
  const NRC_RESPONSE_PENDING: byte := 0x78
  const NRC_NOT_SUPPORTED_IN_ACTIVE_SESSION: byte := 0x7E

  const EINVAL: int := -22
  const ENOENT: int := -2
  const ENOMEM: int := -12

  const NVS_COUNTER_ID: nat := 1
  const NVS_LOCKOUT_ID: nat := 2

  datatype Addressing = Physical | Functional

  datatype Session = Default | Programming | Extended

  datatype ResetKind = Cold | Warm

  /** A one-shot kernel timer. */
  datatype Timer = Stopped | Armed(deadline: nat) {
    predicate Due(now: nat) { Armed? && deadline <= now }
  }

  /** What a request, a timer callback or a reset lets an observer see, in the order it happens. */
  datatype Event =
    | Received(request: bytes, addressing: Addressing)
    | Frame(data: bytes)
    | NvsWrite(id: nat, value: byte)
    | SessionSet(session: Session)
    | S3Expired
    | Verify(level: byte, seed: bytes, key: bytes, granted: bool)
    | Erase(address: nat, size: nat, ok: bool, residue: map<nat, byte>)
    | FlashWrite(offset: nat, data: bytes, ok: bool, residue: map<nat, byte>)
    | TransferExit
    | WriteDid(did: nat, data: bytes)
    | IoControl(did: nat, param: byte, options: bytes)
    | Sampled(slot: byte)
    | SysReboot(kind: ResetKind)
    | Reboot(cut: bool)

  /** What a handler asks its callbacks to send. */
  datatype Reply = Positive(frame: bytes) | Negative(nrc: byte) | Silent

  /** A handler's result: the new state, the events before the answer, and the answer. */
  datatype Outcome<+S> = Outcome(state: S, events: seq<Event>, reply: Reply)

  /** A read of a data identifier by the application. */
  datatype DidRead = DidData(data: bytes) | DidError(code: int)

  /** What the application hooks and the entropy source return while one request is handled. The results of a
      routine (status and exit code) and the freeze frames are given per identifier and per code and record;
      where there is none the hook returns an error. */
  datatype Hooks = Hooks(
    entropy: bytes, keyVerdict: int,
    eraseResult: int, writeResult: int, residue: map<nat, byte>,
    writeDidResult: int, ioResult: int, ioStatus: byte,
    dids: map<nat, DidRead>, stack: bytes,
    results: map<nat, (byte, byte)>,
    nvs: Option<map<nat, bytes>>,
    freezeFrames: map<(nat, byte), bytes>)

  predicate Obedient(h: Hooks) {
    |h.entropy| == SEED_SIZE && forall k :: k in h.freezeFrames ==> |h.freezeFrames[k]| <= UDS_BUFF_SIZE - 5
  }

  function Word16(hi: byte, lo: byte): nat { hi * 256 + lo }

  /** The first byte of a positive response, in `uint8_t` arithmetic. */
  function Echo(sid: byte): byte { (sid + 0x40) % 256 }

  /** The frames an answer puts on the bus: functional negative answers other than 0x78 are dropped. */
  function Transmit(addressing: Addressing, sid: byte, reply: Reply): seq<Event> {
    match reply
    case Positive(frame) => [Frame(frame)]
    case Negative(nrc) =>
      if addressing == Functional && nrc != NRC_RESPONSE_PENDING then [] else [Frame([0x7F, sid, nrc])]
    case Silent => []
  }

  function Emitted<S>(addressing: Addressing, sid: byte, o: Outcome<S>): seq<Event> {
    o.events + Transmit(addressing, sid, o.reply)
  }

  /** The one-byte entries of the security store after a sequence of events. */
  function Persist(nvs: map<nat, byte>, events: seq<Event>): map<nat, byte> {
    if events == [] then nvs
    else
      var before := Persist(nvs, events[..|events| - 1]);
      match events[|events| - 1]
      case NvsWrite(id, value) => before[id := value]
      case _ => before
  }

  lemma SplitAt<T>(s: seq<T>, k: nat)
    requires k <= |s|
    ensures s[..k] + s[k..] == s
  {
  }

  lemma Regroup<T>(a: seq<T>, b: seq<T>, c: seq<T>)
    ensures a + b + c == a + (b + c)
  {
  }

  lemma PersistAppend(nvs: map<nat, byte>, events: seq<Event>, e: Event)
    ensures Persist(nvs, events + [e]) ==
            if e.NvsWrite? then Persist(nvs, events)[e.id := e.value] else Persist(nvs, events)
  {
    assert (events + [e])[..|events|] == events;
  }

  /** The world outside the server: everything the bus, the store and the application hooks were
      asked to do, in order. The store holds what `Persist` makes of the writes. */
  class Board {
    var log: seq<Event>
    /** `current_msg_addressing`: how the request now being handled was addressed. */
    var addressing: Addressing

    constructor ()
      ensures log == [] && addressing == Physical
    {
      log, addressing := [], Physical;
    }

    method Emit(e: Event)
      modifies `log
      ensures log == old(log) + [e]
    {
      log := log + [e];
    }

    method SendResponse(data: bytes)
      modifies `log
      ensures log == old(log) + [Frame(data)]
    {
      Emit(Frame(data));
    }

    method SendNrc(sid: byte, nrc: byte)
      modifies `log
      ensures log == old(log) + Transmit(addressing, sid, Negative(nrc))
    {
      if addressing == Functional {
        if nrc != NRC_RESPONSE_PENDING {
          return;
        }
      }
      Emit(Frame([0x7F, sid, nrc]));
    }
  }
}
