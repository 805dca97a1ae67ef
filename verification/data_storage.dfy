/** The vehicle identification number: a RAM copy written through to the store (uds_data_storage.c). */
module DataStorage {
  import opened Kernel

  const VIN_SIZE: nat := 17
  const NVS_VIN_PARAM_ID: nat := 0x200
  const ENXIO: int := -6
  const EIO: int := -5

  type Vin = v: bytes | |v| == VIN_SIZE witness seq(17, _ => 0)

  /** "ZEPHYRISANRTOS123" */
  const FACTORY_VIN: Vin :=
    [0x5A, 0x45, 0x50, 0x48, 0x59, 0x52, 0x49, 0x53, 0x41, 0x4E, 0x52, 0x54, 0x4F, 0x53, 0x31, 0x32, 0x33]

  type Store = map<nat, bytes>

  /** Reading an entry copies no more bytes than are stored or asked for. */
  function Loaded(store: Option<Store>): Vin {
    if store.None? || NVS_VIN_PARAM_ID !in store.value then FACTORY_VIN
    else
      var e := store.value[NVS_VIN_PARAM_ID];
      if |e| >= VIN_SIZE then e[..VIN_SIZE] else e + FACTORY_VIN[|e|..]
  }

  /** Byte by byte: the stored entry as far as it reaches, the factory value behind it. */
  lemma LoadedByte(store: Option<Store>, i: nat)
    requires i < VIN_SIZE
    ensures Loaded(store)[i]
         == if store.Some? && NVS_VIN_PARAM_ID in store.value && i < |store.value[NVS_VIN_PARAM_ID]|
            then store.value[NVS_VIN_PARAM_ID][i] else FACTORY_VIN[i]
  {
  }

  /** The application's persistent store and its write hook. */
  class AppStore {
    var entries: Store
    /** Whether the application hands out a storage context. */
    var present: bool

    function Context(): Option<Store> reads this { if present then Some(entries) else None }

    constructor (entries: Store, present: bool)
      ensures this.entries == entries && this.present == present
    {
      this.entries, this.present := entries, present;
    }

    /** An atomic write: it stores the whole block and returns 0, or fails and stores nothing. */
    method Write(id: nat, data: bytes, verdict: int) returns (result: int)
      requires present
      modifies `entries
      ensures result == verdict
      ensures entries == if verdict == 0 then old(entries)[id := data] else old(entries)
    {
      if verdict == 0 {
        entries := entries[id := data];
      }
      result := verdict;
    }
  }

  class VehicleData {
    const vin: array<byte>

    ghost predicate Valid() { vin.Length == VIN_SIZE }

    constructor (store: AppStore)
      ensures Valid() && fresh(vin) && vin[..] == Loaded(store.Context())
    {
      vin := new byte[VIN_SIZE](_ => 0);
      new;
      Init(store);
    }

    /** `uds_data_storage_init`: the factory value first, then whatever the store has. */
    method Init(store: AppStore)
      requires Valid()
      modifies vin
      ensures vin[..] == Loaded(store.Context())
    {
      forall i | 0 <= i < VIN_SIZE { vin[i] := FACTORY_VIN[i]; }
      ghost var factory := vin[..];
      assert factory == FACTORY_VIN;
      if store.present && NVS_VIN_PARAM_ID in store.entries {
        var e := store.entries[NVS_VIN_PARAM_ID];
        var n := if |e| < VIN_SIZE then |e| else VIN_SIZE;
        forall i | 0 <= i < n { vin[i] := e[i]; }
        assert vin[..] == e[..n] + factory[n..];
      }
    }

    method SetVin(newVin: bytes, store: AppStore, verdict: int) returns (result: int)
      requires Valid()
      modifies vin, store`entries
      ensures result == if |newVin| != VIN_SIZE then EINVAL else if !store.present then ENXIO
                        else if verdict != 0 then EIO else 0
      ensures vin[..] == if result == 0 then newVin else old(vin[..])
      ensures store.entries == if result == 0 then old(store.entries)[NVS_VIN_PARAM_ID := newVin]
                               else old(store.entries)
    {
      if |newVin| != VIN_SIZE {
        return EINVAL;
      }
      if !store.present {
        return ENXIO;
      }
      var written := store.Write(NVS_VIN_PARAM_ID, newVin, verdict);
      if written != 0 {
        return EIO;
      }
      forall i | 0 <= i < VIN_SIZE { vin[i] := newVin[i]; }
      assert vin[..] == newVin;
      return 0;
    }
  }

  /** A life of the component: sets with the hook's verdict, and boots; each with whether the
      application hands out its storage context at that moment. */
  datatype Op = Set(newVin: bytes, verdict: int, context: bool) | Restart(context: bool)

  datatype World = World(ram: Vin, entries: Store)

  predicate Succeeds(op: Op) {
    op.Set? && |op.newVin| == VIN_SIZE && op.context && op.verdict == 0
  }

  function Step(w: World, op: Op): World {
    match op
    case Set(newVin, _, _) =>
      if Succeeds(op) then World(newVin, w.entries[NVS_VIN_PARAM_ID := newVin]) else w
    case Restart(context) => World(Loaded(if context then Some(w.entries) else None), w.entries)
  }

  /** From a store without a VIN entry, the first boot and then the given operations. */
  function Life(ops: seq<Op>): World {
    if ops == [] then World(FACTORY_VIN, map[]) else Step(Life(ops[..|ops| - 1]), ops[|ops| - 1])
  }

  /** The last VIN that was persisted, over all boots. */
  function LastPersisted(ops: seq<Op>): Option<Vin> {
    if ops == [] then None
    else if Succeeds(ops[|ops| - 1]) then Some(ops[|ops| - 1].newVin)
    else LastPersisted(ops[..|ops| - 1])
  }

  function Expected(ops: seq<Op>): Vin {
    match LastPersisted(ops) case Some(v) => v case None => FACTORY_VIN
  }

  /** The store always holds the last persisted VIN; it is the RAM copy that can fall behind. */
  lemma {:induction false} StoreIsLastPersisted(ops: seq<Op>)
    ensures var entries := Life(ops).entries;
            match LastPersisted(ops)
            case Some(v) => NVS_VIN_PARAM_ID in entries && entries[NVS_VIN_PARAM_ID] == v
            case None => NVS_VIN_PARAM_ID !in entries
  {
    if ops != [] {
      StoreIsLastPersisted(ops[..|ops| - 1]);
    }
  }

  /** The last boot found no storage context although a VIN other than the factory one had been
      persisted, and no set has succeeded since. */
  predicate BootedBlind(ops: seq<Op>) {
    ops != [] &&
    match ops[|ops| - 1]
    case Set(_, _, _) => !Succeeds(ops[|ops| - 1]) && BootedBlind(ops[..|ops| - 1])
    case Restart(context) => !context && Expected(ops[..|ops| - 1]) != FACTORY_VIN
  }

  /** Over every life, the RAM copy equals the last persisted VIN (or the factory value) exactly when
      the last boot was not blind; with a stable context no boot ever is. */
  lemma {:induction false} CacheCoherence(ops: seq<Op>)
    ensures Life(ops).ram == Expected(ops) <==> !BootedBlind(ops)
  {
    if ops != [] {
      CacheCoherence(ops[..|ops| - 1]);
      StoreIsLastPersisted(ops[..|ops| - 1]);
    }
  }

  lemma {:induction false} StableContextIsCoherent(ops: seq<Op>, context: bool)
    requires forall k :: 0 <= k < |ops| ==> ops[k].context == context
    ensures Life(ops).ram == Expected(ops)
  {
    CacheCoherence(ops);
    NeverBlind(ops, context);
  }

  lemma {:induction false} NeverBlind(ops: seq<Op>, context: bool)
    requires forall k :: 0 <= k < |ops| ==> ops[k].context == context
    ensures !BootedBlind(ops)
    ensures !context ==> LastPersisted(ops) == None
  {
    if ops != [] {
      NeverBlind(ops[..|ops| - 1], context);
    }
  }

  /** The methods take the same steps. */
  method Perform(data: VehicleData, store: AppStore, op: Op)
    requires data.Valid()
    modifies data.vin, store
    ensures World(data.vin[..], store.entries) == Step(old(World(data.vin[..], store.entries)), op)
  {
    store.present := op.context;
    match op
    case Set(newVin, verdict, _) =>
      var result := data.SetVin(newVin, store, verdict);
    case Restart(_) =>
      data.Init(store);
  }
}
