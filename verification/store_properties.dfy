/**
  Properties of the state store across several operations: the slot staying
  in step with the mapping, removal shrinking the stored text, the
  navigation-dependent initialisation, corrupt slots, and in-memory
  degradation when a capability is missing.
 */
module StoreProperties {
  import opened Wrappers
  import opened JsonValue
  import opened Codec
  import opened StorageManager

  /** Every write and every reset leaves the slot in step with the mapping. */
  lemma WritesKeepSynced(s: Store, key: string, value: Value)
    ensures Synced(SetStateByKey(s, key, value))
    ensures Synced(Reset(s))
  {
  }

  /**
    Writing a value and then removing it again makes the stored text strictly
    shorter; the slot holds a text (an encoding of the remaining mapping,
    possibly `{}`) after both writes.
   */
  lemma RemovalShrinksSlot(s: Store, key: string, value: Value)
    requires Persists(s)
    requires value != Undefined
    ensures SetStateByKey(s, key, value).slot.Some?
    ensures SetStateByKey(SetStateByKey(s, key, value), key, Undefined).slot.Some?
    ensures |SetStateByKey(SetStateByKey(s, key, value), key, Undefined).slot.value|
          < |SetStateByKey(s, key, value).slot.value|
  {
    var s1 := SetStateByKey(s, key, value);
    var s2 := SetStateByKey(s1, key, Undefined);
    assert s2.state == s1.state - {key};
    EncodeRemoveShrinks(s1.state, key);
  }

  /** After a reset the slot is absent, which is not the same as holding the encoding of an empty mapping. */
  lemma ResetRemovesSlot(s: Store, key: string, value: Value)
    ensures Reset(SetStateByKey(s, key, value)).slot == None
    ensures Reset(SetStateByKey(s, key, value)).slot != Some(Encode(map[]))
    ensures GetStateByKey(Reset(SetStateByKey(s, key, value)), key) == Undefined
  {
  }

  /**
    A store loaded by a navigation that is not back/forward reads no key and
    has no slot, whatever slot an earlier store left behind.
   */
  lemma FreshLoadDiscards(prev: Store, hasStorage: bool, hasJSON: bool, decode: string -> Decoded, key: string)
    ensures GetStateByKey(Init(hasStorage, hasJSON, false, prev.slot, decode), key) == Undefined
    ensures Init(hasStorage, hasJSON, false, prev.slot, decode).slot == None
  {
  }

  /**
    A back/forward load of a persisting store finds in the slot exactly the
    mapping an earlier in-step store left there, given a codec whose decoder
    inverts the encoder on that mapping.
   */
  lemma BackForwardPreserves(prev: Store, decode: string -> Decoded)
    requires Persists(prev) && Synced(prev) && NoUndefined(prev.state)
    requires decode(Encode(prev.state)) == Obj(prev.state)
    ensures Init(true, true, true, prev.slot, decode).state == prev.state
    ensures forall k :: GetStateByKey(Init(true, true, true, prev.slot, decode), k) == GetStateByKey(prev, k)
    ensures !Init(true, true, true, prev.slot, decode).warned
    ensures Synced(Init(true, true, true, prev.slot, decode))
  {
  }

  /**
    A slot that does not decode to a plain object hydrates to an empty
    mapping with a diagnostic, and the slot text itself is kept.
   */
  lemma CorruptSlotWarns(text: string, decode: string -> Decoded, key: string)
    requires !decode(text).Obj?
    ensures Init(true, true, true, Some(text), decode).warned
    ensures GetStateByKey(Init(true, true, true, Some(text), decode), key) == Undefined
    ensures Init(true, true, true, Some(text), decode).slot == Some(text)
  {
  }

  /** The corrupt slot texts the store is expected to survive. */
  const CorruptSamples: seq<string> := ["{", "[ 1,2,3 ]", "1", "1.234", "\"123\""]

  /**
    With a decoder that classifies the sample texts as JSON does (the first
    does not parse; the others parse to an array, two numbers and a string),
    each sample hydrates to an empty mapping with a diagnostic.
   */
  lemma CorruptSamplesWarn(decode: string -> Decoded)
    requires decode("{") == Malformed
    requires decode("[ 1,2,3 ]") == NonObject && decode("1") == NonObject
    requires decode("1.234") == NonObject && decode("\"123\"") == NonObject
    ensures forall i :: 0 <= i < |CorruptSamples| ==>
      Init(true, true, true, Some(CorruptSamples[i]), decode).warned &&
      Init(true, true, true, Some(CorruptSamples[i]), decode).state == map[]
  {
  }

  /** Without storage, loading never reads a slot, never warns and starts empty, whatever the navigation. */
  lemma NoStorageInitClean(hasJSON: bool, isBackForward: bool, slot: Option<string>, decode: string -> Decoded)
    ensures Init(false, hasJSON, isBackForward, slot, decode).slot == None
    ensures Init(false, hasJSON, isBackForward, slot, decode).state == map[]
    ensures !Init(false, hasJSON, isBackForward, slot, decode).warned
  {
  }

  /** Without a codec, loading never decodes the slot: it starts empty and never warns. */
  lemma NoJSONInitClean(hasStorage: bool, isBackForward: bool, slot: Option<string>, decode: string -> Decoded)
    ensures Init(hasStorage, false, isBackForward, slot, decode).state == map[]
    ensures !Init(hasStorage, false, isBackForward, slot, decode).warned
  {
  }

  /** A call on the store's accessor surface. */
  datatype Op = SetOp(key: string, value: Value) | GetOp(key: string) | ResetOp

  /** The store after a call sequence, and the values its reads returned, in order. */
  datatype Trace = Trace(store: Store, answers: seq<Value>)

  /** Runs a call sequence against the store. */
  function Run(s: Store, ops: seq<Op>): (r: Trace)
    decreases |ops|
  {
    if |ops| == 0 then Trace(s, [])
    else
      match ops[0]
      case SetOp(k, v) => Run(SetStateByKey(s, k, v), ops[1..])
      case GetOp(k) =>
        var rest := Run(s, ops[1..]);
        Trace(rest.store, [GetStateByKey(s, k)] + rest.answers)
      case ResetOp => Run(Reset(s), ops[1..])
  }

  /**
    Reference behaviour: the same calls against a bare in-memory map, with no
    slot and no capabilities at all.
   */
  function MemoryRun(m: map<string, Value>, ops: seq<Op>): (r: (map<string, Value>, seq<Value>))
    decreases |ops|
  {
    if |ops| == 0 then (m, [])
    else
      match ops[0]
      case SetOp(k, v) => MemoryRun(if v.Undefined? then m - {k} else m[k := v], ops[1..])
      case GetOp(k) =>
        var rest := MemoryRun(m, ops[1..]);
        (rest.0, [if k in m then m[k] else Undefined] + rest.1)
      case ResetOp => MemoryRun(map[], ops[1..])
  }

  /**
    Whatever the capabilities, every read returns what the in-memory
    reference returns for the same calls, and the mappings agree afterwards:
    a missing storage or codec changes nothing a caller can read within the
    session.
   */
  lemma {:induction false} RunMatchesMemory(s: Store, ops: seq<Op>)
    ensures Run(s, ops).answers == MemoryRun(s.state, ops).1
    ensures Run(s, ops).store.state == MemoryRun(s.state, ops).0
    decreases |ops|
  {
    if |ops| > 0 {
      match ops[0]
      case SetOp(k, v) =>
        RunMatchesMemory(SetStateByKey(s, k, v), ops[1..]);
      case GetOp(k) =>
        RunMatchesMemory(s, ops[1..]);
      case ResetOp =>
        RunMatchesMemory(Reset(s), ops[1..]);
    }
  }

  /**
    Over any call sequence the capabilities and the diagnostic flag never
    change; a store that does not persist never writes its slot (it can only
    drop it on reset); a persisting store stays in step with its slot; and
    no key comes to hold `Undefined`.
   */
  lemma {:induction false} RunKeepsSlotDiscipline(s: Store, ops: seq<Op>)
    ensures Run(s, ops).store.hasStorage == s.hasStorage
    ensures Run(s, ops).store.hasJSON == s.hasJSON
    ensures Run(s, ops).store.warned == s.warned
    ensures !Persists(s) ==> Run(s, ops).store.slot == s.slot || Run(s, ops).store.slot == None
    ensures Synced(s) ==> Synced(Run(s, ops).store)
    ensures NoUndefined(s.state) ==> NoUndefined(Run(s, ops).store.state)
    decreases |ops|
  {
    if |ops| > 0 {
      match ops[0]
      case SetOp(k, v) =>
        RunKeepsSlotDiscipline(SetStateByKey(s, k, v), ops[1..]);
      case GetOp(k) =>
        RunKeepsSlotDiscipline(s, ops[1..]);
      case ResetOp =>
        RunKeepsSlotDiscipline(Reset(s), ops[1..]);
    }
  }
}
