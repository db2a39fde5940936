/**
  The state store: one mapping of named values, mirrored as a single encoded
  text in one storage slot of a session-scoped storage.

  The store is an immutable record; every operation returns the next store.
  The two capabilities the store probes for (a usable storage, a JSON codec)
  are flags fixed at initialisation, and the diagnostic the store logs for a
  corrupt slot is the `warned` flag.
 */
module StorageManager {
  import opened Wrappers
  import opened JsonValue
  import opened Codec

  datatype Store = Store(
    state: map<string, Value>,   // the in-memory state mapping
    slot: Option<string>,        // the storage slot's text; None when absent or when there is no storage
    hasStorage: bool,            // a session or local storage that accepts writes was found
    hasJSON: bool,               // a JSON codec is available
    warned: bool                 // a corrupt-slot diagnostic has been logged
  )

  /** Writes reach the slot only when both capabilities are present. */
  predicate Persists(s: Store)
  {
    s.hasStorage && s.hasJSON
  }

  /**
    The slot agrees with the mapping: when the store persists, the slot holds
    the encoding of the mapping, or is absent and the mapping is empty.
   */
  predicate Synced(s: Store)
  {
    Persists(s) ==> s.slot == Some(Encode(s.state)) || (s.slot == None && s.state == map[])
  }

  /** No key of the mapping holds `Undefined`: storing `Undefined` removes a key instead. */
  predicate NoUndefined(m: map<string, Value>)
  {
    forall k :: k in m ==> m[k] != Undefined
  }

  /**
    The entries of a decoded object other than `Undefined` ones. A JSON
    decoder never yields `Undefined`, so for a real codec this is the
    decoded object itself.
   */
  function DefinedPart(fields: map<string, Value>): (r: map<string, Value>)
    ensures NoUndefined(r)
    ensures forall k :: k in r <==> k in fields && fields[k] != Undefined
    ensures forall k :: k in r ==> r[k] == fields[k]
    ensures NoUndefined(fields) ==> r == fields
  {
    map k | k in fields && fields[k] != Undefined :: fields[k]
  }

  /** The value stored under `key`; `Undefined` when the key was never set or was removed. */
  function GetStateByKey(s: Store, key: string): (r: Value)
    ensures r != Undefined ==> key in s.state && s.state[key] == r
    ensures key !in s.state ==> r == Undefined
    ensures key in s.state ==> r == s.state[key]
  {
    if key in s.state then s.state[key] else Undefined
  }

  /** The mapping `m` with `key` set to `value`, or removed when `value` is `Undefined`. */
  function WriteEntry(m: map<string, Value>, key: string, value: Value): (r: map<string, Value>)
    ensures key in r <==> value != Undefined
    ensures key in r ==> r[key] == value
    ensures forall k :: k != key ==> (k in r <==> k in m)
    ensures forall k :: k != key && k in r ==> r[k] == m[k]
    ensures NoUndefined(m) ==> NoUndefined(r)
  {
    if value == Undefined then m - {key} else m[key := value]
  }

  /**
    Stores `value` under `key`; `Undefined` removes the key. The mapping
    always changes; the whole mapping is re-encoded into the slot only when
    the store persists, otherwise the slot is left as it was.
   */
  function SetStateByKey(s: Store, key: string, value: Value): (r: Store)
    ensures GetStateByKey(r, key) == value
    ensures forall k :: k != key ==> GetStateByKey(r, k) == GetStateByKey(s, k)
    ensures key in r.state <==> value != Undefined
    ensures r.state.Keys <= s.state.Keys + {key}
    ensures NoUndefined(s.state) ==> NoUndefined(r.state)
    ensures Persists(r) ==> r.slot == Some(Encode(r.state))
    ensures !Persists(r) ==> r.slot == s.slot
    ensures r.hasStorage == s.hasStorage && r.hasJSON == s.hasJSON && r.warned == s.warned
  {
    var state := WriteEntry(s.state, key, value);
    s.(state := state, slot := if Persists(s) then Some(Encode(state)) else s.slot)
  }

  /** Empties the mapping and removes the slot entry itself (no empty encoding is left behind). */
  function Reset(s: Store): (r: Store)
    ensures forall k :: GetStateByKey(r, k) == Undefined
    ensures r.state == map[]
    ensures r.slot == None
    ensures r.hasStorage == s.hasStorage && r.hasJSON == s.hasJSON && r.warned == s.warned
  {
    s.(state := map[], slot := None)
  }

  /**
    Hydration: adopt the decoded slot when it is a plain object; a slot that
    does not decode, or decodes to anything else, yields an empty mapping and
    a diagnostic, and is itself left untouched. Entries holding `Undefined`
    are not adopted (a JSON decoder never produces them). Without both capabilities, or
    with no slot, the mapping starts empty.
   */
  function Hydrate(s: Store, decode: string -> Decoded): (r: Store)
    ensures r.slot == s.slot
    ensures r.hasStorage == s.hasStorage && r.hasJSON == s.hasJSON
    ensures r.warned <==> s.warned || (Persists(s) && s.slot.Some? && !decode(s.slot.value).Obj?)
    ensures Persists(s) && s.slot.Some? && decode(s.slot.value).Obj? ==>
      r.state == DefinedPart(decode(s.slot.value).fields)
    ensures !(Persists(s) && s.slot.Some? && decode(s.slot.value).Obj?) ==> r.state == map[]
    ensures NoUndefined(r.state)
  {
    if !Persists(s) || s.slot.None? then s.(state := map[])
    else
      match decode(s.slot.value)
      case Obj(fields) => s.(state := DefinedPart(fields))
      case _ => s.(state := map[], warned := true)
  }

  /**
    Loading the store. `slot` is what the storage holds under the store's key
    at load time (ignored when there is no storage), `isBackForward` is the
    navigation classifier's answer and `decode` the codec's decoder. A load
    that is not a back/forward navigation resets at once; otherwise the
    mapping is hydrated from the slot.
   */
  function Init(hasStorage: bool, hasJSON: bool, isBackForward: bool,
                slot: Option<string>, decode: string -> Decoded): (r: Store)
    ensures r.hasStorage == hasStorage && r.hasJSON == hasJSON
    ensures !hasStorage ==> r.slot == None
    ensures !isBackForward ==> r.slot == None && r.state == map[] && !r.warned
    ensures isBackForward && hasStorage ==> r.slot == slot
    ensures isBackForward && hasStorage && hasJSON && slot.Some? && decode(slot.value).Obj? ==>
      r.state == DefinedPart(decode(slot.value).fields) && !r.warned
    ensures isBackForward && hasStorage && hasJSON && slot.Some? && !decode(slot.value).Obj? ==>
      r.state == map[] && r.warned
    ensures isBackForward && (!hasStorage || !hasJSON || slot.None?) ==> r.state == map[] && !r.warned
    ensures NoUndefined(r.state)
  {
    var loaded := Store(map[], if hasStorage then slot else None, hasStorage, hasJSON, false);
    if isBackForward then Hydrate(loaded, decode) else Reset(loaded)
  }
}
