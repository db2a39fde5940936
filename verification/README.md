# egjs-persist state store and legacy adapter, in Dafny

This project models the core of egjs-persist, which keeps small pieces of
page state across loads within one browsing session:

- **The state store** (`StorageManager`). It holds one mapping of named
  values. The whole mapping is mirrored as one encoded text in a single
  storage slot. A load that is not a back/forward navigation discards the
  slot. A back/forward load hydrates the mapping from it. A slot that does
  not decode to a plain object yields an empty mapping and a warning. A
  missing storage or JSON codec degrades the store to in-memory only.
- **The legacy adapter** (`PersistMigrate`). It replaces `eg.Persist` with
  one function that overloads on call shape: zero arguments, one argument,
  two arguments, or `new`. It delegates all reads and writes to the store.

The store is an immutable record and every operation is a pure function
returning the next store. The capabilities are booleans fixed when the
store is loaded. The console warning is a `warned` flag. The navigation
classifier's answer and the stored slot text are inputs to `Init`. The
codec's decoder is a parameter `decode: string -> Decoded`. Its outcome is
an abstract tag: `Obj(fields)`, `NonObject` or `Malformed`. Hydration adopts
only the entries of `fields` that are not `Undefined`. A JSON decoder never
produces `Undefined`, so for a real codec nothing is dropped, and no key of
a store's mapping ever holds `Undefined`. The encoder is
concrete and deterministic. It writes `{"key":value,...}` with keys in
ascending order and omits absent keys (`Codec.Encode`).

Files:

- `wrappers.dfy`: `Option`.
- `json_value.dfy`: JavaScript values, their text form, and JavaScript's
  property-key conversion.
- `key_order.dfy`: a strict lexicographic order on keys and the unique
  ascending key sequence of a key set.
- `codec.dfy`: the encoding of a mapping and the decoder's outcome.
- `storage_manager.dfy`: the store and its operations.
- `store_properties.dfy`: lemmas across several store operations.
- `persist_migrate.dfy`: the adapter's dispatch and its installation.

The store's own source file is not part of this model. Its contract comes
from its unit tests (`test/unit/storageManager.spec.js`), which the table
below cites.

## Model

| member | source | states |
|---|---|---|
| StorageManager.GetStateByKey | test/unit/storageManager.spec.js:52-61 | a key in the mapping reads as its stored value and a key not in the mapping reads as `Undefined`; so a read other than `Undefined` always comes from the mapping |
| StorageManager.SetStateByKey | test/unit/storageManager.spec.js:42-61 | reading the key back gives exactly the value written; `Undefined` removes the key; every other key reads as before; the slot holds the encoding of the new mapping when storage and JSON are both present, else it is untouched |
| StorageManager.Reset | test/unit/storageManager.spec.js:63-73 | after a reset the mapping is empty, every key reads as `Undefined` and the slot is absent; capabilities are unchanged |
| StorageManager.Hydrate | test/unit/storageManager.spec.js:164-198 | with both capabilities, a slot that decodes to an object is adopted as the mapping (its defined entries); any other case gives an empty mapping; a warning is raised exactly when a present slot decodes to something other than a plain object; the slot text is never changed; no key holds `Undefined` |
| StorageManager.Init | test/unit/storageManager.spec.js:6-38 | a load that is not back/forward leaves an empty mapping, no slot and no warning; a back/forward load with storage keeps the slot it found and, with JSON too, adopts an object slot without warning or starts empty with a warning for any other slot; without storage, JSON or a slot it starts empty without warning |
| StoreProperties.FreshLoadDiscards | test/unit/storageManager.spec.js:6-21 | a store freshly loaded (not back/forward) over the slot an earlier store left reads `Undefined` for every key, and the slot is gone |
| StoreProperties.BackForwardPreserves | test/unit/storageManager.spec.js:23-38 | a back/forward load of an in-step persisting store reproduces its mapping key by key, without warning, given a decoder that inverts the encoder on it |
| StoreProperties.ResetRemovesSlot | test/unit/storageManager.spec.js:77-89 | after a write then a reset, the slot is absent, which differs from holding the encoding `{}`; the written key reads as `Undefined` |
| StoreProperties.RemovalShrinksSlot | test/unit/storageManager.spec.js:91-104 | writing a value and then writing `Undefined` to the same key leaves a slot text strictly shorter than after the first write |
| Codec.Encode | test/unit/storageManager.spec.js:91-104 | the slot text starts with `{` and ends with `}`, is exactly `{}` for the empty mapping, and is two characters longer than the joined member texts of the mapping |
| Codec.EncodeRemoveShrinks | test/unit/storageManager.spec.js:91-104 | removing a present key from a mapping strictly shortens its encoding |
| StoreProperties.WritesKeepSynced | test/unit/storageManager.spec.js:76-104 | every write and every reset leaves the slot in step with the mapping: its encoding, or absent with an empty mapping |
| StoreProperties.NoStorageInitClean | test/unit/storageManager.spec.js:108-131 | without storage, loading gives no slot, an empty mapping and no warning, whatever the navigation and slot |
| StoreProperties.NoJSONInitClean | test/unit/storageManager.spec.js:133-156 | without a JSON codec, loading never decodes: the mapping is empty and there is no warning |
| StoreProperties.RunMatchesMemory | test/unit/storageManager.spec.js:107-156 | for any capabilities and any sequence of set/get/reset calls, every read equals that of a bare in-memory map given the same calls, and so do the final mappings |
| StoreProperties.RunKeepsSlotDiscipline | test/unit/storageManager.spec.js:107-156 | over any call sequence the capabilities and warning flag never change; a store lacking a capability never writes its slot and can only drop it; an in-step store stays in step |
| StoreProperties.CorruptSlotWarns | test/unit/storageManager.spec.js:164-198 | a slot that decodes to a non-object or does not decode gives a warning, reads of any key give `Undefined`, and the slot text is kept |
| StoreProperties.CorruptSamplesWarn | test/unit/storageManager.spec.js:164-198 | each of `{`, `[ 1,2,3 ]`, `1`, `1.234` and `"123"` hydrates to an empty mapping with a warning, given a decoder that classifies them as JSON does |
| PersistMigrate.Dispatch | src/persist-migrate.js:14-38 | `new` touches no store and yields an instance holding the key; with no captured `StorageManager` every plain call throws and changes nothing; otherwise zero arguments read `GLOBAL_KEY`; one non-string argument is the store write of it under `GLOBAL_KEY` and returns `undefined`; two arguments are the store write of the value under the key and return exactly that value, other keys unchanged; one string argument, or three or more, only read the key |
| PersistMigrate.GlobalRoundTrip | src/persist-migrate.js:17-26 | a non-string value passed alone is what the next zero-argument call returns |
| PersistMigrate.KeyedRoundTrip | src/persist-migrate.js:21-32 | for a string `key`, a value stored with `(key, value)` is what a later call with `key` alone returns |
| PersistMigrate.NonStringKeyReReadWritesGlobal | src/persist-migrate.js:21-32 | for a non-string `key`, `(key, value)` stores the value under the key's string form, but a later call with `key` alone returns `undefined` and stores `key` under `GLOBAL_KEY` |
| PersistMigrate.StringArgumentOnlyReads | src/persist-migrate.js:21-32 | a lone string argument is a read of that key, never a write under `GLOBAL_KEY` |
| PersistMigrate.Install | src/persist-migrate.js:4-41 | with no `eg` or no `eg.Persist`, nothing is exported or changed; otherwise `eg.Persist` becomes the adapter over the old `StorageManager`, carrying the old `isNeeded` and `prototype` and no other static property; the other namespace members are unchanged |
| PersistMigrate.InstallTwiceKeepsStatics | src/persist-migrate.js:9-11 | installing twice still carries the original `isNeeded` and `prototype`, and leaves the namespace's other members alone |
| PersistMigrate.InstallTwiceThrows | src/persist-migrate.js:12-18 | after a second install the adapter has captured no `StorageManager`: every plain call throws and leaves the store as it was, while `new` still yields an instance |
| PersistMigrate.InstallWithoutStorageManagerThrows | src/persist-migrate.js:12-18 | installing over an `eg.Persist` without `StorageManager` gives an adapter whose plain calls all throw |

Two consequences of the adapter's code that the model states:

- `PersistMigrate.Install` copies only `isNeeded` and `prototype` onto the
  new `eg.Persist` (src/persist-migrate.js:39-40). The adapter reads the
  old `StorageManager` once, when it is installed
  (src/persist-migrate.js:12), and the new function has no
  `StorageManager` of its own. A second installation therefore captures
  `undefined`, and every plain call to that adapter throws a TypeError
  (`PersistMigrate.InstallTwiceThrows`).
- A two-argument call with a non-string key stores under JavaScript's
  string form of that key (`JsonValue.PropertyKey`). For example, the
  number `1` becomes `"1"`. The same key passed alone does not read that
  value back: a lone non-string argument is a write under `GLOBAL_KEY`
  (src/persist-migrate.js:21-26). `(1)` therefore returns `undefined` and
  replaces the global value with `1`
  (`PersistMigrate.NonStringKeyReReadWritesGlobal`). A later `("1")`
  returns the stored value.

## Left out

- Browser globals (`window`, `sessionStorage`, `localStorage`, `history`,
  `location`) are left out. The slot text is an input to `Init` and a field
  of the store.
- The storage key, formed from the page address, is left out. The store has
  one slot, and the `getStorageKey`/`getStorage` accessors are replaced by
  the `slot` field.
- Detection of back/forward navigation is left out. It is a boolean input
  to `Init`.
- Real JSON parsing is left out. The decoder is a parameter with an
  abstract outcome. `StoreProperties.CorruptSamplesWarn` takes the JSON
  classification of its five texts as preconditions.
- JSON number formatting and floating point are left out. Numbers are
  integers written in decimal.
- String escaping is left out. Strings are quoted without escaping, so
  `Codec.Encode` is not injective. For example, the key `a":1,"b` with
  value `2` encodes to the same text as the keys `a` and `b` with values
  `1` and `2`.
- StoreProperties.BackForwardPreserves: no single decoder meets its
  hypothesis for two mappings that share an encoding. Because of the
  missing escaping, the guarantee holds for one mapping at a time.
- Nested objects as values are left out. Values are `undefined`, `null`,
  booleans, integers, strings and arrays.
- `Codec.Encode` writes keys in ascending order, not in insertion order as
  `JSON.stringify` does. Only determinism and length matter here.
- Lazy hydration on first access is left out. `Init` hydrates eagerly.
  Within one store no operation runs in between, so that store reads the
  same values. The warning about a slot that is not an object is also
  raised at load time in the model. The source raises it on the first
  access, so a store that is never read warns only in the model.
- Sharing of one slot between several loaded store instances is left out.
  In the tests a second instance removes the slot, and the first
  instance's reads then see nothing. In the model each store's `state` is
  authoritative and is never re-read from the slot, so an earlier store
  still reads its own values after another store resets the slot.
  `StoreProperties.FreshLoadDiscards` speaks only of the newly loaded store.
- Storage that throws (quota exceeded, private mode) is left out. A
  storage that cannot be used is modelled as `hasStorage` being false.
- `console.warn` is left out. It is the `warned` flag.
- The `window.eg` lookup is left out. The namespace is an optional input
  to `PersistMigrate.Install`.
- Built-in properties of a JavaScript function object (`name`, `length`)
  are left out. `PersistMigrate.Install`'s "no other static property"
  speaks only of properties set by code: the replacement still has its own
  `name` ("Persist") and `length` (2).
- A captured `StorageManager` that is present but is not a store object is
  left out. `Ref` always stands for a working store, and only a missing one
  makes plain calls throw.
- `instanceof` and prototype mechanics are left out. A constructor call is
  the `Construct` call shape. The prototype is an opaque `Prop`.
- Falsy but present `eg.Persist` values (`0`, `""`) are left out. They are
  folded into `None`, which the guard treats the same way.
