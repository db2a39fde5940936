/**
  The legacy adapter: `eg.Persist` replaced by one function that overloads on
  how it is called and delegates every read and write to the state store.

  A call is described by its shape instead of by inspecting `this` and the
  argument count at run time: `Construct(key)` is `new Persist(key)`,
  `Plain(args)` a plain call with exactly those arguments.
 */
module PersistMigrate {
  import opened Wrappers
  import opened JsonValue
  import opened StorageManager

  /** The key under which the zero- and one-argument calls keep their value. */
  const GLOBAL_KEY: string := "KEY___persist___"

  /** A property value on the `eg.Persist` function object; `Missing` reads as `undefined`. */
  datatype Prop = Missing | Ref(id: nat)

  /**
    Which code a `Persist` function object runs. The adapter closes over the
    `StorageManager` property the old function had when it was installed:
    `Ref` is a store object, `Missing` means there was none.
   */
  datatype Code = Original(id: nat) | LegacyAdapter(storageManager: Prop)

  datatype Call = Construct(key: Value) | Plain(args: seq<Value>)

  /**
    What a call yields: the value a plain call returns; for a constructor
    call, the new instance (the function returns `undefined`, so `new` yields
    the instance, whose only own field is `key`); or a TypeError, raised when
    a plain call reaches for a method of a missing `StorageManager`.
   */
  datatype Outcome = Returned(value: Value) | Instance(key: Value) | Threw

  datatype Reply = Reply(store: Store, outcome: Outcome)

  /**
    The adapter's behaviour for one call. `storageManager` is the property
    the adapter captured at installation; when it is a store object, `s` is
    that store's state.
   */
  function Dispatch(storageManager: Prop, s: Store, call: Call): (r: Reply)
    ensures call.Construct? ==> r.store == s && r.outcome == Instance(call.key)
    ensures call.Plain? && storageManager.Missing? ==> r.store == s && r.outcome == Threw
    ensures call.Plain? && storageManager.Ref? ==> r.outcome.Returned?
    ensures call.Plain? && storageManager.Ref? && |call.args| == 0 ==>
      r.store == s && r.outcome.value == GetStateByKey(s, GLOBAL_KEY)
    ensures call.Plain? && storageManager.Ref? && |call.args| == 1 && !call.args[0].Str? ==>
      && r.store == SetStateByKey(s, GLOBAL_KEY, call.args[0])
      && r.outcome.value == Undefined
      && GetStateByKey(r.store, GLOBAL_KEY) == call.args[0]
      && forall k :: k != GLOBAL_KEY ==> GetStateByKey(r.store, k) == GetStateByKey(s, k)
    ensures call.Plain? && storageManager.Ref? && |call.args| == 2 ==>
      && r.store == SetStateByKey(s, PropertyKey(call.args[0]), call.args[1])
      && r.outcome.value == call.args[1]
      && GetStateByKey(r.store, PropertyKey(call.args[0])) == call.args[1]
      && forall k :: k != PropertyKey(call.args[0]) ==> GetStateByKey(r.store, k) == GetStateByKey(s, k)
    ensures call.Plain? && storageManager.Ref? &&
            ((|call.args| == 1 && call.args[0].Str?) || |call.args| >= 3) ==>
      r.store == s && r.outcome.value == GetStateByKey(s, PropertyKey(call.args[0]))
  {
    match call
    case Construct(key) => Reply(s, Instance(key))
    case Plain(args) =>
      if storageManager.Missing? then
        Reply(s, Threw)
      else if |args| == 0 then
        Reply(s, Returned(GetStateByKey(s, GLOBAL_KEY)))
      else if |args| == 1 && !args[0].Str? then
        Reply(SetStateByKey(s, GLOBAL_KEY, args[0]), Returned(Undefined))
      else
        var key := PropertyKey(args[0]);
        var next := if |args| == 2 then SetStateByKey(s, key, args[1]) else s;
        Reply(next, Returned(GetStateByKey(next, key)))
  }

  /** A single non-string value stored by a one-argument call is what the next zero-argument call returns. */
  lemma GlobalRoundTrip(storageManager: Prop, s: Store, v: Value)
    requires storageManager.Ref?
    requires !v.Str?
    ensures Dispatch(storageManager, Dispatch(storageManager, s, Plain([v])).store, Plain([])).outcome == Returned(v)
  {
  }

  /**
    A value stored by a two-argument call with a string key is what a later
    one-argument call with that string returns. The round trip needs the
    key to be a string: see `NonStringKeyReReadWritesGlobal`.
   */
  lemma KeyedRoundTrip(storageManager: Prop, s: Store, key: string, v: Value)
    requires storageManager.Ref?
    ensures Dispatch(storageManager, Dispatch(storageManager, s, Plain([Str(key), v])).store, Plain([Str(key)])).outcome
         == Returned(v)
  {
  }

  /**
    With a non-string key the round trip fails. The two-argument call stores
    the value under the key's string form, but the later one-argument call
    with the same key is a write of that key under the global key: it
    returns `undefined`, and the global key then holds the key itself.
   */
  lemma NonStringKeyReReadWritesGlobal(storageManager: Prop, s: Store, key: Value, v: Value)
    requires storageManager.Ref?
    requires !key.Str?
    ensures GetStateByKey(Dispatch(storageManager, s, Plain([key, v])).store, PropertyKey(key)) == v
    ensures Dispatch(storageManager, Dispatch(storageManager, s, Plain([key, v])).store, Plain([key])).outcome
         == Returned(Undefined)
    ensures GetStateByKey(Dispatch(storageManager, Dispatch(storageManager, s, Plain([key, v])).store, Plain([key])).store,
                          GLOBAL_KEY)
         == key
  {
  }

  /**
    A one-argument call with a string reads that key and never writes: in
    particular it does not store the string under the global key.
   */
  lemma StringArgumentOnlyReads(storageManager: Prop, s: Store, key: string)
    requires storageManager.Ref?
    ensures Dispatch(storageManager, s, Plain([Str(key)])) == Reply(s, Returned(GetStateByKey(s, key)))
  {
  }

  /** A `Persist` function object: its code, its own static properties and its `prototype`. */
  datatype PersistFn = PersistFn(code: Code, statics: map<string, Prop>, prototype: Prop)

  /** The `eg` namespace: its `Persist` member (None when absent or falsy) and its other members. */
  datatype Eg = Eg(persist: Option<PersistFn>, members: map<string, Prop>)

  /** What installing the adapter exports, and the namespace it leaves behind. */
  datatype Installed = Installed(exported: Option<PersistFn>, eg: Option<Eg>)

  /** Reading a static property: `Missing` when it is not set. */
  function Static(f: PersistFn, name: string): (r: Prop)
  {
    if name in f.statics then f.statics[name] else Missing
  }

  /**
    Installing the adapter. Without a namespace, or without `Persist` in it,
    nothing is installed and nothing is exported. Otherwise `Persist` is
    replaced by a fresh function running the adapter over the old
    `StorageManager`; the new function receives the old `isNeeded` and
    `prototype` and has no other static properties, `StorageManager`
    included. The namespace's other members are untouched.
   */
  function Install(eg: Option<Eg>): (r: Installed)
    ensures eg.None? || eg.value.persist.None? ==> r == Installed(None, eg)
    ensures eg.Some? && eg.value.persist.Some? ==>
      && r.exported.Some?
      && r.eg == Some(eg.value.(persist := r.exported))
      && r.exported.value.code == LegacyAdapter(Static(eg.value.persist.value, "StorageManager"))
      && Static(r.exported.value, "isNeeded") == Static(eg.value.persist.value, "isNeeded")
      && r.exported.value.prototype == eg.value.persist.value.prototype
      && forall name :: name != "isNeeded" ==> Static(r.exported.value, name) == Missing
  {
    if eg.None? || eg.value.persist.None? then Installed(None, eg)
    else
      var previous := eg.value.persist.value;
      var replacement := PersistFn(
        LegacyAdapter(Static(previous, "StorageManager")),
        map["isNeeded" := Static(previous, "isNeeded")],
        previous.prototype);
      Installed(Some(replacement), Some(eg.value.(persist := Some(replacement))))
  }

  /** Installing a second time still carries the original `isNeeded` and `prototype` forward. */
  lemma InstallTwiceKeepsStatics(eg: Eg)
    requires eg.persist.Some?
    ensures Install(Install(Some(eg)).eg).exported.Some?
    ensures Static(Install(Install(Some(eg)).eg).exported.value, "isNeeded") == Static(eg.persist.value, "isNeeded")
    ensures Install(Install(Some(eg)).eg).exported.value.prototype == eg.persist.value.prototype
    ensures Install(Install(Some(eg)).eg).eg.value.members == eg.members
  {
  }

  /**
    Installing a second time loses the store: the first replacement has no
    `StorageManager`, so the second adapter captures `undefined` and every
    plain call to it throws, leaving the store untouched. Constructor calls
    still succeed.
   */
  lemma InstallTwiceThrows(eg: Eg, s: Store, args: seq<Value>, key: Value)
    requires eg.persist.Some?
    ensures Install(Install(Some(eg)).eg).exported.value.code == LegacyAdapter(Missing)
    ensures Dispatch(Install(Install(Some(eg)).eg).exported.value.code.storageManager, s, Plain(args))
         == Reply(s, Threw)
    ensures Dispatch(Install(Install(Some(eg)).eg).exported.value.code.storageManager, s, Construct(key))
         == Reply(s, Instance(key))
  {
  }

  /** A first installation over a `Persist` without `StorageManager` gives an adapter whose plain calls throw. */
  lemma InstallWithoutStorageManagerThrows(eg: Eg, s: Store, args: seq<Value>)
    requires eg.persist.Some? && Static(eg.persist.value, "StorageManager") == Missing
    ensures Install(Some(eg)).exported.value.code.storageManager == Missing
    ensures Dispatch(Install(Some(eg)).exported.value.code.storageManager, s, Plain(args)).outcome == Threw
  {
  }
}
