/** The extended container (namespace DynamicObject): a PHP array reached
    by property and by offset, a change record that shadows every write and
    is never cleared, a change callback fired on every write, a save
    callback fired on request with the change record, a recursive merge
    through calling the object, and one shared iteration pointer. */
module DynamicObject {
  import opened Wrappers
  import opened Values
  import opened PhpArray
  import opened ArrayCursor
  import opened Callbacks
  import opened ReplaceRecursive

  /** One instance. `trace` is the record of every callback dispatch made
      so far, oldest first. */
  datatype State = State(
    data: Assoc<Value>,
    changes: Assoc<Value>,
    cursor: nat,
    saveCallback: Option<Handle>,
    changeCallback: Option<Handle>,
    trace: seq<Event>)

  /** Both arrays are PHP arrays: no key occurs twice. */
  predicate WellFormed(o: State) {
    UniqueKeys(o.data) && UniqueKeys(o.changes)
  }

  /** `o'` is `o` after one write of `v` under `k`: the value is visible in
      the data and in the change record, in each of the two a bound key
      keeps its position and an unbound one is appended, and the change
      callback hears of the write exactly once if one is registered. */
  ghost predicate Written(o: State, o': State, k: Key, v: Value) {
    && ToMap(o'.data) == ToMap(o.data)[k := v]
    && ToMap(o'.changes) == ToMap(o.changes)[k := v]
    && Keys(o'.data) == (if HasKey(o.data, k) then Keys(o.data) else Keys(o.data) + [k])
    && Keys(o'.changes) == (if HasKey(o.changes, k) then Keys(o.changes) else Keys(o.changes) + [k])
    && o'.trace == o.trace + (if o.changeCallback.Some? then [Changed(o.changeCallback.value, k, v)] else [])
    && o'.cursor == o.cursor
    && o'.saveCallback == o.saveCallback
    && o'.changeCallback == o.changeCallback
  }

  /** `o'` is `o` with the data entry for `k` cut out: the other entries
      keep their values and their order, and nothing else changes. In
      particular the change record still holds whatever was last written
      under `k`, and no callback fires. */
  ghost predicate Unbound(o: State, o': State, k: Key) {
    && ToMap(o'.data) == ToMap(o.data) - {k}
    && (forall i :: 0 <= i < |o.data| && o.data[i].0 == k ==> o'.data == o.data[..i] + o.data[i + 1..])
    && (!HasKey(o.data, k) ==> o'.data == o.data)
    && o' == o.(data := o'.data)
  }

  /** `new DynamicObject($data, $save_callback, $change_callback)`. An
      array argument becomes the data as it is; any other non-object
      argument leaves the data empty. The change record starts empty and
      no callback has fired. */
  function Construct(init: Value, saveCallback: Option<Handle>, changeCallback: Option<Handle>): (o: State)
    requires init.Arr? ==> UniqueKeys(init.entries)
    ensures WellFormed(o)
    ensures DataArray(o) == (if init.Arr? then init.entries else [])
    ensures ChangesArray(o) == []
    ensures o.trace == []
    ensures o.saveCallback == saveCallback && o.changeCallback == changeCallback
  {
    State(if init.Arr? then init.entries else [], [], 0, saveCallback, changeCallback, [])
  }

  /** The write `__set` and `offsetSet` share: data, then change record,
      then the change callback. */
  function Write(o: State, k: Key, v: Value): (o': State)
    requires WellFormed(o)
    ensures WellFormed(o')
    ensures Written(o, o', k, v)
  {
    WriteEffect(o, k, v);
    o.(data := Put(o.data, k, v),
       changes := Put(o.changes, k, v),
       trace := DispatchChange(o.trace, o.changeCallback, k, v))
  }

  lemma WriteEffect(o: State, k: Key, v: Value)
    requires WellFormed(o)
    ensures var o' := o.(data := Put(o.data, k, v),
                         changes := Put(o.changes, k, v),
                         trace := DispatchChange(o.trace, o.changeCallback, k, v));
      WellFormed(o') && Written(o, o', k, v)
  {
    var o' := o.(data := Put(o.data, k, v),
                 changes := Put(o.changes, k, v),
                 trace := DispatchChange(o.trace, o.changeCallback, k, v));
    assert UniqueKeys(o'.data) by { PutUnique(o.data, k, v); }
    assert UniqueKeys(o'.changes) by { PutUnique(o.changes, k, v); }
    assert ToMap(o'.data) == ToMap(o.data)[k := v] by { PutAsMap(o.data, k, v); }
    assert ToMap(o'.changes) == ToMap(o.changes)[k := v] by { PutAsMap(o.changes, k, v); }
    assert Keys(o'.data) == (if HasKey(o.data, k) then Keys(o.data) else Keys(o.data) + [k]) by {
      PutKeys(o.data, k, v);
    }
    assert Keys(o'.changes) == (if HasKey(o.changes, k) then Keys(o.changes) else Keys(o.changes) + [k]) by {
      PutKeys(o.changes, k, v);
    }
    assert o'.trace == o.trace + (if o.changeCallback.Some? then [Changed(o.changeCallback.value, k, v)] else []) by {
      DispatchChangeAppends(o.trace, o.changeCallback, k, v);
    }
  }

  /** `$o->name = $v`. */
  function SetProperty(o: State, name: string, v: Value): (o': State)
    requires WellFormed(o)
    ensures WellFormed(o')
    ensures Written(o, o', StrKey(name), v)
  {
    Write(o, StrKey(name), v)
  }

  /** `$o[$offset] = $v`, where a null offset (`$o[] = $v`) means the key
      `count($data)`. That key may already be bound after an unset, in
      which case the append overwrites it and the entry count stays put. */
  function OffsetSet(o: State, offset: Option<Key>, v: Value): (o': State)
    requires WellFormed(o)
    ensures WellFormed(o')
    ensures offset.Some? ==> Written(o, o', offset.value, v)
    ensures offset.None? ==> Written(o, o', IntKey(|o.data|), v)
    ensures offset.None? ==> (|o'.data| == |o.data| <==> HasKey(o.data, IntKey(|o.data|)))
    ensures offset.None? ==> (|o'.data| == |o.data| + 1 <==> !HasKey(o.data, IntKey(|o.data|)))
  {
    var k := if offset.Some? then offset.value else IntKey(|o.data|);
    Write(o, k, v)
  }

  /** `isset($o[$k])`: `k` is bound to something other than null. */
  function OffsetExists(o: State, k: Key): (r: bool)
    ensures r <==> k in ToMap(o.data) && ToMap(o.data)[k] != Null
  {
    IsSet(o.data, k)
  }

  /** `isset($o->name)`. */
  function HasProperty(o: State, name: string): (r: bool)
    ensures r <==> StrKey(name) in ToMap(o.data) && ToMap(o.data)[StrKey(name)] != Null
  {
    IsSet(o.data, StrKey(name))
  }

  /** `$o[$k]`: the bound value, and null when `offsetExists` fails, so a
      missing key and a key bound to null read the same. */
  function OffsetGet(o: State, k: Key): (r: Value)
    ensures r == if k in ToMap(o.data) then ToMap(o.data)[k] else Null
    ensures !OffsetExists(o, k) ==> r == Null
  {
    if IsSet(o.data, k) then Lookup(o.data, k).value else Null
  }

  lemma RemoveFacts(o: State, k: Key)
    requires WellFormed(o)
    ensures WellFormed(o.(data := Remove(o.data, k)))
    ensures Unbound(o, o.(data := Remove(o.data, k)), k)
  {
    RemoveAsMap(o.data, k);
    forall i | 0 <= i < |o.data| && o.data[i].0 == k
      ensures Remove(o.data, k) == o.data[..i] + o.data[i + 1..]
    {
      RemoveCutsOne(o.data, i);
    }
  }

  /** `unset($o->name)`: unconditional removal from the data only. */
  function UnsetProperty(o: State, name: string): (o': State)
    requires WellFormed(o)
    ensures WellFormed(o')
    ensures Unbound(o, o', StrKey(name))
  {
    RemoveFacts(o, StrKey(name));
    o.(data := Remove(o.data, StrKey(name)))
  }

  /** `unset($o[$k])`: removes `k` only when `offsetExists` holds, so a
      key bound to null stays in the data. The change record is untouched
      and no callback fires. */
  function OffsetUnset(o: State, k: Key): (o': State)
    requires WellFormed(o)
    ensures WellFormed(o')
    ensures k in ToMap(o.data) && ToMap(o.data)[k] != Null ==> Unbound(o, o', k)
    ensures k in ToMap(o.data) && ToMap(o.data)[k] == Null ==> o' == o
    ensures k !in ToMap(o.data) ==> o' == o
  {
    if OffsetExists(o, k) then
      RemoveFacts(o, k);
      o.(data := Remove(o.data, k))
    else o
  }

  /** `$o($args)`: `array_replace_recursive` applied to the data and,
      separately, to the change record. Nested arrays merge key by key,
      other values are overwritten, existing entries keep their positions,
      new keys follow in the argument's order, and no callback fires. */
  function Invoke(o: State, args: Assoc<Value>): (o': State)
    requires WellFormed(o)
    requires UniqueKeys(args)
    ensures WellFormed(o')
    ensures forall k :: Lookup(o'.data, k) == MergedAt(Lookup(o.data, k), Lookup(args, k))
    ensures forall k :: Lookup(o'.changes, k) == MergedAt(Lookup(o.changes, k), Lookup(args, k))
    ensures Keys(o'.data) == Keys(o.data) + AddedKeys(o.data, Keys(args))
    ensures Keys(o'.changes) == Keys(o.changes) + AddedKeys(o.changes, Keys(args))
    ensures o' == o.(data := o'.data, changes := o'.changes)
  {
    o.(data := Merge(o.data, args), changes := Merge(o.changes, args))
  }

  /** `key()`: the key under the pointer, `None` for PHP's null once the
      pointer is off the data. */
  function CurrentKey(o: State): (r: Option<Key>)
    ensures r.Some? <==> o.cursor < |o.data|
    ensures r.Some? ==> r.value == o.data[o.cursor].0 && HasKey(o.data, r.value)
  {
    KeyAt(o.data, o.cursor)
  }

  /** `current()`: the value under the pointer, PHP's false once off. */
  function Current(o: State): (r: Value)
    ensures o.cursor < |o.data| ==> r == o.data[o.cursor].1
    ensures o.cursor >= |o.data| ==> r == Bool(false)
  {
    CurrentAt(o.data, o.cursor)
  }

  /** While the pointer is on an entry, `current()` is what `$o[key()]`
      reads, so iteration and offset access see the same data. */
  lemma CurrentIsOffsetGet(o: State)
    requires WellFormed(o)
    requires Valid(o)
    ensures Lookup(o.data, CurrentKey(o).value) == Some(Current(o))
    ensures OffsetGet(o, CurrentKey(o).value) == Current(o)
  {
    LookupAt(o.data, o.cursor);
  }

  /** `valid()`, defined as `key() !== null`: the pointer is
      on an entry. */
  function Valid(o: State): (r: bool)
    ensures r <==> o.cursor < |o.data|
  {
    CurrentKey(o).Some?
  }

  /** `rewind()`: the pointer moves to the first entry, and `reset`'s
      result (the first value, or false for empty data) is returned.
      Nothing but the pointer changes. */
  function Rewind(o: State): (r: (State, Value))
    ensures r.0 == o.(cursor := r.0.cursor)
    ensures CurrentKey(r.0) == if |o.data| == 0 then None else Some(o.data[0].0)
    ensures r.1 == Current(r.0)
  {
    var o' := o.(cursor := 0);
    (o', Current(o'))
  }

  /** `next()`: the pointer moves one entry on, and `next`'s result (the
      new current value, or false) is returned. Nothing but the pointer
      changes; a pointer already off the data stays off. */
  function Next(o: State): (r: (State, Value))
    ensures r.0 == o.(cursor := r.0.cursor)
    ensures Valid(o) ==> CurrentKey(r.0) == if o.cursor + 1 < |o.data| then Some(o.data[o.cursor + 1].0) else None
    ensures !Valid(o) ==> r.0 == o
    ensures r.1 == Current(r.0)
  {
    var o' := o.(cursor := Advance(o.data, o.cursor));
    (o', Current(o'))
  }

  /** `n` calls of `next()`. */
  function Iterate(o: State, n: nat): State
    decreases n
  {
    if n == 0 then o else Iterate(Next(o).0, n - 1)
  }

  /** Iterating moves only the pointer, and after a rewind the `n`-th
      `next()` lands on entry `n`, or off the data once the entries are
      used up. */
  lemma {:induction false} IterateFromRewind(o: State, n: nat)
    ensures Iterate(Rewind(o).0, n) == o.(cursor := if n < |o.data| then n else |o.data|)
    ensures n < |o.data| ==> CurrentKey(Iterate(Rewind(o).0, n)) == Some(o.data[n].0)
    ensures n >= |o.data| ==> !Valid(Iterate(Rewind(o).0, n))
  {
    IterateSteps(Rewind(o).0, n);
    StepsFromStart(o.data, n);
  }

  lemma {:induction false} IterateSteps(o: State, n: nat)
    ensures Iterate(o, n) == o.(cursor := Steps(o.data, o.cursor, n))
    decreases n
  {
    if n > 0 {
      IterateSteps(Next(o).0, n - 1);
    }
  }

  /** Rewinding in the middle of a pass restarts it from the first entry,
      wherever the pointer was. */
  lemma RewindRestarts(o: State, n: nat)
    ensures Rewind(Iterate(o, n)) == Rewind(o)
  {
    IterateSteps(o, n);
  }

  /** A `foreach` over the object: rewind, then read `key()` and
      `current()` and call `next()` while `valid()`. The pass yields every
      data entry once, in insertion order, and leaves the pointer off the
      data. */
  method Foreach(o: State) returns (visited: Assoc<Value>, o': State)
    ensures visited == o.data
    ensures o' == o.(cursor := |o.data|)
    ensures !Valid(o')
  {
    var r := Rewind(o);
    o' := r.0;
    visited := [];
    while Valid(o')
      invariant o' == o.(cursor := o'.cursor)
      invariant o'.cursor <= |o.data|
      invariant visited == o.data[..o'.cursor]
      decreases |o.data| - o'.cursor
    {
      var k := CurrentKey(o');
      var v := Current(o');
      visited := visited + [(k.value, v)];
      var n := Next(o');
      o' := n.0;
    }
  }

  /** `setChangeCallback($cb)`: replaces the change callback (null removes
      it) and dispatches nothing. */
  function SetChangeCallback(o: State, callback: Option<Handle>): (o': State)
    ensures o' == o.(changeCallback := callback)
  {
    o.(changeCallback := callback)
  }

  /** `setSaveCallback($cb)`: replaces the save callback (null removes it)
      and dispatches nothing. */
  function SetSaveCallback(o: State, callback: Option<Handle>): (o': State)
    ensures o' == o.(saveCallback := callback)
  {
    o.(saveCallback := callback)
  }

  /** `save()`: hands the change record to the save callback, if one is
      registered, and does not clear it. The callback's result is foreign
      and not modelled. */
  function Save(o: State): (o': State)
    ensures o' == o.(trace := o'.trace)
    ensures o'.trace == o.trace + (if o.saveCallback.Some? then [Saved(o.saveCallback.value, o.changes)] else [])
  {
    o.(trace := DispatchSave(o.trace, o.saveCallback, o.changes))
  }

  /** `dataArray()`: the stored data array itself, entries and order as
      they are. */
  function DataArray(o: State): (r: Assoc<Value>)
    ensures r == o.data
  {
    o.data
  }

  /** `changesArray()`: the stored change record itself. */
  function ChangesArray(o: State): (r: Assoc<Value>)
    ensures r == o.changes
  {
    o.changes
  }

  // Properties that relate several calls.

  /** A write reads back: `offsetGet` returns the value, `offsetExists`
      holds unless the value is null, and the change record holds the
      value too. */
  lemma WriteReadsBack(o: State, k: Key, v: Value)
    requires WellFormed(o)
    ensures OffsetGet(OffsetSet(o, Some(k), v), k) == v
    ensures OffsetExists(OffsetSet(o, Some(k), v), k) <==> v != Null
    ensures Lookup(ChangesArray(OffsetSet(o, Some(k), v)), k) == Some(v)
  {
  }

  /** Property access and offset access agree on writes and on `isset`;
      the two unsets differ exactly on a property bound to null, which
      `unset($o->name)` removes and `unset($o['name'])` keeps. */
  lemma PropertyAndOffsetPaths(o: State, name: string, v: Value)
    requires WellFormed(o)
    ensures SetProperty(o, name, v) == OffsetSet(o, Some(StrKey(name)), v)
    ensures HasProperty(o, name) == OffsetExists(o, StrKey(name))
    ensures OffsetUnset(o, StrKey(name)) == UnsetProperty(o, name) <==> Lookup(o.data, StrKey(name)) != Some(Null)
  {
    var k := StrKey(name);
    if Lookup(o.data, k) == Some(Null) {
      assert HasKey(o.data, k);
      assert !HasKey(Remove(o.data, k), k);
      assert UnsetProperty(o, name).data != o.data;
    }
  }

  /** Unsetting a written property removes it from the data but the change
      record keeps the last value written, and no callback fires. */
  lemma UnsetKeepsChange(o: State, name: string, v: Value)
    requires WellFormed(o)
    ensures var o2 := UnsetProperty(SetProperty(o, name, v), name);
      && !HasProperty(o2, name)
      && OffsetGet(o2, StrKey(name)) == Null
      && Lookup(ChangesArray(o2), StrKey(name)) == Some(v)
      && o2.trace == SetProperty(o, name, v).trace
  {
    var o1 := SetProperty(o, name, v);
    assert StrKey(name) in ToMap(o1.changes);
  }

  /** Saving never clears the change record: two saves in a row hand the
      save callback the same record twice. */
  lemma SaveTwice(o: State)
    requires o.saveCallback.Some?
    ensures Save(Save(o)).changes == o.changes
    ensures Save(Save(o)).trace == o.trace + [Saved(o.saveCallback.value, o.changes), Saved(o.saveCallback.value, o.changes)]
  {
  }

  /** Replacing the change callback leaves earlier events alone; the next
      write notifies the new callback, or nobody when it was removed. */
  lemma CallbackSwap(o: State, callback: Option<Handle>, k: Key, v: Value)
    requires WellFormed(o)
    ensures var o2 := OffsetSet(SetChangeCallback(o, callback), Some(k), v);
      && o.trace <= o2.trace
      && (callback.None? ==> o2.trace == o.trace)
      && (callback.Some? ==> o2.trace == o.trace + [Changed(callback.value, k, v)])
  {
  }

  /** Replacing the save callback leaves earlier events alone; the next
      save hands the change record to the new callback, or to nobody when
      it was removed, and the change callback does not hear of it. */
  lemma SaveCallbackSwap(o: State, callback: Option<Handle>)
    ensures var o2 := Save(SetSaveCallback(o, callback));
      && o.trace <= o2.trace
      && (callback.None? ==> o2.trace == o.trace)
      && (callback.Some? ==> o2.trace == o.trace + [Saved(callback.value, o.changes)])
      && o2.changeCallback == o.changeCallback
  {
  }

  /** On an empty object two appends produce the keys 0 and 1, in that
      order. */
  lemma AppendTwiceOnEmpty(a: Value, b: Value)
    ensures var o := OffsetSet(OffsetSet(Construct(Arr([]), None, None), None, a), None, b);
      o.data == [(IntKey(0), a), (IntKey(1), b)]
  {
    var o0 := Construct(Arr([]), None, None);
    var o1 := OffsetSet(o0, None, a);
    assert o1.data == [(IntKey(0), a)];
    assert !HasKey(o1.data, IntKey(1));
  }

  /** After an unset, the append key `count($data)` can be a key that is
      still bound: the append then overwrites that entry instead of adding
      one. */
  lemma AppendAfterUnsetOverwrites(a: Value, b: Value, c: Value)
    requires a != Null
    ensures var o := Construct(Arr([(IntKey(0), a), (IntKey(1), b)]), None, None);
      OffsetSet(OffsetUnset(o, IntKey(0)), None, c).data == [(IntKey(1), c)]
  {
    var o := Construct(Arr([(IntKey(0), a), (IntKey(1), b)]), None, None);
    assert Lookup(o.data, IntKey(0)) == Some(a);
    var o1 := OffsetUnset(o, IntKey(0));
    assert o1.data == [(IntKey(1), b)];
    assert HasKey(o1.data, IntKey(1));
  }
}
