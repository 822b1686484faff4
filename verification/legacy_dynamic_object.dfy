/** The original container (global DynamicObject class): a PHP array
    reached by property and by offset, a change callback fired on every
    write, and one shared iteration pointer. It keeps no change record and
    has no save callback and no merge. */
module LegacyDynamicObject {
  import opened Wrappers
  import opened Values
  import opened PhpArray
  import opened ArrayCursor
  import opened Callbacks

  /** One instance. `trace` is the record of every callback dispatch made
      so far, oldest first. */
  datatype State = State(
    data: Assoc<Value>,
    cursor: nat,
    changeCallback: Option<Handle>,
    trace: seq<Event>)

  /** The data is a PHP array: no key occurs twice. */
  predicate WellFormed(o: State) {
    UniqueKeys(o.data)
  }

  /** `o'` is `o` after one write of `v` under `k`: the value is visible, a
      bound key keeps its position and an unbound one is appended, and the
      change callback hears of the write exactly once if one is
      registered. */
  ghost predicate Written(o: State, o': State, k: Key, v: Value) {
    && ToMap(o'.data) == ToMap(o.data)[k := v]
    && Keys(o'.data) == (if HasKey(o.data, k) then Keys(o.data) else Keys(o.data) + [k])
    && o'.trace == o.trace + (if o.changeCallback.Some? then [Changed(o.changeCallback.value, k, v)] else [])
    && o'.cursor == o.cursor
    && o'.changeCallback == o.changeCallback
  }

  /** `o'` is `o` with the entry for `k` cut out: the other entries keep
      their values and their order, and no callback fires. */
  ghost predicate Unbound(o: State, o': State, k: Key) {
    && ToMap(o'.data) == ToMap(o.data) - {k}
    && (forall i :: 0 <= i < |o.data| && o.data[i].0 == k ==> o'.data == o.data[..i] + o.data[i + 1..])
    && (!HasKey(o.data, k) ==> o'.data == o.data)
    && o' == o.(data := o'.data)
  }

  /** `new DynamicObject($data, $change_callback)`: the array is stored as
      it is and no callback has fired. */
  function Construct(init: Assoc<Value>, changeCallback: Option<Handle>): (o: State)
    requires UniqueKeys(init)
    ensures WellFormed(o)
    ensures ToArray(o) == init
    ensures o.changeCallback == changeCallback
    ensures o.trace == []
  {
    State(init, 0, changeCallback, [])
  }

  /** The write `__set` and `offsetSet` both perform: store, then notify
      the change callback. */
  function Write(o: State, k: Key, v: Value): (o': State)
    requires WellFormed(o)
    ensures WellFormed(o')
    ensures Written(o, o', k, v)
  {
    WriteEffect(o, k, v);
    o.(data := Put(o.data, k, v), trace := DispatchChange(o.trace, o.changeCallback, k, v))
  }

  lemma WriteEffect(o: State, k: Key, v: Value)
    requires WellFormed(o)
    ensures var o' := o.(data := Put(o.data, k, v), trace := DispatchChange(o.trace, o.changeCallback, k, v));
      WellFormed(o') && Written(o, o', k, v)
  {
    var o' := o.(data := Put(o.data, k, v), trace := DispatchChange(o.trace, o.changeCallback, k, v));
    assert UniqueKeys(o'.data) by { PutUnique(o.data, k, v); }
    assert ToMap(o'.data) == ToMap(o.data)[k := v] by { PutAsMap(o.data, k, v); }
    assert Keys(o'.data) == (if HasKey(o.data, k) then Keys(o.data) else Keys(o.data) + [k]) by {
      PutKeys(o.data, k, v);
    }
    assert o'.trace == o.trace + (if o.changeCallback.Some? then [Changed(o.changeCallback.value, k, v)] else []) by {
      DispatchChangeAppends(o.trace, o.changeCallback, k, v);
    }
  }

  /** `$o->name = $v`. */
  function SetProperty(o: State, name: string, v: Value): (o': State)
    requires WellFormed(o)
    ensures WellFormed(o')
    ensures Written(o, o', StrKey(name), v)
  {
    Write(o, StrKey(name), v)
  }

  /** `$o[$offset] = $v`, where a null offset (`$o[] = $v`) means the key
      `count($data)`, which after an unset may be a key still bound. */
  function OffsetSet(o: State, offset: Option<Key>, v: Value): (o': State)
    requires WellFormed(o)
    ensures WellFormed(o')
    ensures offset.Some? ==> Written(o, o', offset.value, v)
    ensures offset.None? ==> Written(o, o', IntKey(|o.data|), v)
    ensures offset.None? ==> (|o'.data| == |o.data| <==> HasKey(o.data, IntKey(|o.data|)))
  {
    var k := if offset.Some? then offset.value else IntKey(|o.data|);
    Write(o, k, v)
  }

  /** `isset($o[$k])`: `k` is bound to something other than null. */
  function OffsetExists(o: State, k: Key): (r: bool)
    ensures r <==> k in ToMap(o.data) && ToMap(o.data)[k] != Null
  {
    IsSet(o.data, k)
  }

  /** `isset($o->name)`. */
  function HasProperty(o: State, name: string): (r: bool)
    ensures r <==> StrKey(name) in ToMap(o.data) && ToMap(o.data)[StrKey(name)] != Null
  {
    IsSet(o.data, StrKey(name))
  }

  /** `$o[$k]`: the bound value, and null when `offsetExists` fails. */
  function OffsetGet(o: State, k: Key): (r: Value)
    ensures r == if k in ToMap(o.data) then ToMap(o.data)[k] else Null
    ensures !OffsetExists(o, k) ==> r == Null
  {
    if IsSet(o.data, k) then Lookup(o.data, k).value else Null
  }

  lemma RemoveFacts(o: State, k: Key)
    requires WellFormed(o)
    ensures WellFormed(o.(data := Remove(o.data, k)))
    ensures Unbound(o, o.(data := Remove(o.data, k)), k)
  {
    RemoveAsMap(o.data, k);
    forall i | 0 <= i < |o.data| && o.data[i].0 == k
      ensures Remove(o.data, k) == o.data[..i] + o.data[i + 1..]
    {
      RemoveCutsOne(o.data, i);
    }
  }

  /** `unset($o->name)`: unconditional removal. */
  function UnsetProperty(o: State, name: string): (o': State)
    requires WellFormed(o)
    ensures WellFormed(o')
    ensures Unbound(o, o', StrKey(name))
  {
    RemoveFacts(o, StrKey(name));
    o.(data := Remove(o.data, StrKey(name)))
  }

  /** `unset($o[$k])`: removes `k` only when `offsetExists` holds; an
      absent key, or one bound to null, leaves the object as it was. */
  function OffsetUnset(o: State, k: Key): (o': State)
    requires WellFormed(o)
    ensures WellFormed(o')
    ensures k in ToMap(o.data) && ToMap(o.data)[k] != Null ==> Unbound(o, o', k)
    ensures k in ToMap(o.data) && ToMap(o.data)[k] == Null ==> o' == o
    ensures k !in ToMap(o.data) ==> o' == o
  {
    if OffsetExists(o, k) then
      RemoveFacts(o, k);
      o.(data := Remove(o.data, k))
    else o
  }

  /** `key()`: the key under the pointer, `None` for PHP's null once the
      pointer is off the data. */
  function CurrentKey(o: State): (r: Option<Key>)
    ensures r.Some? <==> o.cursor < |o.data|
    ensures r.Some? ==> r.value == o.data[o.cursor].0 && HasKey(o.data, r.value)
  {
    KeyAt(o.data, o.cursor)
  }

  /** `current()`: the value under the pointer, PHP's false once off. */
  function Current(o: State): (r: Value)
    ensures o.cursor < |o.data| ==> r == o.data[o.cursor].1
    ensures o.cursor >= |o.data| ==> r == Bool(false)
  {
    CurrentAt(o.data, o.cursor)
  }

  /** `valid()`, defined as `key() !== null`: the pointer is on an entry. */
  function Valid(o: State): (r: bool)
    ensures r <==> o.cursor < |o.data|
  {
    CurrentKey(o).Some?
  }

  /** `rewind()`: the pointer moves to the first entry; `reset`'s result
      is returned. Nothing but the pointer changes. */
  function Rewind(o: State): (r: (State, Value))
    ensures r.0 == o.(cursor := r.0.cursor)
    ensures CurrentKey(r.0) == if |o.data| == 0 then None else Some(o.data[0].0)
    ensures r.1 == Current(r.0)
  {
    var o' := o.(cursor := 0);
    (o', Current(o'))
  }

  /** `next()`: the pointer moves one entry on; `next`'s result is
      returned. Nothing but the pointer changes. */
  function Next(o: State): (r: (State, Value))
    ensures r.0 == o.(cursor := r.0.cursor)
    ensures Valid(o) ==> CurrentKey(r.0) == if o.cursor + 1 < |o.data| then Some(o.data[o.cursor + 1].0) else None
    ensures !Valid(o) ==> r.0 == o
    ensures r.1 == Current(r.0)
  {
    var o' := o.(cursor := Advance(o.data, o.cursor));
    (o', Current(o'))
  }

  /** A `foreach` over the object: every entry once, in insertion order,
      with the pointer left off the data. */
  method Foreach(o: State) returns (visited: Assoc<Value>, o': State)
    ensures visited == o.data
    ensures o' == o.(cursor := |o.data|)
    ensures !Valid(o')
  {
    var r := Rewind(o);
    o' := r.0;
    visited := [];
    while Valid(o')
      invariant o' == o.(cursor := o'.cursor)
      invariant o'.cursor <= |o.data|
      invariant visited == o.data[..o'.cursor]
      decreases |o.data| - o'.cursor
    {
      var k := CurrentKey(o');
      var v := Current(o');
      visited := visited + [(k.value, v)];
      var n := Next(o');
      o' := n.0;
    }
  }

  /** `setChangeCallback($cb)`: replaces the change callback (null removes
      it) and dispatches nothing. */
  function SetChangeCallback(o: State, callback: Option<Handle>): (o': State)
    ensures o' == o.(changeCallback := callback)
  {
    o.(changeCallback := callback)
  }

  /** `toArray()`: the stored data array itself, entries and order as
      they are. */
  function ToArray(o: State): (r: Assoc<Value>)
    ensures r == o.data
  {
    o.data
  }

  /** Replacing the change callback leaves earlier events alone; the next
      write notifies the new callback, or nobody when it was removed. */
  lemma CallbackSwap(o: State, callback: Option<Handle>, k: Key, v: Value)
    requires WellFormed(o)
    ensures var o2 := OffsetSet(SetChangeCallback(o, callback), Some(k), v);
      && o.trace <= o2.trace
      && (callback.None? ==> o2.trace == o.trace)
      && (callback.Some? ==> o2.trace == o.trace + [Changed(callback.value, k, v)])
  {
  }

  /** Unsetting touches only the given key: every other key keeps its
      value, and an absent key leaves the object as it was. */
  lemma UnsetOnlyThatKey(o: State, name: string, j: Key)
    requires WellFormed(o)
    requires j != StrKey(name)
    ensures OffsetGet(OffsetUnset(o, StrKey(name)), j) == OffsetGet(o, j)
    ensures OffsetGet(UnsetProperty(o, name), j) == OffsetGet(o, j)
    ensures !OffsetExists(UnsetProperty(o, name), StrKey(name))
    ensures StrKey(name) !in ToMap(o.data) ==> UnsetProperty(o, name) == o
  {
  }
}
