/** The extended container is the original one with extra bookkeeping:
    forgetting the change record, the save callback and the save events
    turns every extended operation into the corresponding original one. */
module Variants {
  import opened Wrappers
  import opened Values
  import opened PhpArray
  import opened Callbacks
  import E = DynamicObject
  import L = LegacyDynamicObject

  /** What the original container can see of an extended instance. */
  function Forget(o: E.State): (l: L.State)
    ensures E.WellFormed(o) ==> L.WellFormed(l)
  {
    L.State(o.data, o.cursor, o.changeCallback, ChangeEvents(o.trace))
  }

  /** Constructing from an array agrees. */
  lemma ConstructAgrees(init: Assoc<Value>, saveCallback: Option<Handle>, changeCallback: Option<Handle>)
    requires UniqueKeys(init)
    ensures Forget(E.Construct(Arr(init), saveCallback, changeCallback)) == L.Construct(init, changeCallback)
  {
  }

  /** Offset writes (including appends) agree, data and notifications
      alike; so do property writes. */
  lemma WritesAgree(o: E.State, offset: Option<Key>, name: string, v: Value)
    requires E.WellFormed(o)
    ensures Forget(E.OffsetSet(o, offset, v)) == L.OffsetSet(Forget(o), offset, v)
    ensures Forget(E.SetProperty(o, name, v)) == L.SetProperty(Forget(o), name, v)
  {
    var k := if offset.Some? then offset.value else IntKey(|o.data|);
    if o.changeCallback.Some? {
      ChangeEventsSnoc(o.trace, Changed(o.changeCallback.value, k, v));
      ChangeEventsSnoc(o.trace, Changed(o.changeCallback.value, StrKey(name), v));
    }
  }

  /** Both unsets agree. */
  lemma UnsetsAgree(o: E.State, k: Key, name: string)
    requires E.WellFormed(o)
    ensures Forget(E.OffsetUnset(o, k)) == L.OffsetUnset(Forget(o), k)
    ensures Forget(E.UnsetProperty(o, name)) == L.UnsetProperty(Forget(o), name)
  {
  }

  /** Reads agree. */
  lemma ReadsAgree(o: E.State, k: Key, name: string)
    ensures E.OffsetGet(o, k) == L.OffsetGet(Forget(o), k)
    ensures E.OffsetExists(o, k) == L.OffsetExists(Forget(o), k)
    ensures E.HasProperty(o, name) == L.HasProperty(Forget(o), name)
    ensures E.DataArray(o) == L.ToArray(Forget(o))
  {
  }

  /** The iterator agrees step by step. */
  lemma IteratorAgrees(o: E.State)
    ensures E.CurrentKey(o) == L.CurrentKey(Forget(o))
    ensures E.Current(o) == L.Current(Forget(o))
    ensures E.Valid(o) == L.Valid(Forget(o))
    ensures Forget(E.Rewind(o).0) == L.Rewind(Forget(o)).0 && E.Rewind(o).1 == L.Rewind(Forget(o)).1
    ensures Forget(E.Next(o).0) == L.Next(Forget(o)).0 && E.Next(o).1 == L.Next(Forget(o)).1
  {
  }

  /** Swapping the change callback agrees; the save side is invisible to
      the original container. */
  lemma CallbacksAgree(o: E.State, callback: Option<Handle>)
    ensures Forget(E.SetChangeCallback(o, callback)) == L.SetChangeCallback(Forget(o), callback)
    ensures Forget(E.SetSaveCallback(o, callback)) == Forget(o)
    ensures Forget(E.Save(o)) == Forget(o)
  {
    if o.saveCallback.Some? {
      ChangeEventsSnoc(o.trace, Saved(o.saveCallback.value, o.changes));
    }
  }
}
