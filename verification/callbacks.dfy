/** Callbacks are foreign code. A registered callback is an opaque handle;
    what it does is not modelled, only that it was dispatched and with
    which arguments. Each dispatch appends one event to a trace. */
module Callbacks {
  import opened Wrappers
  import opened Values
  import opened PhpArray

  /** A registered callback that PHP's `is_callable` accepts. */
  datatype Handle = Handle(id: nat)

  /** One dispatch, with the arguments that follow the instance itself. */
  datatype Event =
    | Changed(callback: Handle, key: Key, value: Value)
    | Saved(callback: Handle, changes: Assoc<Value>)

  /** Notify the change callback, if one is registered, that `k` now holds
      `v`: exactly one event then, none otherwise. */
  function DispatchChange(trace: seq<Event>, callback: Option<Handle>, k: Key, v: Value): (t: seq<Event>)
    ensures trace <= t
    ensures |t| == |trace| + (if callback.Some? then 1 else 0)
    ensures callback.Some? ==> t[|trace|] == Changed(callback.value, k, v)
  {
    if callback.Some? then trace + [Changed(callback.value, k, v)] else trace
  }

  lemma DispatchChangeAppends(trace: seq<Event>, callback: Option<Handle>, k: Key, v: Value)
    ensures DispatchChange(trace, callback, k, v)
         == trace + (if callback.Some? then [Changed(callback.value, k, v)] else [])
  {
  }

  /** Hand the change record to the save callback, if one is registered:
      exactly one event then, none otherwise. */
  function DispatchSave(trace: seq<Event>, callback: Option<Handle>, changes: Assoc<Value>): (t: seq<Event>)
    ensures trace <= t
    ensures |t| == |trace| + (if callback.Some? then 1 else 0)
    ensures callback.Some? ==> t[|trace|] == Saved(callback.value, changes)
  {
    if callback.Some? then trace + [Saved(callback.value, changes)] else trace
  }

  /** The change notifications of a trace, in order. */
  function ChangeEvents(trace: seq<Event>): (t: seq<Event>)
    ensures forall e :: e in t ==> e in trace && e.Changed?
  {
    if |trace| == 0 then []
    else
      var last := trace[|trace| - 1];
      ChangeEvents(trace[..|trace| - 1]) + (if last.Changed? then [last] else [])
  }

  /** Appending one event extends the change notifications by that event
      exactly when it is one. */
  lemma ChangeEventsSnoc(trace: seq<Event>, e: Event)
    ensures ChangeEvents(trace + [e]) == ChangeEvents(trace) + (if e.Changed? then [e] else [])
  {
    assert (trace + [e])[..|trace|] == trace;
  }
}
