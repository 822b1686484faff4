/** Sequences of operations on the extended container, to state what the
    change record is over a whole lifetime: it only ever grows, and it
    grows by exactly the keys that writes and merges touched. Unsets,
    saves, iteration and callback swaps never change it. */
module History {
  import opened Wrappers
  import opened Values
  import opened PhpArray
  import opened Callbacks
  import opened ReplaceRecursive
  import opened DynamicObject

  /** One call on the public surface that can change the state. */
  datatype Op =
    | SetProp(name: string, v: Value)
    | SetOffset(offset: Option<Key>, v: Value)
    | UnsetProp(name: string)
    | UnsetOffset(key: Key)
    | Call(args: Assoc<Value>)
    | RewindOp
    | NextOp
    | SetChangeCb(callback: Option<Handle>)
    | SetSaveCb(callback: Option<Handle>)
    | SaveOp

  /** Every argument array is a PHP array. */
  predicate ValidOps(ops: seq<Op>) {
    forall i :: 0 <= i < |ops| ==> (ops[i].Call? ==> UniqueKeys(ops[i].args))
  }

  function Apply(o: State, op: Op): (o': State)
    requires WellFormed(o)
    requires op.Call? ==> UniqueKeys(op.args)
    ensures WellFormed(o')
  {
    match op
    case SetProp(name, v) => SetProperty(o, name, v)
    case SetOffset(offset, v) => OffsetSet(o, offset, v)
    case UnsetProp(name) => UnsetProperty(o, name)
    case UnsetOffset(k) => OffsetUnset(o, k)
    case Call(args) => Invoke(o, args)
    case RewindOp => Rewind(o).0
    case NextOp => Next(o).0
    case SetChangeCb(cb) => SetChangeCallback(o, cb)
    case SetSaveCb(cb) => SetSaveCallback(o, cb)
    case SaveOp => Save(o)
  }

  function Run(o: State, ops: seq<Op>): (o': State)
    requires WellFormed(o)
    requires ValidOps(ops)
    ensures WellFormed(o')
    decreases |ops|
  {
    if |ops| == 0 then o else Run(Apply(o, ops[0]), ops[1..])
  }

  /** The keys one operation writes into the change record: the key of a
      property or offset write (an append writes `count($data)`), and
      every key of a merge's argument. */
  function StepKeys(o: State, op: Op): set<Key> {
    match op
    case SetProp(name, _) => {StrKey(name)}
    case SetOffset(offset, _) => {if offset.Some? then offset.value else IntKey(|o.data|)}
    case Call(args) => ToMap(args).Keys
    case _ => {}
  }

  /** The keys a run of operations writes into the change record. */
  function WrittenKeys(o: State, ops: seq<Op>): set<Key>
    requires WellFormed(o)
    requires ValidOps(ops)
    decreases |ops|
  {
    if |ops| == 0 then {} else StepKeys(o, ops[0]) + WrittenKeys(Apply(o, ops[0]), ops[1..])
  }

  /** One operation adds exactly its written keys to the change record;
      any operation that writes nothing leaves the record as it was. */
  lemma StepChanges(o: State, op: Op)
    requires WellFormed(o)
    requires op.Call? ==> UniqueKeys(op.args)
    ensures ToMap(Apply(o, op).changes).Keys == ToMap(o.changes).Keys + StepKeys(o, op)
    ensures !(op.SetProp? || op.SetOffset? || op.Call?) ==> Apply(o, op).changes == o.changes
  {
    if op.SetProp? {
      SetPropChanges(o, op.name, op.v);
    } else if op.SetOffset? {
      SetOffsetChanges(o, op.offset, op.v);
    } else if op.Call? {
      MergedKeys(o, op.args);
    } else {
      OtherChanges(o, op);
    }
  }

  /** A property write adds its name to the change record. */
  lemma SetPropChanges(o: State, name: string, v: Value)
    requires WellFormed(o)
    ensures ToMap(Apply(o, SetProp(name, v)).changes).Keys == ToMap(o.changes).Keys + {StrKey(name)}
  {
    WrittenKeys1(o, SetProperty(o, name, v), StrKey(name), v);
  }

  /** An offset write adds its key, `count($data)` for an append. */
  lemma SetOffsetChanges(o: State, offset: Option<Key>, v: Value)
    requires WellFormed(o)
    ensures ToMap(Apply(o, SetOffset(offset, v)).changes).Keys
         == ToMap(o.changes).Keys + {if offset.Some? then offset.value else IntKey(|o.data|)}
  {
    var k := if offset.Some? then offset.value else IntKey(|o.data|);
    assert ToMap(OffsetSet(o, offset, v).changes).Keys == ToMap(o.changes).Keys + {k} by {
      WrittenKeys1(o, OffsetSet(o, offset, v), k, v);
    }
  }

  /** Unsets, iteration, callback swaps and saves leave the record alone. */
  lemma OtherChanges(o: State, op: Op)
    requires WellFormed(o)
    requires !(op.SetProp? || op.SetOffset? || op.Call?)
    ensures Apply(o, op).changes == o.changes
  {
  }

  /** A merge adds every key of its argument. */
  lemma MergedKeys(o: State, args: Assoc<Value>)
    requires WellFormed(o)
    requires UniqueKeys(args)
    ensures ToMap(Invoke(o, args).changes).Keys == ToMap(o.changes).Keys + ToMap(args).Keys
  {
    MergedDomain(o.changes, args, Invoke(o, args).changes);
  }

  /** An array whose every key reads as the merge of two others has as its
      keys exactly the keys of both. */
  lemma MergedDomain(base: Assoc<Value>, patch: Assoc<Value>, r: Assoc<Value>)
    requires forall k :: Lookup(r, k) == MergedAt(Lookup(base, k), Lookup(patch, k))
    ensures ToMap(r).Keys == ToMap(base).Keys + ToMap(patch).Keys
  {
    forall k ensures k in ToMap(r) <==> k in ToMap(base) || k in ToMap(patch) {
      MergedAtBound(Lookup(base, k), Lookup(patch, k));
    }
  }

  /** The per-key merge rule binds a key exactly when either side does. */
  lemma MergedAtBound(prior: Option<Value>, replacement: Option<Value>)
    ensures MergedAt(prior, replacement).Some? <==> prior.Some? || replacement.Some?
  {
  }

  /** A single write adds exactly its key to the change record. */
  lemma WrittenKeys1(o: State, o': State, k: Key, v: Value)
    requires Written(o, o', k, v)
    ensures ToMap(o'.changes).Keys == ToMap(o.changes).Keys + {k}
  {
    UpdatedDomain(ToMap(o.changes), ToMap(o'.changes), k, v);
  }

  lemma UpdatedDomain(a: map<Key, Value>, b: map<Key, Value>, k: Key, v: Value)
    requires b == a[k := v]
    ensures b.Keys == a.Keys + {k}
  {
  }

  /** Over a whole run the change record only grows, and by exactly the
      keys the run's writes and merges touched. */
  lemma {:induction false} RunChanges(o: State, ops: seq<Op>)
    requires WellFormed(o)
    requires ValidOps(ops)
    ensures ToMap(Run(o, ops).changes).Keys == ToMap(o.changes).Keys + WrittenKeys(o, ops)
    decreases |ops|
  {
    if |ops| > 0 {
      var o1, rest := Apply(o, ops[0]), ops[1..];
      assert ValidOps(rest) by {
        forall i | 0 <= i < |rest| ensures rest[i].Call? ==> UniqueKeys(rest[i].args) {
          assert rest[i] == ops[i + 1];
        }
      }
      StepChanges(o, ops[0]);
      RunChanges(o1, rest);
      UnionAssoc(ToMap(o.changes).Keys, StepKeys(o, ops[0]), WrittenKeys(o1, rest));
    }
  }

  lemma UnionAssoc(a: set<Key>, b: set<Key>, c: set<Key>)
    ensures (a + b) + c == a + (b + c)
  {
  }

  /** Starting from construction, the change record holds exactly the keys
      written or merged since, whatever unsets and saves came between. */
  lemma ChangesSinceConstruction(init: Value, saveCallback: Option<Handle>, changeCallback: Option<Handle>, ops: seq<Op>)
    requires init.Arr? ==> UniqueKeys(init.entries)
    requires ValidOps(ops)
    ensures var o := Construct(init, saveCallback, changeCallback);
      ToMap(ChangesArray(Run(o, ops))).Keys == WrittenKeys(o, ops)
  {
    RunChanges(Construct(init, saveCallback, changeCallback), ops);
  }
}
