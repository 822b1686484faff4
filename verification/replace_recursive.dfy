/** PHP's `array_replace_recursive($base, $replacement)`: the replacement's
    entries are applied to the base one by one, in order. Where both sides
    hold an array under the same key, the two arrays are merged the same
    way; otherwise the replacement's value is written over the base's
    (a bound key keeps its position, a new key is appended). */
module ReplaceRecursive {
  import opened Wrappers
  import opened Values
  import opened PhpArray

  /** The base after applying the replacement's entries from position `i`
      on. */
  function MergeFrom(base: Assoc<Value>, patch: Assoc<Value>, i: nat): Assoc<Value>
    requires i <= |patch|
    decreases Arr(patch), |patch| - i
  {
    if i == |patch| then base
    else
      var (k, pv) := patch[i];
      MergeFrom(Put(base, k, Replaced(Lookup(base, k), pv)), patch, i + 1)
  }

  /** The value one replacement entry leaves under its key, given what the
      base held there: two arrays merge key by key, anything else is
      overwritten by the replacement value. */
  function Replaced(prior: Option<Value>, pv: Value): Value
    decreases pv, if pv.Arr? then |pv.entries| + 1 else 0
  {
    match pv
    case Arr(ps) =>
      (match prior
       case Some(Arr(bs)) => Arr(MergeFrom(bs, ps, 0))
       case _ => pv)
    case _ => pv
  }

  /** Per key: a key the replacement lacks keeps the base's binding, and a
      key it has gets the replaced value. */
  function MergedAt(prior: Option<Value>, replacement: Option<Value>): Option<Value> {
    match replacement
    case None => prior
    case Some(pv) => Some(Replaced(prior, pv))
  }

  lemma UniqueSuffix<V>(m: Assoc<V>, i: nat)
    requires UniqueKeys(m)
    requires i < |m|
    ensures UniqueKeys(m[i + 1..])
    ensures m[i..] == [m[i]] + m[i + 1..]
    ensures !HasKey(m[i + 1..], m[i].0)
  {
    var rest := m[i + 1..];
    forall q | 0 <= q < |rest| ensures rest[q].0 != m[i].0 {
      assert rest[q] == m[i + 1 + q];
    }
  }

  lemma {:induction false} MergeFromLookup(base: Assoc<Value>, patch: Assoc<Value>, i: nat, k: Key)
    requires i <= |patch|
    requires UniqueKeys(patch)
    ensures Lookup(MergeFrom(base, patch, i), k) == MergedAt(Lookup(base, k), Lookup(patch[i..], k))
    decreases |patch| - i
  {
    if i < |patch| {
      var (k0, pv) := patch[i];
      var b1 := Put(base, k0, Replaced(Lookup(base, k0), pv));
      var tail := patch[i..];
      MergeFromLookup(b1, patch, i + 1, k);
      UniqueSuffix(patch, i);
      assert tail[0] == (k0, pv) && tail[1..] == patch[i + 1..];
      if k == k0 {
        assert Lookup(tail, k) == Some(pv);
        assert Lookup(patch[i + 1..], k) == None;
        assert Lookup(b1, k) == Some(Replaced(Lookup(base, k), pv));
      } else {
        assert Lookup(tail, k) == Lookup(patch[i + 1..], k);
        assert Lookup(b1, k) == Lookup(base, k);
      }
    } else {
      assert patch[i..] == [];
    }
  }

  /** One step of the fold. */
  lemma MergeFromStep(base: Assoc<Value>, patch: Assoc<Value>, i: nat)
    requires i < |patch|
    ensures MergeFrom(base, patch, i)
         == MergeFrom(Put(base, patch[i].0, Replaced(Lookup(base, patch[i].0), patch[i].1)), patch, i + 1)
  {
  }

  lemma {:induction false} MergeFromPrefix(base: Assoc<Value>, patch: Assoc<Value>, i: nat)
    requires i <= |patch|
    ensures Keys(base) <= Keys(MergeFrom(base, patch, i))
    decreases |patch| - i
  {
    if i < |patch| {
      var b1 := Put(base, patch[i].0, Replaced(Lookup(base, patch[i].0), patch[i].1));
      MergeFromStep(base, patch, i);
      PutKeys(base, patch[i].0, Replaced(Lookup(base, patch[i].0), patch[i].1));
      MergeFromPrefix(b1, patch, i + 1);
      PrefixTrans(Keys(base), Keys(b1), Keys(MergeFrom(b1, patch, i + 1)));
    }
  }

  lemma PrefixTrans(a: seq<Key>, b: seq<Key>, c: seq<Key>)
    requires a <= b && b <= c
    ensures a <= c
  {
    assert c[..|a|] == b[..|a|];
  }

  lemma {:induction false} MergeFromUnique(base: Assoc<Value>, patch: Assoc<Value>, i: nat)
    requires i <= |patch|
    requires UniqueKeys(base)
    ensures UniqueKeys(MergeFrom(base, patch, i))
    decreases |patch| - i
  {
    if i < |patch| {
      var b1 := Put(base, patch[i].0, Replaced(Lookup(base, patch[i].0), patch[i].1));
      MergeFromStep(base, patch, i);
      PutUnique(base, patch[i].0, Replaced(Lookup(base, patch[i].0), patch[i].1));
      MergeFromUnique(b1, patch, i + 1);
    }
  }

  /** The keys of `ks` that `base` does not bind, in the order of `ks`. */
  function AddedKeys(base: Assoc<Value>, ks: seq<Key>): (r: seq<Key>)
    ensures forall i :: 0 <= i < |r| ==> !HasKey(base, r[i])
  {
    if |ks| == 0 then []
    else (if HasKey(base, ks[0]) then [] else [ks[0]]) + AddedKeys(base, ks[1..])
  }

  /** Which keys are added depends only on whether each one is bound. */
  lemma {:induction false} AddedKeysAgree(a: Assoc<Value>, b: Assoc<Value>, ks: seq<Key>)
    requires forall i :: 0 <= i < |ks| ==> (HasKey(a, ks[i]) <==> HasKey(b, ks[i]))
    ensures AddedKeys(a, ks) == AddedKeys(b, ks)
  {
    if |ks| > 0 {
      assert HasKey(a, ks[0]) <==> HasKey(b, ks[0]);
      forall i | 0 <= i < |ks[1..]| ensures HasKey(a, ks[1..][i]) <==> HasKey(b, ks[1..][i]) {
        assert ks[1..][i] == ks[i + 1];
      }
      AddedKeysAgree(a, b, ks[1..]);
    }
  }

  /** The fold appends the keys the base lacks, in the replacement's order. */
  lemma {:induction false} MergeFromKeys(base: Assoc<Value>, patch: Assoc<Value>, i: nat)
    requires i <= |patch|
    requires UniqueKeys(patch)
    ensures Keys(MergeFrom(base, patch, i)) == Keys(base) + AddedKeys(base, Keys(patch)[i..])
    decreases |patch| - i
  {
    var ks := Keys(patch)[i..];
    if i < |patch| {
      var k0 := patch[i].0;
      var b1 := Put(base, k0, Replaced(Lookup(base, k0), patch[i].1));
      var rest := Keys(patch)[i + 1..];
      var added := if HasKey(base, k0) then [] else [k0];
      assert ks[0] == k0 && ks[1..] == rest;
      MergeFromStep(base, patch, i);
      MergeFromKeys(b1, patch, i + 1);
      PutKeys(base, k0, Replaced(Lookup(base, k0), patch[i].1));
      AddedAfterStep(base, patch, i);
      assert AddedKeys(base, ks) == added + AddedKeys(base, rest);
      ConcatAssoc(Keys(base), added, AddedKeys(base, rest));
    } else {
      assert ks == [];
    }
  }

  /** One step of the fold does not change which later keys count as new. */
  lemma AddedAfterStep(base: Assoc<Value>, patch: Assoc<Value>, i: nat)
    requires i < |patch|
    requires UniqueKeys(patch)
    ensures var b1 := Put(base, patch[i].0, Replaced(Lookup(base, patch[i].0), patch[i].1));
      AddedKeys(b1, Keys(patch)[i + 1..]) == AddedKeys(base, Keys(patch)[i + 1..])
  {
    var k0 := patch[i].0;
    var b1 := Put(base, k0, Replaced(Lookup(base, k0), patch[i].1));
    var rest := Keys(patch)[i + 1..];
    forall q | 0 <= q < |rest| ensures HasKey(b1, rest[q]) <==> HasKey(base, rest[q]) {
      assert rest[q] == patch[i + 1 + q].0;
      assert Lookup(b1, rest[q]) == Lookup(base, rest[q]);
    }
    AddedKeysAgree(b1, base, rest);
  }

  lemma ConcatAssoc<T>(a: seq<T>, b: seq<T>, c: seq<T>)
    ensures (a + b) + c == a + (b + c)
  {
  }

  lemma MergeFacts(base: Assoc<Value>, patch: Assoc<Value>)
    ensures UniqueKeys(patch) ==>
      forall k :: Lookup(MergeFrom(base, patch, 0), k) == MergedAt(Lookup(base, k), Lookup(patch, k))
    ensures UniqueKeys(patch) ==>
      Keys(MergeFrom(base, patch, 0)) == Keys(base) + AddedKeys(base, Keys(patch))
    ensures Keys(base) <= Keys(MergeFrom(base, patch, 0))
    ensures UniqueKeys(base) ==> UniqueKeys(MergeFrom(base, patch, 0))
  {
    if UniqueKeys(patch) {
      forall k ensures Lookup(MergeFrom(base, patch, 0), k) == MergedAt(Lookup(base, k), Lookup(patch, k)) {
        MergeFromLookup(base, patch, 0, k);
        assert patch[0..] == patch;
      }
      MergeFromKeys(base, patch, 0);
      assert Keys(patch)[0..] == Keys(patch);
    }
    MergeFromPrefix(base, patch, 0);
    if UniqueKeys(base) {
      MergeFromUnique(base, patch, 0);
    }
  }

  /** `array_replace_recursive($base, $patch)`. Every key keeps the base's
      binding unless the replacement has it, in which case it holds the
      replaced value; the base's entries keep their positions and the keys
      it lacks follow in the replacement's order; unique keys stay unique. */
  function Merge(base: Assoc<Value>, patch: Assoc<Value>): (r: Assoc<Value>)
    ensures UniqueKeys(patch) ==>
      forall k :: Lookup(r, k) == MergedAt(Lookup(base, k), Lookup(patch, k))
    ensures UniqueKeys(patch) ==> Keys(r) == Keys(base) + AddedKeys(base, Keys(patch))
    ensures Keys(base) <= Keys(r)
    ensures UniqueKeys(base) ==> UniqueKeys(r)
  {
    MergeFacts(base, patch);
    MergeFrom(base, patch, 0)
  }

  lemma {:induction false} MergeFromDisjoint(base: Assoc<Value>, patch: Assoc<Value>, i: nat)
    requires i <= |patch|
    requires UniqueKeys(patch)
    requires forall j :: i <= j < |patch| ==> !HasKey(base, patch[j].0)
    ensures MergeFrom(base, patch, i) == base + patch[i..]
    decreases |patch| - i
  {
    if i < |patch| {
      var b1 := base + [patch[i]];
      AppendStep(base, patch, i);
      forall j | i + 1 <= j < |patch| ensures !HasKey(b1, patch[j].0) {
        NotInSnoc(base, patch[j].0, patch[i]);
      }
      MergeFromDisjoint(b1, patch, i + 1);
      SuffixCons(base, patch, i);
    } else {
      assert patch[i..] == [];
    }
  }

  lemma SuffixCons(base: Assoc<Value>, patch: Assoc<Value>, i: nat)
    requires i < |patch|
    ensures (base + [patch[i]]) + patch[i + 1..] == base + patch[i..]
  {
    assert patch[i..] == [patch[i]] + patch[i + 1..];
  }

  /** A replacement entry whose key the base lacks is appended verbatim. */
  lemma AppendStep(base: Assoc<Value>, patch: Assoc<Value>, i: nat)
    requires i < |patch|
    requires !HasKey(base, patch[i].0)
    ensures MergeFrom(base, patch, i) == MergeFrom(base + [patch[i]], patch, i + 1)
  {
    var (k0, pv) := patch[i];
    assert Lookup(base, k0) == None;
    assert Put(base, k0, Replaced(None, pv)) == base + [patch[i]];
  }

  lemma NotInSnoc(m: Assoc<Value>, k: Key, e: (Key, Value))
    requires !HasKey(m, k)
    requires e.0 != k
    ensures !HasKey(m + [e], k)
  {
    var m' := m + [e];
    forall q | 0 <= q < |m'| ensures m'[q].0 != k {
      if q < |m| {
        assert m'[q] == m[q];
      }
    }
  }

  /** Keys the base lacks are appended in the replacement's order with the
      replacement's values: merging into an array that shares no key with
      the replacement is concatenation. */
  lemma MergeDisjoint(base: Assoc<Value>, patch: Assoc<Value>)
    requires UniqueKeys(patch)
    requires forall k :: HasKey(patch, k) ==> !HasKey(base, k)
    ensures Merge(base, patch) == base + patch
  {
    forall j | 0 <= j < |patch| ensures !HasKey(base, patch[j].0) {
      assert HasKey(patch, patch[j].0);
    }
    MergeFromDisjoint(base, patch, 0);
    assert patch[0..] == patch;
  }
}
