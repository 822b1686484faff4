/** A PHP array as an ordered association list: the sequence order is the
    insertion order, which is the order iteration follows, and in every
    array PHP builds no key occurs twice. */
module PhpArray {
  import opened Wrappers
  import opened Values

  type Assoc<V> = seq<(Key, V)>

  /** `k` is bound somewhere in `m`. */
  predicate HasKey<V>(m: Assoc<V>, k: Key) {
    exists i :: 0 <= i < |m| && m[i].0 == k
  }

  /** No key occurs twice. */
  predicate UniqueKeys<V>(m: Assoc<V>) {
    forall i, j :: 0 <= i < j < |m| ==> m[i].0 != m[j].0
  }

  /** The keys of `m`, in iteration order. */
  function Keys<V>(m: Assoc<V>): (ks: seq<Key>)
    ensures |ks| == |m|
    ensures forall i :: 0 <= i < |m| ==> ks[i] == m[i].0
  {
    seq(|m|, i requires 0 <= i < |m| => m[i].0)
  }

  lemma HasKeyCons<V>(m: Assoc<V>, k: Key)
    requires |m| > 0
    ensures HasKey(m, k) <==> m[0].0 == k || HasKey(m[1..], k)
  {
    if HasKey(m, k) && m[0].0 != k {
      var i :| 0 <= i < |m| && m[i].0 == k;
      assert m[1..][i - 1].0 == k;
    }
    if HasKey(m[1..], k) {
      var i :| 0 <= i < |m[1..]| && m[1..][i].0 == k;
      assert m[i + 1].0 == k;
    }
  }

  /** The value bound to `k`, or `None` when `k` is unbound. */
  function Lookup<V>(m: Assoc<V>, k: Key): (r: Option<V>)
    ensures r.None? <==> !HasKey(m, k)
  {
    if |m| == 0 then None
    else if m[0].0 == k then Some(m[0].1)
    else
      HasKeyCons(m, k);
      Lookup(m[1..], k)
  }

  /** In an array with unique keys, the entry at position `i` is what a
      lookup of its key finds. */
  lemma {:induction false} LookupAt<V>(m: Assoc<V>, i: nat)
    requires UniqueKeys(m)
    requires i < |m|
    ensures Lookup(m, m[i].0) == Some(m[i].1)
  {
    if i > 0 {
      assert m[0].0 != m[i].0;
      assert m[1..][i - 1] == m[i];
      LookupAt(m[1..], i - 1);
    }
  }

  /** PHP's `$m[$k] = $v`: a bound key is overwritten where it stands, an
      unbound key is appended at the end. */
  function Put<V>(m: Assoc<V>, k: Key, v: V): (r: Assoc<V>)
    ensures Lookup(r, k) == Some(v)
    ensures forall j :: j != k ==> Lookup(r, j) == Lookup(m, j)
    ensures HasKey(m, k) ==> |r| == |m| && forall i :: 0 <= i < |m| ==> r[i].0 == m[i].0
    ensures !HasKey(m, k) ==> r == m + [(k, v)]
  {
    if |m| == 0 then [(k, v)]
    else if m[0].0 == k then
      var r := [(k, v)] + m[1..];
      assert r[1..] == m[1..];
      forall j | j != k ensures Lookup(r, j) == Lookup(m, j) {
        assert Lookup(r, j) == Lookup(m[1..], j);
      }
      r
    else
      HasKeyCons(m, k);
      var rest := Put(m[1..], k, v);
      var r := [m[0]] + rest;
      assert r[1..] == rest;
      forall j | j != k ensures Lookup(r, j) == Lookup(m, j) {
        if j != m[0].0 {
          assert Lookup(r, j) == Lookup(rest, j) == Lookup(m[1..], j);
        }
      }
      assert HasKey(m, k) ==> forall i :: 0 < i < |m| ==> r[i].0 == m[i].0 by {
        if HasKey(m, k) {
          forall i | 0 < i < |m| ensures r[i].0 == m[i].0 {
            assert r[i] == rest[i - 1] && m[i] == m[1..][i - 1];
          }
        }
      }
      assert !HasKey(m, k) ==> r == m + [(k, v)] by {
        if !HasKey(m, k) {
          assert rest == m[1..] + [(k, v)];
          assert [m[0]] + m[1..] == m;
        }
      }
      r
  }

  /** Writing keeps the key order, with an unbound key appended last. */
  lemma PutKeys<V>(m: Assoc<V>, k: Key, v: V)
    ensures Keys(Put(m, k, v)) == if HasKey(m, k) then Keys(m) else Keys(m) + [k]
    ensures Keys(m) <= Keys(Put(m, k, v))
  {
    var r := Put(m, k, v);
    if HasKey(m, k) {
      assert Keys(r) == Keys(m) by {
        forall i | 0 <= i < |m| ensures Keys(r)[i] == Keys(m)[i] {
          assert r[i].0 == m[i].0;
        }
      }
    } else {
      KeysSnoc(m, (k, v));
    }
  }

  /** Appending an entry appends its key. */
  lemma KeysSnoc<V>(m: Assoc<V>, e: (Key, V))
    ensures Keys(m + [e]) == Keys(m) + [e.0]
    ensures Keys(m) <= Keys(m + [e])
  {
    var r, ks := m + [e], Keys(m) + [e.0];
    forall i | 0 <= i < |r| ensures Keys(r)[i] == ks[i] {
      if i < |m| {
        assert r[i] == m[i];
      }
    }
    assert Keys(r) == ks;
    assert ks[..|m|] == Keys(m);
  }

  /** Writing keeps keys unique. */
  lemma PutUnique<V>(m: Assoc<V>, k: Key, v: V)
    requires UniqueKeys(m)
    ensures UniqueKeys(Put(m, k, v))
  {
    var r := Put(m, k, v);
    if HasKey(m, k) {
      assert forall i :: 0 <= i < |r| ==> r[i].0 == Keys(m)[i];
    }
  }

  /** PHP's `unset($m[$k])`: afterwards `k` is unbound, every other key
      keeps its value, and an unbound `k` leaves the array as it was. */
  function Remove<V>(m: Assoc<V>, k: Key): (r: Assoc<V>)
    ensures !HasKey(r, k)
    ensures forall j :: j != k ==> Lookup(r, j) == Lookup(m, j)
    ensures forall j :: HasKey(r, j) ==> HasKey(m, j)
    ensures !HasKey(m, k) ==> r == m
    ensures UniqueKeys(m) ==> UniqueKeys(r)
  {
    if |m| == 0 then []
    else
      HasKeyCons(m, k);
      var rest := Remove(m[1..], k);
      if m[0].0 == k then
        forall j | HasKey(rest, j) ensures HasKey(m, j) {
          HasKeyCons(m, j);
        }
        rest
      else
        var r := [m[0]] + rest;
        assert r[1..] == rest;
        forall j ensures HasKey(r, j) <==> m[0].0 == j || HasKey(rest, j) {
          HasKeyCons(r, j);
        }
        forall j | HasKey(r, j) ensures HasKey(m, j) {
          HasKeyCons(m, j);
        }
        assert !HasKey(m, k) ==> r == m by {
          if !HasKey(m, k) {
            assert [m[0]] + m[1..] == m;
          }
        }
        assert UniqueKeys(m) ==> UniqueKeys(r) by {
          if UniqueKeys(m) {
            assert UniqueKeys(m[1..]) by {
              forall i, j | 0 <= i < j < |m[1..]| ensures m[1..][i].0 != m[1..][j].0 {
                assert m[1..][i] == m[i + 1] && m[1..][j] == m[j + 1];
              }
            }
            forall j | 0 < j < |r| ensures r[0].0 != r[j].0 {
              assert HasKey(rest, r[j].0) by { assert rest[j - 1] == r[j]; }
              var q :| 0 <= q < |m[1..]| && m[1..][q].0 == r[j].0;
              assert m[q + 1].0 == r[j].0;
            }
          }
        }
        r
  }

  /** The finite map a PHP array denotes once its order is forgotten. */
  function ToMap<V>(m: Assoc<V>): (r: map<Key, V>)
    ensures forall k :: k in r <==> HasKey(m, k)
    ensures forall k :: k in r ==> Lookup(m, k) == Some(r[k])
  {
    if |m| == 0 then map[]
    else
      forall k ensures HasKey(m, k) <==> m[0].0 == k || HasKey(m[1..], k) {
        HasKeyCons(m, k);
      }
      ToMap(m[1..])[m[0].0 := m[0].1]
  }

  /** PHP's `isset($m[$k])`: `k` is bound, and not to null. */
  predicate IsSet(m: Assoc<Value>, k: Key) {
    match Lookup(m, k)
    case Some(v) => v != Null
    case None => false
  }

  lemma UniqueTail<V>(m: Assoc<V>)
    requires UniqueKeys(m)
    requires |m| > 0
    ensures UniqueKeys(m[1..])
    ensures !HasKey(m[1..], m[0].0)
  {
    forall i, j | 0 <= i < j < |m[1..]| ensures m[1..][i].0 != m[1..][j].0 {
      assert m[1..][i] == m[i + 1] && m[1..][j] == m[j + 1];
    }
    forall q | 0 <= q < |m[1..]| ensures m[1..][q].0 != m[0].0 {
      assert m[1..][q] == m[q + 1];
    }
  }

  /** Writing is map update on the denoted map. */
  lemma PutAsMap<V>(m: Assoc<V>, k: Key, v: V)
    ensures ToMap(Put(m, k, v)) == ToMap(m)[k := v]
  {
    var a, b := ToMap(Put(m, k, v)), ToMap(m)[k := v];
    PutDomain(m, k, v);
    PutValues(m, k, v);
    MapsAgree(a, b);
  }

  /** Two maps with the same keys and the same value under each are equal. */
  lemma MapsAgree<V>(a: map<Key, V>, b: map<Key, V>)
    requires a.Keys == b.Keys
    requires forall j :: j in a ==> a[j] == b[j]
    ensures a == b
  {
  }

  /** A write binds its key and no other new key. */
  lemma PutDomain<V>(m: Assoc<V>, k: Key, v: V)
    ensures ToMap(Put(m, k, v)).Keys == ToMap(m).Keys + {k}
  {
    var r := Put(m, k, v);
    forall j ensures j in ToMap(r) <==> j in ToMap(m) || j == k {
      if j != k {
        assert Lookup(r, j) == Lookup(m, j);
      }
    }
  }

  /** A write changes the value of its key only. */
  lemma PutValues<V>(m: Assoc<V>, k: Key, v: V)
    ensures k in ToMap(Put(m, k, v)) && ToMap(Put(m, k, v))[k] == v
    ensures forall j :: j in ToMap(Put(m, k, v)) && j != k ==> j in ToMap(m) && ToMap(Put(m, k, v))[j] == ToMap(m)[j]
  {
    var r := Put(m, k, v);
    assert Lookup(r, k) == Some(v);
    forall j | j in ToMap(r) && j != k ensures j in ToMap(m) && ToMap(r)[j] == ToMap(m)[j] {
      assert Lookup(r, j) == Lookup(m, j);
    }
  }

  /** Unsetting is key removal on the denoted map. */
  lemma RemoveAsMap<V>(m: Assoc<V>, k: Key)
    ensures ToMap(Remove(m, k)) == ToMap(m) - {k}
  {
    var a, b := ToMap(Remove(m, k)), ToMap(m) - {k};
    RemoveDomain(m, k);
    RemoveValues(m, k);
    MapsAgree(a, b);
  }

  /** An unset unbinds its key and no other. */
  lemma RemoveDomain<V>(m: Assoc<V>, k: Key)
    ensures ToMap(Remove(m, k)).Keys == ToMap(m).Keys - {k}
  {
    var r := Remove(m, k);
    forall j ensures j in ToMap(r) <==> j in ToMap(m) && j != k {
      if j != k {
        assert Lookup(r, j) == Lookup(m, j);
      }
    }
  }

  /** An unset leaves every remaining value alone. */
  lemma RemoveValues<V>(m: Assoc<V>, k: Key)
    ensures forall j :: j in ToMap(Remove(m, k)) ==> j in ToMap(m) && ToMap(Remove(m, k))[j] == ToMap(m)[j]
  {
    var r := Remove(m, k);
    forall j | j in ToMap(r) ensures j in ToMap(m) && ToMap(r)[j] == ToMap(m)[j] {
      assert j != k;
      assert Lookup(r, j) == Lookup(m, j);
    }
  }

  /** With unique keys, unsetting a bound key cuts exactly its entry out of
      the sequence; the other entries keep their relative order. */
  lemma {:induction false} RemoveCutsOne<V>(m: Assoc<V>, i: nat)
    requires UniqueKeys(m)
    requires i < |m|
    ensures Remove(m, m[i].0) == m[..i] + m[i + 1..]
  {
    var tail := m[1..];
    if i == 0 {
      RemoveHead(m);
    } else {
      var k := m[i].0;
      assert tail[i - 1] == m[i];
      assert m[0].0 != k by { assert m[0].0 != m[i].0; }
      RemoveCons(m, k);
      UniqueTail(m);
      RemoveCutsOne(tail, i - 1);
      ConsSplice(m, i);
    }
  }

  /** Cutting entry `i` out of a sequence, seen from its tail. */
  lemma ConsSplice<V>(m: seq<V>, i: nat)
    requires 0 < i < |m|
    ensures [m[0]] + (m[1..][..i - 1] + m[1..][i..]) == m[..i] + m[i + 1..]
  {
    assert [m[0]] + m[1..][..i - 1] == m[..i];
    assert m[1..][i..] == m[i + 1..];
  }

  /** Unsetting the first key of an array with unique keys drops the first entry. */
  lemma RemoveHead<V>(m: Assoc<V>)
    requires UniqueKeys(m)
    requires |m| > 0
    ensures Remove(m, m[0].0) == m[1..]
  {
    UniqueTail(m);
    assert Remove(m, m[0].0) == Remove(m[1..], m[0].0);
  }

  /** Unsetting a key other than the first keeps the first entry. */
  lemma RemoveCons<V>(m: Assoc<V>, k: Key)
    requires |m| > 0
    requires m[0].0 != k
    ensures Remove(m, k) == [m[0]] + Remove(m[1..], k)
  {
  }

  /** PHP's `count($m)`: in an array with unique keys the number of entries
      is the number of bound keys. */
  lemma {:induction false} CountIsSize<V>(m: Assoc<V>)
    requires UniqueKeys(m)
    ensures |ToMap(m)| == |m|
  {
    if |m| > 0 {
      UniqueTail(m);
      CountIsSize(m[1..]);
      assert m[0].0 !in ToMap(m[1..]);
    }
  }
}
