/** PHP's internal array pointer, driven by `reset`, `current`, `key` and
    `next`, as a position in the entry sequence. A position at or past the
    end means the pointer has run off the array. */
module ArrayCursor {
  import opened Wrappers
  import opened Values
  import opened PhpArray

  /** `key($m)`: the key under the pointer, or `None` (PHP's `null`) once
      the pointer is off the array. */
  function KeyAt(m: Assoc<Value>, pos: nat): Option<Key> {
    if pos < |m| then Some(m[pos].0) else None
  }

  /** `current($m)`: the value under the pointer, or PHP's `false` once
      the pointer is off the array. */
  function CurrentAt(m: Assoc<Value>, pos: nat): Value {
    if pos < |m| then m[pos].1 else Bool(false)
  }

  /** `next($m)`: one entry forward; a pointer already off the array stays
      off it. */
  function Advance(m: Assoc<Value>, pos: nat): nat {
    if pos < |m| then pos + 1 else pos
  }

  /** The pointer after `n` calls of `next` starting from `pos`. */
  function Steps(m: Assoc<Value>, pos: nat, n: nat): nat
    decreases n
  {
    if n == 0 then pos else Steps(m, Advance(m, pos), n - 1)
  }

  /** From the first entry, `n` steps land on entry `n` while there is one,
      and off the array after that. */
  lemma {:induction false} StepsFromStart(m: Assoc<Value>, n: nat)
    ensures Steps(m, 0, n) == if n < |m| then n else |m|
  {
    StepsFrom(m, 0, n);
  }

  lemma {:induction false} StepsFrom(m: Assoc<Value>, pos: nat, n: nat)
    requires pos <= |m|
    ensures Steps(m, pos, n) == if pos + n < |m| then pos + n else |m|
    decreases n
  {
    if n > 0 {
      StepsFrom(m, Advance(m, pos), n - 1);
    }
  }
}
