# DynamicObject, modelled in Dafny

`DynamicObject` is a PHP container that is reached both as an object
(`$o->name`) and as an array (`$o['key']`, `$o[] = $v`, `foreach`). It
stores its entries in a PHP array, so entries keep insertion order and the
array's own internal pointer drives iteration. A change callback is called
on every write. The repository holds two copies of the class:

- `DynamicObject.php`, the original: data, a change callback, and a
  `toArray()` export.
- `src/DynamicObject/DynamicObject.php`, the extended one. It also keeps a
  change record (`changes`) that shadows every write and is never cleared.
  It has a save callback that `save()` hands the change record to. Calling
  the object as a function (`$o($args)`) merges `$args` recursively into
  both the data and the change record.

## How the model is built

- `Values`: keys (`StrKey` or `IntKey`) and stored values (`Null`, `Bool`,
  `Int`, `Str`, and `Arr` for nested arrays).
- `PhpArray`: a PHP array as an association list `seq<(Key, V)>`. The
  sequence order is insertion order. `Put` is `$m[$k] = $v`: a bound key
  is overwritten in place and a new key is appended. `Remove` is
  `unset($m[$k])`. `IsSet` is `isset($m[$k])`. `ToMap` gives the finite
  map the array stands for. Lemmas tie `Put` and `Remove` to map update and
  key removal on that map.
- `ArrayCursor`: PHP's internal array pointer (`reset`, `key`, `current`,
  `next`) as a position in the sequence.
- `ReplaceRecursive`: `array_replace_recursive`. Its per-key behaviour is
  stated against an independent rule, `MergedAt`.
- `Callbacks`: callbacks are opaque handles. A dispatch appends an event,
  `Changed(handle, key, value)` or `Saved(handle, changes)`, to a trace
  kept in the state. Nothing a callback does is modelled.
- `DynamicObject` and `LegacyDynamicObject`: the two classes, one pure
  function per PHP method. Each state is a record of the data (plus the
  change record and save callback in the extended class), the pointer,
  the callbacks and the trace.
- `Variants`: dropping the extended class's extra bookkeeping turns each of
  its operations into the original class's operation.
- `History`: runs of operations on the extended class. Over a whole run,
  the change record grows by exactly the keys that writes and merges
  touched.

Some behaviours of the PHP code that are easy to miss:

- `offsetExists` and `__isset` use `isset`, so a key bound to `null`
  counts as absent. "Exists" does not mean "bound".
- `offsetUnset` removes a key only when `offsetExists` holds. A key bound
  to `null` therefore survives `unset($o['k'])`, while `unset($o->k)`
  removes it. `PropertyAndOffsetPaths` states this difference.
- `offsetGet` returns `null` for any key that `offsetExists` rejects.
- The change record has no reset operation. Nothing but writes and merges
  ever changes it.

## Model

| member | source | states |
|---|---|---|
| DynamicObject.Construct | src/DynamicObject/DynamicObject.php:57-65 | an array argument comes back unchanged from `dataArray()`, and any other argument gives empty data; `changesArray()` is empty, no callback has fired, and both callbacks are stored |
| DynamicObject.SetProperty | src/DynamicObject/DynamicObject.php:84-88 | after `$o->name = $v` the data and the change record both map the name to `v`, all other keys keep their values, and in each of the two a bound key keeps its position and a new one is appended last, and the trace gains exactly one `Changed(cb, name, v)` if a change callback is set and none otherwise |
| DynamicObject.OffsetSet | src/DynamicObject/DynamicObject.php:120-125 | the same write effect under the given key, so the data and the change record each keep a bound key in place and append a new one; with a null offset the key is `IntKey(count(data))`, and the entry count grows by one exactly when that key was unbound and stays the same exactly when it was already bound |
| DynamicObject.OffsetExists | src/DynamicObject/DynamicObject.php:135-137 | true iff the key is bound to a non-null value |
| DynamicObject.HasProperty | src/DynamicObject/DynamicObject.php:98-100 | true iff the property name is bound to a non-null value |
| DynamicObject.OffsetGet | src/DynamicObject/DynamicObject.php:160-162 | the bound value when the key is bound, null otherwise, so it is null whenever `offsetExists` fails |
| DynamicObject.UnsetProperty | src/DynamicObject/DynamicObject.php:108-110 | the name is removed from the data; exactly its entry is cut out and the others keep their order and values; the change record, the trace and the callbacks are unchanged; an absent name changes nothing |
| DynamicObject.OffsetUnset | src/DynamicObject/DynamicObject.php:146-150 | a key bound to non-null is cut out as above; an absent key and a key bound to null leave the whole object unchanged |
| DynamicObject.Invoke | src/DynamicObject/DynamicObject.php:183-186 | for every key, data and change record each hold what the per-key rule `MergedAt` gives from the old binding and the argument's binding; in each, the existing keys keep their order and the argument's keys that were missing follow in the argument's order; trace, pointer and callbacks are unchanged, so no callback fires |
| DynamicObject.CurrentKey | src/DynamicObject/DynamicObject.php:202-204 | `key()` is the key of the entry under the pointer, a key the data binds, and null exactly when the pointer is off the data |
| DynamicObject.Current | src/DynamicObject/DynamicObject.php:199-201 | `current()` is the value of the entry under the pointer, and `false` once the pointer is off the data |
| DynamicObject.CurrentIsOffsetGet | src/DynamicObject/DynamicObject.php:160-204 | while `valid()` holds, `current()` equals `$o[key()]` through `offsetGet`, so iteration and offset reads see the same data |
| DynamicObject.Valid | src/DynamicObject/DynamicObject.php:208-210 | `valid()` holds iff the pointer is on an entry |
| DynamicObject.Rewind | src/DynamicObject/DynamicObject.php:196-198 | only the pointer changes; `key()` is then the first key, or null for empty data; the result is `current()` |
| DynamicObject.Next | src/DynamicObject/DynamicObject.php:205-207 | only the pointer changes; from a valid position `key()` becomes the next entry's key, or null after the last; from an invalid position nothing changes |
| DynamicObject.IterateFromRewind | src/DynamicObject/DynamicObject.php:196-210 | after `rewind()` and `n` calls of `next()`, `key()` is the key of entry `n` while `n` is below the count, and `valid()` is false from then on |
| DynamicObject.RewindRestarts | src/DynamicObject/DynamicObject.php:196-198 | rewinding after any number of `next()` calls gives the same state as rewinding at once |
| DynamicObject.Foreach | src/DynamicObject/DynamicObject.php:196-210 | a full rewind/valid/key/current/next pass yields exactly the data entries in insertion order and ends with `valid()` false |
| DynamicObject.SetChangeCallback | src/DynamicObject/DynamicObject.php:218-220 | only the change callback changes and nothing is dispatched |
| DynamicObject.SetSaveCallback | src/DynamicObject/DynamicObject.php:242-244 | only the save callback changes and nothing is dispatched |
| DynamicObject.Save | src/DynamicObject/DynamicObject.php:253-267 | data and change record are unchanged (the record is not cleared); the trace gains exactly one `Saved(cb, changes)` if a save callback is set and none otherwise |
| DynamicObject.DataArray | src/DynamicObject/DynamicObject.php:274-276 | `dataArray()` returns the stored data array itself: the same entries in the same order |
| DynamicObject.ChangesArray | src/DynamicObject/DynamicObject.php:292-294 | `changesArray()` returns the stored change record itself: the same entries in the same order |
| DynamicObject.SaveCallbackSwap | src/DynamicObject/DynamicObject.php:242-267 | after replacing the save callback, earlier events stay as they were and the next save hands the change record to the new callback, or to nobody if it was removed |
| DynamicObject.SaveTwice | src/DynamicObject/DynamicObject.php:253-267 | two saves in a row hand the save callback the same change record twice |
| DynamicObject.WriteReadsBack | src/DynamicObject/DynamicObject.php:120-162 | after `$o[$k] = $v`, `offsetGet` returns `v`, `offsetExists` holds iff `v` is not null, and the change record maps `k` to `v` |
| DynamicObject.PropertyAndOffsetPaths | src/DynamicObject/DynamicObject.php:84-150 | property and offset writes are the same operation, and `__isset` is `offsetExists`; the two unsets agree exactly when the key is not bound to null |
| DynamicObject.UnsetKeepsChange | src/DynamicObject/DynamicObject.php:84-110 | after a property write and its unset, the property is gone from the data and reads as null, but the change record still holds the written value, and the unset fired no callback |
| DynamicObject.CallbackSwap | src/DynamicObject/DynamicObject.php:218-234 | after replacing the change callback, earlier events stay as they were and the next write notifies the new callback, or nobody if it was removed |
| DynamicObject.AppendTwiceOnEmpty | src/DynamicObject/DynamicObject.php:120-125 | on an empty object two appends produce the entries 0 and 1, in that order |
| DynamicObject.AppendAfterUnsetOverwrites | src/DynamicObject/DynamicObject.php:120-150 | with entries 0 and 1, unsetting 0 and then appending writes key `count = 1` and overwrites that entry, leaving one entry |
| Callbacks.DispatchChange | src/DynamicObject/DynamicObject.php:229-234 | the trace is extended, by exactly one `Changed(cb, key, value)` when a callback is registered and by nothing otherwise |
| Callbacks.DispatchSave | src/DynamicObject/DynamicObject.php:253-258 | the trace is extended, by exactly one `Saved(cb, changes)` when a callback is registered and by nothing otherwise |
| ReplaceRecursive.Merge | src/DynamicObject/DynamicObject.php:184-185 | for a replacement with unique keys, every key's binding afterwards is `MergedAt(base binding, replacement binding)`: keys the replacement lacks keep their binding, two arrays merge recursively, and anything else is overwritten; the result's keys are the base's keys followed by the replacement's keys the base lacks, in the replacement's order; unique keys stay unique |
| ReplaceRecursive.MergeDisjoint | src/DynamicObject/DynamicObject.php:184-185 | merging a replacement that shares no key with the base appends its entries verbatim, in order |
| PhpArray.Put | src/DynamicObject/DynamicObject.php:85-86 | the written key reads back the value and every other key reads as before; a bound key leaves the key order unchanged, and an unbound key is appended at the end |
| PhpArray.PutAsMap | src/DynamicObject/DynamicObject.php:85-86 | a write is map update `m[k := v]` on the map the array stands for |
| PhpArray.Remove | src/DynamicObject/DynamicObject.php:109 | the key is no longer bound, every other key reads as before, no key is added, an absent key leaves the array as it was, and unique keys stay unique |
| PhpArray.RemoveAsMap | src/DynamicObject/DynamicObject.php:109 | an unset is key removal `m - {k}` on the map the array stands for |
| PhpArray.RemoveCutsOne | src/DynamicObject/DynamicObject.php:148 | with unique keys, unsetting the key of entry `i` gives `m[..i] + m[i+1..]`, so the remaining entries keep their order |
| PhpArray.CountIsSize | src/DynamicObject/DynamicObject.php:121 | `count($data)` is the number of distinct keys |
| PhpArray.LookupAt | src/DynamicObject/DynamicObject.php:161 | with unique keys, looking up the key of entry `i` finds that entry's value |
| ArrayCursor.StepsFromStart | src/DynamicObject/DynamicObject.php:205-210 | from the first entry, `n` calls of `next` land on entry `n`, or at the end once the entries are used up |
| History.StepChanges | src/DynamicObject/DynamicObject.php:84-186 | each public operation adds exactly its written keys to the change record; unsets, saves, iteration and callback swaps leave the record unchanged |
| History.RunChanges | src/DynamicObject/DynamicObject.php:84-186 | over any run of operations, the change record's keys become the old keys plus exactly the keys the run's writes and merges touched |
| History.ChangesSinceConstruction | src/DynamicObject/DynamicObject.php:57-65 | from construction, the change record holds exactly the keys written or merged since, whatever unsets and saves came between |
| LegacyDynamicObject.Construct | DynamicObject.php:34-37 | the array is stored verbatim: `toArray()` returns it unchanged; the callback is stored and nothing has fired |
| LegacyDynamicObject.SetProperty | DynamicObject.php:56-61 | the name maps to `v` and all other keys keep their values; key order is kept or the key is appended; exactly one `Changed(cb, name, v)` if a callback is set, none otherwise |
| LegacyDynamicObject.OffsetSet | DynamicObject.php:93-100 | the same write effect under the given key, or under `IntKey(count(data))` for a null offset; an append leaves the count unchanged exactly when that key was already bound |
| LegacyDynamicObject.OffsetExists | DynamicObject.php:110-112 | true iff the key is bound to a non-null value |
| LegacyDynamicObject.HasProperty | DynamicObject.php:71-73 | true iff the name is bound to a non-null value |
| LegacyDynamicObject.OffsetGet | DynamicObject.php:135-137 | the bound value when the key is bound, null otherwise |
| LegacyDynamicObject.UnsetProperty | DynamicObject.php:81-83 | exactly the entry for the name is cut out; the others keep their order and values; no callback fires |
| LegacyDynamicObject.OffsetUnset | DynamicObject.php:121-125 | a key bound to non-null is cut out as above; an absent or null-bound key leaves the object unchanged |
| LegacyDynamicObject.UnsetOnlyThatKey | DynamicObject.php:81-125 | unsetting one key leaves every other key's value as it was, the unset key no longer exists, and unsetting an absent property is a no-op |
| LegacyDynamicObject.CurrentKey | DynamicObject.php:153-155 | `key()` is the key of the entry under the pointer, a key the data binds, and null exactly when the pointer is off the data |
| LegacyDynamicObject.Current | DynamicObject.php:150-152 | `current()` is the value of the entry under the pointer, and `false` once the pointer is off the data |
| LegacyDynamicObject.Valid | DynamicObject.php:159-161 | `valid()` holds iff the pointer is on an entry |
| LegacyDynamicObject.Rewind | DynamicObject.php:147-149 | only the pointer changes; `key()` becomes the first key, or null for empty data |
| LegacyDynamicObject.Next | DynamicObject.php:156-158 | only the pointer changes; `key()` moves to the next entry's key, or null after the last |
| LegacyDynamicObject.Foreach | DynamicObject.php:147-161 | a full pass yields exactly the entries in insertion order and ends with `valid()` false |
| LegacyDynamicObject.ToArray | DynamicObject.php:178-180 | `toArray()` returns the stored data array itself: the same entries in the same order |
| LegacyDynamicObject.SetChangeCallback | DynamicObject.php:169-171 | only the change callback changes and nothing is dispatched |
| LegacyDynamicObject.CallbackSwap | DynamicObject.php:169-171 | earlier events stay as they were; the next write notifies the new callback, or nobody if it was removed |
| Variants.WritesAgree | DynamicObject.php:56-100 | the extended property and offset writes, seen through `Forget`, are the original class's writes, notifications included |
| Variants.UnsetsAgree | DynamicObject.php:81-125 | both unsets agree between the two classes |
| Variants.ReadsAgree | DynamicObject.php:110-180 | `offsetGet`, `offsetExists`, `__isset` and the array export agree between the two classes |
| Variants.IteratorAgrees | DynamicObject.php:147-161 | `key`, `current`, `valid`, `rewind` and `next` agree step by step |
| Variants.CallbacksAgree | DynamicObject.php:169-171 | replacing the change callback agrees; replacing the save callback and saving are invisible to the original class |
| Variants.ConstructAgrees | DynamicObject.php:34-37 | constructing from an array agrees between the two classes |

## Left out

- `&__get` in both classes is left out. It returns a PHP reference, which
  allows aliasing, and reading a missing key through it creates the key.
  Reads are modelled through `offsetGet` only.
- `__call` in the extended class is left out. It calls a closure stored in
  the data, which is foreign code.
- The bodies of callbacks and their return values are not modelled: a
  dispatch is recorded as an event with its arguments. Re-entrant
  mutation by a callback and exceptions thrown by one are not modelled.
  The first argument of every callback, the instance itself, is not
  recorded in the event.
- The `is_callable` check is not modelled: a registered callback is a
  `Handle`, and a value that is not callable is modelled as no callback.
- The casts are left out: `dataObject()`, `changesObject()`, `toObject()`,
  and the extended constructor's object argument, which is cast with
  `(array)`.
- PHP's coercion of numeric string keys (`"1"` becomes `1`) and of other
  offset types is not modelled. Keys are strings or integers, as given.
- Floats, objects and closures as stored values are not modelled.
- The unused public flag `store_closures` is not modelled.
- The pointer's behaviour when the data changes during an iteration is not
  claimed. The model keeps a position index, but PHP defines no order
  guarantee for that case. The pointer starts at the first entry on
  construction, although PHP would keep the passed array's own pointer.
- The original class's constructor stores any argument, array or not.
  Only arrays are modelled, because the model's data is always a PHP
  array. A `null` argument, which the first write turns into an array, and
  an `ArrayAccess` object, which handles the offset operations itself, are
  therefore not covered.
- `__invoke` with a non-array argument is not modelled. Depending on the
  PHP version, `array_replace_recursive` then throws a `TypeError` or
  warns and returns `null`, which `__invoke` stores into both the data and
  the change record. The model's data is always an array, so neither
  outcome is represented.
- DynamicObject.SetProperty, DynamicObject.HasProperty and
  DynamicObject.UnsetProperty: the name `store_closures` is not
  special-cased. It is a declared public property of the extended class,
  so PHP reads and writes that property directly and never calls
  `__set`, `__isset` or `__unset` for it: such a write leaves the data and
  the change record alone and fires no callback, and `isset` on it is true
  on a fresh object. The model treats it like any other name.
- DynamicObject.Save: returns nothing, while `save()` returns whatever the
  save callback returns, which is foreign.
- `rewind()` and `next()` return `current()` after the move, which is what
  `reset` and `next` return. PHP's `false` for an empty array cannot be
  told apart from a stored `false`, here as in PHP.
