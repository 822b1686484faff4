/** The keys and values a PHP array holds, as far as the container cares. */
module Values {

  /** A PHP array key: a string or an integer. PHP turns numeric strings
      such as "1" into integer keys; this model keeps the two apart. */
  datatype Key = StrKey(name: string) | IntKey(index: int)

  /** A stored value. `Null` matters because `isset` treats a key bound to
      null as unset; `Arr` matters because the recursive merge descends
      into nested arrays. Floats, objects and closures are not modelled. */
  datatype Value =
    | Null
    | Bool(b: bool)
    | Int(i: int)
    | Str(s: string)
    | Arr(entries: seq<(Key, Value)>)
}
