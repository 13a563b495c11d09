/** A PHP array used as a dictionary from strings to strings: it remembers
    the order in which keys were first inserted, and assigning to a key that
    is already present overwrites its value in place. */
module OrderedMaps {

  datatype OrderedMap = OrderedMap(keys: seq<string>, values: map<string, string>)
  {
    /** Keys are listed once each, and exactly the keys that have a value. */
    ghost predicate Valid() {
      (forall i, j :: 0 <= i < j < |keys| ==> keys[i] != keys[j]) &&
      (forall k :: k in values <==> k in keys)
    }

    /** `$array[$k] = $v`. */
    function Put(k: string, v: string): (r: OrderedMap)
      requires Valid()
      ensures r.Valid()
      ensures k in r.values && r.values[k] == v
      ensures forall k' :: k' != k ==> (k' in r.values <==> k' in values)
      ensures forall k' :: k' != k && k' in values ==> r.values[k'] == values[k']
      // an existing key keeps its position, a new key goes last
      ensures k in values ==> r.keys == keys
      ensures k !in values ==> r.keys == keys + [k]
    {
      if k in values then OrderedMap(keys, values[k := v])
      else OrderedMap(keys + [k], values[k := v])
    }
  }

  /** `[]`. */
  const Empty: OrderedMap := OrderedMap([], map[])
}
