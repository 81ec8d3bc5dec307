/**
 * One entry of the sorted map and the key-ordering policy it applies.
 *
 * Keys are modelled as integers. For them identity and value equality
 * coincide, and the rich comparison `<` is the integer order, so the
 * identity short-cuts of the comparison functions collapse to the plain
 * relations while keeping the branch structure of the original.
 */
module MapItems {

  /** A stored (key, value) pair. */
  datatype Item<V> = Item(key: int, value: V) {

    /** Rebinds the value of this entry; the key keeps its identity. */
    function Update(v: V): (r: Item<V>)
      ensures r.key == key && r.value == v
    {
      Item(key, v)
    }
  }

  /**
   * The entry's key compared with a probe: an identical key is never less
   * than itself; otherwise the rich comparison `<` decides.
   */
  predicate KeyLessThan(itemKey: int, key: int)
    ensures KeyLessThan(itemKey, key) <==> itemKey < key
  {
    if itemKey == key then false else itemKey < key
  }

  /**
   * Key equality: identity, or else the rich comparison `==`. Over a total
   * order it is exactly "neither key is less than the other".
   */
  predicate KeyEquals(itemKey: int, key: int)
    ensures KeyEquals(itemKey, key) <==> !KeyLessThan(itemKey, key) && !KeyLessThan(key, itemKey)
  {
    itemKey == key
  }
}
