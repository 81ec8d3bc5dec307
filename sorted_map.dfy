/**
 * The sorted map object: a growable vector of entries kept in strictly
 * ascending key order, with every operation starting from a lower-bound
 * binary search, and the argument-count dispatch of its `get` and `pop`
 * methods.
 */
module SortedMaps {
  import opened MapItems
  import opened SortedEntries

  /** Why a call count of positional arguments was refused. */
  datatype ArgCount = AtMost(limit: nat, got: nat) | AtLeast(limit: nat, got: nat)

  /** The exceptions the map raises. */
  datatype Error =
    | KeyError(key: int)                          // lookup miss without a default
    | TypeError(callee: string, count: ArgCount)  // bad argument count for get() or pop()

  datatype Result<T> = Ok(value: T) | Err(error: Error)

  /** The argument-count check shared by `get` and `pop`, for a count other than 1 or 2. */
  function ArgCountError(callee: string, nargs: nat): (e: Error)
    requires nargs != 1 && nargs != 2
    ensures e.TypeError? && e.callee == callee
    ensures nargs > 2 <==> e.count == AtMost(2, nargs)
    ensures nargs == 0 <==> e.count == AtLeast(1, 0)
  {
    TypeError(callee, if nargs > 2 then AtMost(2, nargs) else AtLeast(1, nargs))
  }

  class SortedMap<V> {
    /** The backing vector. */
    var items: seq<Item<V>>

    /** The ordering invariant every public operation keeps. */
    ghost predicate Valid()
      reads this
    {
      StrictlySorted(items)
    }

    /** The mapping the vector represents. */
    ghost function Contents(): map<int, V>
      reads this
    {
      ToMap(items)
    }

    /** A new map is empty. */
    constructor ()
      ensures Valid() && items == [] && Contents() == map[]
    {
      items := [];
    }

    /** The number of entries, which is the number of keys bound. */
    function Length(): (n: nat)
      reads this
      requires Valid()
      ensures n == |Contents()|
    {
      ToMapSize(items);
      |items|
    }

    /**
     * `std::lower_bound` over the vector with `MapItem::CompLess`: halve the
     * remaining range, stepping past the probe when its key is less than
     * `key`.
     */
    method Find(key: int) returns (i: nat)
      requires Valid()
      ensures i <= |items|
      ensures forall j :: 0 <= j < i ==> items[j].key < key
      ensures forall j :: i <= j < |items| ==> key <= items[j].key
      ensures i == LowerBound(items, key)
    {
      var first: nat, count: nat := 0, |items|;
      while count > 0
        invariant first + count <= |items|
        invariant forall j :: 0 <= j < first ==> items[j].key < key
        invariant forall j :: first + count <= j < |items| ==> key <= items[j].key
      {
        var step := count / 2;
        var it := first + step;
        if KeyLessThan(items[it].key, key) {
          first := it + 1;
          count := count - step - 1;
        } else {
          count := step;
        }
      }
      LowerBoundUnique(items, key, first);
      i := first;
    }

    /**
     * `getitem(key, default)`: the bound value when `key` is present, else
     * the default when one is given, else a KeyError. The map is unchanged.
     */
    method GetItem(key: int, default: Option<V>) returns (r: Result<V>)
      requires Valid()
      ensures key in Contents() ==> r == Ok(Contents()[key])
      ensures key !in Contents() && default.Some? ==> r == Ok(default.value)
      ensures key !in Contents() && default.None? ==> r == Err(KeyError(key))
    {
      var it := Find(key);
      LowerBoundFinds(items, key);
      if it == |items| {
        if default.Some? {
          return Ok(default.value);
        }
        return Err(KeyError(key));
      }
      if KeyEquals(items[it].key, key) {
        return Ok(items[it].value);
      }
      if default.Some? {
        return Ok(default.value);
      }
      return Err(KeyError(key));
    }

    /**
     * `setitem(key, value)`: append at the end, update the entry at the
     * lower bound in place, or insert at the lower bound.
     */
    method SetItem(key: int, value: V)
      requires Valid()
      modifies this
      ensures Valid()
      ensures items == Assigned(old(items), key, value)
      ensures Contents() == old(Contents())[key := value]
      ensures |items| == if key in old(Contents()) then old(|items|) else old(|items|) + 1
    {
      var it := Find(key);
      if it == |items| {
        items := items + [Item(key, value)];
      } else if KeyEquals(items[it].key, key) {
        items := items[it := items[it].Update(value)];
      } else {
        items := items[..it] + [Item(key, value)] + items[it..];
      }
      AssignedMeaning(old(items), key, value);
    }

    /** `delitem(key)`: erase the entry carrying `key`, or raise KeyError and change nothing. */
    method DelItem(key: int) returns (r: Result<()>)
      requires Valid()
      modifies this
      ensures Valid()
      ensures key in old(Contents()) ==>
        r == Ok(()) &&
        LowerBound(old(items), key) < old(|items|) &&
        items == Without(old(items), LowerBound(old(items), key)) &&
        Contents() == old(Contents()) - {key}
      ensures key !in old(Contents()) ==> r == Err(KeyError(key)) && items == old(items)
    {
      var it := Find(key);
      LowerBoundFinds(items, key);
      if it == |items| {
        return Err(KeyError(key));
      }
      if KeyEquals(items[it].key, key) {
        WithoutMeaning(items, it);
        items := items[..it] + items[it + 1..];
        return Ok(());
      }
      return Err(KeyError(key));
    }

    /** `contains(key)`: whether some entry carries `key`. */
    method Contains(key: int) returns (b: bool)
      requires Valid()
      ensures b <==> key in Contents()
      ensures b <==> exists j :: 0 <= j < |items| && items[j].key == key
    {
      var it := Find(key);
      LowerBoundFinds(items, key);
      ToMapDomain(items, key);
      if it == |items| {
        return false;
      }
      return KeyEquals(items[it].key, key);
    }

    /**
     * `pop(key, default)`: when `key` is present, erase its entry and return
     * the value it held; otherwise return the default when one is given,
     * else raise KeyError, changing nothing.
     */
    method Pop(key: int, default: Option<V>) returns (r: Result<V>)
      requires Valid()
      modifies this
      ensures Valid()
      ensures key in old(Contents()) ==>
        r == Ok(old(Contents())[key]) &&
        LowerBound(old(items), key) < old(|items|) &&
        items == Without(old(items), LowerBound(old(items), key)) &&
        Contents() == old(Contents()) - {key}
      ensures key !in old(Contents()) ==> items == old(items)
      ensures key !in old(Contents()) && default.Some? ==> r == Ok(default.value)
      ensures key !in old(Contents()) && default.None? ==> r == Err(KeyError(key))
    {
      var it := Find(key);
      LowerBoundFinds(items, key);
      if it == |items| {
        if default.Some? {
          return Ok(default.value);
        }
        return Err(KeyError(key));
      }
      if KeyEquals(items[it].key, key) {
        var res := items[it].value;
        WithoutMeaning(items, it);
        items := items[..it] + items[it + 1..];
        return Ok(res);
      }
      if default.Some? {
        return Ok(default.value);
      }
      return Err(KeyError(key));
    }

    /** `keys()`: a new list of the keys, entry by entry, hence strictly ascending. */
    method Keys() returns (list: seq<int>)
      requires Valid()
      ensures |list| == |items| == |Contents()|
      ensures forall j :: 0 <= j < |list| ==> list[j] == items[j].key
      ensures forall j, l :: 0 <= j < l < |list| ==> list[j] < list[l]
      ensures forall k :: k in list <==> k in Contents()
    {
      list := [];
      var listidx := 0;
      while listidx < |items|
        invariant listidx <= |items| && |list| == listidx
        invariant forall j :: 0 <= j < listidx ==> list[j] == items[j].key
      {
        list := list + [items[listidx].key];
        listidx := listidx + 1;
      }
      ToMapSize(items);
      forall k ensures k in list <==> k in Contents() {
        ToMapDomain(items, k);
      }
    }

    /** `values()`: a new list of the values, entry by entry, in ascending key order. */
    method Values() returns (list: seq<V>)
      requires Valid()
      ensures |list| == |items| == |Contents()|
      ensures forall j :: 0 <= j < |list| ==> list[j] == items[j].value
      ensures forall j :: 0 <= j < |list| ==> items[j].key in Contents() && Contents()[items[j].key] == list[j]
    {
      list := [];
      var listidx := 0;
      while listidx < |items|
        invariant listidx <= |items| && |list| == listidx
        invariant forall j :: 0 <= j < listidx ==> list[j] == items[j].value
      {
        list := list + [items[listidx].value];
        listidx := listidx + 1;
      }
      ToMapSize(items);
      forall j | 0 <= j < |list| ensures items[j].key in Contents() && Contents()[items[j].key] == list[j] {
        ToMapAt(items, j);
      }
    }

    /** `items()`: a new list of (key, value) pairs, entry by entry, in strictly ascending key order. */
    method Items() returns (list: seq<(int, V)>)
      requires Valid()
      ensures |list| == |items| == |Contents()|
      ensures forall j :: 0 <= j < |list| ==> list[j] == (items[j].key, items[j].value)
      ensures forall j, l :: 0 <= j < l < |list| ==> list[j].0 < list[l].0
      ensures forall j :: 0 <= j < |list| ==> list[j].0 in Contents() && Contents()[list[j].0] == list[j].1
    {
      list := [];
      var listidx := 0;
      while listidx < |items|
        invariant listidx <= |items| && |list| == listidx
        invariant forall j :: 0 <= j < listidx ==> list[j] == (items[j].key, items[j].value)
      {
        list := list + [(items[listidx].key, items[listidx].value)];
        listidx := listidx + 1;
      }
      ToMapSize(items);
      forall j | 0 <= j < |list| ensures list[j].0 in Contents() && Contents()[list[j].0] == list[j].1 {
        ToMapAt(items, j);
      }
    }

    /**
     * `clear()`: swap the live vector with an empty one, so the map is
     * already empty when the detached entries are released.
     */
    method Clear()
      modifies this
      ensures Valid() && items == [] && Contents() == map[] && Length() == 0
    {
      var empty: seq<Item<V>> := [];
      items, empty := empty, items;
    }

    /**
     * `get(*args)`: one argument looks the key up with None as the default,
     * two use the second argument as the default, so neither raises; any
     * other count is a TypeError. The argument tuple is given by its length
     * `nargs` and its first two items `key` and `default`; `none` is the
     * host's None object.
     */
    method Get(nargs: nat, key: int, default: V, none: V) returns (r: Result<V>)
      requires Valid()
      ensures nargs == 1 ==> r == Ok(if key in Contents() then Contents()[key] else none)
      ensures nargs == 2 ==> r == Ok(if key in Contents() then Contents()[key] else default)
      ensures nargs != 1 && nargs != 2 ==> r == Err(ArgCountError("get", nargs))
    {
      if nargs == 1 {
        r := GetItem(key, Some(none));
        return;
      }
      if nargs == 2 {
        r := GetItem(key, Some(default));
        return;
      }
      return Err(ArgCountError("get", nargs));
    }

    /**
     * `pop(*args)` as written: one argument pops the key, but two arguments
     * are routed to `getitem`, so the entry stays in the map.
     */
    method PopMethod(nargs: nat, key: int, default: V) returns (r: Result<V>)
      requires Valid()
      modifies this
      ensures Valid()
      ensures nargs == 1 && key in old(Contents()) ==>
        r == Ok(old(Contents())[key]) && Contents() == old(Contents()) - {key} && |items| == old(|items|) - 1
      ensures nargs == 1 && key !in old(Contents()) ==> r == Err(KeyError(key)) && items == old(items)
      ensures nargs == 2 ==>
        items == old(items) && r == Ok(if key in Contents() then Contents()[key] else default)
      ensures nargs != 1 && nargs != 2 ==> r == Err(ArgCountError("pop", nargs)) && items == old(items)
    {
      if nargs == 1 {
        r := Pop(key, None);
        if key in old(Contents()) {
          WithoutMeaning(old(items), LowerBound(old(items), key));
        }
        return;
      }
      if nargs == 2 {
        r := GetItem(key, Some(default));
        return;
      }
      return Err(ArgCountError("pop", nargs));
    }

    /**
     * `pop(*args)` as evidently intended: two arguments pop the key with the
     * second as the default, removing the entry when it is present.
     */
    method PopMethodIntended(nargs: nat, key: int, default: V) returns (r: Result<V>)
      requires Valid()
      modifies this
      ensures Valid()
      ensures nargs == 1 && key in old(Contents()) ==>
        r == Ok(old(Contents())[key]) && Contents() == old(Contents()) - {key}
      ensures nargs == 1 && key !in old(Contents()) ==> r == Err(KeyError(key)) && items == old(items)
      ensures nargs == 2 && key in old(Contents()) ==>
        r == Ok(old(Contents())[key]) && Contents() == old(Contents()) - {key}
      ensures nargs == 2 && key !in old(Contents()) ==> r == Ok(default) && items == old(items)
      ensures nargs != 1 && nargs != 2 ==> r == Err(ArgCountError("pop", nargs)) && items == old(items)
    {
      if nargs == 1 {
        r := Pop(key, None);
        return;
      }
      if nargs == 2 {
        r := Pop(key, Some(default));
        return;
      }
      return Err(ArgCountError("pop", nargs));
    }
  }

  datatype Option<T> = None | Some(value: T)

  /** The map after binding 5 and then 1 to ten times themselves. */
  method BuildFirstTwo() returns (m: SortedMap<int>)
    ensures fresh(m) && m.Valid()
    ensures m.items == [Item(1, 10), Item(5, 50)]
  {
    m := new SortedMap<int>();
    m.SetItem(5, 50);
    assert m.items == [Item(5, 50)];
    m.SetItem(1, 10);
    assert LowerBound([Item(5, 50)], 1) == 0;
    assert [Item(5, 50)][..0] + [Item(1, 10)] + [Item(5, 50)][0..] == [Item(1, 10), Item(5, 50)];
  }

  /** The map built by binding keys 5, 1 and 3, in that order, to ten times themselves. */
  method BuildScenarioMap() returns (m: SortedMap<int>)
    ensures fresh(m) && m.Valid()
    ensures m.items == [Item(1, 10), Item(3, 30), Item(5, 50)]
  {
    m := BuildFirstTwo();
    m.SetItem(3, 30);
    assert LowerBound([Item(1, 10), Item(5, 50)], 3) == 1;
    assert [Item(1, 10), Item(5, 50)][..1] + [Item(3, 30)] + [Item(1, 10), Item(5, 50)][1..]
        == [Item(1, 10), Item(3, 30), Item(5, 50)];
  }

  /** Whatever the insertion order, the listings come out in ascending key order. */
  method ScenarioListings() returns (keys: seq<int>, pairs: seq<(int, int)>)
    ensures keys == [1, 3, 5]
    ensures pairs == [(1, 10), (3, 30), (5, 50)]
  {
    var m := BuildScenarioMap();
    keys := m.Keys();
    pairs := m.Items();
  }

  /** Reading key 3 and popping key 1 return their values; popping removes key 1 only. */
  method ScenarioLookups() returns (three: Result<int>, one: Result<int>, after: seq<int>)
    ensures three == Ok(30) && one == Ok(10)
    ensures after == [3, 5]
  {
    var m := BuildScenarioMap();
    ToMapAt(m.items, 1);
    three := m.GetItem(3, None);
    ToMapAt(m.items, 0);
    one := m.Pop(1, None);
    assert m.items == [Item(3, 30), Item(5, 50)];
    after := m.Keys();
  }

  /** A missing key falls back to the default, and deleting it raises KeyError. */
  method ScenarioMissingKey() returns (fallback: Result<int>, deleted: Result<()>)
    ensures fallback == Ok(-1)
    ensures deleted == Err(KeyError(9))
  {
    var m := BuildScenarioMap();
    NotInToMap(m.items, 9);
    fallback := m.GetItem(9, Some(-1));
    deleted := m.DelItem(9);
  }

  /** With the dispatch as written, a two-argument `pop` of a present key leaves the key in the map. */
  method TwoArgumentPopKeepsKey() returns (popped: Result<int>, kept: bool)
    ensures popped == Ok(10) && kept
  {
    var m := new SortedMap<int>();
    m.SetItem(1, 10);
    popped := m.PopMethod(2, 1, 0);
    kept := m.Contains(1);
  }

  /** With the intended dispatch, the same call removes the key. */
  method TwoArgumentPopIntendedRemovesKey() returns (popped: Result<int>, kept: bool)
    ensures popped == Ok(10) && !kept
  {
    var m := new SortedMap<int>();
    m.SetItem(1, 10);
    popped := m.PopMethodIntended(2, 1, 0);
    kept := m.Contains(1);
  }
}
