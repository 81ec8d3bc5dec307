# Sorted map engine of atom, in Dafny

This project models `sortedmap`, the ordered mapping type of the atom
package. The type is a growable vector of (key, value) entries kept in
strictly ascending key order. Every operation starts with a lower-bound
binary search (`std::lower_bound` with `MapItem::CompLess`). At the position
it finds, the operation then does one of three things:

- it reads the entry (`getitem`, `contains`);
- it rebinds the entry's value in place (`setitem` on a present key);
- it inserts or erases one entry, shifting the rest (`setitem` on a new key,
  `delitem`, `pop`).

`clear` swaps the live vector with an empty one. The Python methods `get`
and `pop` pick an operation by the number of positional arguments.

The model has three modules:

- `MapItems` (`map_item.dfy`): the entry `Item(key, value)`, its `Update`,
  and the ordering policy `KeyLessThan` / `KeyEquals`. Keys are integers, so
  identity and `==` are the same test, and the identity short-cut of
  `key_lessthan` agrees with `<`.
- `SortedEntries` (`sorted_entries.dfy`): the vector as a value. It holds the
  ordering invariant `StrictlySorted`, the lower-bound position `LowerBound`,
  and the abstract map `ToMap` that a vector represents. It also gives the
  vector after an assignment (`Assigned`) and after an erase (`Without`), with
  lemmas saying what each does to the order, the size and the map.
- `SortedMaps` (`sorted_map.dfy`): the `SortedMap` class. Its field `items`
  is the vector. `Valid()` is the ordering invariant and `Contents()` is the
  abstract map. There is one method per operation, proved against those two.
  `Find` is the binary search, written as the halving loop of
  `std::lower_bound`, with its invariants. `Get` and `PopMethod` are the
  argument-count dispatch; `PopMethodIntended` is its corrected form (see
  Findings). A few client methods run a small usage scenario (keys 5, 1, 3
  bound to ten times themselves) and prove its outcome from the contracts
  alone.

Host objects are represented as follows. Values have an arbitrary type `V`.
The argument tuple of `get`/`pop` is given by its length and its first two
items. Python's `None` is a parameter of `Get`. Raised exceptions are
`Result` values: `KeyError(key)`, and `TypeError` naming the callee and the
argument-count problem.

## Model

| member | source | states |
|---|---|---|
| `MapItems.Item.Update` | atom/src/sortedmap.cpp:51-54 | rebinding an entry gives it the new value and keeps its key |
| `MapItems.KeyLessThan` | atom/src/sortedmap.cpp:39-44 | the identity short-cut never changes the answer: an entry's key is "less than" the probe exactly when it is smaller |
| `MapItems.KeyEquals` | atom/src/sortedmap.cpp:46-49 | key equality is the equality the order derives: neither key is less than the other |
| `SortedEntries.LowerBound` | atom/src/sortedmap.cpp:66-72 | the lower-bound position lies in 0..size; every entry before it has a smaller key, the entry at it does not; on a sorted vector no entry from it on has a smaller key |
| `SortedEntries.LowerBoundUnique` | atom/src/sortedmap.cpp:91-93 | any position that splits the vector into smaller keys and keys that are not smaller is the lower bound |
| `SortedEntries.LowerBoundFinds` | atom/src/sortedmap.cpp:94-101 | on a sorted vector a key is in the map exactly when the entry at its lower bound carries it, and then that entry holds its value |
| `SortedEntries.ToMapSize` | atom/src/sortedmap.cpp:287-291 | a sorted vector has exactly one entry per bound key |
| `SortedEntries.AssignedMeaning` | atom/src/sortedmap.cpp:107-119 | assigning keeps the vector strictly sorted and binds the key to the value in the map, other keys unchanged; the size grows by one exactly when the key was absent |
| `SortedEntries.AssignedInserts` | atom/src/sortedmap.cpp:112-117 | assigning an absent key puts the new entry at the lower bound, keeps the entries before it, and moves the rest up by one |
| `SortedEntries.AssignedReplaces` | atom/src/sortedmap.cpp:114-115 | assigning a present key keeps the size and every other entry and rebinds only that key's entry |
| `SortedEntries.WithoutMeaning` | atom/src/sortedmap.cpp:131-134 | erasing one entry keeps the vector sorted, shrinks it by one, keeps the others in their relative order, and removes exactly that key from the map |
| `SortedMaps.ArgCountError` | atom/src/sortedmap.cpp:348-353 | a refused argument count is a TypeError for the named callee: "at most 2" for more than two arguments, "at least 1" for none |
| `SortedMaps.SortedMap.constructor` | atom/src/sortedmap.cpp:239-248 | a new map is sorted and empty |
| `SortedMaps.SortedMap.Length` | atom/src/sortedmap.cpp:287-291 | the length is the number of keys bound in the map |
| `SortedMaps.SortedMap.Find` | atom/src/sortedmap.cpp:91-93 | the binary search returns the lower bound: between 0 and size, smaller keys before it, no smaller key from it on |
| `SortedMaps.SortedMap.GetItem` | atom/src/sortedmap.cpp:89-105 | a present key gives its value; an absent key gives the default when one is supplied, KeyError otherwise; the map is not modified |
| `SortedMaps.SortedMap.SetItem` | atom/src/sortedmap.cpp:107-119 | the map stays sorted, the key is bound to the value (so a later lookup returns it), every other binding is kept, and the size grows by one exactly for a new key |
| `SortedMaps.SortedMap.DelItem` | atom/src/sortedmap.cpp:121-138 | a present key's entry alone is erased (size minus one, others in order, key no longer contained); an absent key raises KeyError and changes nothing |
| `SortedMaps.SortedMap.Contains` | atom/src/sortedmap.cpp:140-148 | true exactly when some entry's key equals the probe, that is, when the key is in the map |
| `SortedMaps.SortedMap.Pop` | atom/src/sortedmap.cpp:150-170 | a present key returns the value it held and its entry is erased; an absent key returns the default or raises KeyError and changes nothing |
| `SortedMaps.SortedMap.Keys` | atom/src/sortedmap.cpp:172-186 | a list as long as the map whose element i is entry i's key; strictly ascending; holds exactly the map's keys |
| `SortedMaps.SortedMap.Values` | atom/src/sortedmap.cpp:188-202 | a list as long as the map whose element i is entry i's value, the value bound to the i-th smallest key |
| `SortedMaps.SortedMap.Items` | atom/src/sortedmap.cpp:204-223 | a list as long as the map whose element i is entry i's (key, value) pair; keys strictly ascending; each pair is a binding of the map |
| `SortedMaps.SortedMap.Clear` | atom/src/sortedmap.cpp:374-384 | afterwards the map is empty, its length is 0, and the invariant holds |
| `SortedMaps.SortedMap.Get` | atom/src/sortedmap.cpp:340-354 | one argument looks up with None as the default and two with the given default, so neither raises; any other count is a TypeError |
| `SortedMaps.SortedMap.PopMethod` | atom/src/sortedmap.cpp:357-371 | one argument pops (removes and returns, or KeyError); two arguments only look up and leave the map unchanged; any other count is a TypeError |
| `SortedMaps.SortedMap.PopMethodIntended` | atom/src/sortedmap.cpp:150-170 | corrected dispatch: with two arguments a present key is removed and its value returned, an absent key returns the default |
| `SortedMaps.ScenarioListings` | atom/src/sortedmap.cpp:172-223 | after binding 5, 1, 3 to 50, 10, 30, `keys()` is [1, 3, 5] and `items()` is [(1, 10), (3, 30), (5, 50)] |
| `SortedMaps.ScenarioLookups` | atom/src/sortedmap.cpp:150-170 | in that map `getitem(3)` is 30, `pop(1)` is 10, and afterwards the keys are [3, 5] |
| `SortedMaps.ScenarioMissingKey` | atom/src/sortedmap.cpp:121-138 | in that map `getitem(9, -1)` is -1 and `delitem(9)` raises KeyError |
| `SortedMaps.TwoArgumentPopKeepsKey` | atom/src/sortedmap.cpp:363-364 | with the dispatch as written, `pop(1, 0)` on a map binding 1 returns its value and 1 is still contained |
| `SortedMaps.TwoArgumentPopIntendedRemovesKey` | atom/src/sortedmap.cpp:150-170 | with the corrected dispatch the same call returns the value and 1 is no longer contained |

`SortedMap_clear` (atom/src/sortedmap.cpp:251-260) is the same swap as
`Clear`. It is reached from the collector's clear slot and from dealloc.

## Left out

- Reference counting (`newref`, `PyObjectPtr`) and the collector traversal `SortedMap_traverse`: with value semantics there are no ownership shares to track.
- Reentrant or impure comparators, and side effects of releasing a key or value: comparisons are the integer order, and releasing an entry does nothing. `Clear` does perform the swap with an empty vector, but it cannot show why the order matters (finalizers that re-enter the map).
- The KeyError payload that `lookup_fail` builds with `PyObject_Str` / `PyTuple_Pack`, and the failure of those calls: a miss is `KeyError(key)`.
- Allocation failure of `PyList_New` / `PyTuple_New` in `keys`, `values` and `items`.
- `SortedMap_repr`, `SortedMap_sizeof` and `SortedMap_dealloc`: formatting, memory introspection and freeing storage.
- The binding glue: `SortedMap_subscript`, `SortedMap_ass_subscript`, `SortedMap_contains`, `SortedMap_contains_bool`, the `SortedMap_keys`/`values`/`items` wrappers, the type and method tables, and module init. Each only forwards to a modelled operation.
- Keys of other types than integers: the model fixes one total order.
- `Py_ssize_t` widths: sizes and argument counts are unbounded naturals.
- The text of the TypeError messages: the model keeps the callee and the count instead.

## Findings

| source | as written | input that shows it | evidently intended | confidence | as-written member | corrected member |
|---|---|---|---|---|---|---|
| atom/src/sortedmap.cpp:363-364 | `pop` with two arguments calls `getitem(key, default)`, so a present key is returned but not removed | a map binding 1 to 10; `pop(1, 0)` returns 10 and 1 is still in the map | `pop(key, default)`, which the engine's own `pop` supports (lines 155-169): remove the key when present, else return the default | medium, not executed | `SortedMaps.SortedMap.PopMethod`, `SortedMaps.TwoArgumentPopKeepsKey` | `SortedMaps.SortedMap.PopMethodIntended`, `SortedMaps.TwoArgumentPopIntendedRemovesKey` |
