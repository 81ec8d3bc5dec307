/**
 * The backing vector of the sorted map as a value: the ordering invariant,
 * the lower-bound position every operation starts from, the abstract map
 * the vector represents, and the effect of each kind of update on it.
 */
module SortedEntries {
  import opened MapItems

  /** Keys in strictly ascending order, hence no key twice. */
  predicate StrictlySorted<V>(s: seq<Item<V>>) {
    forall i, j :: 0 <= i < j < |s| ==> s[i].key < s[j].key
  }

  /**
   * The position `std::lower_bound` returns with `MapItem::CompLess`: the
   * length of the prefix whose keys are less than `k`. On a sorted vector
   * every entry from it on has a key of at least `k`.
   */
  function LowerBound<V>(s: seq<Item<V>>, k: int): (i: nat)
    ensures i <= |s|
    ensures forall j :: 0 <= j < i ==> s[j].key < k
    ensures i < |s| ==> k <= s[i].key
    ensures StrictlySorted(s) ==> forall j :: i <= j < |s| ==> k <= s[j].key
  {
    if s == [] || !KeyLessThan(s[0].key, k) then 0 else 1 + LowerBound(s[1..], k)
  }

  /** Any position that splits the vector into "less than k" and "not less than k" is the lower bound. */
  lemma {:induction false} LowerBoundUnique<V>(s: seq<Item<V>>, k: int, i: nat)
    requires i <= |s|
    requires forall j :: 0 <= j < i ==> s[j].key < k
    requires forall j :: i <= j < |s| ==> k <= s[j].key
    ensures i == LowerBound(s, k)
  {
    if s != [] && s[0].key < k {
      LowerBoundUnique(s[1..], k, i - 1);
    }
  }

  /** The abstract map a vector stands for; a later entry overrides an earlier one with the same key. */
  function ToMap<V>(s: seq<Item<V>>): map<int, V>
  {
    if s == [] then map[] else ToMap(s[..|s| - 1])[s[|s| - 1].key := s[|s| - 1].value]
  }

  /** The map of a concatenation is the right-biased union of the parts' maps. */
  lemma {:induction false} ToMapAppend<V>(a: seq<Item<V>>, b: seq<Item<V>>)
    ensures ToMap(a + b) == ToMap(a) + ToMap(b)
  {
    if b == [] {
      assert a + b == a;
    } else {
      var b', x := b[..|b| - 1], b[|b| - 1];
      assert (a + b)[..|a + b| - 1] == a + b';
      assert (a + b)[|a + b| - 1] == x;
      ToMapAppend(a, b');
      assert ToMap(a + b) == (ToMap(a) + ToMap(b'))[x.key := x.value];
      assert ToMap(b) == ToMap(b')[x.key := x.value];
    }
  }

  lemma ToMapSingleton<V>(x: Item<V>)
    ensures ToMap([x]) == map[x.key := x.value]
  {
    assert [x][..0] == [];
  }

  /** A key that no entry carries is not in the map. */
  lemma {:induction false} NotInToMap<V>(s: seq<Item<V>>, k: int)
    requires forall j :: 0 <= j < |s| ==> s[j].key != k
    ensures k !in ToMap(s)
  {
    if s != [] {
      NotInToMap(s[..|s| - 1], k);
    }
  }

  /** The map's keys are exactly the entries' keys. */
  lemma {:induction false} ToMapDomain<V>(s: seq<Item<V>>, k: int)
    ensures k in ToMap(s) <==> exists j :: 0 <= j < |s| && s[j].key == k
  {
    if s != [] {
      var s' := s[..|s| - 1];
      ToMapDomain(s', k);
      if k in ToMap(s) && k != s[|s| - 1].key {
        var j :| 0 <= j < |s'| && s'[j].key == k;
        assert s[j].key == k;
      }
      if exists j :: 0 <= j < |s| && s[j].key == k {
        var j :| 0 <= j < |s| && s[j].key == k;
        if j < |s| - 1 {
          assert s'[j].key == k;
        }
      }
    }
  }

  /** In a sorted vector, the map binds every entry's key to that entry's value. */
  lemma ToMapAt<V>(s: seq<Item<V>>, j: nat)
    requires StrictlySorted(s) && j < |s|
    ensures s[j].key in ToMap(s) && ToMap(s)[s[j].key] == s[j].value
  {
    var x := s[j];
    assert s == s[..j] + [x] + s[j + 1..];
    ToMapAppend(s[..j] + [x], s[j + 1..]);
    ToMapAppend(s[..j], [x]);
    ToMapSingleton(x);
    NotInToMap(s[j + 1..], x.key);
  }

  /** A sorted vector holds one entry per key of its map. */
  lemma {:induction false} ToMapSize<V>(s: seq<Item<V>>)
    requires StrictlySorted(s)
    ensures |ToMap(s)| == |s|
  {
    if s != [] {
      var s', x := s[..|s| - 1], s[|s| - 1];
      ToMapSize(s');
      NotInToMap(s', x.key);
      assert ToMap(s).Keys == ToMap(s').Keys + {x.key};
    }
  }

  /**
   * What the lower-bound search tells the caller on a sorted vector: the
   * key is present exactly when the entry at the lower bound carries it,
   * and then that entry holds the key's value.
   */
  lemma LowerBoundFinds<V>(s: seq<Item<V>>, k: int)
    requires StrictlySorted(s)
    ensures var i := LowerBound(s, k);
      (k in ToMap(s) <==> i < |s| && s[i].key == k) &&
      (k in ToMap(s) ==> ToMap(s)[k] == s[i].value)
  {
    var i := LowerBound(s, k);
    if i < |s| && s[i].key == k {
      ToMapAt(s, i);
    } else {
      NotInToMap(s, k);
    }
  }

  /**
   * The vector after `setitem(k, v)`: appended at the end when every key
   * is less than `k`, updated in place when the entry at the lower bound
   * carries `k`, and otherwise inserted at the lower bound.
   */
  function Assigned<V>(s: seq<Item<V>>, k: int, v: V): seq<Item<V>>
  {
    var i := LowerBound(s, k);
    if i == |s| then s + [Item(k, v)]
    else if KeyEquals(s[i].key, k) then s[i := s[i].Update(v)]
    else s[..i] + [Item(k, v)] + s[i..]
  }

  /** The map of a vector with one entry spliced in, whose key no later entry carries. */
  lemma ToMapSplice<V>(a: seq<Item<V>>, x: Item<V>, b: seq<Item<V>>)
    requires x.key !in ToMap(b)
    ensures ToMap(a + [x] + b) == (ToMap(a) + ToMap(b))[x.key := x.value]
  {
    ToMapAppend(a + [x], b);
    ToMapAppend(a, [x]);
    ToMapSingleton(x);
  }

  /** Putting an entry between the keys below it and the keys above it keeps the vector sorted. */
  lemma InsertSorted<V>(s: seq<Item<V>>, i: nat, x: Item<V>)
    requires StrictlySorted(s) && i <= |s|
    requires forall j :: 0 <= j < i ==> s[j].key < x.key
    requires forall j :: i <= j < |s| ==> x.key < s[j].key
    ensures StrictlySorted(s[..i] + [x] + s[i..])
  {
    var r := s[..i] + [x] + s[i..];
    forall p, q | 0 <= p < q < |r| ensures r[p].key < r[q].key {
      if q < i {
      } else if p < i {
        assert r[p] == s[p];
      } else if p == i {
        assert r[q] == s[q - 1];
      } else {
        assert r[p] == s[p - 1] && r[q] == s[q - 1];
      }
    }
  }

  lemma UpdateTwice<V>(m: map<int, V>, k: int, u: V, v: V)
    ensures m[k := u][k := v] == m[k := v]
  {
  }

  lemma UpdateThenRemove<V>(m: map<int, V>, k: int, v: V)
    requires k !in m
    ensures m[k := v] - {k} == m
  {
  }

  /** Assignment keeps the vector sorted and binds `k` to `v` in its map, leaving every other key alone. */
  lemma AssignedMeaning<V>(s: seq<Item<V>>, k: int, v: V)
    requires StrictlySorted(s)
    ensures StrictlySorted(Assigned(s, k, v))
    ensures ToMap(Assigned(s, k, v)) == ToMap(s)[k := v]
    ensures |Assigned(s, k, v)| == if k in ToMap(s) then |s| else |s| + 1
  {
    var i := LowerBound(s, k);
    LowerBoundFinds(s, k);
    AssignedShape(s, k, v);
    if i < |s| && s[i].key == k {
      ReplaceMeaning(s, i, v);
    } else {
      forall j | i <= j < |s| ensures k < s[j].key {
        assert k <= s[i].key <= s[j].key;
      }
      InsertMeaning(s, i, Item(k, v));
    }
  }

  /** The three branches of assignment collapse to two shapes: replace at, or insert at, the lower bound. */
  lemma AssignedShape<V>(s: seq<Item<V>>, k: int, v: V)
    ensures var i := LowerBound(s, k);
      Assigned(s, k, v) ==
        if i < |s| && s[i].key == k then s[i := s[i].Update(v)] else s[..i] + [Item(k, v)] + s[i..]
  {
    var i := LowerBound(s, k);
    if i == |s| {
      assert s[..i] + [Item(k, v)] + s[i..] == s + [Item(k, v)];
    }
  }

  lemma ReplaceMeaning<V>(s: seq<Item<V>>, i: nat, v: V)
    requires StrictlySorted(s) && i < |s|
    ensures StrictlySorted(s[i := s[i].Update(v)])
    ensures ToMap(s[i := s[i].Update(v)]) == ToMap(s)[s[i].key := v]
  {
    var k, x := s[i].key, s[i].Update(v);
    var a, b := s[..i], s[i + 1..];
    assert s == a + [s[i]] + b;
    assert s[i := x] == a + [x] + b;
    NotInToMap(b, k);
    ToMapSplice(a, s[i], b);
    ToMapSplice(a, x, b);
    UpdateTwice(ToMap(a) + ToMap(b), k, s[i].value, v);
  }

  lemma InsertMeaning<V>(s: seq<Item<V>>, i: nat, x: Item<V>)
    requires StrictlySorted(s) && i <= |s|
    requires forall j :: 0 <= j < i ==> s[j].key < x.key
    requires forall j :: i <= j < |s| ==> x.key < s[j].key
    ensures StrictlySorted(s[..i] + [x] + s[i..])
    ensures ToMap(s[..i] + [x] + s[i..]) == ToMap(s)[x.key := x.value]
  {
    var a, b := s[..i], s[i..];
    assert s == a + b;
    NotInToMap(b, x.key);
    ToMapAppend(a, b);
    ToMapSplice(a, x, b);
    InsertSorted(s, i, x);
  }

  /** Assigning a key that is absent inserts one entry at the lower bound and moves the rest up by one. */
  lemma AssignedInserts<V>(s: seq<Item<V>>, k: int, v: V)
    requires StrictlySorted(s) && k !in ToMap(s)
    ensures var i, r := LowerBound(s, k), Assigned(s, k, v);
      |r| == |s| + 1 && r[..i] == s[..i] && r[i] == Item(k, v) && r[i + 1..] == s[i..]
  {
    LowerBoundFinds(s, k);
  }

  /** Assigning a key that is present changes only that entry's value. */
  lemma AssignedReplaces<V>(s: seq<Item<V>>, k: int, v: V)
    requires StrictlySorted(s) && k in ToMap(s)
    ensures var r := Assigned(s, k, v);
      |r| == |s| &&
      (forall j :: 0 <= j < |s| && s[j].key != k ==> r[j] == s[j]) &&
      (forall j :: 0 <= j < |s| && s[j].key == k ==> r[j] == Item(k, v))
  {
    LowerBoundFinds(s, k);
  }

  /** The vector with the entry at position `i` erased. */
  function Without<V>(s: seq<Item<V>>, i: nat): seq<Item<V>>
    requires i < |s|
  {
    s[..i] + s[i + 1..]
  }

  /**
   * Erasing one entry keeps the vector sorted, keeps the order of the
   * others, and removes exactly that entry's key from the map.
   */
  lemma WithoutMeaning<V>(s: seq<Item<V>>, i: nat)
    requires StrictlySorted(s) && i < |s|
    ensures var r := Without(s, i);
      StrictlySorted(r) &&
      |r| == |s| - 1 &&
      (forall j :: 0 <= j < |r| ==> r[j] == if j < i then s[j] else s[j + 1]) &&
      ToMap(r) == ToMap(s) - {s[i].key}
  {
    WithoutOrder(s, i);
    WithoutMap(s, i);
  }

  lemma WithoutOrder<V>(s: seq<Item<V>>, i: nat)
    requires StrictlySorted(s) && i < |s|
    ensures var r := Without(s, i);
      StrictlySorted(r) &&
      |r| == |s| - 1 &&
      (forall j :: 0 <= j < |r| ==> r[j] == if j < i then s[j] else s[j + 1])
  {
  }

  lemma WithoutMap<V>(s: seq<Item<V>>, i: nat)
    requires StrictlySorted(s) && i < |s|
    ensures ToMap(Without(s, i)) == ToMap(s) - {s[i].key}
  {
    var k, v := s[i].key, s[i].value;
    var a, b := s[..i], s[i + 1..];
    assert k !in ToMap(a) by {
      forall j | 0 <= j < |a| ensures a[j].key != k {
        assert a[j] == s[j];
      }
      NotInToMap(a, k);
    }
    assert k !in ToMap(b) by {
      forall j | 0 <= j < |b| ensures b[j].key != k {
        assert b[j] == s[i + 1 + j];
      }
      NotInToMap(b, k);
    }
    var m := ToMap(a) + ToMap(b);
    assert ToMap(s) == m[k := v] by {
      assert s == a + [s[i]] + b;
      ToMapSplice(a, s[i], b);
    }
    assert ToMap(Without(s, i)) == m by {
      ToMapAppend(a, b);
    }
    UpdateThenRemove(m, k, v);
  }
}
