/**
 * `SerializableDictionary<K, List<V>>` used as a multimap, and the `AddItem`
 * extension that appends to a key's list or creates it.
 */
module CollectionUtility {
  import opened Sequences

  /** The value of a dictionary from keys to lists: keys in insertion order and the list stored under each. */
  datatype Multimap<K, V> = Multimap(keys: seq<K>, entries: map<K, seq<V>>)
  {
    ghost predicate Valid() {
      Distinct(keys) && entries.Keys == set i | 0 <= i < |keys| :: keys[i]
    }

    /** The number of values stored, over all keys. */
    function Total(): nat
      requires Valid()
    {
      SumLengths(keys, entries)
    }
  }

  function Empty<K, V>(): (m: Multimap<K, V>)
    ensures m.Valid() && m.keys == [] && m.Total() == 0
  {
    Multimap([], map[])
  }

  function SumLengths<K, V>(keys: seq<K>, entries: map<K, seq<V>>): nat
    requires forall k :: k in keys ==> k in entries
  {
    if keys == [] then 0
    else SumLengths(keys[..|keys| - 1], entries) + |entries[keys[|keys| - 1]]|
  }

  /** The dictionary after `AddItem(key, value)`. */
  function WithItem<K, V>(m: Multimap<K, V>, key: K, value: V): (r: Multimap<K, V>)
    requires m.Valid()
    ensures r.Valid()
    ensures key in r.entries
    ensures key in m.entries ==> r.keys == m.keys && r.entries[key] == m.entries[key] + [value]
    ensures key !in m.entries ==> r.keys == m.keys + [key] && r.entries[key] == [value]
    ensures forall k :: k in m.entries && k != key ==> k in r.entries && r.entries[k] == m.entries[k]
  {
    if key in m.entries then Multimap(m.keys, m.entries[key := m.entries[key] + [value]])
    else
      KeySetSnoc(m.keys, key);
      Multimap(m.keys + [key], m.entries[key := [value]])
  }

  lemma KeySetSnoc<K>(keys: seq<K>, key: K)
    ensures (set i | 0 <= i < |keys + [key]| :: (keys + [key])[i]) == (set i | 0 <= i < |keys| :: keys[i]) + {key}
  {
    var ks := keys + [key];
    assert ks[|keys|] == key;
    forall i | 0 <= i < |keys| ensures ks[i] == keys[i] { }
  }

  /** AddItem adds exactly one value and at most one key. */
  lemma WithItemCounts<K, V>(m: Multimap<K, V>, key: K, value: V)
    requires m.Valid()
    ensures WithItem(m, key, value).Total() == m.Total() + 1
    ensures |m.keys| <= |WithItem(m, key, value).keys| <= |m.keys| + 1
  {
    if key in m.entries {
      SumLengthsGrow(m.keys, m.entries, key, m.entries[key] + [value]);
    } else {
      var e := m.entries[key := [value]];
      var ks := m.keys + [key];
      assert ks[..|ks| - 1] == m.keys;
      SumLengthsOther(m.keys, m.entries, key, [value]);
    }
  }

  lemma {:induction false} SumLengthsOther<K, V>(keys: seq<K>, entries: map<K, seq<V>>, key: K, list: seq<V>)
    requires forall k :: k in keys ==> k in entries
    requires key !in keys
    ensures SumLengths(keys, entries[key := list]) == SumLengths(keys, entries)
  {
    if keys != [] {
      SumLengthsOther(keys[..|keys| - 1], entries, key, list);
    }
  }

  lemma {:induction false} SumLengthsGrow<K, V>(keys: seq<K>, entries: map<K, seq<V>>, key: K, list: seq<V>)
    requires forall k :: k in keys ==> k in entries
    requires Distinct(keys) && key in keys && |list| == |entries[key]| + 1
    ensures SumLengths(keys, entries[key := list]) == SumLengths(keys, entries) + 1
  {
    var init, last := keys[..|keys| - 1], keys[|keys| - 1];
    assert forall i, j :: 0 <= i < j < |init| ==> init[i] != init[j] by {
      forall i, j | 0 <= i < j < |init| ensures init[i] != init[j] {
        assert init[i] == keys[i] && init[j] == keys[j];
      }
    }
    if last == key {
      assert key !in init by {
        forall i | 0 <= i < |init| ensures init[i] != key {
          assert init[i] == keys[i];
        }
      }
      SumLengthsOther(init, entries, key, list);
    } else {
      assert key in init by {
        var i :| 0 <= i < |keys| && keys[i] == key;
        assert i < |init| && init[i] == key;
      }
      SumLengthsGrow(init, entries, key, list);
    }
  }

  /**
   * The dictionary object itself. Lists are held by value: the model does
   * not capture two dictionaries sharing one list object.
   */
  class SerializableDictionary<K(==), V> {
    var contents: Multimap<K, V>

    ghost predicate Valid()
      reads this
    {
      contents.Valid()
    }

    constructor ()
      ensures Valid() && contents == Empty()
    {
      contents := Empty();
    }

    /** The copy constructor: a new dictionary holding the same keys and lists. */
    constructor Copy(source: Multimap<K, V>)
      requires source.Valid()
      ensures Valid() && contents == source
    {
      contents := source;
    }

    predicate ContainsKey(key: K)
      reads this
    {
      key in contents.entries
    }

    /** Appends `value` to the list under `key`, creating the entry `key -> [value]` when the key is absent. */
    method AddItem(key: K, value: V)
      requires Valid()
      modifies this
      ensures Valid()
      ensures contents == WithItem(old(contents), key, value)
    {
      if ContainsKey(key) {
        contents := Multimap(contents.keys, contents.entries[key := contents.entries[key] + [value]]);
        return;
      }
      KeySetSnoc(contents.keys, key);
      contents := Multimap(contents.keys + [key], contents.entries[key := [value]]);
    }
  }
}
