/** The value-level behaviour of System.Collections.ObjectModel.KeyedCollection,
    which both keyed collections of the core extend: an ordered list of items
    with a dictionary from each item's key to the item, so no two items share
    a key. Each operation is the public list operation (which checks the index
    first) followed by the base override (which maintains the dictionary). */
module KeyedSpec {
  import opened Results
  import opened CollectionEvents
  import opened ListOps

  /** An IKeyedObject: GetKeyForItem returns its `key`. */
  datatype Item<K, V> = Item(key: K, body: V)

  /** No two items share a key: the dictionary invariant. */
  ghost predicate DistinctKeys<K, V>(items: seq<Item<K, V>>) {
    forall i, j :: 0 <= i < j < |items| ==> items[i].key != items[j].key
  }

  /** The keys of the dictionary: those of the items. */
  function KeySet<K(==), V(==)>(items: seq<Item<K, V>>): set<K> {
    set i | 0 <= i < |items| :: items[i].key
  }

  /** The values of the dictionary: the items themselves. */
  function ItemSet<K(==), V(==)>(items: seq<Item<K, V>>): set<Item<K, V>> {
    set i | 0 <= i < |items| :: items[i]
  }

  /** With distinct keys there are exactly as many keys as items. */
  lemma {:induction false} KeyCount<K, V>(items: seq<Item<K, V>>)
    requires DistinctKeys(items)
    ensures |KeySet(items)| == |items|
    ensures |ItemSet(items)| == |items|
  {
    if items != [] {
      var rest := items[1..];
      assert DistinctKeys(rest) by {
        forall i, j | 0 <= i < j < |rest| ensures rest[i].key != rest[j].key {
          assert rest[i] == items[i + 1] && rest[j] == items[j + 1];
        }
      }
      KeyCount(rest);
      assert KeySet(items) == {items[0].key} + KeySet(rest) by {
        forall k | k in KeySet(items) ensures k in {items[0].key} + KeySet(rest) {
          var i :| 0 <= i < |items| && items[i].key == k;
          if i > 0 { assert rest[i - 1].key == k; }
        }
      }
      assert items[0].key !in KeySet(rest);
      assert ItemSet(items) == {items[0]} + ItemSet(rest) by {
        forall x | x in ItemSet(items) ensures x in {items[0]} + ItemSet(rest) {
          var i :| 0 <= i < |items| && items[i] == x;
          if i > 0 { assert rest[i - 1] == x; }
        }
      }
      assert items[0] !in ItemSet(rest);
    }
  }

  /** Insert(index, item): Collection.Insert rejects an index outside
      [0, Count]; InsertItem then adds the key to the dictionary, which
      rejects a key already present; only then is the item inserted. */
  function Inserted<K(==), V(==)>(items: seq<Item<K, V>>, index: int, item: Item<K, V>): (r: Result<seq<Item<K, V>>>)
    ensures !(0 <= index <= |items|) ==> r == Err(ArgumentOutOfRange)
    ensures 0 <= index <= |items| && item.key in KeySet(items) ==> r == Err(DuplicateKey)
    ensures r.Err? || (0 <= index <= |items| && item.key !in KeySet(items))
    ensures r.Ok? ==> Apply(items, AddEvent(item, index)) == Some(r.value)
    ensures r.Ok? ==> KeySet(r.value) == KeySet(items) + {item.key}
    ensures r.Ok? && DistinctKeys(items) ==> DistinctKeys(r.value)
  {
    if !(0 <= index <= |items|) then Err(ArgumentOutOfRange)
    else if item.key in KeySet(items) then Err(DuplicateKey)
    else
      var s := items[..index] + [item] + items[index..];
      assert KeySet(s) == KeySet(items) + {item.key} by {
        forall k | k in KeySet(items) ensures k in KeySet(s) {
          var i :| 0 <= i < |items| && items[i].key == k;
          if i < index { assert s[i] == items[i]; } else { assert s[i + 1] == items[i]; }
        }
        assert s[index] == item;
      }
      assert DistinctKeys(items) ==> DistinctKeys(s) by {
        if DistinctKeys(items) {
          forall i, j | 0 <= i < j < |s| ensures s[i].key != s[j].key {
            if i != index && j != index {
              var i', j' := if i < index then i else i - 1, if j < index then j else j - 1;
              assert s[i] == items[i'] && s[j] == items[j'];
            } else if i == index {
              assert s[j] == items[j - 1];
            } else {
              assert s[i] == items[i];
            }
          }
        }
      }
      Ok(s)
  }

  /** this[index] = item: the indexer rejects an index outside [0, Count);
      SetItem keeps the dictionary entry when the key is unchanged and
      otherwise adds the new key (rejecting one already present) and drops
      the old one; then the item replaces the one at `index`. */
  function Replaced<K(==), V(==)>(items: seq<Item<K, V>>, index: int, item: Item<K, V>): (r: Result<seq<Item<K, V>>>)
    ensures !(0 <= index < |items|) ==> r == Err(ArgumentOutOfRange)
    ensures 0 <= index < |items| && item.key != items[index].key && item.key in KeySet(items) ==> r == Err(DuplicateKey)
    ensures r.Err? || (0 <= index < |items| && (item.key == items[index].key || item.key !in KeySet(items)))
    ensures r.Ok? ==> Apply(items, ReplaceEvent([item], [items[index]], index)) == Some(r.value)
    ensures r.Ok? && DistinctKeys(items) ==>
      DistinctKeys(r.value) && KeySet(r.value) == KeySet(items) - {items[index].key} + {item.key}
  {
    if !(0 <= index < |items|) then Err(ArgumentOutOfRange)
    else if item.key != items[index].key && item.key in KeySet(items) then Err(DuplicateKey)
    else
      var s := items[index := item];
      assert s[..index] + [item] + s[index + 1..] == s;
      assert items[index..index + 1] == [items[index]];
      assert DistinctKeys(items) ==>
        DistinctKeys(s) && KeySet(s) == KeySet(items) - {items[index].key} + {item.key} by {
        if DistinctKeys(items) {
          forall i, j | 0 <= i < j < |s| ensures s[i].key != s[j].key {
            if i == index {
              assert item.key != items[index].key ==> items[j].key != item.key;
            } else if j == index {
              assert item.key != items[index].key ==> items[i].key != item.key;
            }
          }
          forall k | k in KeySet(items) - {items[index].key} ensures k in KeySet(s) {
            var i :| 0 <= i < |items| && items[i].key == k;
            assert s[i] == items[i];
          }
          assert s[index] == item;
        }
      }
      Ok(s)
  }

  /** RemoveAt(index): rejected outside [0, Count); otherwise the item's key
      leaves the dictionary and the item leaves the list. */
  function RemovedAt<K(==), V(==)>(items: seq<Item<K, V>>, index: int): (r: Result<seq<Item<K, V>>>)
    ensures r.Err? <==> !(0 <= index < |items|)
    ensures r.Err? ==> r.error == ArgumentOutOfRange
    ensures r.Ok? ==> Apply(items, RemoveEvent(items[index], index)) == Some(r.value)
    ensures r.Ok? && DistinctKeys(items) ==>
      DistinctKeys(r.value) && KeySet(r.value) == KeySet(items) - {items[index].key}
  {
    if !(0 <= index < |items|) then Err(ArgumentOutOfRange)
    else
      var s := items[..index] + items[index + 1..];
      assert items[index..index + 1] == [items[index]];
      assert DistinctKeys(items) ==> DistinctKeys(s) && KeySet(s) == KeySet(items) - {items[index].key} by {
        if DistinctKeys(items) {
          forall i, j | 0 <= i < j < |s| ensures s[i].key != s[j].key {
            var i', j' := if i < index then i else i + 1, if j < index then j else j + 1;
            assert s[i] == items[i'] && s[j] == items[j'];
          }
          forall k | k in KeySet(items) - {items[index].key} ensures k in KeySet(s) {
            var i :| 0 <= i < |items| && items[i].key == k;
            if i < index { assert s[i] == items[i]; } else { assert s[i - 1] == items[i]; }
          }
          forall k | k in KeySet(s) ensures k in KeySet(items) - {items[index].key} {
            var i :| 0 <= i < |s| && s[i].key == k;
            if i < index { assert s[i] == items[i]; } else { assert s[i] == items[i + 1]; }
          }
        }
      }
      Ok(s)
  }

  /** ChangeItemKey(item, newKey): an item not in the collection is rejected;
      an unchanged key changes nothing; otherwise the new key is added
      (rejecting one already present) and the old key dropped, so the item
      is from then on found under `newKey`. */
  function Rekeyed<K(==), V(==)>(items: seq<Item<K, V>>, item: Item<K, V>, newKey: K): (r: Result<seq<Item<K, V>>>)
    ensures item !in items ==> r == Err(ItemNotFound)
    ensures item in items && newKey != item.key && newKey in KeySet(items) ==> r == Err(DuplicateKey)
    ensures r.Err? || (item in items && (newKey == item.key || newKey !in KeySet(items)))
    ensures r.Ok? ==> |r.value| == |items|
    ensures r.Ok? ==> forall i :: 0 <= i < |items| ==>
      r.value[i].body == items[i].body && (items[i] != item ==> r.value[i] == items[i])
    ensures r.Ok? && DistinctKeys(items) ==>
      DistinctKeys(r.value) && KeySet(r.value) == KeySet(items) - {item.key} + {newKey}
      && Item(newKey, item.body) in r.value
  {
    if item !in items then Err(ItemNotFound)
    else if newKey == item.key then Ok(items)
    else if newKey in KeySet(items) then Err(DuplicateKey)
    else
      var k := FirstIndex(items, item);
      var s := items[k := Item(newKey, item.body)];
      assert DistinctKeys(items) ==>
        DistinctKeys(s) && KeySet(s) == KeySet(items) - {item.key} + {newKey} && s[k] in s by {
        if DistinctKeys(items) {
          forall i | 0 <= i < |items| && items[i] == item ensures i == k {
            assert items[i].key == items[k].key;
          }
          forall i, j | 0 <= i < j < |s| ensures s[i].key != s[j].key {
            if i == k { assert items[j].key in KeySet(items); }
            else if j == k { assert items[i].key in KeySet(items); }
          }
          forall x | x in KeySet(items) - {item.key} ensures x in KeySet(s) {
            var i :| 0 <= i < |items| && items[i].key == x;
            assert s[i] == items[i];
          }
          assert s[k].key == newKey;
        }
      }
      Ok(s)
  }

  /** Inserting and then removing at the same position restores the list. */
  lemma InsertThenRemove<K, V>(items: seq<Item<K, V>>, index: int, item: Item<K, V>)
    requires Inserted(items, index, item).Ok?
    ensures RemovedAt(Inserted(items, index, item).value, index) == Ok(items)
  {
    var s := Inserted(items, index, item).value;
    assert s == items[..index] + [item] + items[index..] by {
      assert Apply(items, AddEvent(item, index)) == Some(s);
    }
    assert s[..index] + s[index + 1..] == items;
  }

  /** Putting the displaced item back restores the list. */
  lemma ReplaceThenRestore<K, V>(items: seq<Item<K, V>>, index: int, item: Item<K, V>)
    requires DistinctKeys(items)
    requires Replaced(items, index, item).Ok?
    ensures Replaced(Replaced(items, index, item).value, index, items[index]) == Ok(items)
  {
    var s := Replaced(items, index, item).value;
    assert s == items[index := item] by {
      assert Apply(items, ReplaceEvent([item], [items[index]], index)) == Some(s);
      assert s == items[..index] + [item] + items[index + 1..];
    }
    if items[index].key != item.key {
      assert items[index].key !in KeySet(s) by {
        forall i | 0 <= i < |s| ensures s[i].key != items[index].key {
          if i != index { assert s[i] == items[i]; }
        }
      }
    }
    assert s[index := items[index]] == items;
  }

  /** Changing a key and changing it back restores the list. */
  lemma RekeyRoundTrip<K, V>(items: seq<Item<K, V>>, item: Item<K, V>, newKey: K)
    requires DistinctKeys(items)
    requires Rekeyed(items, item, newKey).Ok?
    ensures Rekeyed(Rekeyed(items, item, newKey).value, Item(newKey, item.body), item.key) == Ok(items)
  {
    var s := Rekeyed(items, item, newKey).value;
    var moved := Item(newKey, item.body);
    if newKey != item.key {
      var k := FirstIndex(items, item);
      assert s == items[k := moved];
      assert item.key !in KeySet(s) by {
        forall i | 0 <= i < |s| ensures s[i].key != item.key {
          if i != k { assert items[i].key != items[k].key; }
        }
      }
      assert moved in s && s[k] == moved;
      forall i | 0 <= i < k ensures s[i] != moved {
        assert s[i] == items[i] && items[i].key in KeySet(items);
      }
      assert moved !in s[..k];
      FirstIndexUnique(s, moved, k);
      assert s[k := Item(item.key, moved.body)] == items;
    }
  }
}
