/** SynchronizedKeyedCollection<TKey, TItem>: a keyed collection whose
    overrides hand each mutation to a synchronization context. The context's
    Send runs the work at once, so every public mutation here is a direct call
    of the matching Post method, which mutates the base list and then raises
    one event. Dispose drops the handler; later mutations still apply. */
module SynchronizedKeyedCollections {
  import opened Results
  import opened CollectionEvents
  import opened KeyedSpec

  class SynchronizedKeyedCollection<K(==), V(==)> {
    /** The base list, in order. */
    var items: seq<Item<K, V>>
    /** Whether the CollectionChanged event has a handler (Dispose nulls it). */
    var hasSubscriber: bool
    /** Every event handed to the CollectionChanged handlers, oldest first. */
    var raised: seq<ChangeEvent<Item<K, V>>>

    /** The base class's dictionary invariant. */
    ghost predicate Valid()
      reads this
    {
      DistinctKeys(items)
    }

    constructor()
      ensures Valid()
      ensures items == [] && !hasSubscriber && raised == []
    {
      items, hasSubscriber, raised := [], false, [];
    }

    /** Attaching a handler to CollectionChanged. */
    method AddHandler()
      modifies this
      ensures hasSubscriber && items == old(items) && raised == old(raised)
    {
      hasSubscriber := true;
    }

    /** Keys: the keys of the base dictionary, one per item. */
    function Keys(): (ks: set<K>)
      reads this
      requires Valid()
      ensures |ks| == |items|
      ensures forall i :: 0 <= i < |items| ==> items[i].key in ks
      ensures forall k :: k in ks ==> exists i :: 0 <= i < |items| && items[i].key == k
    {
      KeyCount(items);
      KeySet(items)
    }

    /** Values: the values of the base dictionary, which are the items. */
    function Values(): (vs: set<Item<K, V>>)
      reads this
      requires Valid()
      ensures |vs| == |items|
      ensures forall x <- vs :: x in items
      ensures forall i :: 0 <= i < |items| ==> items[i] in vs
    {
      KeyCount(items);
      ItemSet(items)
    }

    /** Dispose: with no handler it returns at once; otherwise the handler is
        dropped. Either way nothing else changes, so a second call does nothing. */
    method Dispose()
      modifies this
      ensures !hasSubscriber && items == old(items) && raised == old(raised)
    {
      if !hasSubscriber {
        return;
      }
      hasSubscriber := false;
    }

    /** ChangeItemKey: the base operation, which raises no event. */
    method ChangeItemKey(item: Item<K, V>, newKey: K) returns (r: Outcome)
      requires Valid()
      modifies this
      ensures Valid() && hasSubscriber == old(hasSubscriber) && raised == old(raised)
      ensures match Rekeyed(old(items), item, newKey)
        case Ok(s) => r == Pass && items == s
        case Err(x) => r == Fail(x) && items == old(items)
    {
      var s := Rekeyed(items, item, newKey);
      if s.Err? {
        return Fail(s.error);
      }
      items := s.value;
      r := Pass;
    }

    /** OnCollectionChanged: hand `e` to the handler if there is one. */
    method OnCollectionChanged(e: ChangeEvent<Item<K, V>>)
      modifies this
      ensures items == old(items) && hasSubscriber == old(hasSubscriber)
      ensures raised == old(raised) + (if hasSubscriber then [e] else [])
    {
      if hasSubscriber {
        raised := raised + [e];
      }
    }

    /** PostInsertItem: the base insert, then Add(item, index). */
    method PostInsertItem(index: int, item: Item<K, V>) returns (r: Outcome)
      requires Valid()
      modifies this
      ensures Valid() && hasSubscriber == old(hasSubscriber)
      ensures match Inserted(old(items), index, item)
        case Ok(s) =>
          r == Pass && items == s
          && raised == old(raised) + (if hasSubscriber then [AddEvent(item, index)] else [])
        case Err(x) => r == Fail(x) && items == old(items) && raised == old(raised)
    {
      var s := Inserted(items, index, item);
      if s.Err? {
        return Fail(s.error);
      }
      items := s.value;
      var e := ItemArgs(Add, item, index);
      OnCollectionChanged(e.value);
      r := Pass;
    }

    /** Insert(index, item): InsertItem sends PostInsertItem. */
    method Insert(index: int, item: Item<K, V>) returns (r: Outcome)
      requires Valid()
      modifies this
      ensures Valid() && hasSubscriber == old(hasSubscriber)
      ensures match Inserted(old(items), index, item)
        case Ok(s) =>
          r == Pass && items == s
          && raised == old(raised) + (if hasSubscriber then [AddEvent(item, index)] else [])
        case Err(x) => r == Fail(x) && items == old(items) && raised == old(raised)
    {
      r := PostInsertItem(index, item);
    }

    /** PostSetItem as written: the base set takes effect, then building the
        event with the single-item constructor rejects Replace, so the call
        fails after the change and raises nothing. */
    method PostSetItemAsWritten(index: int, item: Item<K, V>) returns (r: Outcome)
      requires Valid()
      modifies this
      ensures Valid() && hasSubscriber == old(hasSubscriber) && raised == old(raised)
      ensures match Replaced(old(items), index, item)
        case Ok(s) => r == Fail(Argument) && items == s
        case Err(x) => r == Fail(x) && items == old(items)
    {
      var s := Replaced(items, index, item);
      if s.Err? {
        return Fail(s.error);
      }
      items := s.value;
      var e := ItemArgs(Replace, item, index);
      r := Fail(e.error);
    }

    /** PostSetItem as intended: the base set, then one Replace event carrying
        the new item, the displaced item and the index. */
    method PostSetItem(index: int, item: Item<K, V>) returns (r: Outcome)
      requires Valid()
      modifies this
      ensures Valid() && hasSubscriber == old(hasSubscriber)
      ensures match Replaced(old(items), index, item)
        case Ok(s) =>
          r == Pass && items == s
          && raised == old(raised)
             + (if hasSubscriber then [ReplaceEvent([item], [old(items)[index]], index)] else [])
        case Err(x) => r == Fail(x) && items == old(items) && raised == old(raised)
    {
      var s := Replaced(items, index, item);
      if s.Err? {
        return Fail(s.error);
      }
      var displaced := items[index];
      items := s.value;
      var e := ReplaceArgs(Replace, [item], [displaced], index);
      OnCollectionChanged(e.value);
      r := Pass;
    }

    /** this[index] = item: SetItem sends PostSetItem. */
    method SetItem(index: int, item: Item<K, V>) returns (r: Outcome)
      requires Valid()
      modifies this
      ensures Valid() && hasSubscriber == old(hasSubscriber)
      ensures match Replaced(old(items), index, item)
        case Ok(s) =>
          r == Pass && items == s
          && raised == old(raised)
             + (if hasSubscriber then [ReplaceEvent([item], [old(items)[index]], index)] else [])
        case Err(x) => r == Fail(x) && items == old(items) && raised == old(raised)
    {
      r := PostSetItem(index, item);
    }

    /** PostRemoveItem: the item at `index` is read first (an index out of
        range fails there), then removed, then Remove(item, index) is raised. */
    method PostRemoveItem(index: int) returns (r: Outcome)
      requires Valid()
      modifies this
      ensures Valid() && hasSubscriber == old(hasSubscriber)
      ensures match RemovedAt(old(items), index)
        case Ok(s) =>
          r == Pass && items == s
          && raised == old(raised) + (if hasSubscriber then [RemoveEvent(old(items)[index], index)] else [])
        case Err(x) => r == Fail(x) && items == old(items) && raised == old(raised)
    {
      if !(0 <= index < |items|) {
        return Fail(ArgumentOutOfRange);
      }
      var item := items[index];
      var s := RemovedAt(items, index);
      items := s.value;
      var e := ItemArgs(Remove, item, index);
      OnCollectionChanged(e.value);
      r := Pass;
    }

    /** RemoveAt(index): RemoveItem sends PostRemoveItem. */
    method RemoveAt(index: int) returns (r: Outcome)
      requires Valid()
      modifies this
      ensures Valid() && hasSubscriber == old(hasSubscriber)
      ensures match RemovedAt(old(items), index)
        case Ok(s) =>
          r == Pass && items == s
          && raised == old(raised) + (if hasSubscriber then [RemoveEvent(old(items)[index], index)] else [])
        case Err(x) => r == Fail(x) && items == old(items) && raised == old(raised)
    {
      r := PostRemoveItem(index);
    }

    /** PostClearItems: everything goes, then exactly one Reset. */
    method PostClearItems()
      requires Valid()
      modifies this
      ensures Valid() && hasSubscriber == old(hasSubscriber)
      ensures items == []
      ensures raised == old(raised) + (if hasSubscriber then [ResetArgs()] else [])
    {
      items := [];
      OnCollectionChanged(ResetArgs());
    }

    /** Clear(): ClearItems sends PostClearItems. */
    method Clear()
      requires Valid()
      modifies this
      ensures Valid() && hasSubscriber == old(hasSubscriber)
      ensures items == []
      ensures raised == old(raised) + (if hasSubscriber then [ResetArgs()] else [])
    {
      PostClearItems();
    }
  }
}
