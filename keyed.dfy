/** KeyedCollection<TKey, TItem>: the framework's keyed collection whose
    overrides raise one CollectionChanged event after each mutation of the
    base list, and only when a handler is attached. */
module KeyedCollections {
  import opened Results
  import opened CollectionEvents
  import opened KeyedSpec

  class KeyedCollection<K(==), V(==)> {
    /** The base list, in order. */
    var items: seq<Item<K, V>>
    /** Whether the CollectionChanged event has a handler. */
    var hasSubscriber: bool
    /** Every event handed to the CollectionChanged handlers, oldest first. */
    var raised: seq<ChangeEvent<Item<K, V>>>

    /** The base class's dictionary invariant. */
    ghost predicate Valid()
      reads this
    {
      DistinctKeys(items)
    }

    constructor()
      ensures Valid()
      ensures items == [] && !hasSubscriber && raised == []
    {
      items, hasSubscriber, raised := [], false, [];
    }

    /** Attaching a handler to CollectionChanged. */
    method AddHandler()
      modifies this
      ensures hasSubscriber && items == old(items) && raised == old(raised)
    {
      hasSubscriber := true;
    }

    /** Keys: the keys of the base dictionary, one per item. */
    function Keys(): (ks: set<K>)
      reads this
      requires Valid()
      ensures |ks| == |items|
      ensures forall i :: 0 <= i < |items| ==> items[i].key in ks
      ensures forall k :: k in ks ==> exists i :: 0 <= i < |items| && items[i].key == k
    {
      KeyCount(items);
      KeySet(items)
    }

    /** Values: the values of the base dictionary, which are the items. */
    function Values(): (vs: set<Item<K, V>>)
      reads this
      requires Valid()
      ensures |vs| == |items|
      ensures forall x <- vs :: x in items
      ensures forall i :: 0 <= i < |items| ==> items[i] in vs
    {
      KeyCount(items);
      ItemSet(items)
    }

    /** OnCollectionChanged: hand `e` to the handler if there is one. */
    method OnCollectionChanged(e: ChangeEvent<Item<K, V>>)
      modifies this
      ensures items == old(items) && hasSubscriber == old(hasSubscriber)
      ensures raised == old(raised) + (if hasSubscriber then [e] else [])
    {
      if hasSubscriber {
        raised := raised + [e];
      }
    }

    /** Insert(index, item), through InsertItem: the base insert, then one Add
        event carrying the item and its index. A rejected insert raises nothing. */
    method Insert(index: int, item: Item<K, V>) returns (r: Outcome)
      requires Valid()
      modifies this
      ensures Valid() && hasSubscriber == old(hasSubscriber)
      ensures match Inserted(old(items), index, item)
        case Ok(s) =>
          r == Pass && items == s
          && raised == old(raised) + (if hasSubscriber then [AddEvent(item, index)] else [])
        case Err(x) => r == Fail(x) && items == old(items) && raised == old(raised)
    {
      var s := Inserted(items, index, item);
      if s.Err? {
        return Fail(s.error);
      }
      items := s.value;
      var e := ItemArgs(Add, item, index);
      OnCollectionChanged(e.value);
      r := Pass;
    }

    /** this[index] = item through SetItem as written: the base set takes
        effect, then the event is built with the single-item constructor,
        which rejects Replace, so the call fails after the change and no
        event is raised. */
    method SetItemAsWritten(index: int, item: Item<K, V>) returns (r: Outcome)
      requires Valid()
      modifies this
      ensures Valid() && hasSubscriber == old(hasSubscriber) && raised == old(raised)
      ensures match Replaced(old(items), index, item)
        case Ok(s) => r == Fail(Argument) && items == s
        case Err(x) => r == Fail(x) && items == old(items)
    {
      var s := Replaced(items, index, item);
      if s.Err? {
        return Fail(s.error);
      }
      items := s.value;
      var e := ItemArgs(Replace, item, index);
      r := Fail(e.error);
    }

    /** this[index] = item through SetItem as intended: the base set, then one
        Replace event carrying the new item, the displaced item and the index. */
    method SetItem(index: int, item: Item<K, V>) returns (r: Outcome)
      requires Valid()
      modifies this
      ensures Valid() && hasSubscriber == old(hasSubscriber)
      ensures match Replaced(old(items), index, item)
        case Ok(s) =>
          r == Pass && items == s
          && raised == old(raised)
             + (if hasSubscriber then [ReplaceEvent([item], [old(items)[index]], index)] else [])
        case Err(x) => r == Fail(x) && items == old(items) && raised == old(raised)
    {
      var s := Replaced(items, index, item);
      if s.Err? {
        return Fail(s.error);
      }
      var displaced := items[index];
      items := s.value;
      var e := ReplaceArgs(Replace, [item], [displaced], index);
      OnCollectionChanged(e.value);
      r := Pass;
    }

    /** RemoveAt(index), through RemoveItem: the item at `index` is read
        first, then removed, then one Remove event carries it and the index. */
    method RemoveAt(index: int) returns (r: Outcome)
      requires Valid()
      modifies this
      ensures Valid() && hasSubscriber == old(hasSubscriber)
      ensures match RemovedAt(old(items), index)
        case Ok(s) =>
          r == Pass && items == s
          && raised == old(raised) + (if hasSubscriber then [RemoveEvent(old(items)[index], index)] else [])
        case Err(x) => r == Fail(x) && items == old(items) && raised == old(raised)
    {
      var s := RemovedAt(items, index);
      if s.Err? {
        return Fail(s.error);
      }
      var item := items[index];
      items := s.value;
      var e := ItemArgs(Remove, item, index);
      OnCollectionChanged(e.value);
      r := Pass;
    }

    /** Clear(), through ClearItems: everything goes, then exactly one Reset. */
    method Clear()
      requires Valid()
      modifies this
      ensures Valid() && hasSubscriber == old(hasSubscriber)
      ensures items == []
      ensures raised == old(raised) + (if hasSubscriber then [ResetArgs()] else [])
    {
      items := [];
      OnCollectionChanged(ResetArgs());
    }
  }
}
