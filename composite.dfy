/** CompositeCollection<T>: an ordered list of child observable collections
    presented as their concatenation, re-broadcasting each child's change
    with the index shifted by the child's offset. */
module CompositeCollections {
  import opened Results
  import opened CollectionEvents
  import opened CompositeSpec
  import opened ListOps

  /** A child: an ObservableCollection<T> that other code owns and mutates. */
  class ObservableList<T> {
    var items: seq<T>

    constructor (items: seq<T>)
      ensures this.items == items
    {
      this.items := items;
    }
  }

  /** The current item lists of `cs`, in order. */
  function ItemLists<T>(cs: seq<ObservableList<T>>): (ls: seq<seq<T>>)
    reads cs
    ensures |ls| == |cs| && forall i :: 0 <= i < |cs| ==> ls[i] == cs[i].items
  {
    seq(|cs|, i reads cs requires 0 <= i < |cs| => cs[i].items)
  }

  /** Appending a child appends its item list. */
  lemma ItemListsSnoc<T>(cs: seq<ObservableList<T>>, c: ObservableList<T>)
    ensures ItemLists(cs + [c]) == ItemLists(cs) + [c.items]
  {
  }

  /** Dropping child `k` drops its item list. */
  lemma ItemListsDrop<T>(cs: seq<ObservableList<T>>, k: nat)
    requires k < |cs|
    ensures ItemLists(cs[..k] + cs[k + 1..]) == ItemLists(cs)[..k] + ItemLists(cs)[k + 1..]
  {
  }

  /** Removing the first occurrence of child `c`, announced by one Remove
      per item of `c` at `c`'s offset (what RemoveCollection emits), turns
      the old concatenation into the concatenation of the remaining children. */
  lemma RemoveChildConsistent<T>(cs: seq<ObservableList<T>>, c: ObservableList<T>)
    requires c in cs
    ensures ApplyAll(Flatten(ItemLists(cs)), RemoveBlock(c.items, Offset(ItemLists(cs), FirstIndex(cs, c))))
            == Some(Flatten(ItemLists(RemoveFirst(cs, c))))
  {
    var k := FirstIndex(cs, c);
    ItemListsDrop(cs, k);
    RemoveCollectionSplices(ItemLists(cs), k);
  }

  class CompositeCollection<T(==)> {
    /** _collections, in order; the same child may occur more than once. */
    var children: seq<ObservableList<T>>
    /** Whether the CollectionChanged event has a handler (is non-null). */
    var hasSubscriber: bool
    /** Every event handed to the CollectionChanged handlers, oldest first. */
    var emitted: seq<ChangeEvent<T>>
    /** Whether _subscriptions is still non-null (Dispose not yet called). */
    var subscriptionsLive: bool
    /** The number of Follow calls whose source subscriptions are live. */
    var follows: nat
    /** The number of Follow calls made after Dispose: each one subscribed to
        the source's added items before failing to record the subscription,
        so that subscription stays attached and is never disposed. */
    var leaked: nat

    /** Once disposed, no Follow subscription is live. */
    ghost predicate Valid()
      reads this
    {
      subscriptionsLive || follows == 0
    }

    /** The children's current item lists, in child order. */
    function Lists(): (ls: seq<seq<T>>)
      reads this`children, children
      ensures |ls| == |children|
      ensures forall i :: 0 <= i < |children| ==> ls[i] == children[i].items
    {
      ItemLists(children)
    }

    /** What enumerating the composite yields: all children's items, children in list order. */
    function Items(): seq<T>
      reads this`children, children
    {
      Flatten(Lists())
    }

    /** The offset of child `c`, taken at its first occurrence. */
    function OffsetOf(c: ObservableList<T>): nat
      reads this`children, children
      requires c in children
    {
      Offset(Lists(), FirstIndex(children, c))
    }

    /** Both public constructors: keep the given children, in order, and
        subscribe to each one. */
    constructor (collections: seq<ObservableList<T>>)
      ensures children == collections && emitted == []
      ensures Valid() && !hasSubscriber && subscriptionsLive && follows == 0 && leaked == 0
    {
      children := collections;
      hasSubscriber := false;
      emitted := [];
      subscriptionsLive := true;
      follows := 0;
      leaked := 0;
    }

    /** `CollectionChanged += handler`. */
    method AddHandler()
      modifies this
      ensures hasSubscriber
      ensures children == old(children) && emitted == old(emitted)
      ensures subscriptionsLive == old(subscriptionsLive) && follows == old(follows) && leaked == old(leaked)
    {
      hasSubscriber := true;
    }

    /** IndexAt: the sum of the counts of the children before the first
        occurrence of `c`. The loop indexes `_collections[i]` before it tests
        `i < Count`, so for a child that is not in the list the indexer fails
        with ArgumentOutOfRange instead of the loop ending. */
    method IndexAt(c: ObservableList<T>) returns (r: Result<nat>)
      ensures c in children ==> r == Ok(OffsetOf(c))
      ensures c !in children ==> r == Err(ArgumentOutOfRange)
    {
      var offset := 0;
      var i := 0;
      while true
        invariant 0 <= i <= |children|
        invariant c !in children[..i]
        invariant offset == Offset(Lists(), i)
        decreases |children| - i
      {
        if i >= |children| {
          assert children[..i] == children;
          return Err(ArgumentOutOfRange);
        }
        if c == children[i] {
          FirstIndexUnique(children, c, i);
          return Ok(offset);
        }
        OffsetStep(Lists(), i);
        offset := offset + |children[i].items|;
        assert children[..i + 1] == children[..i] + [children[i]];
        i := i + 1;
      }
    }

    /** CollectionAt: the child holding global position `index` and the
        position within it. For a position inside the composite that is the
        first child whose block covers it (empty children are passed over);
        past the end it is null and -1. A negative `index` is not rejected:
        the first child, if any, is returned with `index` unchanged. */
    method CollectionAt(index: int) returns (c: ObservableList?<T>, newIndex: int)
      ensures c == null <==> children == [] || index >= |Items()|
      ensures c == null ==> newIndex == -1
      ensures index < 0 && children != [] ==> c == children[0] && newIndex == index
      ensures c != null && index >= 0 ==>
        exists k :: 0 <= k < |children| && c == children[k]
          && newIndex == index - Offset(Lists(), k) && 0 <= newIndex < |children[k].items|
      ensures 0 <= index < |Items()| ==>
        c != null && 0 <= newIndex < |c.items| && Items()[index] == c.items[newIndex]
    {
      ghost var lists := Lists();
      var acc := 0;
      var i := 0;
      while i < |children|
        invariant 0 <= i <= |children|
        invariant acc == Offset(lists, i)
        invariant i > 0 ==> acc <= index
        invariant forall j :: 0 <= j < i ==> Offset(lists, j) + |lists[j]| <= index
      {
        if acc + |children[i].items| > index {
          if index >= 0 {
            assert 0 <= index - acc < |lists[i]|;
            FlattenAt(lists, i, index - acc);
          }
          OffsetMonotone(lists, i, |children|);
          return children[i], index - acc;
        }
        OffsetStep(lists, i);
        acc := acc + |children[i].items|;
        i := i + 1;
      }
      OffsetEnd(lists);
      return null, -1;
    }

    /** AddCollection: append `c` and subscribe to it; then, only if the
        composite has a handler, announce every item of `c`, in order, as an
        Add at the offset of `c`'s first occurrence plus its position. */
    method AddCollection(c: ObservableList<T>)
      modifies this
      ensures children == old(children) + [c]
      ensures hasSubscriber == old(hasSubscriber)
      ensures subscriptionsLive == old(subscriptionsLive) && follows == old(follows) && leaked == old(leaked)
      ensures emitted == old(emitted) + (if hasSubscriber then AddBlock(c.items, OffsetOf(c)) else [])
      ensures hasSubscriber && c !in old(children) ==>
        ApplyAll(old(Items()), AddBlock(c.items, OffsetOf(c))) == Some(Items())
    {
      ghost var before := Lists();
      ItemListsSnoc(children, c);
      children := children + [c];
      ghost var after := Lists();
      assert after == before + [c.items];
      if !hasSubscriber {
        return;
      }
      var r := IndexAt(c);
      var offset := r.value;
      var i := 0;
      while i < |c.items|
        invariant 0 <= i <= |c.items|
        invariant children == old(children) + [c] && hasSubscriber
        invariant subscriptionsLive == old(subscriptionsLive) && follows == old(follows) && leaked == old(leaked)
        invariant emitted == old(emitted) + AddBlock(c.items[..i], offset)
        invariant Lists() == after
      {
        var e := ItemArgs(Add, c.items[i], offset + i);
        emitted := emitted + [e.value];
        AddBlockSnoc(c.items, offset, i);
        i := i + 1;
      }
      assert c.items[..i] == c.items;
      if c !in old(children) {
        FirstIndexUnique(children, c, |old(children)|);
        AddCollectionSplices(before, c.items);
        assert offset == Offset(after, |before|);
      }
    }

    /** RemoveCollection: take the offset of `c`'s first occurrence, announce
        every item of `c`, in order, as a Remove at that one offset, then drop
        the first occurrence and unsubscribe. The handler is invoked without a
        null check, so with no handler and a non-empty child it fails before
        anything is removed; a child that is not in the list fails in IndexAt. */
    method RemoveCollection(c: ObservableList<T>) returns (r: Outcome)
      modifies this
      ensures hasSubscriber == old(hasSubscriber)
      ensures subscriptionsLive == old(subscriptionsLive) && follows == old(follows) && leaked == old(leaked)
      ensures c !in old(children) ==>
        r == Fail(ArgumentOutOfRange) && children == old(children) && emitted == old(emitted)
      ensures c in old(children) && !hasSubscriber && c.items != [] ==>
        r == Fail(NullReference) && children == old(children) && emitted == old(emitted)
      ensures c in old(children) && (hasSubscriber || c.items == []) ==>
        r == Pass && children == RemoveFirst(old(children), c)
        && emitted == old(emitted) + RemoveBlock(c.items, old(OffsetOf(c)))
      ensures old(emitted) <= emitted
    {
      var found := IndexAt(c);
      if found.Err? {
        return Fail(found.error);
      }
      var offset := found.value;
      if !hasSubscriber && c.items != [] {
        // raising the first Remove invokes the null handler
        return Fail(NullReference);
      }
      var i := 0;
      while i < |c.items|
        invariant 0 <= i <= |c.items|
        invariant hasSubscriber == old(hasSubscriber)
        invariant subscriptionsLive == old(subscriptionsLive) && follows == old(follows) && leaked == old(leaked)
        invariant children == old(children)
        invariant emitted == old(emitted) + RemoveBlock(c.items[..i], offset)
      {
        emitted := emitted + [RemoveEvent(c.items[i], offset)];
        RemoveBlockSnoc(c.items, offset, i);
        i := i + 1;
      }
      assert c.items[..i] == c.items;
      children := RemoveFirst(children, c);
      return Pass;
    }

    /** CollectionChange, the handler subscribed to every child: with no
        handler of its own it does nothing; otherwise it re-emits the child's
        event translated by the offset of the sender's first occurrence. */
    method CollectionChange(sender: ObservableList<T>, e: ChangeEvent<T>) returns (r: Outcome)
      modifies this
      ensures children == old(children) && hasSubscriber == old(hasSubscriber)
      ensures subscriptionsLive == old(subscriptionsLive) && follows == old(follows) && leaked == old(leaked)
      ensures !hasSubscriber ==> r == Pass && emitted == old(emitted)
      ensures hasSubscriber && sender !in children ==>
        r == Fail(ArgumentOutOfRange) && emitted == old(emitted)
      ensures hasSubscriber && sender in children ==>
        match Translate(e, OffsetOf(sender))
        case Ok(e') => r == Pass && emitted == old(emitted) + [e']
        case Err(x) => r == Fail(x) && emitted == old(emitted)
    {
      if !hasSubscriber {
        return Pass;
      }
      var found := IndexAt(sender);
      if found.Err? {
        return Fail(found.error);
      }
      var translated := Translate(e, found.value);
      if translated.Err? {
        return Fail(translated.error);
      }
      emitted := emitted + [translated.value];
      return Pass;
    }

    /** GetEnumerator: every item of every child, children in list order. */
    method GetEnumerator() returns (r: seq<T>)
      ensures r == Items()
    {
      r := [];
      var i := 0;
      while i < |children|
        invariant 0 <= i <= |children|
        invariant r == Flatten(Lists()[..i])
      {
        var items := children[i].items;
        var j := 0;
        while j < |items|
          invariant 0 <= j <= |items|
          invariant r == Flatten(Lists()[..i]) + items[..j]
        {
          r := r + [items[j]];
          assert items[..j + 1] == items[..j] + [items[j]];
          j := j + 1;
        }
        assert items[..j] == items;
        FlattenSnoc(Lists(), i);
        i := i + 1;
      }
      assert Lists()[..i] == Lists();
    }

    /** Dispose: the first call disposes the Follow subscriptions and nulls
        them; any later call returns at once. The child handlers stay, and so
        do the added-items subscriptions of Follow calls made after Dispose. */
    method Dispose()
      requires Valid()
      modifies this
      ensures Valid() && !subscriptionsLive && follows == 0 && leaked == old(leaked)
      ensures children == old(children) && emitted == old(emitted) && hasSubscriber == old(hasSubscriber)
      ensures !old(subscriptionsLive) ==> follows == old(follows)
    {
      if !subscriptionsLive {
        return;
      }
      subscriptionsLive := false;
      follows := 0;
    }

    /** Follow: subscribe to the source's added and removed items. After
        Dispose the subscription set is null: the added-items subscription is
        made first, as the argument of the failing Add, and stays attached;
        the removed-items subscription is never made. */
    method Follow() returns (r: Outcome)
      requires Valid()
      modifies this
      ensures Valid()
      ensures r == (if old(subscriptionsLive) then Pass else Fail(NullReference))
      ensures follows == (if old(subscriptionsLive) then old(follows) + 1 else old(follows))
      ensures leaked == (if old(subscriptionsLive) then old(leaked) else old(leaked) + 1)
      ensures children == old(children) && emitted == old(emitted)
      ensures hasSubscriber == old(hasSubscriber) && subscriptionsLive == old(subscriptionsLive)
    {
      if !subscriptionsLive {
        leaked := leaked + 1;
        return Fail(NullReference);
      }
      follows := follows + 1;
      return Pass;
    }

    /** The Follow handler for an item the source added: add its conversion.
        It runs for live Follow subscriptions and for leaked ones alike. */
    method FollowedAdded(converted: ObservableList<T>)
      requires follows > 0 || leaked > 0
      modifies this
      ensures children == old(children) + [converted]
      ensures emitted == old(emitted) + (if hasSubscriber then AddBlock(converted.items, OffsetOf(converted)) else [])
      ensures hasSubscriber == old(hasSubscriber)
      ensures subscriptionsLive == old(subscriptionsLive) && follows == old(follows) && leaked == old(leaked)
    {
      AddCollection(converted);
    }

    /** The Follow handler for an item the source removed: remove its
        conversion, which must be the very child added for it. */
    method FollowedRemoved(converted: ObservableList<T>) returns (r: Outcome)
      requires follows > 0
      modifies this
      ensures converted !in old(children) ==>
        r == Fail(ArgumentOutOfRange) && children == old(children) && emitted == old(emitted)
      ensures converted in old(children) && !hasSubscriber && converted.items != [] ==>
        r == Fail(NullReference) && children == old(children) && emitted == old(emitted)
      ensures converted in old(children) && (hasSubscriber || converted.items == []) ==>
        r == Pass && children == RemoveFirst(old(children), converted)
        && emitted == old(emitted) + RemoveBlock(converted.items, old(OffsetOf(converted)))
      ensures old(emitted) <= emitted
      ensures hasSubscriber == old(hasSubscriber)
      ensures subscriptionsLive == old(subscriptionsLive) && follows == old(follows) && leaked == old(leaked)
    {
      r := RemoveCollection(converted);
    }

    /** CopyAndFollow: add the conversion of every current source item, in
        source order, then Follow the source. */
    method CopyAndFollow<R>(sources: seq<R>, convert: R -> ObservableList<T>) returns (r: Outcome)
      requires Valid()
      modifies this
      ensures Valid()
      ensures children == old(children) + seq(|sources|, i requires 0 <= i < |sources| => convert(sources[i]))
      ensures r == (if old(subscriptionsLive) then Pass else Fail(NullReference))
      ensures follows == (if old(subscriptionsLive) then old(follows) + 1 else old(follows))
      ensures leaked == (if old(subscriptionsLive) then old(leaked) else old(leaked) + 1)
      ensures hasSubscriber == old(hasSubscriber) && subscriptionsLive == old(subscriptionsLive)
      ensures !hasSubscriber ==> emitted == old(emitted)
      ensures old(emitted) <= emitted
      ensures hasSubscriber && NewAndDistinct(children[|old(children)|..], old(children))
        ==> ApplyAll(old(Items()), emitted[|old(emitted)|..]) == Some(Items())
    {
      ghost var all := seq(|sources|, i requires 0 <= i < |sources| => convert(sources[i]));
      ghost var distinct := hasSubscriber && NewAndDistinct(all, old(children));
      var i := 0;
      while i < |sources|
        invariant 0 <= i <= |sources|
        invariant children == old(children) + all[..i]
        invariant hasSubscriber == old(hasSubscriber) && subscriptionsLive == old(subscriptionsLive)
        invariant follows == old(follows) && leaked == old(leaked)
        invariant old(emitted) <= emitted
        invariant !hasSubscriber ==> emitted == old(emitted)
        invariant distinct ==> ApplyAll(old(Items()), emitted[|old(emitted)|..]) == Some(Items())
      {
        var c := convert(sources[i]);
        assert c == all[i] && all[..i + 1] == all[..i] + [c];
        ghost var itemsBefore, emittedBefore := Items(), emitted;
        AddCollection(c);
        if distinct {
          NewAndDistinctAt(all, old(children), i);
          var block := AddBlock(c.items, OffsetOf(c));
          SuffixOfAppend(emittedBefore, block, |old(emitted)|);
          ApplyAllAppend(old(Items()), emittedBefore[|old(emitted)|..], block, itemsBefore);
        }
        i := i + 1;
      }
      assert all[..i] == all;
      r := Follow();
    }
  }
}
