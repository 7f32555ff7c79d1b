/** The value-level specification of a composite collection: the children's
    item lists in child order, their concatenation (what enumeration yields),
    each child's offset, and the blocks of synthetic events the composite
    emits when a whole child is added or removed. */
module CompositeSpec {
  import opened Results
  import opened CollectionEvents
  import opened ListOps

  /** The concatenation of `lists`, in order. */
  function Flatten<T>(lists: seq<seq<T>>): seq<T> {
    if lists == [] then [] else lists[0] + Flatten(lists[1..])
  }

  /** The offset of child `k`: the number of items in the children before it. */
  function Offset<T>(lists: seq<seq<T>>, k: nat): nat
    requires k <= |lists|
  {
    |Flatten(lists[..k])|
  }

  /** One Add event per item of `items`, in item order, at `offset`, `offset + 1`, ... */
  function AddBlock<T>(items: seq<T>, offset: int): (es: seq<ChangeEvent<T>>)
    ensures |es| == |items|
  {
    seq(|items|, i requires 0 <= i < |items| => AddEvent(items[i], offset + i))
  }

  /** One Remove event per item of `items`, in item order, all at `offset`. */
  function RemoveBlock<T>(items: seq<T>, offset: int): (es: seq<ChangeEvent<T>>)
    ensures |es| == |items|
  {
    seq(|items|, i requires 0 <= i < |items| => RemoveEvent(items[i], offset))
  }

  /** Growing the announced prefix of a block by one item adds one Add event. */
  lemma AddBlockSnoc<T>(items: seq<T>, offset: int, i: nat)
    requires i < |items|
    ensures AddBlock(items[..i + 1], offset) == AddBlock(items[..i], offset) + [AddEvent(items[i], offset + i)]
  {
  }

  /** Growing the announced prefix of a block by one item adds one Remove event. */
  lemma RemoveBlockSnoc<T>(items: seq<T>, offset: int, i: nat)
    requires i < |items|
    ensures RemoveBlock(items[..i + 1], offset) == RemoveBlock(items[..i], offset) + [RemoveEvent(items[i], offset)]
  {
  }

  /** Concatenation distributes over appending lists of lists. */
  lemma {:induction false} FlattenAppend<T>(a: seq<seq<T>>, b: seq<seq<T>>)
    ensures Flatten(a + b) == Flatten(a) + Flatten(b)
  {
    if a == [] {
      assert a + b == b;
    } else {
      assert (a + b)[1..] == a[1..] + b;
      FlattenAppend(a[1..], b);
    }
  }

  /** The concatenation of the first k + 1 children extends that of the first k by child k. */
  lemma FlattenSnoc<T>(lists: seq<seq<T>>, k: nat)
    requires k < |lists|
    ensures Flatten(lists[..k + 1]) == Flatten(lists[..k]) + lists[k]
  {
    assert lists[..k + 1] == lists[..k] + [lists[k]];
    FlattenAppend(lists[..k], [lists[k]]);
    assert [lists[k]][1..] == [];
  }

  /** The offset of the next child grows by the count of this one. */
  lemma OffsetStep<T>(lists: seq<seq<T>>, k: nat)
    requires k < |lists|
    ensures Offset(lists, k + 1) == Offset(lists, k) + |lists[k]|
  {
    FlattenSnoc(lists, k);
  }

  /** The offset past the last child is the total count. */
  lemma OffsetEnd<T>(lists: seq<seq<T>>)
    ensures Offset(lists, |lists|) == |Flatten(lists)|
  {
    assert lists[..|lists|] == lists;
  }

  /** The concatenation splits around child `k` at its offset. */
  lemma FlattenAround<T>(lists: seq<seq<T>>, k: nat)
    requires k < |lists|
    ensures Flatten(lists) == Flatten(lists[..k]) + lists[k] + Flatten(lists[k + 1..])
  {
    assert lists == lists[..k] + lists[k..];
    FlattenAppend(lists[..k], lists[k..]);
    assert lists[k..][1..] == lists[k + 1..];
  }

  /** Enumeration order: item `j` of child `k` sits at `Offset(k) + j` of the concatenation. */
  lemma FlattenAt<T>(lists: seq<seq<T>>, k: nat, j: nat)
    requires k < |lists| && j < |lists[k]|
    ensures Offset(lists, k) + j < |Flatten(lists)|
    ensures Flatten(lists)[Offset(lists, k) + j] == lists[k][j]
  {
    FlattenAround(lists, k);
  }

  /** The offsets of all children lie within the concatenation and never decrease. */
  lemma {:induction false} OffsetMonotone<T>(lists: seq<seq<T>>, j: nat, k: nat)
    requires j <= k <= |lists|
    ensures Offset(lists, j) <= Offset(lists, k) <= |Flatten(lists)|
    decreases k - j
  {
    if j < k {
      OffsetStep(lists, j);
      OffsetMonotone(lists, j + 1, k);
    } else {
      assert lists[..k] + lists[k..] == lists;
      FlattenAppend(lists[..k], lists[k..]);
    }
  }

  /** The Add events synthesised for a block, applied in order, insert the
      block at its offset. */
  lemma {:induction false} AddBlockInserts<T>(s: seq<T>, items: seq<T>, offset: int)
    requires 0 <= offset <= |s|
    ensures ApplyAll(s, AddBlock(items, offset)) == Some(s[..offset] + items + s[offset..])
    decreases |items|
  {
    if items != [] {
      var es := AddBlock(items, offset);
      var s1 := s[..offset] + [items[0]] + s[offset..];
      assert es[0] == AddEvent(items[0], offset);
      assert Apply(s, es[0]) == Some(s1);
      assert ApplyAll(s, es) == ApplyAll(s1, es[1..]);
      assert es[1..] == AddBlock(items[1..], offset + 1);
      AddBlockInserts(s1, items[1..], offset + 1);
      assert s1[..offset + 1] == s[..offset] + [items[0]];
      assert s1[offset + 1..] == s[offset..];
      assert [items[0]] + items[1..] == items;
      assert s1[..offset + 1] + items[1..] + s1[offset + 1..] == s[..offset] + items + s[offset..];
    } else {
      assert s[..offset] + items + s[offset..] == s;
    }
  }

  /** The Remove events synthesised for a block, all at the block's offset,
      applied in order, delete exactly that block: each one removes the item
      that the previous removal moved down to the offset. */
  lemma {:induction false} RemoveBlockDeletes<T>(s: seq<T>, items: seq<T>, offset: int)
    requires 0 <= offset && offset + |items| <= |s|
    requires s[offset..offset + |items|] == items
    ensures ApplyAll(s, RemoveBlock(items, offset)) == Some(s[..offset] + s[offset + |items|..])
    decreases |items|
  {
    if items != [] {
      var es := RemoveBlock(items, offset);
      var s1 := s[..offset] + s[offset + 1..];
      assert s[offset..offset + 1] == [items[0]];
      assert es[0] == RemoveEvent(items[0], offset);
      assert Apply(s, es[0]) == Some(s1);
      assert ApplyAll(s, es) == ApplyAll(s1, es[1..]);
      assert es[1..] == RemoveBlock(items[1..], offset);
      assert s1[offset..offset + |items| - 1] == items[1..];
      RemoveBlockDeletes(s1, items[1..], offset);
      assert s1[..offset] == s[..offset];
      assert s1[offset + |items| - 1..] == s[offset + |items|..];
    } else {
      assert s[..offset] + s[offset..] == s;
    }
  }

  /** Adding child `x` after `lists`: the synthetic Add events, at the new
      child's offset, turn the old concatenation into the new one. */
  lemma AddCollectionSplices<T>(lists: seq<seq<T>>, x: seq<T>)
    ensures Offset(lists + [x], |lists|) == |Flatten(lists)|
    ensures ApplyAll(Flatten(lists), AddBlock(x, Offset(lists + [x], |lists|))) == Some(Flatten(lists + [x]))
  {
    assert (lists + [x])[..|lists|] == lists;
    FlattenAppend(lists, [x]);
    assert [x][1..] == [];
    assert Flatten([x]) == x;
    var s := Flatten(lists);
    AddBlockInserts(s, x, |s|);
    assert s[..|s|] + x + s[|s|..] == s + x;
  }

  /** Removing child `k`: the synthetic Remove events, all at child `k`'s
      offset, turn the old concatenation into the concatenation without it. */
  lemma RemoveCollectionSplices<T>(lists: seq<seq<T>>, k: nat)
    requires k < |lists|
    ensures ApplyAll(Flatten(lists), RemoveBlock(lists[k], Offset(lists, k)))
            == Some(Flatten(lists[..k] + lists[k + 1..]))
  {
    var pre, x := Flatten(lists[..k]), lists[k];
    var s := Flatten(lists);
    FlattenAround(lists, k);
    assert s[|pre|..|pre| + |x|] == x;
    RemoveBlockDeletes(s, x, |pre|);
    FlattenAppend(lists[..k], lists[k + 1..]);
    assert s[..|pre|] == pre;
    assert s[|pre| + |x|..] == Flatten(lists[k + 1..]);
  }

  /** `xs` holds no element twice and none of `prior`. */
  ghost predicate NewAndDistinct<X>(xs: seq<X>, prior: seq<X>) {
    (forall i :: 0 <= i < |xs| ==> xs[i] !in prior)
    && (forall i, j :: 0 <= i < j < |xs| ==> xs[i] != xs[j])
  }

  /** Element `i` of such an `xs` is not yet among `prior` followed by the elements before it. */
  lemma NewAndDistinctAt<X>(xs: seq<X>, prior: seq<X>, i: nat)
    requires NewAndDistinct(xs, prior) && i < |xs|
    ensures xs[i] !in prior + xs[..i]
  {
  }

  /** How the composite re-broadcasts a child's event once it knows the
      child's offset: the same action with the starting index shifted by the
      offset. An Add forwards only its first new item; a Reset becomes a fresh
      Reset; a Move goes through the Replace-only constructor, which rejects it. */
  function Translate<T>(e: ChangeEvent<T>, offset: int): (r: Result<ChangeEvent<T>>)
    ensures r.Ok? <==> (e.action == Add && e.newItems != []) || e.action in {Remove, Replace, Reset}
    ensures e.action == Add && e.newItems != [] ==> r == Ok(AddEvent(e.newItems[0], e.newStartingIndex + offset))
    ensures e.action == Remove ==> r == Ok(ChangeEvent(Remove, [], e.oldItems, -1, e.oldStartingIndex + offset))
    ensures e.action == Replace ==> r == Ok(ReplaceEvent(e.newItems, e.oldItems, e.newStartingIndex + offset))
    ensures e.action == Reset ==> r == Ok(ResetArgs())
  {
    match e.action
    case Add =>
      if e.newItems == [] then Err(ArgumentOutOfRange)
      else ItemArgs(Add, e.newItems[0], e.newStartingIndex + offset)
    case Remove => ListArgs(Remove, e.oldItems, e.oldStartingIndex + offset)
    case Move => ReplaceArgs(Move, e.newItems, e.oldItems, e.oldStartingIndex + offset)
    case Replace => ReplaceArgs(Replace, e.newItems, e.oldItems, e.newStartingIndex + offset)
    case Reset => Ok(ResetArgs())
  }

  /** Inserting at a position inside the middle part of `pre + c + post`. */
  lemma SpliceInsert<T>(pre: seq<T>, c: seq<T>, post: seq<T>, i: int, items: seq<T>)
    requires 0 <= i <= |c|
    ensures var s := pre + c + post;
      s[..|pre| + i] + items + s[|pre| + i..] == pre + (c[..i] + items + c[i..]) + post
  {
    var s := pre + c + post;
    assert s[..|pre| + i] == pre + c[..i];
    assert s[|pre| + i..] == c[i..] + post;
  }

  /** Replacing the slice [i, i + n) of the middle part of `pre + c + post`. */
  lemma SpliceReplace<T>(pre: seq<T>, c: seq<T>, post: seq<T>, i: int, n: int, items: seq<T>)
    requires 0 <= i && 0 <= n && i + n <= |c|
    ensures var s, o := pre + c + post, |pre|;
      s[o + i..o + i + n] == c[i..i + n] &&
      s[..o + i] + items + s[o + i + n..] == pre + (c[..i] + items + c[i + n..]) + post
  {
    var s, o := pre + c + post, |pre|;
    assert s[o + i..o + i + n] == c[i..i + n];
    assert s[..o + i] == pre + c[..i];
    assert s[o + i + n..] == c[i + n..] + post;
  }

  /** An Add of a middle part, shifted by the length of `pre`, is the same Add of the whole. */
  lemma AddSplices<T>(pre: seq<T>, c: seq<T>, post: seq<T>, e: ChangeEvent<T>, changed: seq<T>)
    requires e.action == Add && |e.newItems| == 1
    requires Apply(c, e) == Some(changed)
    ensures Apply(pre + c + post, AddEvent(e.newItems[0], e.newStartingIndex + |pre|)) == Some(pre + changed + post)
  {
    var s, o, i := pre + c + post, |pre|, e.newStartingIndex;
    assert [e.newItems[0]] == e.newItems;
    assert Apply(s, AddEvent(e.newItems[0], o + i)) == Some(s[..o + i] + e.newItems + s[o + i..]);
    SpliceInsert(pre, c, post, i, e.newItems);
  }

  /** The same for a Remove. */
  lemma RemoveSplices<T>(pre: seq<T>, c: seq<T>, post: seq<T>, e: ChangeEvent<T>, changed: seq<T>)
    requires e.action == Remove
    requires Apply(c, e) == Some(changed)
    ensures Apply(pre + c + post, ChangeEvent(Remove, [], e.oldItems, -1, e.oldStartingIndex + |pre|))
            == Some(pre + changed + post)
  {
    var s, o := pre + c + post, |pre|;
    var i, n := e.oldStartingIndex, |e.oldItems|;
    SpliceReplace(pre, c, post, i, n, []);
    assert s[..o + i] + [] + s[o + i + n..] == s[..o + i] + s[o + i + n..];
    assert c[..i] + [] + c[i + n..] == changed;
  }

  /** The same for a Replace. */
  lemma ReplaceSplices<T>(pre: seq<T>, c: seq<T>, post: seq<T>, e: ChangeEvent<T>, changed: seq<T>)
    requires e.action == Replace
    requires Apply(c, e) == Some(changed)
    ensures Apply(pre + c + post, ReplaceEvent(e.newItems, e.oldItems, e.newStartingIndex + |pre|))
            == Some(pre + changed + post)
  {
    SpliceReplace(pre, c, post, e.newStartingIndex, |e.oldItems|, e.newItems);
  }

  /** The core invariant of the composite: when child `k` changes from
      `lists[k]` to `changed` by the incremental event `e`, the re-broadcast
      event, shifted by child `k`'s offset, changes the concatenation of all
      children in exactly the same way. (An Add from an observable list carries
      one item, which is all the composite forwards.) */
  lemma TranslateSplices<T>(lists: seq<seq<T>>, k: nat, e: ChangeEvent<T>, changed: seq<T>)
    requires k < |lists|
    requires Apply(lists[k], e) == Some(changed)
    requires e.action == Add ==> |e.newItems| == 1
    ensures Translate(e, Offset(lists, k)).Ok?
    ensures Apply(Flatten(lists), Translate(e, Offset(lists, k)).value) == Some(Flatten(lists[k := changed]))
  {
    var lists' := lists[k := changed];
    FlattenAround(lists, k);
    FlattenAround(lists', k);
    assert lists'[..k] == lists[..k] && lists'[k + 1..] == lists[k + 1..];
    var pre, c, post := Flatten(lists[..k]), lists[k], Flatten(lists[k + 1..]);
    assert Flatten(lists') == pre + changed + post;
    match e.action
    case Add => AddSplices(pre, c, post, e, changed);
    case Remove => RemoveSplices(pre, c, post, e, changed);
    case Replace => ReplaceSplices(pre, c, post, e, changed);
  }
}
