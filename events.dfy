/** Collection change notifications: the event record every observable
    collection of the core emits (.NET's NotifyCollectionChangedEventArgs),
    the constructors the core uses to build one, and what an event means
    for a listener that mirrors the list incrementally. */
module CollectionEvents {
  import opened Results

  /** NotifyCollectionChangedAction. */
  datatype Action = Add | Remove | Replace | Move | Reset

  /** NotifyCollectionChangedEventArgs: an absent item list is empty and an
      absent index is -1, as the framework reports them. */
  datatype ChangeEvent<T> = ChangeEvent(
    action: Action,
    newItems: seq<T>,
    oldItems: seq<T>,
    newStartingIndex: int,
    oldStartingIndex: int)

  /** The event an Add of one item at `index` produces. */
  function AddEvent<T>(item: T, index: int): ChangeEvent<T> {
    ChangeEvent(Add, [item], [], index, -1)
  }

  /** The event a Remove of one item at `index` produces. */
  function RemoveEvent<T>(item: T, index: int): ChangeEvent<T> {
    ChangeEvent(Remove, [], [item], -1, index)
  }

  /** The event a Replace of `oldItems` by `newItems` at `index` produces. */
  function ReplaceEvent<T>(newItems: seq<T>, oldItems: seq<T>, index: int): ChangeEvent<T> {
    ChangeEvent(Replace, newItems, oldItems, index, index)
  }

  /** The constructor taking only an action, used for Reset. */
  function ResetArgs<T>(): (r: ChangeEvent<T>)
    ensures r.action == Reset && r.newItems == [] && r.oldItems == []
  {
    ChangeEvent(Reset, [], [], -1, -1)
  }

  /** The constructor (action, object changedItem, int index). It accepts only
      Add, Remove and Reset, and Reset only without an item; since the items
      of this model are never null, only Add and Remove succeed. */
  function ItemArgs<T>(action: Action, item: T, index: int): (r: Result<ChangeEvent<T>>)
    ensures r.Ok? <==> action == Add || action == Remove
    ensures r.Ok? ==> r.value.action == action
    ensures action == Add ==> r == Ok(AddEvent(item, index))
    ensures action == Remove ==> r == Ok(RemoveEvent(item, index))
  {
    match action
    case Add => Ok(AddEvent(item, index))
    case Remove => Ok(RemoveEvent(item, index))
    case _ => Err(Argument)
  }

  /** The constructor (action, IList changedItems, int startingIndex): again
      only Add and Remove with a non-null list succeed. It also rejects a
      starting index below -1; that check is not modelled, because the only
      caller passes a child's Remove index (never negative for a Remove an
      ObservableCollection raises) plus a non-negative offset. */
  function ListArgs<T>(action: Action, items: seq<T>, index: int): (r: Result<ChangeEvent<T>>)
    ensures r.Ok? <==> action == Add || action == Remove
    ensures action == Add ==> r == Ok(ChangeEvent(Add, items, [], index, -1))
    ensures action == Remove ==> r == Ok(ChangeEvent(Remove, [], items, -1, index))
  {
    match action
    case Add => Ok(ChangeEvent(Add, items, [], index, -1))
    case Remove => Ok(ChangeEvent(Remove, [], items, -1, index))
    case _ => Err(Argument)
  }

  /** The constructor (action, IList newItems, IList oldItems, int startingIndex):
      it accepts only Replace. */
  function ReplaceArgs<T>(action: Action, newItems: seq<T>, oldItems: seq<T>, index: int): (r: Result<ChangeEvent<T>>)
    ensures r.Ok? <==> action == Replace
    ensures r.Ok? ==> r.value == ReplaceEvent(newItems, oldItems, index)
  {
    if action == Replace then Ok(ReplaceEvent(newItems, oldItems, index)) else Err(Argument)
  }

  /** What an incremental event does to a listener's copy `s` of the list:
      None when the event does not fit `s` (an index out of range, removed
      items that are not there) or is not incremental (Move, Reset). */
  function Apply<T(==)>(s: seq<T>, e: ChangeEvent<T>): Option<seq<T>> {
    match e.action
    case Add =>
      var i := e.newStartingIndex;
      if 0 <= i <= |s| then Some(s[..i] + e.newItems + s[i..]) else None
    case Remove =>
      var i, n := e.oldStartingIndex, |e.oldItems|;
      if 0 <= i && i + n <= |s| && s[i..i + n] == e.oldItems then Some(s[..i] + s[i + n..]) else None
    case Replace =>
      var i, n := e.newStartingIndex, |e.oldItems|;
      if |e.newItems| == n && 0 <= i && i + n <= |s| && s[i..i + n] == e.oldItems
      then Some(s[..i] + e.newItems + s[i + n..])
      else None
    case _ => None
  }

  /** The events of `es` applied one after another. */
  function ApplyAll<T(==)>(s: seq<T>, es: seq<ChangeEvent<T>>): Option<seq<T>>
    decreases |es|
  {
    if es == [] then Some(s)
    else match Apply(s, es[0])
      case None => None
      case Some(s') => ApplyAll(s', es[1..])
  }

  /** Applying two batches of events one after the other is applying their concatenation. */
  lemma {:induction false} ApplyAllAppend<T>(s: seq<T>, a: seq<ChangeEvent<T>>, b: seq<ChangeEvent<T>>, t: seq<T>)
    requires ApplyAll(s, a) == Some(t)
    ensures ApplyAll(s, a + b) == ApplyAll(t, b)
    decreases |a|
  {
    if a == [] {
      assert a + b == b;
    } else {
      assert (a + b)[0] == a[0] && (a + b)[1..] == a[1..] + b;
      var s' := Apply(s, a[0]).value;
      ApplyAllAppend(s', a[1..], b, t);
    }
  }

  /** The part of `a + b` from position `m` of `a` on. */
  lemma SuffixOfAppend<X>(a: seq<X>, b: seq<X>, m: nat)
    requires m <= |a|
    ensures (a + b)[m..] == a[m..] + b
  {
  }
}
