/** IEnumerableExtensions: Do, Evaluate, As, AsEnumerable and IsEmpty over
    a sequence. The class appears twice in the repository, once in the
    Gohla.Shared namespace and once in the global namespace, with the same
    bodies for Do, Evaluate and IsEmpty; both are modelled by this module.
    A null sequence is `None`. The action Do runs is a state transformer: it
    takes the state of the world before the call and the element, and gives
    the state after. */
module EnumerableExtensions {
  import opened Results

  /** The state after calling `action` on each element of `s` in order,
      starting from `state`. */
  function FoldLeft<S, T>(action: (S, T) -> S, state: S, s: seq<T>): S
    decreases |s|
  {
    if s == [] then state else FoldLeft(action, action(state, s[0]), s[1..])
  }

  /** Running over a concatenation runs over the first part, then the second. */
  lemma {:induction false} FoldLeftAppend<S, T>(action: (S, T) -> S, state: S, a: seq<T>, b: seq<T>)
    ensures FoldLeft(action, state, a + b) == FoldLeft(action, FoldLeft(action, state, a), b)
    decreases |a|
  {
    if a == [] {
      assert a + b == b;
    } else {
      assert (a + b)[1..] == a[1..] + b;
      FoldLeftAppend(action, action(state, a[0]), a[1..], b);
    }
  }

  /** An action that records the element it is called with. */
  function Record<T>(log: seq<T>, x: T): seq<T> { log + [x] }

  /** With a recording action, the calls are exactly the elements, once each
      and in order. */
  lemma {:induction false} FoldLeftRecords<T>(log: seq<T>, s: seq<T>)
    ensures FoldLeft(Record, log, s) == log + s
    decreases |s|
  {
    if s != [] {
      FoldLeftRecords(log + [s[0]], s[1..]);
      assert log + [s[0]] + s[1..] == log + s;
    }
  }

  /** Do(enumerable, action): fails on a null sequence, otherwise calls the
      action on each element, in order; the result is the final state. */
  method Do<S, T>(enumerable: Option<seq<T>>, action: (S, T) -> S, state: S) returns (r: Result<S>)
    ensures enumerable.None? ==> r == Err(ArgumentNull)
    ensures enumerable.Some? ==> r == Ok(FoldLeft(action, state, enumerable.value))
  {
    if enumerable.None? {
      return Err(ArgumentNull);
    }
    var s := enumerable.value;
    var current := state;
    for i := 0 to |s|
      invariant current == FoldLeft(action, state, s[..i])
    {
      FoldLeftAppend(action, state, s[..i], [s[i]]);
      assert s[..i + 1] == s[..i] + [s[i]];
      current := action(current, s[i]);
    }
    assert s[..|s|] == s;
    r := Ok(current);
  }

  /** Evaluate(enumerable): fails on a null sequence, otherwise walks every
      element and does nothing with it; `walked` is the number of elements
      visited. */
  method Evaluate<T>(enumerable: Option<seq<T>>) returns (r: Outcome, walked: nat)
    ensures enumerable.None? ==> r == Fail(ArgumentNull) && walked == 0
    ensures enumerable.Some? ==> r == Pass && walked == |enumerable.value|
  {
    if enumerable.None? {
      return Fail(ArgumentNull), 0;
    }
    var s := enumerable.value;
    walked := 0;
    while walked < |s|
      invariant walked <= |s|
    {
      walked := walked + 1;
    }
    r := Pass;
  }

  /** As<R>(enumerable): one output per input, the element when the type test
      `cast` accepts it and null otherwise. Enumerating a null sequence
      throws a NullReferenceException. */
  function As<T, R>(enumerable: Option<seq<T>>, cast: T -> Option<R>): (r: Result<seq<Option<R>>>)
    ensures enumerable.None? ==> r == Err(NullReference)
    ensures enumerable.Some? ==> r.Ok? && |r.value| == |enumerable.value|
    ensures enumerable.Some? ==> forall i :: 0 <= i < |enumerable.value| ==>
              (r.value[i].Some? <==> cast(enumerable.value[i]).Some?)
    ensures enumerable.Some? ==> forall i :: 0 <= i < |enumerable.value| ==>
              r.value[i] == cast(enumerable.value[i])
  {
    match enumerable
    case None => Err(NullReference)
    case Some(s) => Ok(seq(|s|, i requires 0 <= i < |s| => cast(s[i])))
  }

  /** As over a concatenation is the concatenation of the two results. */
  lemma AsAppend<T, R>(a: seq<T>, b: seq<T>, cast: T -> Option<R>)
    ensures As(Some(a + b), cast).value == As(Some(a), cast).value + As(Some(b), cast).value
  {
  }

  /** Casting back a sequence of Rs seen as their base type gives them all:
      when the type test accepts every upcast value, As recovers the
      original elements, in order. */
  lemma AsRecoversUpcasts<T, R>(xs: seq<R>, up: R -> T, cast: T -> Option<R>)
    requires forall x :: cast(up(x)) == Some(x)
    ensures As(Some(seq(|xs|, i requires 0 <= i < |xs| => up(xs[i]))), cast)
            == Ok(seq(|xs|, i requires 0 <= i < |xs| => Some(xs[i])))
  {
    var ts := seq(|xs|, i requires 0 <= i < |xs| => up(xs[i]));
    assert As(Some(ts), cast).value == seq(|xs|, i requires 0 <= i < |xs| => Some(xs[i]));
  }

  /** AsEnumerable(item): the one-element sequence holding `item`. */
  function AsEnumerable<T>(item: T): (r: seq<T>)
    ensures |r| == 1 && r[0] == item
  {
    [item]
  }

  /** Which counting interface a sequence implements, tried in this order. */
  datatype Capability = GenericCollection | NonGenericCollection | EnumerableOnly

  /** A sequence together with the interfaces it implements. */
  datatype Enumerable<T> = Enumerable(items: seq<T>, capability: Capability)

  /** ICollection<T>.Count and ICollection.Count: the number of elements. */
  function Count<T>(e: Enumerable<T>): nat { |e.items| }

  /** Enumerable.Any(): whether the first MoveNext finds an element. */
  function Any<T>(e: Enumerable<T>): bool { e.items != [] }

  /** IsEmpty(enumerable): fails on a null sequence; otherwise the generic
      count, the non-generic count or a first MoveNext, whichever interface
      comes first. */
  function IsEmpty<T>(enumerable: Option<Enumerable<T>>): (r: Result<bool>)
    ensures enumerable.None? <==> r == Err(ArgumentNull)
    ensures enumerable.Some? ==> r == Ok(enumerable.value.items == [])
  {
    match enumerable
    case None => Err(ArgumentNull)
    case Some(e) =>
      match e.capability
      case GenericCollection => Ok(Count(e) == 0)
      case NonGenericCollection => Ok(Count(e) == 0)
      case EnumerableOnly => Ok(!Any(e))
  }

  /** AsEnumerable gives a sequence that is never empty, and Do over it calls
      the action exactly once. */
  lemma AsEnumerableSingle<S, T>(item: T, action: (S, T) -> S, state: S, c: Capability)
    ensures IsEmpty(Some(Enumerable(AsEnumerable(item), c))) == Ok(false)
    ensures FoldLeft(action, state, AsEnumerable(item)) == action(state, item)
  {
  }
}
