/** EnumerableToString.ToString(source, separator): the non-null elements of
    a sequence, each turned into text, joined with a separator that must be
    neither null nor empty. Null references are modelled as `None`. */
module EnumerableToStrings {
  import opened Results

  /** String.Join(separator, parts): the parts with the separator between
      neighbours, empty for no parts. */
  function Join(sep: string, parts: seq<string>): string
  {
    if |parts| == 0 then ""
    else if |parts| == 1 then parts[0]
    else parts[0] + sep + Join(sep, parts[1..])
  }

  /** Where(n => n != null): the values of the non-null elements, in order. */
  function NonNull<T>(s: seq<Option<T>>): seq<T>
  {
    if s == [] then [] else (if s[0].Some? then [s[0].value] else []) + NonNull(s[1..])
  }

  /** Select(n => n.ToString()): one string per element, in order. */
  function Texts<T>(s: seq<T>, show: T -> string): (r: seq<string>)
    ensures |r| == |s| && forall i :: 0 <= i < |s| ==> r[i] == show(s[i])
  {
    seq(|s|, i requires 0 <= i < |s| => show(s[i]))
  }

  /** String.IsNullOrEmpty. */
  predicate IsNullOrEmpty(s: Option<string>)
  {
    s.None? || s.value == ""
  }

  /** ToString<T>(this IEnumerable<T> source, string separator): the argument
      checks, source first, then the join of the non-null elements' texts. */
  function ToStringTyped<T>(source: Option<seq<Option<T>>>, separator: Option<string>, show: T -> string): (r: Result<string>)
    ensures source.None? ==> r == Err(Argument)
    ensures source.Some? && IsNullOrEmpty(separator) ==> r == Err(Argument)
    ensures r.Ok? <==> source.Some? && !IsNullOrEmpty(separator)
    ensures r.Ok? ==> r.value == Join(separator.value, Texts(NonNull(source.value), show))
  {
    if source.None? then Err(Argument)
    else if IsNullOrEmpty(separator) then Err(Argument)
    else Ok(Join(separator.value, Texts(NonNull(source.value), show)))
  }

  /** An element of the non-generic overload: a reference of any type. */
  datatype Object<T> = Object(payload: T)

  /** Cast<object>(): every element of a non-generic sequence is already an
      object, so the cast keeps nulls and values in place. */
  function CastToObject<T>(s: seq<Option<T>>): (r: seq<Option<Object<T>>>)
    ensures |r| == |s|
    ensures forall i :: 0 <= i < |s| ==> (r[i].Some? <==> s[i].Some?)
    ensures forall i :: 0 <= i < |s| && s[i].Some? ==> r[i].value.payload == s[i].value
  {
    seq(|s|, i requires 0 <= i < |s| => if s[i].Some? then Some(Object(s[i].value)) else None)
  }

  /** ToString(this IEnumerable source, string separator): the same checks,
      with the elements cast to object before the null filter. */
  function ToStringUntyped<T>(source: Option<seq<Option<T>>>, separator: Option<string>, show: T -> string): (r: Result<string>)
    ensures source.None? ==> r == Err(Argument)
    ensures source.Some? && IsNullOrEmpty(separator) ==> r == Err(Argument)
    ensures r.Ok? <==> source.Some? && !IsNullOrEmpty(separator)
  {
    if source.None? then Err(Argument)
    else if IsNullOrEmpty(separator) then Err(Argument)
    else Ok(Join(separator.value, Texts(NonNull(CastToObject(source.value)), (o: Object<T>) => show(o.payload))))
  }

  /** Filtering a concatenation filters each part. */
  lemma {:induction false} NonNullAppend<T>(a: seq<Option<T>>, b: seq<Option<T>>)
    ensures NonNull(a + b) == NonNull(a) + NonNull(b)
    decreases |a|
  {
    if a == [] {
      assert a + b == b;
    } else {
      assert (a + b)[1..] == a[1..] + b;
      NonNullAppend(a[1..], b);
    }
  }

  /** Null elements are skipped and the rest keep their order: the filter
      keeps exactly the non-null elements, one output per non-null input. */
  lemma {:induction false} NonNullKeepsValues<T>(s: seq<Option<T>>)
    ensures |NonNull(s)| <= |s|
    ensures forall x :: x in NonNull(s) <==> Some(x) in s
    decreases |s|
  {
    if s != [] {
      NonNullKeepsValues(s[1..]);
      assert s == [s[0]] + s[1..];
    }
  }

  /** With no null element nothing is dropped. */
  lemma {:induction false} NonNullAllPresent<T>(s: seq<Option<T>>)
    requires forall i :: 0 <= i < |s| ==> s[i].Some?
    ensures |NonNull(s)| == |s|
    ensures forall i :: 0 <= i < |s| ==> NonNull(s)[i] == s[i].value
    decreases |s|
  {
    if s != [] {
      NonNullAllPresent(s[1..]);
    }
  }

  /** With only null elements nothing is kept. */
  lemma {:induction false} NonNullAllAbsent<T>(s: seq<Option<T>>)
    requires forall i :: 0 <= i < |s| ==> s[i].None?
    ensures NonNull(s) == []
    decreases |s|
  {
    if s != [] {
      NonNullAllAbsent(s[1..]);
    }
  }

  /** Joining a concatenation of two non-empty lists puts one separator
      between the two joins. */
  lemma {:induction false} JoinAppend(sep: string, a: seq<string>, b: seq<string>)
    requires a != [] && b != []
    ensures Join(sep, a + b) == Join(sep, a) + sep + Join(sep, b)
    decreases |a|
  {
    if |a| == 1 {
      assert (a + b)[1..] == b;
    } else {
      assert (a + b)[1..] == a[1..] + b;
      JoinAppend(sep, a[1..], b);
    }
  }

  /** The sum of the parts' lengths. */
  function TotalLength(parts: seq<string>): nat
  {
    if parts == [] then 0 else |parts[0]| + TotalLength(parts[1..])
  }

  /** The join holds every part and one separator between each pair. */
  lemma {:induction false} JoinLength(sep: string, parts: seq<string>)
    requires parts != []
    ensures |Join(sep, parts)| == TotalLength(parts) + (|parts| - 1) * |sep|
    decreases |parts|
  {
    if |parts| > 1 {
      JoinLength(sep, parts[1..]);
    }
  }

  /** No leading or trailing separator: the join starts with the first part
      and ends with the last one. */
  lemma {:induction false} JoinEnds(sep: string, parts: seq<string>)
    requires parts != []
    ensures parts[0] <= Join(sep, parts)
    ensures var j := Join(sep, parts); var l := parts[|parts| - 1];
            |l| <= |j| && j[|j| - |l|..] == l
    decreases |parts|
  {
    if |parts| > 1 {
      JoinEnds(sep, parts[1..]);
    }
  }

  /** The typed overload's text for a sequence without nulls is the join of
      every element's text, and a sequence of nulls gives the empty string. */
  lemma TypedSkipsNulls<T>(s: seq<Option<T>>, sep: string, show: T -> string)
    requires sep != ""
    ensures (forall i :: 0 <= i < |s| ==> s[i].None?) ==> ToStringTyped(Some(s), Some(sep), show) == Ok("")
    ensures (forall i :: 0 <= i < |s| ==> s[i].Some?) ==>
      ToStringTyped(Some(s), Some(sep), show)
      == Ok(Join(sep, seq(|s|, i requires 0 <= i < |s| && s[i].Some? => show(s[i].value))))
  {
    if forall i :: 0 <= i < |s| ==> s[i].None? {
      NonNullAllAbsent(s);
    }
    if forall i :: 0 <= i < |s| ==> s[i].Some? {
      NonNullAllPresent(s);
      assert Texts(NonNull(s), show) == seq(|s|, i requires 0 <= i < |s| && s[i].Some? => show(s[i].value));
    }
  }

  /** The two overloads agree: the cast to object changes neither which
      elements are null nor their texts. */
  lemma {:induction false} OverloadsAgree<T>(source: Option<seq<Option<T>>>, separator: Option<string>, show: T -> string)
    ensures ToStringUntyped(source, separator, show) == ToStringTyped(source, separator, show)
  {
    if source.Some? {
      CastKeepsTexts(source.value, show);
    }
  }

  /** The non-null texts after the cast are the non-null texts before it. */
  lemma {:induction false} CastKeepsTexts<T>(s: seq<Option<T>>, show: T -> string)
    ensures Texts(NonNull(CastToObject(s)), (o: Object<T>) => show(o.payload)) == Texts(NonNull(s), show)
    decreases |s|
  {
    if s != [] {
      assert CastToObject(s)[1..] == CastToObject(s[1..]);
      CastKeepsTexts(s[1..], show);
    }
  }
}
