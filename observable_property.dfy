/** ObservableProperty<T>: a stored value whose setter pushes every assigned
    value to the subject its observers subscribe to. The subject is modelled
    by the log of values pushed to it. */
module ObservableProperties {

  class ObservableProperty<T> {
    /** The stored value (_value). */
    var value: T
    /** Every value pushed to the subject with OnNext, oldest first. */
    var emitted: seq<T>
    /** The value the property was constructed with. */
    ghost var initial: T

    /** The stored value is the last one assigned, or the initial one when
        nothing has been assigned. */
    ghost predicate Valid()
      reads this
    {
      value == if emitted == [] then initial else emitted[|emitted| - 1]
    }

    /** ObservableProperty(value): stores the value and pushes nothing. */
    constructor(v: T)
      ensures Valid()
      ensures value == v && initial == v && emitted == []
    {
      value, initial, emitted := v, v, [];
    }

    /** The Value getter: the most recently assigned value, or the initial
        one. */
    function Value(): (r: T)
      reads this
      requires Valid()
      ensures emitted == [] ==> r == initial
      ensures emitted != [] ==> r == emitted[|emitted| - 1]
    {
      value
    }

    /** The Value setter: stores the value, then pushes exactly that value
        once. */
    method SetValue(v: T)
      requires Valid()
      modifies this
      ensures Valid()
      ensures value == v && emitted == old(emitted) + [v] && initial == old(initial)
    {
      value := v;
      emitted := emitted + [v];
    }
  }

  /** The implicit conversion to T: the property's Value. */
  function Convert<T>(p: ObservableProperty<T>): (r: T)
    reads p
    requires p.Valid()
    ensures r == if p.emitted == [] then p.initial else p.emitted[|p.emitted| - 1]
  {
    p.Value()
  }
}
