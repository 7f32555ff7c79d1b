/** The List<T> operations the core relies on that search by equality:
    IndexOf and Remove (which removes the first occurrence only). */
module ListOps {

  /** The position of the first occurrence of `x` in `s`. */
  function FirstIndex<X(==)>(s: seq<X>, x: X): (k: nat)
    requires x in s
    ensures k < |s| && s[k] == x && x !in s[..k]
  {
    if s[0] == x then 0 else 1 + FirstIndex(s[1..], x)
  }

  /** A position holding `x` with no `x` before it is the first occurrence. */
  lemma FirstIndexUnique<X>(s: seq<X>, x: X, i: nat)
    requires i < |s| && s[i] == x && x !in s[..i]
    ensures FirstIndex(s, x) == i
  {
  }

  /** `s` without the first occurrence of `x` (List.Remove). */
  function RemoveFirst<X(==)>(s: seq<X>, x: X): (r: seq<X>)
    requires x in s
    ensures r == s[..FirstIndex(s, x)] + s[FirstIndex(s, x) + 1..]
  {
    if s[0] == x then s[1..] else [s[0]] + RemoveFirst(s[1..], x)
  }
}
