/** MultiValueDictionary<TKey, TValue>: a dictionary from each key to a list
    of values. The lists are updated in place by Add and Remove; enumeration
    visits the keys in dictionary order and, within a key, its list in order. */
module MultiValueDictionaries {
  import opened Results
  import opened ListOps

  /** `order` lists every key of `lists` exactly once: the dictionary's
      enumeration order. */
  ghost predicate KeyOrder<K, V>(order: seq<K>, lists: map<K, seq<V>>) {
    (forall i, j :: 0 <= i < j < |order| ==> order[i] != order[j])
    && (forall k <- order :: k in lists)
    && (forall k <- lists.Keys :: k in order)
  }

  /** The values of the keys in `order`, key by key, each list in order
      (Values, the SelectMany over the dictionary's lists). */
  function ValuesOf<K, V>(order: seq<K>, lists: map<K, seq<V>>): seq<V>
    requires forall k <- order :: k in lists
  {
    if order == [] then [] else lists[order[0]] + ValuesOf(order[1..], lists)
  }

  /** One (key, value) pair per value of `list`, in list order. */
  function PairsOf<K, V>(key: K, list: seq<V>): (ps: seq<(K, V)>)
    ensures |ps| == |list|
  {
    seq(|list|, i requires 0 <= i < |list| => (key, list[i]))
  }

  /** What enumeration yields: the pairs of each key in `order`, key by key. */
  function Pairs<K, V>(order: seq<K>, lists: map<K, seq<V>>): seq<(K, V)>
    requires forall k <- order :: k in lists
  {
    if order == [] then [] else PairsOf(order[0], lists[order[0]]) + Pairs(order[1..], lists)
  }

  /** The values of a sequence of pairs, in order. */
  function Seconds<K, V>(ps: seq<(K, V)>): (vs: seq<V>)
    ensures |vs| == |ps|
  {
    seq(|ps|, i requires 0 <= i < |ps| => ps[i].1)
  }

  lemma {:induction false} ValuesOfAppend<K, V>(a: seq<K>, b: seq<K>, lists: map<K, seq<V>>)
    requires forall k <- a + b :: k in lists
    ensures ValuesOf(a + b, lists) == ValuesOf(a, lists) + ValuesOf(b, lists)
  {
    if a == [] {
      assert a + b == b;
    } else {
      assert (a + b)[0] == a[0] && (a + b)[1..] == a[1..] + b;
      ValuesOfAppend(a[1..], b, lists);
    }
  }

  lemma {:induction false} PairsAppend<K, V>(a: seq<K>, b: seq<K>, lists: map<K, seq<V>>)
    requires forall k <- a + b :: k in lists
    ensures Pairs(a + b, lists) == Pairs(a, lists) + Pairs(b, lists)
  {
    if a == [] {
      assert a + b == b;
    } else {
      assert (a + b)[0] == a[0] && (a + b)[1..] == a[1..] + b;
      PairsAppend(a[1..], b, lists);
    }
  }

  /** The values of `order` do not depend on keys outside it. */
  lemma {:induction false} ValuesOfFrame<K, V>(order: seq<K>, lists: map<K, seq<V>>, lists': map<K, seq<V>>)
    requires forall k <- order :: k in lists && k in lists' && lists[k] == lists'[k]
    ensures ValuesOf(order, lists) == ValuesOf(order, lists')
  {
    if order != [] {
      ValuesOfFrame(order[1..], lists, lists');
    }
  }

  /** Enumeration yields, pair by pair, exactly the values of Values. */
  lemma {:induction false} PairsProjectToValues<K, V>(order: seq<K>, lists: map<K, seq<V>>)
    requires forall k <- order :: k in lists
    ensures Seconds(Pairs(order, lists)) == ValuesOf(order, lists)
    ensures forall i :: 0 <= i < |Pairs(order, lists)| ==>
      Pairs(order, lists)[i].0 in order && Pairs(order, lists)[i].1 in lists[Pairs(order, lists)[i].0]
  {
    if order != [] {
      var k := order[0];
      var head: seq<(K, V)> := PairsOf(k, lists[k]);
      var rest: seq<(K, V)> := Pairs(order[1..], lists);
      var ps := head + rest;
      PairsProjectToValues(order[1..], lists);
      assert Seconds(head) == lists[k];
      assert Seconds(ps) == Seconds(head) + Seconds(rest);
      forall i | 0 <= i < |ps| ensures ps[i].0 in order && ps[i].1 in lists[ps[i].0] {
        if i >= |head| {
          assert ps[i] == rest[i - |head|];
        }
      }
    }
  }

  /** The values of `order` around its position `k`. */
  lemma ValuesSplit<K, V>(order: seq<K>, lists: map<K, seq<V>>, k: nat)
    requires k < |order| && forall x <- order :: x in lists
    ensures ValuesOf(order, lists) == ValuesOf(order[..k], lists) + lists[order[k]] + ValuesOf(order[k + 1..], lists)
  {
    assert order == order[..k] + [order[k]] + order[k + 1..];
    ValuesOfAppend(order[..k] + [order[k]], order[k + 1..], lists);
    ValuesOfAppend(order[..k], [order[k]], lists);
    assert ValuesOf([order[k]], lists) == lists[order[k]];
  }

  /** The keys before and after the one occurrence of `order[k]` differ from it. */
  lemma OthersDiffer<K, V>(order: seq<K>, lists: map<K, seq<V>>, k: nat)
    requires KeyOrder(order, lists) && k < |order|
    ensures order[k] !in order[..k] && order[k] !in order[k + 1..]
  {
    forall i | 0 <= i < k ensures order[i] != order[k] {
    }
    forall j | k < j < |order| ensures order[j] != order[k] {
    }
  }

  /** Replacing the list of the key `key`, which occurs once in `order`,
      replaces its block of values and nothing else. */
  lemma ValuesOfUpdate<K, V>(order: seq<K>, lists: map<K, seq<V>>, key: K, list: seq<V>)
    returns (before: seq<V>, after: seq<V>)
    requires KeyOrder(order, lists) && key in lists
    ensures KeyOrder(order, lists[key := list])
    ensures ValuesOf(order, lists) == before + lists[key] + after
    ensures ValuesOf(order, lists[key := list]) == before + list + after
  {
    var lists' := lists[key := list];
    var k := FirstIndex(order, key);
    OthersDiffer(order, lists, k);
    var pre, post := order[..k], order[k + 1..];
    ValuesSplit(order, lists, k);
    ValuesSplit(order, lists', k);
    ValuesOfFrame(pre, lists, lists');
    ValuesOfFrame(post, lists, lists');
    before, after := ValuesOf(pre, lists), ValuesOf(post, lists);
  }

  /** Adding a new key at the end of the order appends its list to the values. */
  lemma ValuesOfNewKey<K, V>(order: seq<K>, lists: map<K, seq<V>>, key: K, list: seq<V>)
    requires KeyOrder(order, lists) && key !in lists
    ensures KeyOrder(order + [key], lists[key := list])
    ensures ValuesOf(order + [key], lists[key := list]) == ValuesOf(order, lists) + list
  {
    var lists' := lists[key := list];
    ValuesOfAppend(order, [key], lists');
    ValuesOfFrame(order, lists, lists');
    assert ValuesOf([key], lists') == list;
  }

  /** Dropping the key `key` from the order and the map drops its block of
      values and nothing else. */
  lemma ValuesOfRemoveKey<K, V>(order: seq<K>, lists: map<K, seq<V>>, key: K)
    returns (before: seq<V>, after: seq<V>)
    requires KeyOrder(order, lists) && key in lists
    ensures KeyOrder(RemoveFirst(order, key), lists - {key})
    ensures ValuesOf(order, lists) == before + lists[key] + after
    ensures ValuesOf(RemoveFirst(order, key), lists - {key}) == before + after
  {
    var lists' := lists - {key};
    var k := FirstIndex(order, key);
    OthersDiffer(order, lists, k);
    var pre, post := order[..k], order[k + 1..];
    var order' := pre + post;
    assert KeyOrder(order', lists') by {
      forall i, j | 0 <= i < j < |order'| ensures order'[i] != order'[j] {
        var i', j' := if i < k then i else i + 1, if j < k then j else j + 1;
        assert order'[i] == order[i'] && order'[j] == order[j'];
      }
      forall k' | k' in lists'.Keys ensures k' in order' {
        assert k' in order && k' != key;
        var i :| 0 <= i < |order| && order[i] == k';
        if i < k { assert order'[i] == k'; } else { assert order'[i - 1] == k'; }
      }
    }
    ValuesSplit(order, lists, k);
    ValuesOfAppend(pre, post, lists');
    ValuesOfFrame(pre, lists, lists');
    ValuesOfFrame(post, lists, lists');
    before, after := ValuesOf(pre, lists), ValuesOf(post, lists);
  }

  /** Removing the first occurrence of `value` from the list of `key`
      removes one `value` from all the values. */
  lemma ValuesOfRemoveValue<K, V>(order: seq<K>, lists: map<K, seq<V>>, key: K, value: V)
    requires KeyOrder(order, lists) && key in lists && value in lists[key]
    ensures KeyOrder(order, lists[key := RemoveFirst(lists[key], value)])
    ensures multiset(ValuesOf(order, lists[key := RemoveFirst(lists[key], value)]))
            == multiset(ValuesOf(order, lists)) - multiset{value}
  {
    var list := RemoveFirst(lists[key], value);
    var k := FirstIndex(lists[key], value);
    assert lists[key] == lists[key][..k] + [value] + lists[key][k + 1..];
    var before, after := ValuesOfUpdate(order, lists, key, list);
    assert multiset(ValuesOf(order, lists)) == multiset(before) + multiset(list) + multiset(after) + multiset{value};
  }

  class MultiValueDictionary<K(==), V(==)> {
    /** _dictionary: each key's list. */
    var lists: map<K, seq<V>>
    /** The order in which the dictionary enumerates its keys. */
    var order: seq<K>

    ghost predicate Valid()
      reads this
    {
      KeyOrder(order, lists)
    }

    /** The parameterless constructor (and those taking only a capacity). */
    constructor()
      ensures Valid() && lists == map[] && order == []
    {
      lists, order := map[], [];
    }

    /** The copying constructor: the same lists, enumerated in the order
        `keys` of the source dictionary. */
    constructor Copy(source: map<K, seq<V>>, keys: seq<K>)
      requires KeyOrder(keys, source)
      ensures Valid() && lists == source && order == keys
    {
      lists, order := source, keys;
    }

    /** ContainsKey(key). */
    function ContainsKey(key: K): (b: bool)
      reads this
      requires Valid()
      ensures b <==> key in order
    {
      key in lists
    }

    /** Get(key) and the indexer: the key's list, or an empty sequence for an
        absent key; never a failure. */
    function Get(key: K): (vs: seq<V>)
      reads this
      ensures key in lists ==> vs == lists[key]
      ensures key !in lists ==> vs == []
    {
      if key in lists then lists[key] else []
    }

    /** TryGetValue(key, out values): whether the key is present, and its list
        (null when absent). */
    function TryGetValue(key: K): (r: (bool, Option<seq<V>>))
      reads this
      requires Valid()
      ensures r.0 <==> ContainsKey(key)
      ensures r.0 ==> r.1 == Some(Get(key))
      ensures !r.0 ==> r.1 == None && Get(key) == []
    {
      if key in lists then (true, Some(lists[key])) else (false, None)
    }

    /** Keys: every key once, in enumeration order. */
    function Keys(): (ks: seq<K>)
      reads this
      requires Valid()
      ensures forall k <- ks :: ContainsKey(k)
      ensures forall k <- lists.Keys :: k in ks
      ensures forall i, j :: 0 <= i < j < |ks| ==> ks[i] != ks[j]
    {
      order
    }

    /** Values: all lists concatenated in key order. */
    function Values(): (vs: seq<V>)
      reads this
      requires Valid()
      ensures forall i :: 0 <= i < |vs| ==> exists k <- order :: vs[i] in Get(k)
    {
      PairsProjectToValues(order, lists);
      var ps := Pairs(order, lists);
      assert forall i :: 0 <= i < |ps| ==> Seconds(ps)[i] == ps[i].1;
      ValuesOf(order, lists)
    }

    /** UniqueValues: the lists themselves, in key order. */
    function UniqueValues(): (ls: seq<seq<V>>)
      reads this
      requires Valid()
      ensures |ls| == |order|
      ensures forall i :: 0 <= i < |ls| ==> ls[i] == Get(order[i])
    {
      var o, l := order, lists;
      seq(|o|, i requires 0 <= i < |o| => l[o[i]])
    }

    /** Add(key, value): append `value` to the key's list, creating a
        one-element list for an absent key. */
    method Add(key: K, value: V)
      requires Valid()
      modifies this
      ensures Valid()
      ensures lists == old(lists)[key := old(Get(key)) + [value]]
      ensures order == old(if key in lists then order else order + [key])
      ensures multiset(Values()) == old(multiset(Values())) + multiset{value}
    {
      if key in lists {
        var list := lists[key];
        ghost var before, after := ValuesOfUpdate(order, lists, key, list + [value]);
        lists := lists[key := list + [value]];
        assert multiset(Values()) == multiset(before) + multiset(list) + multiset{value} + multiset(after);
      } else {
        ValuesOfNewKey(order, lists, key, [value]);
        assert Get(key) + [value] == [value];
        lists := lists[key := [value]];
        order := order + [key];
      }
    }

    /** Add(key, values): append all of `values`, in order, to the key's list;
        for an absent key the list is created even when `values` is empty.
        A null `values` is rejected. */
    method AddValues(key: K, values: Option<seq<V>>) returns (r: Outcome)
      requires Valid()
      modifies this
      ensures Valid()
      ensures values.None? ==> r == Fail(ArgumentNull) && lists == old(lists) && order == old(order)
      ensures values.Some? ==>
        r == Pass && lists == old(lists)[key := old(Get(key)) + values.value]
        && order == old(if key in lists then order else order + [key])
        && multiset(Values()) == old(multiset(Values())) + multiset(values.value)
    {
      if values.None? {
        return Fail(ArgumentNull);
      }
      if key in lists {
        var list := lists[key];
        ghost var before, after := ValuesOfUpdate(order, lists, key, list + values.value);
        lists := lists[key := list + values.value];
        assert multiset(Values()) == multiset(before) + multiset(list) + multiset(values.value) + multiset(after);
      } else {
        ValuesOfNewKey(order, lists, key, values.value);
        assert Get(key) + values.value == values.value;
        lists := lists[key := values.value];
        order := order + [key];
      }
      r := Pass;
    }

    /** Add(pair): Add(pair.Key, pair.Value). */
    method AddPair(pair: (K, V))
      requires Valid()
      modifies this
      ensures Valid()
      ensures lists == old(lists)[pair.0 := old(Get(pair.0)) + [pair.1]]
      ensures order == old(if pair.0 in lists then order else order + [pair.0])
      ensures multiset(Values()) == old(multiset(Values())) + multiset{pair.1}
    {
      Add(pair.0, pair.1);
    }

    /** Set(key, values): the key's list becomes `values`; other keys keep theirs. */
    method Set(key: K, values: seq<V>)
      requires Valid()
      modifies this
      ensures Valid()
      ensures lists == old(lists)[key := values]
      ensures order == old(if key in lists then order else order + [key])
      ensures multiset(Values()) == old(multiset(Values())) - old(multiset(Get(key))) + multiset(values)
    {
      if key in lists {
        ghost var list := lists[key];
        ghost var before, after := ValuesOfUpdate(order, lists, key, values);
        assert multiset(Values()) - multiset(list) == multiset(before) + multiset(after);
        lists := lists[key := values];
      } else {
        ValuesOfNewKey(order, lists, key, values);
        lists := lists[key := values];
        order := order + [key];
      }
    }

    /** Remove(key): delete the whole entry; the result says whether it existed. */
    method Remove(key: K) returns (existed: bool)
      requires Valid()
      modifies this
      ensures Valid()
      ensures existed == old(ContainsKey(key))
      ensures !ContainsKey(key) && lists == old(lists) - {key}
      ensures existed ==> order == old(RemoveFirst(order, key))
      ensures !existed ==> order == old(order)
      ensures multiset(Values()) == old(multiset(Values())) - old(multiset(Get(key)))
    {
      existed := key in lists;
      if existed {
        ghost var list := lists[key];
        ghost var before, after := ValuesOfRemoveKey(order, lists, key);
        assert multiset(Values()) - multiset(list) == multiset(before) + multiset(after);
        order := RemoveFirst(order, key);
        lists := lists - {key};
      } else {
        assert lists - {key} == lists;
      }
    }

    /** Remove(key, value): remove the first equal value from the key's list.
        False when the key or the value is absent; the key stays even when its
        list becomes empty. */
    method RemoveValue(key: K, value: V) returns (removed: bool)
      requires Valid()
      modifies this
      ensures Valid() && order == old(order)
      ensures removed <==> old(ContainsKey(key)) && value in old(Get(key))
      ensures removed ==> lists == old(lists)[key := RemoveFirst(old(lists)[key], value)]
      ensures !removed ==> lists == old(lists)
      ensures removed ==> multiset(Values()) == old(multiset(Values())) - multiset{value}
    {
      if key !in lists || value !in lists[key] {
        return false;
      }
      ValuesOfRemoveValue(order, lists, key, value);
      lists := lists[key := RemoveFirst(lists[key], value)];
      removed := true;
    }

    /** GetEnumerator: one (key, value) pair per stored value, key by key in
        enumeration order, each key's values in list order. */
    method GetEnumerator() returns (pairs: seq<(K, V)>)
      requires Valid()
      ensures pairs == Pairs(order, lists)
      ensures Seconds(pairs) == Values()
    {
      pairs := [];
      var i := 0;
      while i < |order|
        invariant 0 <= i <= |order|
        invariant pairs == Pairs(order[..i], lists)
      {
        var key := order[i];
        var list := lists[key];
        var j := 0;
        while j < |list|
          invariant 0 <= j <= |list|
          invariant pairs == Pairs(order[..i], lists) + PairsOf(key, list[..j])
        {
          pairs := pairs + [(key, list[j])];
          assert PairsOf(key, list[..j + 1]) == PairsOf(key, list[..j]) + [(key, list[j])];
          j := j + 1;
        }
        assert list[..j] == list;
        assert Pairs([key], lists) == PairsOf(key, list);
        assert order[..i + 1] == order[..i] + [key];
        PairsAppend(order[..i], [key], lists);
        i := i + 1;
      }
      assert order[..i] == order;
      PairsProjectToValues(order, lists);
    }
  }
}
