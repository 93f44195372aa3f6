/** Python's insertion-ordered `dict`, as far as data_functions.py uses it:
    start empty, assign `d[k] = v` pair by pair, then read `list(d.keys())`
    and `list(d.values())`. Assigning a key already present replaces its
    value but leaves the key where it first went in. */
module OrderedDict {
  import opened Seqs

  /** The keys in insertion order, and the current value of each. */
  datatype Dict<K, V> = Dict(keys: seq<K>, entries: map<K, V>)

  /** The keys are listed once each, and they are exactly the keys with a value. */
  ghost predicate Valid<K, V>(d: Dict<K, V>) {
    Distinct(d.keys) && d.entries.Keys == Elements(d.keys)
  }

  /** The first elements of a sequence of pairs. */
  function Firsts<K, V>(ps: seq<(K, V)>): (ks: seq<K>)
    ensures |ks| == |ps|
    ensures forall i :: 0 <= i < |ps| ==> ks[i] == ps[i].0
  {
    seq(|ps|, i requires 0 <= i < |ps| => ps[i].0)
  }

  /** `{}`. */
  function Empty<K, V>(): (d: Dict<K, V>)
    ensures Valid(d) && |d.keys| == 0
  {
    Dict([], map[])
  }

  /** `d[k] = v`: a new key goes to the end of the key order; an existing
      key keeps its position and only its value changes. */
  function Assign<K, V>(d: Dict<K, V>, k: K, v: V): (r: Dict<K, V>)
    requires Valid(d)
    ensures Valid(r)
    ensures r.entries == d.entries[k := v]
    ensures k in d.entries ==> r.keys == d.keys
    ensures k !in d.entries ==> r.keys == d.keys + [k]
  {
    if k in d.entries then Dict(d.keys, d.entries[k := v])
    else Dict(d.keys + [k], d.entries[k := v])
  }

  /** `list(d.values())`: the values in key order. */
  function Values<K, V>(d: Dict<K, V>): (vs: seq<V>)
    requires Valid(d)
    ensures |vs| == |d.keys|
    ensures forall i :: 0 <= i < |d.keys| ==> vs[i] == d.entries[d.keys[i]]
  {
    seq(|d.keys|, i requires 0 <= i < |d.keys| => d.entries[d.keys[i]])
  }

  /** The dict left by assigning the pairs in order, starting from `{}`.
      It is well formed and its keys are exactly the keys of the pairs. */
  function FromPairs<K, V>(ps: seq<(K, V)>): (d: Dict<K, V>)
    ensures Valid(d)
    ensures d.entries.Keys == Elements(Firsts(ps))
    ensures forall i :: 0 <= i < |d.keys| ==> d.keys[i] in Firsts(ps)
    decreases |ps|
  {
    if ps == [] then Empty()
    else
      var init := ps[..|ps| - 1];
      var last := ps[|ps| - 1];
      assert Firsts(ps) == Firsts(init) + [last.0];
      Assign(FromPairs(init), last.0, last.1)
  }

  /** Appending never moves the first occurrence of an element already there. */
  lemma FirstIndexAppend<T>(s: seq<T>, y: T, x: T)
    requires x in s
    ensures FirstIndex(s + [y], x) == FirstIndex(s, x)
  {
    assert (s + [y])[FirstIndex(s, x)] == x;
  }

  /** Every element of `keys` occurs in `ks`, and `keys` lists them in the
      order of their first occurrence in `ks`. */
  ghost predicate FirstSeenOrder<T>(keys: seq<T>, ks: seq<T>) {
    && (forall i :: 0 <= i < |keys| ==> keys[i] in ks)
    && forall a, b :: 0 <= a < b < |keys| ==> FirstIndex(ks, keys[a]) < FirstIndex(ks, keys[b])
  }

  /** Appending to the stream keeps the order of the keys seen so far, and a
      key never seen before goes after all of them. */
  lemma FirstSeenOrderAppend<T>(keys: seq<T>, ks: seq<T>, k: T)
    requires FirstSeenOrder(keys, ks)
    ensures FirstSeenOrder(keys, ks + [k])
    ensures k !in ks ==> FirstSeenOrder(keys + [k], ks + [k])
  {
    forall i | 0 <= i < |keys|
      ensures FirstIndex(ks + [k], keys[i]) == FirstIndex(ks, keys[i])
    {
      FirstIndexAppend(ks, k, keys[i]);
    }
    if k !in ks {
      assert FirstIndex(ks + [k], k) == |ks|;
    }
  }

  /** The keys come out in the order in which each key first occurs among
      the pairs. */
  lemma {:induction false} FromPairsKeyOrder<K, V>(ps: seq<(K, V)>)
    ensures FirstSeenOrder(FromPairs(ps).keys, Firsts(ps))
    decreases |ps|
  {
    if ps != [] {
      var init := ps[..|ps| - 1];
      var last := ps[|ps| - 1];
      var d0 := FromPairs(init);
      var ks0 := Firsts(init);
      assert Firsts(ps) == ks0 + [last.0];
      FromPairsKeyOrder(init);
      FirstSeenOrderAppend(d0.keys, ks0, last.0);
    }
  }

  /** Two first-seen orderings of the same elements start alike. */
  lemma FirstSeenHeadsAgree<T>(xs: seq<T>, ys: seq<T>, s: seq<T>)
    requires |xs| > 0 && Elements(xs) == Elements(ys)
    requires FirstSeenOrder(xs, s) && FirstSeenOrder(ys, s)
    ensures |ys| > 0 && xs[0] == ys[0]
  {
    assert xs[0] in Elements(ys);
    var i :| 0 <= i < |ys| && ys[i] == xs[0];
    assert ys[0] in Elements(xs);
    var j :| 0 <= j < |xs| && xs[j] == ys[0];
  }

  /** Dropping the first element keeps distinctness and first-seen order. */
  lemma FirstSeenTail<T>(xs: seq<T>, s: seq<T>)
    requires |xs| > 0 && Distinct(xs) && FirstSeenOrder(xs, s)
    ensures Distinct(xs[1..]) && FirstSeenOrder(xs[1..], s)
    ensures Elements(xs[1..]) == Elements(xs) - {xs[0]}
  {
    var xt := xs[1..];
    assert xs == [xs[0]] + xt;
    forall a, b | 0 <= a < b < |xt|
      ensures FirstIndex(s, xt[a]) < FirstIndex(s, xt[b])
    {
      assert xt[a] == xs[a + 1] && xt[b] == xs[b + 1];
    }
  }

  /** Distinctness, the set of elements and first-seen order together
      determine a sequence completely. */
  lemma {:induction false} FirstSeenOrderUnique<T>(xs: seq<T>, ys: seq<T>, s: seq<T>)
    requires Distinct(xs) && Distinct(ys) && Elements(xs) == Elements(ys)
    requires FirstSeenOrder(xs, s) && FirstSeenOrder(ys, s)
    ensures xs == ys
    decreases |xs|
  {
    DistinctCardinality(xs);
    DistinctCardinality(ys);
    if xs != [] {
      FirstSeenHeadsAgree(xs, ys, s);
      FirstSeenTail(xs, s);
      FirstSeenTail(ys, s);
      FirstSeenOrderUnique(xs[1..], ys[1..], s);
      assert xs == [xs[0]] + xs[1..] && ys == [ys[0]] + ys[1..];
    }
  }

  /** Each key's value is the value of the last pair with that key. */
  lemma {:induction false} FromPairsLastValue<K, V>(ps: seq<(K, V)>)
    ensures var d, ks := FromPairs(ps), Firsts(ps);
            forall k :: k in d.entries ==> d.entries[k] == ps[LastIndex(ks, k)].1
    decreases |ps|
  {
    if ps != [] {
      var init := ps[..|ps| - 1];
      var last := ps[|ps| - 1];
      var ks0, ks := Firsts(init), Firsts(ps);
      assert ks == ks0 + [last.0];
      assert ks[..|ks| - 1] == ks0;
      FromPairsLastValue(init);
    }
  }
}
