/**
 * lib/stuff.rb: the two hash-building folds used throughout the pipeline.
 * `safe_invert` turns a key/value hash into value-to-keys buckets;
 * `create_hash_number` counts occurrences.
 */
module Stuff {
  import opened Collections

  /** The keys paired with `v`, in the order of `pairs`. */
  function KeysWith<K, V(==)>(pairs: seq<(K, V)>, v: V): seq<K> {
    if pairs == [] then []
    else
      var last := pairs[|pairs| - 1];
      KeysWith(pairs[..|pairs| - 1], v) + (if last.1 == v then [last.0] else [])
  }

  lemma {:induction false} KeysWithMember<K(!new), V(!new)>(pairs: seq<(K, V)>, v: V, k: K)
    ensures k in KeysWith(pairs, v) <==> exists i :: 0 <= i < |pairs| && pairs[i] == (k, v)
  {
    if pairs != [] {
      var init := pairs[..|pairs| - 1];
      KeysWithMember(init, v, k);
      assert forall i :: 0 <= i < |init| ==> init[i] == pairs[i];
    }
  }

  lemma {:induction false} KeysWithEmpty<K(!new), V(!new)>(pairs: seq<(K, V)>, v: V)
    ensures KeysWith(pairs, v) != [] <==> v in Seconds(pairs)
  {
    if pairs != [] {
      var init := pairs[..|pairs| - 1];
      KeysWithEmpty(init, v);
      assert Seconds(pairs) == Seconds(init) + [pairs[|pairs| - 1].1];
    }
  }

  /**
   * `hash.each_with_object({}) { |(key, value), out| (out[value] ||= []) << key }`,
   * a fold from the first pair to the last.
   */
  function SafeInvert<K, V(==,!new)>(pairs: seq<(K, V)>): (inv: OHash<V, seq<K>>)
    ensures inv.Valid()
  {
    if pairs == [] then Empty()
    else
      var (k, v) := pairs[|pairs| - 1];
      var out := SafeInvert(pairs[..|pairs| - 1]);
      out.Store(v, (if v in out.table then out.table[v] else []) + [k])
  }

  /** One step of a loop building `SafeInvert` over a prefix of `pairs`. */
  lemma SafeInvertPrefix<K, V(!new)>(pairs: seq<(K, V)>, i: int)
    requires 0 <= i < |pairs|
    ensures var out := SafeInvert(pairs[..i]);
      var (k, v) := pairs[i];
      SafeInvert(pairs[..i + 1]) == out.Store(v, (if v in out.table then out.table[v] else []) + [k])
  {
    assert pairs[..i + 1][..i] == pairs[..i];
  }

  /** There is a bucket for every value that occurs, holding the keys with that value, in input order. */
  lemma {:induction false} SafeInvertBucket<K(!new), V(!new)>(pairs: seq<(K, V)>, v: V)
    ensures v in SafeInvert(pairs).table <==> v in Seconds(pairs)
    ensures v in SafeInvert(pairs).table ==> SafeInvert(pairs).table[v] == KeysWith(pairs, v) != []
  {
    KeysWithEmpty(pairs, v);
    if pairs != [] {
      var init := pairs[..|pairs| - 1];
      SafeInvertBucket(init, v);
      KeysWithEmpty(init, v);
      var w := pairs[|pairs| - 1].1;
      if w != v {
        SafeInvertBucket(init, w);
      }
    }
  }

  /** A key sits in the bucket of a value exactly when some pair joins them. */
  lemma SafeInvertMember<K(!new), V(!new)>(pairs: seq<(K, V)>, k: K, v: V)
    ensures (v in SafeInvert(pairs).table && k in SafeInvert(pairs).table[v]) <==> exists i :: 0 <= i < |pairs| && pairs[i] == (k, v)
    ensures v in SafeInvert(pairs).table ==> SafeInvert(pairs).table[v] != []
  {
    SafeInvertBucket(pairs, v);
    KeysWithMember(pairs, v, k);
  }

  /** The buckets appear in the order in which their values first occur. */
  lemma {:induction false} SafeInvertKeys<K(!new), V(!new)>(pairs: seq<(K, V)>)
    ensures SafeInvert(pairs).keys == Uniq(Seconds(pairs))
  {
    if pairs != [] {
      var init := pairs[..|pairs| - 1];
      var v := pairs[|pairs| - 1].1;
      SafeInvertKeys(init);
      SafeInvertBucket(init, v);
      assert Seconds(pairs)[..|pairs| - 1] == Seconds(init);
    }
  }

  /** Every key lands in the bucket of its own value, and (keys being distinct) in no other. */
  lemma {:induction false} SafeInvertPartition<K(!new), V(!new)>(pairs: seq<(K, V)>, i: int, w: V)
    requires 0 <= i < |pairs|
    requires forall a, b :: 0 <= a < b < |pairs| ==> pairs[a].0 != pairs[b].0
    ensures pairs[i].1 in SafeInvert(pairs).table
    ensures pairs[i].0 in SafeInvert(pairs).table[pairs[i].1]
    ensures w in SafeInvert(pairs).table && pairs[i].0 in SafeInvert(pairs).table[w] ==> w == pairs[i].1
  {
    var (k, v) := pairs[i];
    assert Seconds(pairs)[i] == v;
    SafeInvertBucket(pairs, v);
    KeysWithMember(pairs, v, k);
    SafeInvertBucket(pairs, w);
    KeysWithMember(pairs, w, k);
    if w in SafeInvert(pairs).table && k in SafeInvert(pairs).table[w] {
      var j :| 0 <= j < |pairs| && pairs[j] == (k, w);
      assert j == i;
    }
  }

  /** Pairs that all carry one value make a single bucket holding every key, in input order. */
  lemma {:induction false} SafeInvertUniform<K(!new), V(!new)>(pairs: seq<(K, V)>, v: V)
    requires pairs != [] && forall i :: 0 <= i < |pairs| ==> pairs[i].1 == v
    ensures SafeInvert(pairs) == OHash([v], map[v := Firsts(pairs)])
  {
    var init := pairs[..|pairs| - 1];
    var k := pairs[|pairs| - 1].0;
    assert Firsts(pairs) == Firsts(init) + [k];
    if init != [] {
      SafeInvertUniform(init, v);
    }
  }

  /** Bucketing loses and duplicates nothing: the buckets, in key order, hold exactly the input keys. */
  lemma {:induction false} SafeInvertConserves<K(!new), V(!new)>(pairs: seq<(K, V)>)
    ensures multiset(Gather(SafeInvert(pairs).table, SafeInvert(pairs).keys)) == multiset(Firsts(pairs))
  {
    if pairs != [] {
      var init := pairs[..|pairs| - 1];
      var (k, v) := pairs[|pairs| - 1];
      var out := SafeInvert(init);
      var inv := SafeInvert(pairs);
      SafeInvertConserves(init);
      assert Firsts(pairs) == Firsts(init) + [k];
      if v in out.table {
        assert inv.keys == out.keys;
        GatherBump(out.table, out.keys, v, k);
      } else {
        assert inv.keys == out.keys + [v];
        GatherAppend(inv.table, out.keys, [v]);
        GatherFrame(inv.table, out.table, out.keys);
        assert Gather(inv.table, [v]) == [k];
      }
    }
  }

  /** Appending `k` to the one bucket `v` adds `k` once to what is gathered. */
  lemma {:induction false} GatherBump<K(!new), V>(t: map<K, seq<V>>, ks: seq<K>, v: K, k: V)
    requires Distinct(ks) && v in ks
    requires forall x :: x in ks ==> x in t
    ensures forall x :: x in ks ==> x in t[v := t[v] + [k]]
    ensures multiset(Gather(t[v := t[v] + [k]], ks)) == multiset(Gather(t, ks)) + multiset{k}
  {
    var u := t[v := t[v] + [k]];
    if ks[0] == v {
      DistinctTail(ks);
      GatherFrame(u, t, ks[1..]);
    } else {
      DistinctTail(ks);
      GatherBump(t, ks[1..], v, k);
    }
  }

  /** `array.each_with_object(Hash.new(0)) { |x, hash| hash[x] += 1 }` */
  function CreateHashNumber<T(==,!new)>(a: seq<T>): (h: OHash<T, nat>)
    ensures h.Valid()
    ensures h.keys == Uniq(a)
    ensures forall x :: x in h.table ==> h.table[x] == multiset(a)[x] && h.table[x] > 0
  {
    if a == [] then Empty()
    else
      var init := a[..|a| - 1];
      var x := a[|a| - 1];
      assert a == init + [x];
      var h0 := CreateHashNumber(init);
      h0.Store(x, (if x in h0.table then h0.table[x] else 0) + 1)
  }

  /** A lookup through the hash's default value of 0. */
  function CountOf<T(==,!new)>(h: OHash<T, nat>, x: T): nat {
    if x in h.table then h.table[x] else 0
  }

  lemma {:induction false} CountOfIsOccurrences<T(!new)>(a: seq<T>, x: T)
    ensures CountOf(CreateHashNumber(a), x) == multiset(a)[x]
  {
    assert x !in CreateHashNumber(a).table ==> x !in a;
  }

  function SumOver<T(!new)>(t: map<T, nat>, ks: seq<T>): nat
    requires forall k :: k in ks ==> k in t
  {
    if ks == [] then 0 else t[ks[0]] + SumOver(t, ks[1..])
  }

  lemma {:induction false} SumOverAppend<T(!new)>(t: map<T, nat>, a: seq<T>, b: seq<T>)
    requires forall k :: k in a + b ==> k in t
    ensures SumOver(t, a + b) == SumOver(t, a) + SumOver(t, b)
  {
    if a == [] {
      assert a + b == b;
    } else {
      assert (a + b)[1..] == a[1..] + b;
      SumOverAppend(t, a[1..], b);
    }
  }

  lemma {:induction false} SumOverFrame<T(!new)>(t: map<T, nat>, u: map<T, nat>, ks: seq<T>)
    requires forall k :: k in ks ==> k in t && k in u && t[k] == u[k]
    ensures SumOver(t, ks) == SumOver(u, ks)
  {
    if ks != [] {
      SumOverFrame(t, u, ks[1..]);
    }
  }

  lemma {:induction false} SumOverBump<T(!new)>(t: map<T, nat>, ks: seq<T>, v: T)
    requires Distinct(ks) && v in ks
    requires forall x :: x in ks ==> x in t
    ensures forall x :: x in ks ==> x in t[v := t[v] + 1]
    ensures SumOver(t[v := t[v] + 1], ks) == SumOver(t, ks) + 1
  {
    if ks[0] == v {
      DistinctTail(ks);
      SumOverFrame(t[v := t[v] + 1], t, ks[1..]);
    } else {
      DistinctTail(ks);
      SumOverBump(t, ks[1..], v);
    }
  }

  /** The counts add up to the length of the array. */
  lemma {:induction false} CreateHashNumberSum<T(!new)>(a: seq<T>)
    ensures SumOver(CreateHashNumber(a).table, CreateHashNumber(a).keys) == |a|
  {
    if a != [] {
      var init := a[..|a| - 1];
      var x := a[|a| - 1];
      var h0 := CreateHashNumber(init);
      var h := CreateHashNumber(a);
      CreateHashNumberSum(init);
      if x in h0.table {
        SumOverBump(h0.table, h0.keys, x);
      } else {
        SumOverAppend(h.table, h0.keys, [x]);
        SumOverFrame(h.table, h0.table, h0.keys);
      }
    }
  }
}
