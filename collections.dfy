/**
 * Ruby collection behaviour the pipeline relies on, stated once:
 * insertion-ordered hashes, one level of array nesting and `flatten`,
 * `uniq`, `delete`, `min`/`max`, and `Float#to_i`.
 */
module Collections {

  /** The outcome of a Ruby call that can raise instead of returning. */
  datatype Result<T> = Ok(value: T) | Raises(error: string)

  /** A value that may be `nil`. */
  datatype Option<T> = None | Some(value: T)

  /** No element occurs in `s` more than once. */
  ghost predicate Distinct<T(!new)>(s: seq<T>) {
    forall x :: multiset(s)[x] <= 1
  }

  /** Distinctness by positions: no two positions hold the same element. */
  lemma DistinctAt<T(!new)>(s: seq<T>, i: int, j: int)
    requires Distinct(s) && 0 <= i < j < |s|
    ensures s[i] != s[j]
  {
    var x := s[i];
    assert s == s[..j] + [s[j]] + s[j + 1..];
    assert s[..j][i] == x;
    assert multiset(s)[x] == multiset(s[..j])[x] + multiset([s[j]])[x] + multiset(s[j + 1..])[x];
  }

  /** Dropping the first element keeps the rest distinct, and the first element does not recur. */
  lemma DistinctTail<T(!new)>(s: seq<T>)
    requires Distinct(s) && s != []
    ensures Distinct(s[1..]) && s[0] !in s[1..]
  {
    assert s == [s[0]] + s[1..];
    assert multiset(s) == multiset{s[0]} + multiset(s[1..]);
    forall x ensures multiset(s[1..])[x] <= 1 {
      assert multiset(s)[x] == multiset{s[0]}[x] + multiset(s[1..])[x];
    }
    assert multiset(s)[s[0]] == 1 + multiset(s[1..])[s[0]];
  }

  /** Dropping the last element keeps the rest distinct, and the last element does not occur before. */
  lemma DistinctInit<T(!new)>(s: seq<T>)
    requires Distinct(s) && s != []
    ensures Distinct(s[..|s| - 1]) && s[|s| - 1] !in s[..|s| - 1]
  {
    var init, last := s[..|s| - 1], s[|s| - 1];
    assert s == init + [last];
    forall x ensures multiset(init)[x] <= 1 {
      assert multiset(s)[x] == multiset(init)[x] + multiset{last}[x];
    }
    assert multiset(s)[last] == multiset(init)[last] + 1;
  }

  /** In a distinct sequence no element occurs before its own position. */
  lemma DistinctFresh<T(!new)>(s: seq<T>, i: int)
    requires Distinct(s) && 0 <= i < |s|
    ensures s[i] !in s[..i]
  {
    if s[i] in s[..i] {
      var j :| 0 <= j < i && s[..i][j] == s[i];
      DistinctAt(s, j, i);
    }
  }

  /** A prefix of a distinct sequence is distinct. */
  lemma DistinctPrefix<T(!new)>(s: seq<T>, n: int)
    requires Distinct(s) && 0 <= n <= |s|
    ensures Distinct(s[..n])
  {
    assert s == s[..n] + s[n..];
    forall x ensures multiset(s[..n])[x] <= 1 {
      assert multiset(s)[x] == multiset(s[..n])[x] + multiset(s[n..])[x];
    }
  }

  /** Appending an element that does not occur yet keeps a sequence distinct. */
  lemma DistinctSnoc<T(!new)>(s: seq<T>, x: T)
    requires Distinct(s) && x !in s
    ensures Distinct(s + [x])
  {
    forall y ensures multiset(s + [x])[y] <= 1 {
      assert multiset(s + [x])[y] == multiset(s)[y] + multiset{x}[y];
    }
  }

  /**
   * A Ruby Hash: the keys in insertion order plus the key/value table.
   * Storing under an existing key keeps its place; a new key goes last.
   */
  datatype OHash<K(==,!new), V> = OHash(keys: seq<K>, table: map<K, V>) {

    ghost predicate Valid() {
      Distinct(keys) && forall k :: k in table <==> k in keys
    }

    /** `h[k] = v` */
    function Store(k: K, v: V): (h: OHash<K, V>)
      requires Valid()
      ensures h.Valid()
      ensures h.table == table[k := v]
      ensures h.keys == if k in table then keys else keys + [k]
    {
      if k in table then OHash(keys, table[k := v])
      else DistinctSnoc(keys, k); OHash(keys + [k], table[k := v])
    }

    /** `h.delete(k)` */
    function Delete(k: K): (h: OHash<K, V>)
      requires Valid()
      ensures h.Valid()
      ensures h.table == table - {k}
      ensures h.keys == RemoveAll(keys, k)
    {
      RemoveAllDistinct(keys, k);
      OHash(RemoveAll(keys, k), table - {k})
    }

    /** `h.values`, in key order */
    function Values(): (vs: seq<V>)
      requires Valid()
      ensures |vs| == |keys|
      ensures forall i :: 0 <= i < |keys| ==> vs[i] == table[keys[i]]
    {
      seq(|keys|, i requires 0 <= i < |keys| => table[keys[i]])
    }
  }

  /** The key/value pairs of a hash, in key order (what `each` visits). */
  function Entries<K(==,!new), V>(h: OHash<K, V>): (ps: seq<(K, V)>)
    requires h.Valid()
    ensures |ps| == |h.keys|
  {
    seq(|h.keys|, i requires 0 <= i < |h.keys| => (h.keys[i], h.table[h.keys[i]]))
  }

  function Empty<K(==,!new), V>(): (h: OHash<K, V>)
    ensures h.Valid() && h.keys == [] && h.table == map[]
  {
    OHash([], map[])
  }

  /** `Array#delete(x)`: every occurrence of `x` goes, the rest keeps its order. */
  function RemoveAll<T(==,!new)>(s: seq<T>, x: T): (r: seq<T>)
    ensures forall y :: y in r <==> y in s && y != x
    ensures x !in s ==> r == s
  {
    if s == [] then []
    else
      var rest := RemoveAll(s[1..], x);
      assert s == [s[0]] + s[1..];
      if s[0] == x then rest else [s[0]] + rest
  }

  /** Deleting removes every occurrence of `x` and keeps the count of everything else. */
  lemma {:induction false} RemoveAllCount<T(!new)>(s: seq<T>, x: T)
    ensures multiset(RemoveAll(s, x)) == multiset(s)[x := 0]
  {
    if s != [] {
      RemoveAllCount(s[1..], x);
      assert s == [s[0]] + s[1..];
    }
  }

  /** Deleting the last element, absent before it, leaves what precedes it. */
  lemma {:induction false} RemoveAllLast<T(!new)>(s: seq<T>, x: T)
    requires x !in s
    ensures RemoveAll(s + [x], x) == s
  {
    if s != [] {
      assert (s + [x])[1..] == s[1..] + [x];
      RemoveAllLast(s[1..], x);
      assert s == [s[0]] + s[1..];
    }
  }

  /** Deleting keeps the remaining elements distinct. */
  lemma {:induction false} RemoveAllDistinct<T(!new)>(s: seq<T>, x: T)
    requires Distinct(s)
    ensures Distinct(RemoveAll(s, x))
  {
    var r := RemoveAll(s, x);
    RemoveAllCount(s, x);
    forall y ensures multiset(r)[y] <= 1 {
      assert multiset(r)[y] <= multiset(s)[y];
    }
  }

  /** Deleting an element that occurs once removes exactly that one occurrence. */
  lemma {:induction false} RemoveOnce<T(!new)>(s: seq<T>, x: T)
    requires Distinct(s) && x in s
    ensures |RemoveAll(s, x)| == |s| - 1
    ensures multiset(s) == multiset(RemoveAll(s, x)) + multiset{x}
  {
    assert s == [s[0]] + s[1..];
    DistinctTail(s);
    if s[0] != x {
      RemoveOnce(s[1..], x);
    }
  }

  /** `Array#uniq`: the first occurrence of each element, in order. */
  function Uniq<T(==,!new)>(s: seq<T>): (r: seq<T>)
    ensures Distinct(r)
    ensures forall x :: x in r <==> x in s
    ensures |r| <= |s|
  {
    if s == [] then []
    else
      var u := Uniq(s[..|s| - 1]);
      if s[|s| - 1] in u then u else DistinctSnoc(u, s[|s| - 1]); u + [s[|s| - 1]]
  }

  lemma {:induction false} UniqOfDistinct<T(!new)>(s: seq<T>)
    requires Distinct(s)
    ensures Uniq(s) == s
  {
    if s != [] {
      assert s[..|s| - 1] + [s[|s| - 1]] == s;
      DistinctInit(s);
      UniqOfDistinct(s[..|s| - 1]);
    }
  }

  /** One level of Ruby array nesting: a bare element, or an element array. */
  datatype Chunk<T> = Single(item: T) | Group(items: seq<T>)

  function Items<T>(c: Chunk<T>): seq<T> {
    match c
    case Single(x) => [x]
    case Group(xs) => xs
  }

  /** `flatten` of an array of chunks. */
  function Flat<T>(cs: seq<Chunk<T>>): (r: seq<T>)
    ensures cs == [] ==> r == []
  {
    if cs == [] then [] else Items(cs[0]) + Flat(cs[1..])
  }

  lemma {:induction false} FlatAppend<T>(a: seq<Chunk<T>>, b: seq<Chunk<T>>)
    ensures Flat(a + b) == Flat(a) + Flat(b)
  {
    if a == [] {
      assert a + b == b;
    } else {
      assert (a + b)[1..] == a[1..] + b;
      FlatAppend(a[1..], b);
    }
  }

  /** `flatten!` changes its receiver (and so returns it, not nil) exactly when it holds a nested array. */
  predicate HasGroup<T>(cs: seq<Chunk<T>>) {
    exists i :: 0 <= i < |cs| && cs[i].Group?
  }

  /** Concatenation of a sequence of sequences. */
  function Flatten<T>(ss: seq<seq<T>>): (r: seq<T>)
    ensures ss == [] ==> r == []
  {
    if ss == [] then [] else ss[0] + Flatten(ss[1..])
  }

  lemma {:induction false} FlattenAppend<T>(a: seq<seq<T>>, b: seq<seq<T>>)
    ensures Flatten(a + b) == Flatten(a) + Flatten(b)
  {
    if a == [] {
      assert a + b == b;
    } else {
      assert (a + b)[1..] == a[1..] + b;
      FlattenAppend(a[1..], b);
    }
  }

  function Reverse<T>(s: seq<T>): (r: seq<T>)
    ensures |r| == |s|
    ensures forall i :: 0 <= i < |s| ==> r[i] == s[|s| - 1 - i]
  {
    if s == [] then [] else Reverse(s[1..]) + [s[0]]
  }

  lemma ConcatRegroup<T>(a: seq<T>, b: seq<T>, c: seq<T>, d: seq<T>)
    ensures (a + b) + (c + d) == a + (b + c) + d
  {
  }

  lemma ReverseAppend<T>(a: seq<T>, b: seq<T>)
    ensures Reverse(a + b) == Reverse(b) + Reverse(a)
  {
    var r, q := Reverse(a + b), Reverse(b) + Reverse(a);
    forall i | 0 <= i < |r| ensures r[i] == q[i] {
      if i < |b| {
        assert q[i] == Reverse(b)[i];
      } else {
        assert q[i] == Reverse(a)[i - |b|];
      }
    }
  }

  lemma ReverseMultiset<T>(s: seq<T>)
    ensures multiset(Reverse(s)) == multiset(s)
  {
    if s != [] {
      ReverseMultiset(s[1..]);
      assert s == [s[0]] + s[1..];
    }
  }

  /** `Array#min` of a non-empty array of reals. */
  function MinOf(s: seq<real>): (m: real)
    requires |s| > 0
    ensures m in s
    ensures forall x :: x in s ==> m <= x
  {
    if |s| == 1 then s[0]
    else
      var rest := MinOf(s[1..]);
      assert s == [s[0]] + s[1..];
      if s[0] <= rest then s[0] else rest
  }

  /** An element no larger than any other is the minimum. */
  lemma MinOfIs(s: seq<real>, x: real)
    requires x in s && forall y :: y in s ==> x <= y
    ensures MinOf(s) == x
  {
  }

  /** `Array#max` of a non-empty array of reals. */
  function MaxOf(s: seq<real>): (m: real)
    requires |s| > 0
    ensures m in s
    ensures forall x :: x in s ==> x <= m
  {
    if |s| == 1 then s[0]
    else
      var rest := MaxOf(s[1..]);
      assert s == [s[0]] + s[1..];
      if s[0] >= rest then s[0] else rest
  }

  /** `Float#to_i`: truncation toward zero. */
  function Trunc(x: real): (n: int)
    ensures 0.0 <= x ==> 0 <= n && n as real <= x < n as real + 1.0
    ensures x < 0.0 ==> n <= 0 && n as real - 1.0 < x <= n as real
  {
    if x >= 0.0 then x.Floor else -((-x).Floor)
  }

  /** `n.times`: a non-positive count runs nothing. */
  function Times(x: real): (n: nat)
    ensures n as real <= (if x < 0.0 then 0.0 else x) < n as real + 1.0
  {
    if Trunc(x) < 0 then 0 else Trunc(x)
  }

  /** `[x] * n` */
  function Repeat<T>(x: T, n: nat): (r: seq<T>)
    ensures |r| == n
    ensures forall i :: 0 <= i < n ==> r[i] == x
  {
    seq(n, _ => x)
  }

  /**
   * Successive `h.store(k, v)` into a fresh hash: a key keeps the place of its
   * first store and the value of its last one.
   */
  function StoreAll<K(==,!new), V>(pairs: seq<(K, V)>): (h: OHash<K, V>)
    ensures h.Valid()
  {
    if pairs == [] then Empty()
    else
      var last := pairs[|pairs| - 1];
      StoreAll(pairs[..|pairs| - 1]).Store(last.0, last.1)
  }

  /** The value stored under a key is the one of its last pair. */
  lemma {:induction false} StoreAllLast<K(!new), V>(pairs: seq<(K, V)>, i: int)
    requires 0 <= i < |pairs| && forall j :: i < j < |pairs| ==> pairs[j].0 != pairs[i].0
    ensures pairs[i].0 in StoreAll(pairs).table && StoreAll(pairs).table[pairs[i].0] == pairs[i].1
  {
    if i < |pairs| - 1 {
      var init := pairs[..|pairs| - 1];
      assert init[i] == pairs[i];
      StoreAllLast(init, i);
    }
  }

  lemma {:induction false} StoreAllKeys<K(!new), V>(pairs: seq<(K, V)>)
    ensures StoreAll(pairs).keys == Uniq(Firsts(pairs))
  {
    var firsts := Firsts(pairs);
    if pairs != [] {
      var init := pairs[..|pairs| - 1];
      StoreAllKeys(init);
      assert firsts[..|pairs| - 1] == Firsts(init);
    }
  }

  /** One step of a loop of stores. */
  lemma StoreAllSnoc<K(!new), V>(pairs: seq<(K, V)>, k: K, v: V)
    ensures StoreAll(pairs + [(k, v)]) == StoreAll(pairs).Store(k, v)
  {
    assert (pairs + [(k, v)])[..|pairs|] == pairs;
  }

  /** A key is stored exactly when some pair names it. */
  lemma StoreAllMember<K(!new), V>(pairs: seq<(K, V)>, k: K)
    ensures k in StoreAll(pairs).table <==> k in Firsts(pairs)
  {
    StoreAllKeys(pairs);
  }

  /** Later stores win: the value under a key stored again by `b` is the one `b` leaves. */
  lemma {:induction false} StoreAllLater<K(!new), V>(a: seq<(K, V)>, b: seq<(K, V)>, k: K)
    ensures k in Firsts(b) ==> k in StoreAll(a + b).table && k in StoreAll(b).table && StoreAll(a + b).table[k] == StoreAll(b).table[k]
    ensures k !in Firsts(b) ==> (k in StoreAll(a + b).table <==> k in StoreAll(a).table)
    ensures k !in Firsts(b) && k in StoreAll(a).table ==> StoreAll(a + b).table[k] == StoreAll(a).table[k]
  {
    if b == [] {
      assert a + b == a;
    } else {
      var init := b[..|b| - 1];
      var last := b[|b| - 1];
      assert a + b == (a + init) + [last];
      assert b == init + [last];
      assert Firsts(b) == Firsts(init) + [last.0];
      StoreAllSnoc(a + init, last.0, last.1);
      StoreAllSnoc(init, last.0, last.1);
      StoreAllLater(a, init, k);
    }
  }

  /** Pairs that all carry one value store that value under every key they name. */
  lemma {:induction false} StoreAllUniform<K(!new), V>(pairs: seq<(K, V)>, v: V, k: K)
    requires forall i :: 0 <= i < |pairs| ==> pairs[i].1 == v
    requires k in Firsts(pairs)
    ensures k in StoreAll(pairs).table && StoreAll(pairs).table[k] == v
  {
    var init := pairs[..|pairs| - 1];
    assert Firsts(pairs) == Firsts(init) + [pairs[|pairs| - 1].0];
    if k != pairs[|pairs| - 1].0 {
      StoreAllUniform(init, v, k);
    }
  }

  /** The keys of a list of key/value pairs. */
  function Firsts<K, V>(pairs: seq<(K, V)>): (ks: seq<K>)
    ensures |ks| == |pairs|
    ensures forall i :: 0 <= i < |pairs| ==> ks[i] == pairs[i].0
  {
    if pairs == [] then [] else Firsts(pairs[..|pairs| - 1]) + [pairs[|pairs| - 1].0]
  }

  lemma FirstsAppend<K, V>(a: seq<(K, V)>, b: seq<(K, V)>)
    ensures Firsts(a + b) == Firsts(a) + Firsts(b)
  {
  }

  /** The values of a list of key/value pairs. */
  function Seconds<K, V>(pairs: seq<(K, V)>): (vs: seq<V>)
    ensures |vs| == |pairs|
    ensures forall i :: 0 <= i < |pairs| ==> vs[i] == pairs[i].1
  {
    if pairs == [] then [] else Seconds(pairs[..|pairs| - 1]) + [pairs[|pairs| - 1].1]
  }

  /** The values of `t` under the keys `ks`, concatenated in the order of `ks` (a key without a value adds nothing). */
  function Gather<K(!new), V>(t: map<K, seq<V>>, ks: seq<K>): seq<V> {
    if ks == [] then [] else (if ks[0] in t then t[ks[0]] else []) + Gather(t, ks[1..])
  }

  lemma {:induction false} GatherAppend<K(!new), V>(t: map<K, seq<V>>, a: seq<K>, b: seq<K>)
    ensures Gather(t, a + b) == Gather(t, a) + Gather(t, b)
  {
    if a == [] {
      assert a + b == b;
    } else {
      assert (a + b)[1..] == a[1..] + b;
      GatherAppend(t, a[1..], b);
    }
  }

  /** Gathering under a hash's keys is flattening its values. */
  lemma {:induction false} GatherLookups<K(!new), V>(t: map<K, seq<V>>, ks: seq<K>, vs: seq<seq<V>>)
    requires |vs| == |ks| && forall i :: 0 <= i < |ks| ==> ks[i] in t && vs[i] == t[ks[i]]
    ensures Flatten(vs) == Gather(t, ks)
  {
    if ks != [] {
      GatherLookups(t, ks[1..], vs[1..]);
    }
  }

  /** Keys without a value add nothing, so visiting only the keys that have one gathers the same. */
  lemma {:induction false} GatherSelect<K(!new), V>(t: map<K, seq<V>>, s: seq<K>)
    ensures Gather(t, Select(s, t.Keys)) == Gather(t, s)
  {
    if s != [] {
      var init, x := s[..|s| - 1], s[|s| - 1];
      GatherSelect(t, init);
      assert s == init + [x];
      GatherAppend(t, init, [x]);
      GatherAppend(t, Select(init, t.Keys), if x in t then [x] else []);
    }
  }

  /** Gathering the bucket `m` first and then the others without it collects the same elements. */
  lemma {:induction false} GatherRemove<K(!new), V>(t: map<K, seq<V>>, ks: seq<K>, m: K)
    requires Distinct(ks) && m in ks
    requires forall k :: k in ks ==> k in t
    ensures multiset(Gather(t, ks)) == multiset(t[m]) + multiset(Gather(t, RemoveAll(ks, m)))
  {
    DistinctTail(ks);
    if ks[0] == m {
      DistinctTail(ks);
      assert RemoveAll(ks, m) == RemoveAll(ks[1..], m) == ks[1..];
    } else {
      GatherRemove(t, ks[1..], m);
      assert RemoveAll(ks, m) == [ks[0]] + RemoveAll(ks[1..], m);
      assert Gather(t, RemoveAll(ks, m)) == t[ks[0]] + Gather(t, RemoveAll(ks[1..], m));
    }
  }

  /** Visiting the same distinct keys in another order gathers the same elements. */
  lemma {:induction false} GatherPermutation<K(!new), V>(t: map<K, seq<V>>, a: seq<K>, b: seq<K>)
    requires Distinct(a) && Distinct(b) && multiset(a) == multiset(b)
    requires forall k :: k in a ==> k in t
    requires forall k :: k in b ==> k in t
    ensures multiset(Gather(t, a)) == multiset(Gather(t, b))
    decreases |b|
  {
    if b == [] {
      assert |multiset(a)| == 0;
    } else {
      var x := b[0];
      assert x in multiset(a);
      var rest := RemoveAll(a, x);
      RemoveAllDistinct(a, x);
      GatherRemove(t, a, x);
      RemoveOnce(a, x);
      assert b == [x] + b[1..];
      assert multiset(b) == multiset{x} + multiset(b[1..]);
      assert multiset(rest) == multiset(a) - multiset{x};
      assert multiset(b[1..]) == multiset(b) - multiset{x};
      DistinctTail(b);
      GatherPermutation(t, rest, b[1..]);
      assert multiset(Gather(t, b)) == multiset(t[x]) + multiset(Gather(t, b[1..]));
    }
  }

  /** Gathering ignores changes to the table outside the keys visited. */
  lemma {:induction false} GatherFrame<K(!new), V>(t: map<K, seq<V>>, u: map<K, seq<V>>, ks: seq<K>)
    requires forall k :: k in ks ==> k in t && k in u && t[k] == u[k]
    ensures Gather(t, ks) == Gather(u, ks)
  {
    if ks != [] {
      GatherFrame(t, u, ks[1..]);
    }
  }

  function Abs(x: int): (r: nat)
    ensures r == x || r == -x
  {
    if x < 0 then -x else x
  }

  ghost predicate SortedReals(s: seq<real>) {
    forall i, j :: 0 <= i < j < |s| ==> s[i] <= s[j]
  }

  /** One insertion step of the sort: `x` goes before the first element it does not exceed. */
  function InsertReal(x: real, s: seq<real>): (r: seq<real>)
    ensures |r| == |s| + 1
    ensures forall y :: y in r <==> y == x || y in s
  {
    if s == [] then [x]
    else if x <= s[0] then [x] + s
    else
      assert s == [s[0]] + s[1..];
      [s[0]] + InsertReal(x, s[1..])
  }

  lemma {:induction false} InsertRealSorted(x: real, s: seq<real>)
    requires SortedReals(s)
    ensures SortedReals(InsertReal(x, s))
  {
    if s != [] && x > s[0] {
      var t := InsertReal(x, s[1..]);
      var r := [s[0]] + t;
      assert s == [s[0]] + s[1..];
      InsertRealSorted(x, s[1..]);
      assert forall j :: 0 <= j < |t| ==> s[0] <= t[j] by {
        forall j | 0 <= j < |t| ensures s[0] <= t[j] {
          assert t[j] in t;
        }
      }
      forall i, j | 0 <= i < j < |r| ensures r[i] <= r[j] {
        if i > 0 { assert r[i] == t[i - 1] && r[j] == t[j - 1]; }
      }
    }
  }

  lemma {:induction false} InsertRealPermutes(x: real, s: seq<real>)
    ensures multiset(InsertReal(x, s)) == multiset(s) + multiset{x}
  {
    if s != [] && x > s[0] {
      InsertRealPermutes(x, s[1..]);
      assert s == [s[0]] + s[1..];
      assert InsertReal(x, s) == [s[0]] + InsertReal(x, s[1..]);
    }
  }

  /** `Array#sort` on reals, by insertion. */
  function SortReals(s: seq<real>): (r: seq<real>)
    ensures |r| == |s| && forall x :: x in r <==> x in s
  {
    if s == [] then []
    else
      assert s == [s[0]] + s[1..];
      InsertReal(s[0], SortReals(s[1..]))
  }

  /** The sort is ascending. */
  lemma {:induction false} SortRealsSorted(s: seq<real>)
    ensures SortedReals(SortReals(s))
  {
    if s != [] {
      SortRealsSorted(s[1..]);
      InsertRealSorted(s[0], SortReals(s[1..]));
    }
  }

  /** The sort is a permutation. */
  lemma {:induction false} SortRealsPermutes(s: seq<real>)
    ensures multiset(SortReals(s)) == multiset(s)
  {
    if s != [] {
      SortRealsPermutes(s[1..]);
      InsertRealPermutes(s[0], SortReals(s[1..]));
      assert s == [s[0]] + s[1..];
    }
  }

  /** `a <=> b` on integer arrays is at most 0: the first difference decides, and a prefix comes first. */
  predicate LexLeq(a: seq<int>, b: seq<int>) {
    if a == [] then true
    else if b == [] then false
    else if a[0] != b[0] then a[0] < b[0]
    else LexLeq(a[1..], b[1..])
  }

  lemma {:induction false} LexTotal(a: seq<int>, b: seq<int>)
    ensures LexLeq(a, b) || LexLeq(b, a)
  {
    if a != [] && b != [] && a[0] == b[0] {
      LexTotal(a[1..], b[1..]);
    }
  }

  lemma {:induction false} LexAntisymmetric(a: seq<int>, b: seq<int>)
    requires LexLeq(a, b) && LexLeq(b, a)
    ensures a == b
  {
    if a != [] {
      LexAntisymmetric(a[1..], b[1..]);
      assert a == [a[0]] + a[1..] && b == [b[0]] + b[1..];
    }
  }

  lemma {:induction false} LexReflexive(a: seq<int>)
    ensures LexLeq(a, a)
  {
    if a != [] {
      LexReflexive(a[1..]);
    }
  }

  lemma {:induction false} LexTransitive(a: seq<int>, b: seq<int>, c: seq<int>)
    requires LexLeq(a, b) && LexLeq(b, c)
    ensures LexLeq(a, c)
  {
    if a != [] && b != [] && c != [] && a[0] == b[0] && b[0] == c[0] {
      LexTransitive(a[1..], b[1..], c[1..]);
    }
  }

  ghost predicate LexSorted(s: seq<seq<int>>) {
    forall i, j :: 0 <= i < j < |s| ==> LexLeq(s[i], s[j])
  }

  /** One insertion step: `x` goes before the first element it does not exceed. */
  function InsertLex(x: seq<int>, s: seq<seq<int>>): (r: seq<seq<int>>)
    ensures |r| == |s| + 1
    ensures forall y :: y in r <==> y == x || y in s
  {
    if s == [] then [x]
    else if LexLeq(x, s[0]) then [x] + s
    else
      assert s == [s[0]] + s[1..];
      [s[0]] + InsertLex(x, s[1..])
  }

  lemma {:induction false} InsertLexSorted(x: seq<int>, s: seq<seq<int>>)
    requires LexSorted(s)
    ensures LexSorted(InsertLex(x, s))
  {
    if s != [] && LexLeq(x, s[0]) {
      forall j | 0 <= j < |s| ensures LexLeq(x, s[j]) {
        if j > 0 { LexTransitive(x, s[0], s[j]); }
      }
      var r := [x] + s;
      forall i, j | 0 <= i < j < |r| ensures LexLeq(r[i], r[j]) {
        if i > 0 { assert r[i] == s[i - 1] && r[j] == s[j - 1]; }
      }
    } else if s != [] {
      var t := InsertLex(x, s[1..]);
      var r := [s[0]] + t;
      assert s == [s[0]] + s[1..];
      InsertLexSorted(x, s[1..]);
      LexTotal(x, s[0]);
      forall j | 0 <= j < |t| ensures LexLeq(s[0], t[j]) {
        assert t[j] in t;
        if t[j] != x {
          var k :| 0 <= k < |s[1..]| && s[1..][k] == t[j];
          assert s[k + 1] == t[j];
        }
      }
      forall i, j | 0 <= i < j < |r| ensures LexLeq(r[i], r[j]) {
        if i > 0 { assert r[i] == t[i - 1] && r[j] == t[j - 1]; }
      }
    }
  }

  lemma {:induction false} InsertLexPermutes(x: seq<int>, s: seq<seq<int>>)
    ensures multiset(InsertLex(x, s)) == multiset(s) + multiset{x}
  {
    if s != [] && !LexLeq(x, s[0]) {
      InsertLexPermutes(x, s[1..]);
      assert s == [s[0]] + s[1..];
      assert InsertLex(x, s) == [s[0]] + InsertLex(x, s[1..]);
    }
  }

  /** Flattening after an insertion holds the inserted array's elements once more. */
  lemma {:induction false} InsertLexFlatten(x: seq<int>, s: seq<seq<int>>)
    ensures multiset(Flatten(InsertLex(x, s))) == multiset(x) + multiset(Flatten(s))
  {
    if s != [] && !LexLeq(x, s[0]) {
      InsertLexFlatten(x, s[1..]);
      assert InsertLex(x, s) == [s[0]] + InsertLex(x, s[1..]);
      assert Flatten(InsertLex(x, s)) == s[0] + Flatten(InsertLex(x, s[1..]));
    }
  }

  /** `Array#sort` on integer arrays, by insertion. */
  function SortLex(s: seq<seq<int>>): (r: seq<seq<int>>)
    ensures |r| == |s|
  {
    if s == [] then [] else InsertLex(s[0], SortLex(s[1..]))
  }

  lemma {:induction false} SortLexSorted(s: seq<seq<int>>)
    ensures LexSorted(SortLex(s))
  {
    if s != [] {
      SortLexSorted(s[1..]);
      InsertLexSorted(s[0], SortLex(s[1..]));
    }
  }

  lemma {:induction false} SortLexPermutes(s: seq<seq<int>>)
    ensures multiset(SortLex(s)) == multiset(s)
  {
    if s != [] {
      SortLexPermutes(s[1..]);
      InsertLexPermutes(s[0], SortLex(s[1..]));
      assert s == [s[0]] + s[1..];
    }
  }

  /** Sorting the arrays before flattening them keeps every element, as often as it occurs. */
  lemma {:induction false} SortLexFlatten(s: seq<seq<int>>)
    ensures multiset(Flatten(SortLex(s))) == multiset(Flatten(s))
  {
    if s != [] {
      SortLexFlatten(s[1..]);
      InsertLexFlatten(s[0], SortLex(s[1..]));
    }
  }

  /**
   * The sorted order is the only one: any sorted rearrangement of the same
   * arrays is `SortLex`'s, so the choice of sorting algorithm does not matter.
   */
  lemma {:induction false} SortedUnique(a: seq<seq<int>>, b: seq<seq<int>>)
    requires LexSorted(a) && LexSorted(b) && multiset(a) == multiset(b)
    ensures a == b
    decreases |a|
  {
    if a != [] {
      SortedFirst(a, b);
      SortedFirst(b, a);
      LexAntisymmetric(a[0], b[0]);
      assert a == [a[0]] + a[1..] && b == [b[0]] + b[1..];
      assert multiset(a) == multiset{a[0]} + multiset(a[1..]);
      assert multiset(b) == multiset{b[0]} + multiset(b[1..]);
      forall x ensures multiset(a[1..])[x] == multiset(b[1..])[x] {
        assert multiset(a)[x] == multiset{a[0]}[x] + multiset(a[1..])[x];
        assert multiset(b)[x] == multiset{b[0]}[x] + multiset(b[1..])[x];
      }
      assert multiset(a[1..]) == multiset(b[1..]);
      SortedTail(a);
      SortedTail(b);
      SortedUnique(a[1..], b[1..]);
    }
  }

  lemma SortedTail(a: seq<seq<int>>)
    requires LexSorted(a) && a != []
    ensures LexSorted(a[1..])
  {
    forall i, j | 0 <= i < j < |a| - 1 ensures LexLeq(a[1..][i], a[1..][j]) {
      assert a[1..][i] == a[i + 1] && a[1..][j] == a[j + 1];
    }
  }

  /** The first of a sorted sequence is at most any element of a rearrangement of it. */
  lemma SortedFirst(a: seq<seq<int>>, b: seq<seq<int>>)
    requires LexSorted(b) && multiset(a) == multiset(b) && a != []
    ensures b != [] && LexLeq(b[0], a[0])
  {
    assert a[0] in multiset(b);
    var i :| 0 <= i < |b| && b[i] == a[0];
    if i == 0 {
      LexReflexive(b[0]);
    }
  }

  /** The elements of `s` that occur in `keep`, in the order of `s` (a `select`/`include?` loop). */
  function RetainIn<T(==)>(s: seq<T>, keep: seq<T>): seq<T> {
    if s == [] then []
    else RetainIn(s[..|s| - 1], keep) + (if s[|s| - 1] in keep then [s[|s| - 1]] else [])
  }

  /** What is retained is exactly the elements of `s` found in `keep`, each as often as in `s`. */
  lemma {:induction false} RetainInCount<T(!new)>(s: seq<T>, keep: seq<T>, x: T)
    ensures multiset(RetainIn(s, keep))[x] == if x in keep then multiset(s)[x] else 0
  {
    if s != [] {
      var init := s[..|s| - 1];
      RetainInCount(init, keep, x);
      assert s == init + [s[|s| - 1]];
    }
  }

  lemma RetainInMember<T(!new)>(s: seq<T>, keep: seq<T>, x: T)
    ensures x in RetainIn(s, keep) <==> x in s && x in keep
  {
    RetainInCount(s, keep, x);
    assert x in RetainIn(s, keep) <==> multiset(RetainIn(s, keep))[x] > 0;
  }

  /** The elements of `s` that belong to `ks`, in the order of `s`. */
  function Select<T>(s: seq<T>, ks: set<T>): seq<T> {
    if s == [] then []
    else Select(s[..|s| - 1], ks) + (if s[|s| - 1] in ks then [s[|s| - 1]] else [])
  }

  lemma {:induction false} SelectCount<T(!new)>(s: seq<T>, ks: set<T>, x: T)
    ensures multiset(Select(s, ks))[x] == if x in ks then multiset(s)[x] else 0
  {
    if s != [] {
      SelectCount(s[..|s| - 1], ks, x);
      assert s == s[..|s| - 1] + [s[|s| - 1]];
    }
  }

  /** Deleting an element found once, in the middle, leaves the two sides joined. */
  lemma {:induction false} RemoveAllMiddle<T(!new)>(a: seq<T>, x: T, b: seq<T>)
    requires x !in a && x !in b
    ensures RemoveAll(a + [x] + b, x) == a + b
  {
    var s := a + [x] + b;
    if a == [] {
      assert s[0] == x && s[1..] == b;
      assert RemoveAll(s, x) == RemoveAll(b, x);
    } else {
      assert s[0] == a[0] && a[0] != x;
      assert s[1..] == a[1..] + [x] + b;
      RemoveAllMiddle(a[1..], x, b);
      assert RemoveAll(s, x) == [a[0]] + RemoveAll(s[1..], x);
      assert a + b == [a[0]] + (a[1..] + b);
    }
  }

  /**
   * What deleting every key outside `ks` leaves of a hash: the other keys
   * in their order, with their values.
   */
  function Restrict<K(==,!new), V>(h: OHash<K, V>, ks: set<K>): OHash<K, V> {
    OHash(Select(h.keys, ks), map k | k in h.table && k in ks :: h.table[k])
  }

  /** A `keys.each { |k| h.delete(k) unless ... }` loop after `i` keys: those seen are restricted, the rest untouched. */
  function PartlyRestricted<K(==,!new), V>(h: OHash<K, V>, ks: set<K>, i: int): OHash<K, V>
    requires 0 <= i <= |h.keys|
  {
    OHash(Select(h.keys[..i], ks) + h.keys[i..], map k | k in h.table && (k in ks || k in h.keys[i..]) :: h.table[k])
  }

  lemma RestrictStart<K(!new), V>(h: OHash<K, V>, ks: set<K>)
    requires h.Valid()
    ensures PartlyRestricted(h, ks, 0) == h
  {
    assert h.keys[..0] == [] && h.keys[0..] == h.keys;
  }

  lemma RestrictEnd<K(!new), V>(h: OHash<K, V>, ks: set<K>)
    ensures PartlyRestricted(h, ks, |h.keys|) == Restrict(h, ks)
  {
    assert h.keys[..|h.keys|] == h.keys && h.keys[|h.keys|..] == [];
  }

  lemma RestrictValid<K(!new), V>(h: OHash<K, V>, ks: set<K>)
    requires h.Valid()
    ensures Restrict(h, ks).Valid()
  {
    PartlyRestrictedValid(h, ks, |h.keys|);
    RestrictEnd(h, ks);
  }

  /** Selecting twice by the same set selects nothing more. */
  lemma {:induction false} SelectTwice<T>(s: seq<T>, ks: set<T>)
    ensures Select(Select(s, ks), ks) == Select(s, ks)
  {
    if s != [] {
      var init := s[..|s| - 1];
      var x := s[|s| - 1];
      SelectTwice(init, ks);
      if x in ks {
        var r := Select(init, ks) + [x];
        assert Select(s, ks) == r;
        assert r[..|r| - 1] == Select(init, ks);
      } else {
        assert Select(s, ks) == Select(init, ks);
      }
    }
  }

  /** The loop state is a valid hash. */
  lemma PartlyRestrictedValid<K(!new), V>(h: OHash<K, V>, ks: set<K>, i: int)
    requires h.Valid() && 0 <= i <= |h.keys|
    ensures PartlyRestricted(h, ks, i).Valid()
  {
    var pre, suf := h.keys[..i], h.keys[i..];
    assert h.keys == pre + suf;
    forall x ensures multiset(Select(pre, ks) + suf)[x] <= 1 {
      SelectCount(pre, ks, x);
      assert multiset(h.keys)[x] == multiset(pre)[x] + multiset(suf)[x];
    }
    forall x ensures x in Select(pre, ks) <==> x in pre && x in ks {
      SelectCount(pre, ks, x);
      assert x in Select(pre, ks) <==> multiset(Select(pre, ks))[x] > 0;
    }
  }

  /** In a distinct sequence no element occurs after its own position. */
  lemma DistinctLater<T(!new)>(s: seq<T>, i: int)
    requires Distinct(s) && 0 <= i < |s|
    ensures s[i] !in s[i + 1..]
  {
    if s[i] in s[i + 1..] {
      var j :| 0 <= j < |s| - i - 1 && s[i + 1..][j] == s[i];
      DistinctAt(s, i, i + 1 + j);
    }
  }

  /** One key of the loop: kept, or deleted. */
  lemma RestrictStep<K(!new), V>(h: OHash<K, V>, ks: set<K>, i: int)
    requires h.Valid() && 0 <= i < |h.keys|
    ensures PartlyRestricted(h, ks, i).Valid()
    ensures PartlyRestricted(h, ks, i + 1)
         == if h.keys[i] in ks then PartlyRestricted(h, ks, i) else PartlyRestricted(h, ks, i).Delete(h.keys[i])
  {
    PartlyRestrictedValid(h, ks, i);
    RestrictStepKeys(h, ks, i);
    RestrictStepTable(h, ks, i);
  }

  lemma RestrictStepKeys<K(!new), V>(h: OHash<K, V>, ks: set<K>, i: int)
    requires h.Valid() && 0 <= i < |h.keys|
    ensures PartlyRestricted(h, ks, i + 1).keys
         == if h.keys[i] in ks then PartlyRestricted(h, ks, i).keys else RemoveAll(PartlyRestricted(h, ks, i).keys, h.keys[i])
  {
    SelectStepSeq(h.keys, ks, i);
  }

  lemma SelectStepSeq<T(!new)>(s: seq<T>, ks: set<T>, i: int)
    requires Distinct(s) && 0 <= i < |s|
    ensures Select(s[..i + 1], ks) + s[i + 1..]
         == if s[i] in ks then Select(s[..i], ks) + s[i..] else RemoveAll(Select(s[..i], ks) + s[i..], s[i])
  {
    if s[i] in ks {
      KeepMiddle(s, ks, i);
    } else {
      SelectPrefixSnoc(s, ks, i);
      DropMiddle(s, ks, i);
    }
  }

  lemma KeepMiddle<T>(s: seq<T>, ks: set<T>, i: int)
    requires 0 <= i < |s| && s[i] in ks
    ensures Select(s[..i + 1], ks) + s[i + 1..] == Select(s[..i], ks) + s[i..]
  {
    SelectPrefixSnoc(s, ks, i);
    var sel := Select(s[..i], ks);
    assert s[i..] == [s[i]] + s[i + 1..];
    assert (sel + [s[i]]) + s[i + 1..] == sel + ([s[i]] + s[i + 1..]);
  }

  /** Adding an element to the end: kept when it is new, dropped otherwise. */
  lemma UniqSnoc<T(!new)>(s: seq<T>, x: T)
    ensures Uniq(s + [x]) == if x in Uniq(s) then Uniq(s) else Uniq(s) + [x]
  {
    assert (s + [x])[..|s|] == s;
  }

  lemma SelectPrefixSnoc<T>(s: seq<T>, ks: set<T>, i: int)
    requires 0 <= i < |s|
    ensures Select(s[..i + 1], ks) == Select(s[..i], ks) + (if s[i] in ks then [s[i]] else [])
  {
    assert s[..i + 1][..i] == s[..i];
  }

  lemma DropMiddle<T(!new)>(s: seq<T>, ks: set<T>, i: int)
    requires Distinct(s) && 0 <= i < |s|
    ensures RemoveAll(Select(s[..i], ks) + s[i..], s[i]) == Select(s[..i], ks) + s[i + 1..]
  {
    var sel := Select(s[..i], ks);
    DistinctFresh(s, i);
    SelectCount(s[..i], ks, s[i]);
    DistinctLater(s, i);
    RemoveAllMiddle(sel, s[i], s[i + 1..]);
    assert sel + [s[i]] + s[i + 1..] == sel + s[i..];
  }

  lemma RestrictStepTable<K(!new), V>(h: OHash<K, V>, ks: set<K>, i: int)
    requires h.Valid() && 0 <= i < |h.keys|
    ensures PartlyRestricted(h, ks, i + 1).table
         == if h.keys[i] in ks then PartlyRestricted(h, ks, i).table else PartlyRestricted(h, ks, i).table - {h.keys[i]}
  {
    var k := h.keys[i];
    assert h.keys[i..] == [k] + h.keys[i + 1..];
    DistinctLater(h.keys, i);
  }

  /** An element is gathered exactly when one of the visited keys holds it. */
  lemma {:induction false} GatherMember<K(!new), V>(t: map<K, seq<V>>, ks: seq<K>, x: V)
    ensures x in Gather(t, ks) <==> exists k :: k in ks && k in t && x in t[k]
  {
    if ks != [] {
      GatherMember(t, ks[1..], x);
      assert ks == [ks[0]] + ks[1..];
    }
  }

  /** A permutation of a duplicate-free sequence is duplicate-free. */
  lemma DistinctPermutation<T(!new)>(a: seq<T>, b: seq<T>)
    requires Distinct(a) && multiset(a) == multiset(b)
    ensures Distinct(b)
  {
  }

  lemma {:induction false} RemoveAllAppend<T(!new)>(a: seq<T>, b: seq<T>, x: T)
    ensures RemoveAll(a + b, x) == RemoveAll(a, x) + RemoveAll(b, x)
  {
    if a == [] {
      assert a + b == b;
    } else {
      assert (a + b)[1..] == a[1..] + b;
      RemoveAllAppend(a[1..], b, x);
    }
  }

  /** Selecting by a set that holds every element keeps everything. */
  lemma {:induction false} SelectAll<T>(s: seq<T>, ks: set<T>)
    requires forall x :: x in s ==> x in ks
    ensures Select(s, ks) == s
  {
    if s != [] {
      SelectAll(s[..|s| - 1], ks);
      assert s == s[..|s| - 1] + [s[|s| - 1]];
    }
  }

  /** Deleting `x` from a selection selects by a set without `x`. */
  lemma {:induction false} SelectRemoveAll<T(!new)>(s: seq<T>, ks: set<T>, x: T)
    ensures RemoveAll(Select(s, ks), x) == Select(s, ks - {x})
  {
    if s != [] {
      var init, last := s[..|s| - 1], s[|s| - 1];
      SelectRemoveAll(init, ks, x);
      RemoveAllAppend(Select(init, ks), if last in ks then [last] else [], x);
    }
  }

  /** Deleting a key from a restricted hash restricts it further. */
  lemma RestrictDelete<K(!new), V>(h: OHash<K, V>, ks: set<K>, k: K)
    requires h.Valid()
    ensures Restrict(h, ks).Valid()
    ensures Restrict(h, ks).Delete(k) == Restrict(h, ks - {k})
  {
    RestrictValid(h, ks);
    SelectRemoveAll(h.keys, ks, k);
  }

  /** Mutable box: a Ruby array or hash that a method changes in place, visible to its caller. */
  class Cell<T> {
    var value: T

    constructor (v: T)
      ensures value == v
    {
      value := v;
    }
  }
}
