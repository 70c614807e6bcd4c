/**
 * lib/fragments.rb, `split` and `arrange`: the bisection that lays the ratio
 * buckets out as a bell-shaped permutation of the fragments.
 */
module Arrangement {
  import opened Collections
  import Stuff
  import opened Fragments

  /** The state `split` threads through `arrange`: both sides, the keys still to place, the side toggle. */
  datatype Bisection = Bisection(left: seq<Chunk<FragId>>, right: seq<Chunk<FragId>>, keys: seq<real>, side: int)

  /** Everything placed on either side, as a multiset of fragments. */
  ghost function Placed(b: Bisection): multiset<FragId> {
    multiset(Flat(b.left)) + multiset(Flat(b.right))
  }

  /** `input_frags[frag][:hm]`; a fragment without a record reads as 0 (the model's callers never ask for one). */
  function HmOf(frags: map<FragId, Detail>, f: FragId): real {
    if f in frags then frags[f].hm else 0.0
  }

  /** The pairs (fragment, `:hm`) of a bucket, in bucket order. */
  function HmPairs(contigs: seq<FragId>, frags: map<FragId, Detail>): (ps: seq<(FragId, real)>)
    ensures |ps| == |contigs|
  {
    if contigs == [] then []
    else
      var f := contigs[|contigs| - 1];
      HmPairs(contigs[..|contigs| - 1], frags) + [(f, HmOf(frags, f))]
  }

  lemma {:induction false} HmPairsKeys(contigs: seq<FragId>, frags: map<FragId, Detail>)
    ensures Firsts(HmPairs(contigs, frags)) == contigs
  {
    if contigs != [] {
      var init := contigs[..|contigs| - 1];
      HmPairsKeys(init, frags);
      assert HmPairs(contigs, frags)[..|contigs| - 1] == HmPairs(init, frags);
      assert contigs == init + [contigs[|contigs| - 1]];
    }
  }

  /** The fragments of a group that are halved: all of an even group, all but the first of an odd one. */
  function Rest(g: seq<FragId>): (rest: seq<FragId>)
    ensures |g| % 2 == 1 ==> g == [g[0]] + rest
    ensures |g| % 2 == 0 ==> g == rest
  {
    if |g| % 2 == 1 then g[1..] else g
  }

  /** An odd group sends its first fragment to the side named by the toggle. */
  function PlaceFirst(b: Bisection, g: seq<FragId>): Bisection {
    if |g| % 2 == 0 then b
    else if b.side == 0 then b.(left := b.left + [Single(g[0])])
    else b.(right := b.right + [Single(g[0])])
  }

  /** The rest is halved: first half to the left, second half to the right, each as one nested group. */
  function PlaceHalves(b: Bisection, rest: seq<FragId>): Bisection {
    if rest == [] then b
    else b.(left := b.left + [Group(rest[..|rest| / 2])], right := b.right + [Group(rest[|rest| / 2..])])
  }

  /**
   * One `:hm` group placed: the odd fragment first, then the two halves;
   * then the toggle flips. (For an odd group `|rest| / 2` is `|g| / 2`.)
   */
  function PlaceGroup(b: Bisection, g: seq<FragId>): (r: Bisection)
    ensures r.keys == b.keys && r.side == Abs(b.side - 1)
  {
    PlaceHalves(PlaceFirst(b, g), Rest(g)).(side := Abs(b.side - 1))
  }

  /** Appending one chunk to a side adds its items to what is placed. */
  lemma PlacedAppendLeft(b: Bisection, c: Chunk<FragId>)
    ensures Placed(b.(left := b.left + [c])) == Placed(b) + multiset(Items(c))
  {
    FlatAppend(b.left, [c]);
    assert Flat([c]) == Items(c);
  }

  lemma PlacedAppendRight(b: Bisection, c: Chunk<FragId>)
    ensures Placed(b.(right := b.right + [c])) == Placed(b) + multiset(Items(c))
  {
    FlatAppend(b.right, [c]);
    assert Flat([c]) == Items(c);
  }

  lemma PlaceFirstConserves(b: Bisection, g: seq<FragId>)
    ensures Placed(PlaceFirst(b, g)) + multiset(Rest(g)) == Placed(b) + multiset(g)
  {
    if |g| % 2 == 1 {
      if b.side == 0 { PlacedAppendLeft(b, Single(g[0])); } else { PlacedAppendRight(b, Single(g[0])); }
    }
  }

  lemma PlaceHalvesConserves(b: Bisection, rest: seq<FragId>)
    ensures Placed(PlaceHalves(b, rest)) == Placed(b) + multiset(rest)
  {
    if rest != [] {
      var half := |rest| / 2;
      var b1 := b.(left := b.left + [Group(rest[..half])]);
      PlacedAppendLeft(b, Group(rest[..half]));
      PlacedAppendRight(b1, Group(rest[half..]));
      assert rest == rest[..half] + rest[half..];
      assert PlaceHalves(b, rest) == b1.(right := b1.right + [Group(rest[half..])]);
    }
  }

  /** Placing a group places each of its fragments exactly once. */
  lemma PlaceGroupConserves(b: Bisection, g: seq<FragId>)
    ensures Placed(PlaceGroup(b, g)) == Placed(b) + multiset(g)
  {
    var b1 := PlaceFirst(b, g);
    PlaceFirstConserves(b, g);
    PlaceHalvesConserves(b1, Rest(g));
    assert Placed(PlaceGroup(b, g)) == Placed(PlaceHalves(b1, Rest(g)));
  }

  /** Multiset bookkeeping kept apart from the definitions it is about. */
  lemma Regroup<T>(p1: multiset<T>, p0: multiset<T>, pb: multiset<T>, gi: multiset<T>, gk: multiset<T>)
    requires p1 == p0 + gk && p0 == pb + gi
    ensures p1 == pb + (gi + gk)
  {
  }

  /** The group stored under `k`, none when there is none. */
  function GroupAt(t: map<real, seq<FragId>>, k: real): seq<FragId> {
    if k in t then t[k] else []
  }

  /** The `:hm` groups placed one after another, in the order of `ks`. */
  function PlaceGroups(b: Bisection, t: map<real, seq<FragId>>, ks: seq<real>): (r: Bisection)
    ensures r.keys == b.keys
  {
    if ks == [] then b
    else PlaceGroup(PlaceGroups(b, t, ks[..|ks| - 1]), GroupAt(t, ks[|ks| - 1]))
  }

  /** The groups of all keys but the last, then the group of the last. */
  lemma GatherLast(t: map<real, seq<FragId>>, ks: seq<real>)
    requires ks != []
    ensures Gather(t, ks) == Gather(t, ks[..|ks| - 1]) + GroupAt(t, ks[|ks| - 1])
  {
    var k := ks[|ks| - 1];
    assert ks == ks[..|ks| - 1] + [k];
    GatherAppend(t, ks[..|ks| - 1], [k]);
    assert [k][1..] == [];
  }

  /** Placing the groups of `ks` places every fragment they hold exactly once. */
  lemma {:induction false} PlaceGroupsConserves(b: Bisection, t: map<real, seq<FragId>>, ks: seq<real>)
    ensures Placed(PlaceGroups(b, t, ks)) == Placed(b) + multiset(Gather(t, ks))
  {
    if ks != [] {
      var init := ks[..|ks| - 1];
      var g := GroupAt(t, ks[|ks| - 1]);
      var p := PlaceGroups(b, t, init);
      PlaceGroupsConserves(b, t, init);
      GatherLast(t, ks);
      PlaceGroupConserves(p, g);
      Regroup(Placed(PlaceGroup(p, g)), Placed(p), Placed(b), multiset(Gather(t, init)), multiset(g));
    }
  }

  /** Every remaining key has a bucket, and every bucketed fragment has a record. */
  ghost predicate Ready(buckets: OHash<real, seq<FragId>>, frags: map<FragId, Detail>, keys: seq<real>) {
    Distinct(keys) &&
    (forall k :: k in keys ==> k in buckets.table) &&
    (forall k, f :: k in keys && f in buckets.table[k] ==> f in frags)
  }

  /** Distinct keys drawn from ready ones are ready. */
  lemma ReadySubset(buckets: OHash<real, seq<FragId>>, frags: map<FragId, Detail>, keys: seq<real>, sub: seq<real>)
    requires Ready(buckets, frags, keys) && Distinct(sub)
    requires forall k :: k in sub ==> k in keys
    ensures Ready(buckets, frags, sub)
  {
  }

  /** `ratios_hash.values_at(k).flatten`: the bucket of `k`, none when there is none. */
  function BucketAt(buckets: OHash<real, seq<FragId>>, k: real): seq<FragId> {
    if k in buckets.table then buckets.table[k] else []
  }

  /** The `:hm` sub-buckets of the bucket of `m`. */
  function HmGroups(buckets: OHash<real, seq<FragId>>, frags: map<FragId, Detail>, m: real): (g: OHash<real, seq<FragId>>)
    ensures g.Valid()
  {
    Stuff.SafeInvert(HmPairs(BucketAt(buckets, m), frags))
  }

  /**
   * `split`: take the bucket of the minimum remaining key, place its `:hm`
   * groups in ascending `:hm` order, and delete that key. (With no key left
   * the state stays as it is; `arrange` never asks for that.)
   */
  function SplitStep(buckets: OHash<real, seq<FragId>>, frags: map<FragId, Detail>, b: Bisection): Bisection {
    if b.keys == [] then b
    else
      var m := MinOf(b.keys);
      var groups := HmGroups(buckets, frags, m);
      PlaceGroups(b, groups.table, SortReals(groups.keys)).(keys := RemoveAll(b.keys, m))
  }

  /** A split deletes exactly the minimum key: one key fewer, all keys left strictly larger. */
  lemma SplitTakesMinimum(buckets: OHash<real, seq<FragId>>, frags: map<FragId, Detail>, b: Bisection)
    requires b.keys != [] && Distinct(b.keys)
    ensures MinOf(b.keys) !in SplitStep(buckets, frags, b).keys
    ensures |SplitStep(buckets, frags, b).keys| == |b.keys| - 1 && Distinct(SplitStep(buckets, frags, b).keys)
    ensures forall k :: k in SplitStep(buckets, frags, b).keys <==> k in b.keys && k > MinOf(b.keys)
  {
    RemoveOnce(b.keys, MinOf(b.keys));
    RemoveAllDistinct(b.keys, MinOf(b.keys));
  }

  /** A split places exactly the fragments of the minimum-key bucket. */
  lemma {:induction false} SplitConserves(buckets: OHash<real, seq<FragId>>, frags: map<FragId, Detail>, b: Bisection)
    requires b.keys != [] && Ready(buckets, frags, b.keys)
    ensures Placed(SplitStep(buckets, frags, b)) == Placed(b) + multiset(buckets.table[MinOf(b.keys)])
  {
    var contigs := BucketAt(buckets, MinOf(b.keys));
    var pairs := HmPairs(contigs, frags);
    var groups := HmGroups(buckets, frags, MinOf(b.keys));
    var order := SortReals(groups.keys);
    SortRealsPermutes(groups.keys);
    DistinctPermutation(groups.keys, order);
    GatherPermutation(groups.table, groups.keys, order);
    PlaceGroupsConserves(b, groups.table, order);
    Stuff.SafeInvertConserves(pairs);
    HmPairsKeys(contigs, frags);
  }

  /** `split` applied `n` times from `b`. */
  function SplitTimes(buckets: OHash<real, seq<FragId>>, frags: map<FragId, Detail>, b: Bisection, n: nat): Bisection
    decreases n
  {
    if n == 0 then b else SplitTimes(buckets, frags, SplitStep(buckets, frags, b), n - 1)
  }

  /** The split after the first `n` is the `m`-th. */
  lemma {:induction false} SplitTimesUnfold(buckets: OHash<real, seq<FragId>>, frags: map<FragId, Detail>, b: Bisection, n: nat, m: nat)
    requires m == n + 1
    ensures SplitTimes(buckets, frags, b, m) == SplitStep(buckets, frags, SplitTimes(buckets, frags, b, n))
    decreases n
  {
    if n > 0 {
      SplitTimesUnfold(buckets, frags, SplitStep(buckets, frags, b), n - 1, m - 1);
    }
  }

  /** A split of ready keys leaves one key fewer, all of them ready. */
  lemma SplitReady(buckets: OHash<real, seq<FragId>>, frags: map<FragId, Detail>, b: Bisection)
    requires b.keys != [] && Ready(buckets, frags, b.keys)
    ensures |SplitStep(buckets, frags, b).keys| == |b.keys| - 1
    ensures Ready(buckets, frags, SplitStep(buckets, frags, b).keys)
  {
    SplitTakesMinimum(buckets, frags, b);
    ReadySubset(buckets, frags, b.keys, SplitStep(buckets, frags, b).keys);
  }

  /** After `n` splits of ready keys, `n` keys fewer are left and they are ready. */
  lemma {:induction false} SplitTimesReady(buckets: OHash<real, seq<FragId>>, frags: map<FragId, Detail>, b: Bisection, n: nat)
    requires Ready(buckets, frags, b.keys) && n <= |b.keys|
    ensures |SplitTimes(buckets, frags, b, n).keys| == |b.keys| - n
    ensures Ready(buckets, frags, SplitTimes(buckets, frags, b, n).keys)
  {
    SplitTimesLeft(buckets, frags, b, n);
    SplitTimesStillReady(buckets, frags, b, n);
  }

  lemma {:induction false} SplitTimesLeft(buckets: OHash<real, seq<FragId>>, frags: map<FragId, Detail>, b: Bisection, n: nat)
    requires Ready(buckets, frags, b.keys) && n <= |b.keys|
    ensures |SplitTimes(buckets, frags, b, n).keys| == |b.keys| - n
    decreases n
  {
    if n > 0 {
      SplitReady(buckets, frags, b);
      SplitTimesLeft(buckets, frags, SplitStep(buckets, frags, b), n - 1);
    }
  }

  lemma {:induction false} SplitTimesStillReady(buckets: OHash<real, seq<FragId>>, frags: map<FragId, Detail>, b: Bisection, n: nat)
    requires Ready(buckets, frags, b.keys) && n <= |b.keys|
    ensures Ready(buckets, frags, SplitTimes(buckets, frags, b, n).keys)
    decreases n
  {
    if n > 0 {
      SplitReady(buckets, frags, b);
      SplitTimesStillReady(buckets, frags, SplitStep(buckets, frags, b), n - 1);
    }
  }

  /** The state `arrange` starts from: empty sides, the hash's keys, toggle 0. */
  function Start(buckets: OHash<real, seq<FragId>>): Bisection {
    Bisection([], [], buckets.keys, 0)
  }

  /**
   * The end of `arrange`: `left.flatten!` followed by `(right.flatten!).reverse!`.
   * `flatten!` answers `nil` when it changes nothing, so a right side with no
   * nested group makes `reverse!` raise.
   */
  function Outcome(b: Bisection): Result<seq<FragId>> {
    if !HasGroup(b.right) then Raises("NoMethodError: undefined method `reverse!' for nil")
    else Ok(Flat(b.left) + Reverse(Flat(b.right)))
  }

  /** The end of `arrange` as its comments describe it: both sides flattened, the right one reversed behind the left. */
  function OutcomeFixed(b: Bisection): seq<FragId> {
    Flat(b.left) + Reverse(Flat(b.right))
  }

  /** One more fragment of the bucket read: its pair is appended. */
  lemma HmPairsSnoc(contigs: seq<FragId>, frags: map<FragId, Detail>, i: int)
    requires 0 <= i < |contigs|
    ensures HmPairs(contigs[..i + 1], frags) == HmPairs(contigs[..i], frags) + [(contigs[i], HmOf(frags, contigs[i]))]
  {
    assert contigs[..i + 1][..i] == contigs[..i];
  }

  /** One more pair inverted: its key is appended to the bucket of its value, or opens a new bucket. */
  lemma SafeInvertSnoc(pairs: seq<(FragId, real)>, f: FragId, hm: real)
    ensures var out := Stuff.SafeInvert(pairs);
            hm in out.table ==> Stuff.SafeInvert(pairs + [(f, hm)]) == out.Store(hm, out.table[hm] + [f])
    ensures var out := Stuff.SafeInvert(pairs);
            hm !in out.table ==> Stuff.SafeInvert(pairs + [(f, hm)]) == out.Store(hm, [f])
  {
    assert (pairs + [(f, hm)])[..|pairs|] == pairs;
    assert [] + [f] == [f];
  }

  /** One more group placed. */
  lemma PlaceGroupsSnoc(b: Bisection, t: map<real, seq<FragId>>, ks: seq<real>, j: int)
    requires 0 <= j < |ks|
    ensures PlaceGroups(b, t, ks[..j + 1]) == PlaceGroup(PlaceGroups(b, t, ks[..j]), GroupAt(t, ks[j]))
  {
    assert ks[..j + 1][..j] == ks[..j];
  }

  /** The first loop of `split`: the bucket's fragments grouped by their `:hm` count. */
  method GroupByHm(contigs: seq<FragId>, frags: map<FragId, Detail>) returns (hmnum: OHash<real, seq<FragId>>)
    requires forall f :: f in contigs ==> f in frags
    ensures hmnum == Stuff.SafeInvert(HmPairs(contigs, frags))
  {
    hmnum := Empty();
    var i := 0;
    while i < |contigs|
      invariant 0 <= i <= |contigs|
      invariant hmnum == Stuff.SafeInvert(HmPairs(contigs[..i], frags))
    {
      var frag := contigs[i];
      var hm := frags[frag].hm;
      HmPairsSnoc(contigs, frags, i);
      SafeInvertSnoc(HmPairs(contigs[..i], frags), frag, hm);
      if hm in hmnum.table {
        hmnum := hmnum.Store(hm, hmnum.table[hm] + [frag]);
      } else {
        hmnum := hmnum.Store(hm, [frag]);
      }
      i := i + 1;
    }
    assert contigs[..i] == contigs;
  }

  /** The body of the second loop of `split`: one `:hm` group placed on the two sides. */
  method PlaceOne(left: seq<Chunk<FragId>>, right: seq<Chunk<FragId>>, rightOrLeft: int, group: seq<FragId>, ghost keys: seq<real>)
    returns (left': seq<Chunk<FragId>>, right': seq<Chunk<FragId>>, rightOrLeft': int)
    ensures Bisection(left', right', keys, rightOrLeft') == PlaceGroup(Bisection(left, right, keys, rightOrLeft), group)
  {
    left', right' := left, right;
    var rest := group;
    var numFrags := |group|;
    var half := numFrags / 2;
    if numFrags % 2 == 1 {
      var oneElement := rest[0];
      rest := rest[1..];
      if rightOrLeft == 0 {
        left' := left' + [Single(oneElement)];
      } else {
        right' := right' + [Single(oneElement)];
      }
    }
    assert rest == Rest(group) && half == |rest| / 2;
    if rest != [] {
      left' := left' + [Group(rest[..half])];
      right' := right' + [Group(rest[half..])];
    }
    rightOrLeft' := Abs(rightOrLeft - 1);
  }

  /**
   * `split`: the arrays it appends to and deletes from are also returned
   * (`[left, right, ratio_keys, right_or_left]`), and `arrange` rebinds its
   * variables to them, so they are passed and returned as values here.
   */
  method Split(buckets: OHash<real, seq<FragId>>, left: seq<Chunk<FragId>>, right: seq<Chunk<FragId>>,
               ratioKeys: seq<real>, frags: map<FragId, Detail>, rightOrLeft: int)
    returns (left': seq<Chunk<FragId>>, right': seq<Chunk<FragId>>, ratioKeys': seq<real>, rightOrLeft': int)
    requires ratioKeys != [] && Ready(buckets, frags, ratioKeys)
    ensures Bisection(left', right', ratioKeys', rightOrLeft')
         == SplitStep(buckets, frags, Bisection(left, right, ratioKeys, rightOrLeft))
  {
    ghost var start := Bisection(left, right, ratioKeys, rightOrLeft);
    var minimum := MinOf(ratioKeys);
    var hmnum := GroupByHm(buckets.table[minimum], frags);
    var order := SortReals(hmnum.keys);
    left', right', rightOrLeft' := left, right, rightOrLeft;
    var j := 0;
    assert order[..0] == [];
    while j < |order|
      invariant 0 <= j <= |order|
      invariant Bisection(left', right', ratioKeys, rightOrLeft') == PlaceGroups(start, hmnum.table, order[..j])
    {
      PlaceGroupsSnoc(start, hmnum.table, order, j);
      left', right', rightOrLeft' := PlaceOne(left', right', rightOrLeft', hmnum.table[order[j]], ratioKeys);
      j := j + 1;
    }
    assert order[..j] == order;
    ratioKeys' := RemoveAll(ratioKeys, minimum);
  }

  /** One pass of the `iterations.times` block: a split, and a second one while keys remain. */
  function RoundStep(buckets: OHash<real, seq<FragId>>, frags: map<FragId, Detail>, b: Bisection): Bisection {
    var b1 := SplitStep(buckets, frags, b);
    if |b1.keys| >= 1 then SplitStep(buckets, frags, b1) else b1
  }

  /** The number of splits done after one more pass, starting from `n` of `k` keys split. */
  function RoundCalls(n: nat, k: nat): nat {
    if n + 2 <= k then n + 2 else n + 1
  }

  /** A pass from the state after `n < k` splits performs two more splits, or the one that is left. */
  lemma RoundStepSplitTimes(buckets: OHash<real, seq<FragId>>, frags: map<FragId, Detail>, b: Bisection, n: nat, m: nat)
    requires m == n + 1 && m <= |b.keys|
    requires |SplitTimes(buckets, frags, b, m).keys| == |b.keys| - m
    ensures RoundStep(buckets, frags, SplitTimes(buckets, frags, b, n))
         == SplitTimes(buckets, frags, b, RoundCalls(n, |b.keys|))
  {
    var c := RoundCalls(n, |b.keys|);
    SplitTimesUnfold(buckets, frags, b, n, m);
    if m < |b.keys| {
      assert c == m + 1;
      SplitTimesUnfold(buckets, frags, b, m, c);
    } else {
      assert c == m;
    }
  }

  lemma RoundReady(buckets: OHash<real, seq<FragId>>, frags: map<FragId, Detail>, n: nat)
    requires Ready(buckets, frags, buckets.keys) && n < |buckets.keys|
    ensures SplitTimes(buckets, frags, Start(buckets), n).keys != []
    ensures Ready(buckets, frags, SplitTimes(buckets, frags, Start(buckets), n).keys)
    ensures RoundStep(buckets, frags, SplitTimes(buckets, frags, Start(buckets), n))
         == SplitTimes(buckets, frags, Start(buckets), RoundCalls(n, |buckets.keys|))
  {
    ghost var next := n + 1;
    SplitTimesReady(buckets, frags, Start(buckets), n);
    SplitTimesReady(buckets, frags, Start(buckets), next);
    RoundStepSplitTimes(buckets, frags, Start(buckets), n, next);
  }

  /** The body of the `iterations.times` block. */
  method Round(buckets: OHash<real, seq<FragId>>, frags: map<FragId, Detail>,
               left: seq<Chunk<FragId>>, right: seq<Chunk<FragId>>, ratioKeys: seq<real>, rightOrLeft: int)
    returns (left': seq<Chunk<FragId>>, right': seq<Chunk<FragId>>, ratioKeys': seq<real>, rightOrLeft': int)
    requires ratioKeys != [] && Ready(buckets, frags, ratioKeys)
    ensures Bisection(left', right', ratioKeys', rightOrLeft')
         == RoundStep(buckets, frags, Bisection(left, right, ratioKeys, rightOrLeft))
  {
    ghost var b := Bisection(left, right, ratioKeys, rightOrLeft);
    left', right', ratioKeys', rightOrLeft' := Split(buckets, left, right, ratioKeys, frags, rightOrLeft);
    SplitReady(buckets, frags, b);
    if |ratioKeys'| >= 1 {
      left', right', ratioKeys', rightOrLeft' := Split(buckets, left', right', ratioKeys', frags, rightOrLeft');
    }
  }

  /** Bookkeeping of the pass counter: `iterations` passes of two splits perform exactly `k` splits. */
  lemma PassCount(k: nat, it: nat, calls: nat)
    requires it < (k + 1) / 2 && calls == if 2 * it <= k then 2 * it else k
    ensures calls < k
    ensures RoundCalls(calls, k) == if 2 * (it + 1) <= k then 2 * (it + 1) else k
    ensures it + 1 == (k + 1) / 2 ==> RoundCalls(calls, k) == k
  {
  }

  /**
   * The loop of `arrange`: `round(n/2)` rounds of one split and a second one
   * while keys remain, so exactly one split per key.
   */
  method Bisect(buckets: OHash<real, seq<FragId>>, frags: map<FragId, Detail>)
    returns (left: seq<Chunk<FragId>>, right: seq<Chunk<FragId>>, ratioKeys: seq<real>, rightOrLeft: int)
    requires Ready(buckets, frags, buckets.keys)
    ensures Bisection(left, right, ratioKeys, rightOrLeft) == SplitTimes(buckets, frags, Start(buckets), |buckets.keys|)
  {
    rightOrLeft := 0;
    left, right := [], [];
    ratioKeys := buckets.keys;
    var iterations := (|ratioKeys| + 1) / 2;
    var it := 0;
    ghost var calls: nat := 0;
    while it < iterations
      invariant 0 <= it <= iterations
      invariant it == iterations ==> calls == |buckets.keys|
      invariant calls == if 2 * it <= |buckets.keys| then 2 * it else |buckets.keys|
      invariant Bisection(left, right, ratioKeys, rightOrLeft) == SplitTimes(buckets, frags, Start(buckets), calls)
    {
      PassCount(|buckets.keys|, it, calls);
      RoundReady(buckets, frags, calls);
      left, right, ratioKeys, rightOrLeft := Round(buckets, frags, left, right, ratioKeys, rightOrLeft);
      calls := RoundCalls(calls, |buckets.keys|);
      it := it + 1;
    }
  }

  /** `arrange`: the bisection, then the sides flattened and the right side reversed behind the left. */
  method Arrange(buckets: OHash<real, seq<FragId>>, frags: map<FragId, Detail>) returns (perm: Result<seq<FragId>>)
    requires Ready(buckets, frags, buckets.keys)
    ensures perm == Outcome(SplitTimes(buckets, frags, Start(buckets), |buckets.keys|))
  {
    var left, right, _, _ := Bisect(buckets, frags);
    if !HasGroup(right) {
      perm := Raises("NoMethodError: undefined method `reverse!' for nil");
    } else {
      perm := Ok(Flat(left) + Reverse(Flat(right)));
    }
  }

  /** Multiset bookkeeping for one split: what leaves the buckets is what gets placed. */
  lemma Exchange<T>(pn: multiset<T>, pp: multiset<T>, gn: multiset<T>, gp: multiset<T>, x: multiset<T>)
    requires pn == pp + x && gp == x + gn
    ensures pn + gn == pp + gp
  {
  }

  /** The fragments placed in `r` together with those still bucketed under its keys. */
  ghost function Pool(buckets: OHash<real, seq<FragId>>, r: Bisection): multiset<FragId> {
    Placed(r) + multiset(Gather(buckets.table, r.keys))
  }

  /** A split moves the fragments of one bucket onto the sides and loses none. */
  lemma ConservedStep(buckets: OHash<real, seq<FragId>>, frags: map<FragId, Detail>, prev: Bisection, next: Bisection)
    requires |prev.keys| > 0 && Ready(buckets, frags, prev.keys)
    requires next == SplitStep(buckets, frags, prev)
    ensures Pool(buckets, next) == Pool(buckets, prev)
  {
    var m := MinOf(prev.keys);
    SplitConserves(buckets, frags, prev);
    GatherRemove(buckets.table, prev.keys, m);
    Exchange(Placed(next), Placed(prev), multiset(Gather(buckets.table, next.keys)),
             multiset(Gather(buckets.table, prev.keys)), multiset(buckets.table[m]));
  }

  /** Repeated splits keep every fragment: placed ones plus those still in buckets are always the whole input. */
  lemma {:induction false} SplitTimesConserves(buckets: OHash<real, seq<FragId>>, frags: map<FragId, Detail>, b: Bisection, n: nat)
    requires n <= |b.keys| && Ready(buckets, frags, b.keys)
    ensures Pool(buckets, SplitTimes(buckets, frags, b, n)) == Pool(buckets, b)
    decreases n
  {
    if n > 0 {
      var next := SplitStep(buckets, frags, b);
      ConservedStep(buckets, frags, b, next);
      SplitReady(buckets, frags, b);
      SplitTimesConserves(buckets, frags, next, n - 1);
    }
  }

  /** Once no key is left, the outcome holds exactly what was bucketed at the start. */
  lemma OutcomeConserves(buckets: OHash<real, seq<FragId>>, r: Bisection)
    requires r.keys == [] && Pool(buckets, r) == Pool(buckets, Start(buckets))
    ensures Outcome(r).Ok? ==> multiset(Outcome(r).value) == multiset(Gather(buckets.table, buckets.keys))
  {
    var total := multiset(Gather(buckets.table, buckets.keys));
    assert Pool(buckets, Start(buckets)) == total;
    assert Pool(buckets, r) == Placed(r);
    ReverseMultiset(Flat(r.right));
    assert multiset(Flat(r.left) + Reverse(Flat(r.right))) == Placed(r);
  }

  /** Whenever `arrange` returns, its permutation holds every bucketed fragment exactly as often as the buckets do. */
  lemma ArrangeConserves(buckets: OHash<real, seq<FragId>>, frags: map<FragId, Detail>)
    requires Ready(buckets, frags, buckets.keys)
    ensures var perm := Outcome(SplitTimes(buckets, frags, Start(buckets), |buckets.keys|));
            perm.Ok? ==> multiset(perm.value) == multiset(Gather(buckets.table, buckets.keys))
  {
    SplitTimesConserves(buckets, frags, Start(buckets), |buckets.keys|);
    SplitTimesReady(buckets, frags, Start(buckets), |buckets.keys|);
    OutcomeConserves(buckets, SplitTimes(buckets, frags, Start(buckets), |buckets.keys|));
  }

  /** With the intended `flatten`, `arrange` never fails and always returns every bucketed fragment. */
  lemma ArrangeFixedConserves(buckets: OHash<real, seq<FragId>>, frags: map<FragId, Detail>)
    requires Ready(buckets, frags, buckets.keys)
    ensures multiset(OutcomeFixed(SplitTimes(buckets, frags, Start(buckets), |buckets.keys|)))
         == multiset(Gather(buckets.table, buckets.keys))
  {
    var r := SplitTimes(buckets, frags, Start(buckets), |buckets.keys|);
    SplitTimesConserves(buckets, frags, Start(buckets), |buckets.keys|);
    SplitTimesReady(buckets, frags, Start(buckets), |buckets.keys|);
    assert Pool(buckets, r) == Placed(r);
    ReverseMultiset(Flat(r.right));
  }

  /** A record whose only field that matters to `split` is `:hm`. */
  function WithHm(hm: real): Detail {
    Detail(hm, 1.0, [], [], 0, 0.0, 0, None, None, None)
  }

  /**
   * A single bucket holding one fragment: the fragment goes to `left`,
   * `right` stays empty, and `right.flatten!` answers nil.
   */
  lemma SingletonRaises()
    ensures var buckets := OHash([1.0], map[1.0 := ["a"]]);
            var frags := map["a" := WithHm(1.0)];
            Outcome(SplitTimes(buckets, frags, Start(buckets), 1)).Raises?
            && OutcomeFixed(SplitTimes(buckets, frags, Start(buckets), 1)) == ["a"]
  {
    var buckets := OHash([1.0], map[1.0 := ["a"]]);
    var frags := map["a" := WithHm(1.0)];
    var b1 := Bisection([Single("a")], [], [], 1);
    assert HmPairs(["a"], frags) == [("a", 1.0)];
    assert SplitStep(buckets, frags, Start(buckets)) == b1;
    assert !HasGroup(b1.right);
  }

  /** A bucket whose fragments all share one `:hm` count is a single `:hm` group, in bucket order. */
  lemma UniformGroup(contigs: seq<FragId>, frags: map<FragId, Detail>, c: real)
    requires contigs != []
    requires forall f :: f in contigs ==> f in frags && frags[f].hm == c
    ensures Stuff.SafeInvert(HmPairs(contigs, frags)) == OHash([c], map[c := contigs])
  {
    var pairs := HmPairs(contigs, frags);
    HmPairsKeys(contigs, frags);
    forall i | 0 <= i < |pairs| ensures pairs[i].1 == c {
      HmPairsAt(contigs, frags, i);
    }
    Stuff.SafeInvertUniform(pairs, c);
  }

  lemma {:induction false} HmPairsAt(contigs: seq<FragId>, frags: map<FragId, Detail>, i: int)
    requires 0 <= i < |contigs|
    ensures HmPairs(contigs, frags)[i] == (contigs[i], HmOf(frags, contigs[i]))
  {
    var init := contigs[..|contigs| - 1];
    if i < |init| {
      HmPairsAt(init, frags, i);
    }
  }

  /** A split whose minimum bucket has one `:hm` count throughout places that bucket as one group. */
  lemma UniformSplit(buckets: OHash<real, seq<FragId>>, frags: map<FragId, Detail>, b: Bisection, c: real)
    requires b.keys != [] && BucketAt(buckets, MinOf(b.keys)) != []
    requires forall f :: f in BucketAt(buckets, MinOf(b.keys)) ==> f in frags && frags[f].hm == c
    ensures SplitStep(buckets, frags, b)
         == PlaceGroup(b, BucketAt(buckets, MinOf(b.keys))).(keys := RemoveAll(b.keys, MinOf(b.keys)))
  {
    var contigs := BucketAt(buckets, MinOf(b.keys));
    UniformGroup(contigs, frags, c);
    var groups := HmGroups(buckets, frags, MinOf(b.keys));
    assert groups == OHash([c], map[c := contigs]);
    assert SortReals(groups.keys) == [c];
    assert PlaceGroups(b, groups.table, [c]) == PlaceGroup(b, contigs);
  }

  /**
   * The buckets of the worked example: ratios `ra`, `rb`, `rc` hold one
   * fragment each and the lowest ratio `rd` holds seven. (The unit test uses
   * 11.374979, 11.842904, 10.120768 and 5.022447.)
   */
  function ExampleBuckets(ra: real, rb: real, rc: real, rd: real): OHash<real, seq<FragId>> {
    OHash([ra, rb, rc, rd], map[ra := ["a"], rb := ["b"], rc := ["c"], rd := ["d", "e", "f", "g", "h", "i", "j"]])
  }

  /** The fragments of the worked example. */
  function ExampleIds(): seq<FragId> {
    ["a", "b", "c", "d", "e", "f", "g", "h", "i", "j"]
  }

  /** Every fragment of the worked example has a record, all with `:hm` equal to `c`. */
  predicate ExampleFrags(frags: map<FragId, Detail>, c: real) {
    forall f :: f in ExampleIds() ==> f in frags && frags[f].hm == c
  }

  /** A one-fragment group goes to the side the toggle names, and the toggle flips. */
  lemma PlaceSingle(b: Bisection, f: FragId)
    requires b.side == 0 || b.side == 1
    ensures PlaceGroup(b, [f]) == if b.side == 0 then b.(left := b.left + [Single(f)], side := 1)
                                  else b.(right := b.right + [Single(f)], side := 0)
  {
    assert Rest([f]) == [];
  }

  /** A split whose minimum bucket holds one fragment sends it to the side the toggle names. */
  lemma SingleSplit(buckets: OHash<real, seq<FragId>>, frags: map<FragId, Detail>, b: Bisection, f: FragId)
    requires b.keys != [] && BucketAt(buckets, MinOf(b.keys)) == [f] && f in frags
    requires b.side == 0 || b.side == 1
    ensures SplitStep(buckets, frags, b)
         == if b.side == 0 then Bisection(b.left + [Single(f)], b.right, RemoveAll(b.keys, MinOf(b.keys)), 1)
            else Bisection(b.left, b.right + [Single(f)], RemoveAll(b.keys, MinOf(b.keys)), 0)
  {
    UniformSplit(buckets, frags, b, frags[f].hm);
    PlaceSingle(b, f);
  }

  /** The placing half of the first split: `d` left, `e f g` left, `h i j` right. */
  lemma ExampleFirstPlace(ra: real, rb: real, rc: real, rd: real)
    requires rd < rc < ra < rb
    ensures PlaceGroup(Start(ExampleBuckets(ra, rb, rc, rd)), ["d", "e", "f", "g", "h", "i", "j"]).(keys := RemoveAll([ra, rb, rc, rd], rd))
         == Bisection([Single("d"), Group(["e", "f", "g"])], [Group(["h", "i", "j"])], [ra, rb, rc], 1)
  {
    ExampleSevenPlaced(Start(ExampleBuckets(ra, rb, rc, rd)));
    ExampleDropFourth(ra, rb, rc, rd);
  }

  /** Deleting the last of four distinct keys. */
  lemma ExampleDropFourth(ra: real, rb: real, rc: real, rd: real)
    requires rd !in [ra, rb, rc]
    ensures RemoveAll([ra, rb, rc, rd], rd) == [ra, rb, rc]
  {
    RemoveAllLast([ra, rb, rc], rd);
    assert [ra, rb, rc] + [rd] == [ra, rb, rc, rd];
  }

  /** The minimum of three keys is the last one, and deleting it leaves the other two. */
  lemma ExampleDropThird(ra: real, rb: real, rc: real)
    requires rc < ra && rc < rb
    ensures MinOf([ra, rb, rc]) == rc
    ensures RemoveAll([ra, rb, rc], rc) == [ra, rb]
  {
    MinOfIs([ra, rb, rc], rc);
    RemoveAllLast([ra, rb], rc);
    assert [ra, rb] + [rc] == [ra, rb, rc];
  }

  lemma ExampleSevenPlaced(b: Bisection)
    requires b.side == 0 && b.left == [] && b.right == []
    ensures PlaceGroup(b, ["d", "e", "f", "g", "h", "i", "j"])
         == b.(left := [Single("d"), Group(["e", "f", "g"])], right := [Group(["h", "i", "j"])], side := 1)
  {
    var g := ["d", "e", "f", "g", "h", "i", "j"];
    var rest := ["e", "f", "g", "h", "i", "j"];
    assert Rest(g) == rest;
    assert rest[..3] == ["e", "f", "g"] && rest[3..] == ["h", "i", "j"];
    assert PlaceFirst(b, g) == b.(left := [Single("d")]);
  }

  /** First split: `d` is the odd one out and goes left, the other six are halved. */
  lemma ExampleFirstSplit(frags: map<FragId, Detail>, c: real, ra: real, rb: real, rc: real, rd: real)
    requires ExampleFrags(frags, c) && rd < rc < ra < rb
    ensures SplitStep(ExampleBuckets(ra, rb, rc, rd), frags, Start(ExampleBuckets(ra, rb, rc, rd)))
         == Bisection([Single("d"), Group(["e", "f", "g"])], [Group(["h", "i", "j"])], [ra, rb, rc], 1)
  {
    var buckets := ExampleBuckets(ra, rb, rc, rd);
    MinOfIs(buckets.keys, rd);
    assert BucketAt(buckets, rd) == ExampleIds()[3..];
    UniformSplit(buckets, frags, Start(buckets), c);
    ExampleFirstPlace(ra, rb, rc, rd);
  }

  /** Second split: the toggle now sends `c` right. */
  lemma ExampleSecondSplit(frags: map<FragId, Detail>, c: real, ra: real, rb: real, rc: real, rd: real)
    requires ExampleFrags(frags, c) && rd < rc < ra < rb
    ensures SplitStep(ExampleBuckets(ra, rb, rc, rd), frags, Bisection([Single("d"), Group(["e", "f", "g"])], [Group(["h", "i", "j"])], [ra, rb, rc], 1))
         == Bisection([Single("d"), Group(["e", "f", "g"])], [Group(["h", "i", "j"]), Single("c")], [ra, rb], 0)
  {
    var buckets := ExampleBuckets(ra, rb, rc, rd);
    var b := Bisection([Single("d"), Group(["e", "f", "g"])], [Group(["h", "i", "j"])], [ra, rb, rc], 1);
    ExampleDropThird(ra, rb, rc);
    assert BucketAt(buckets, rc) == ["c"] && ExampleIds()[2] == "c";
    SingleSplit(buckets, frags, b, "c");
  }

  /** Third split: `a` goes left. */
  lemma ExampleThirdSplit(frags: map<FragId, Detail>, c: real, ra: real, rb: real, rc: real, rd: real)
    requires ExampleFrags(frags, c) && rd < rc < ra < rb
    ensures SplitStep(ExampleBuckets(ra, rb, rc, rd), frags, Bisection([Single("d"), Group(["e", "f", "g"])], [Group(["h", "i", "j"]), Single("c")], [ra, rb], 0))
         == Bisection([Single("d"), Group(["e", "f", "g"]), Single("a")], [Group(["h", "i", "j"]), Single("c")], [rb], 1)
  {
    var buckets := ExampleBuckets(ra, rb, rc, rd);
    var b := Bisection([Single("d"), Group(["e", "f", "g"])], [Group(["h", "i", "j"]), Single("c")], [ra, rb], 0);
    MinOfIs(b.keys, ra);
    assert BucketAt(buckets, ra) == ["a"] && ExampleIds()[0] == "a";
    SingleSplit(buckets, frags, b, "a");
    assert b.keys[1..] == [rb];
  }

  /** Fourth split: `b` goes right and no key is left. */
  lemma ExampleFourthSplit(frags: map<FragId, Detail>, c: real, ra: real, rb: real, rc: real, rd: real)
    requires ExampleFrags(frags, c) && rd < rc < ra < rb
    ensures SplitStep(ExampleBuckets(ra, rb, rc, rd), frags, Bisection([Single("d"), Group(["e", "f", "g"]), Single("a")], [Group(["h", "i", "j"]), Single("c")], [rb], 1))
         == Bisection([Single("d"), Group(["e", "f", "g"]), Single("a")], [Group(["h", "i", "j"]), Single("c"), Single("b")], [], 0)
  {
    var buckets := ExampleBuckets(ra, rb, rc, rd);
    var b := Bisection([Single("d"), Group(["e", "f", "g"]), Single("a")], [Group(["h", "i", "j"]), Single("c")], [rb], 1);
    MinOfIs(b.keys, rb);
    assert BucketAt(buckets, rb) == ["b"] && ExampleIds()[1] == "b";
    SingleSplit(buckets, frags, b, "b");
  }

  /** The four splits in a row. */
  lemma ExampleSplits(frags: map<FragId, Detail>, c: real, ra: real, rb: real, rc: real, rd: real)
    requires ExampleFrags(frags, c) && rd < rc < ra < rb
    ensures var buckets := ExampleBuckets(ra, rb, rc, rd);
            SplitTimes(buckets, frags, Start(buckets), |buckets.keys|)
              == Bisection([Single("d"), Group(["e", "f", "g"]), Single("a")], [Group(["h", "i", "j"]), Single("c"), Single("b")], [], 0)
  {
    var buckets := ExampleBuckets(ra, rb, rc, rd);
    var b1 := Bisection([Single("d"), Group(["e", "f", "g"])], [Group(["h", "i", "j"])], [ra, rb, rc], 1);
    var b2 := Bisection([Single("d"), Group(["e", "f", "g"])], [Group(["h", "i", "j"]), Single("c")], [ra, rb], 0);
    var b3 := Bisection([Single("d"), Group(["e", "f", "g"]), Single("a")], [Group(["h", "i", "j"]), Single("c")], [rb], 1);
    var b4 := Bisection([Single("d"), Group(["e", "f", "g"]), Single("a")], [Group(["h", "i", "j"]), Single("c"), Single("b")], [], 0);
    ExampleFirstSplit(frags, c, ra, rb, rc, rd);
    ExampleSecondSplit(frags, c, ra, rb, rc, rd);
    ExampleThirdSplit(frags, c, ra, rb, rc, rd);
    ExampleFourthSplit(frags, c, ra, rb, rc, rd);
    assert SplitTimes(buckets, frags, b4, 0) == b4;
    assert SplitTimes(buckets, frags, b3, 1) == b4;
    assert SplitTimes(buckets, frags, b2, 2) == b4;
    assert SplitTimes(buckets, frags, b1, 3) == b4;
  }

  /** The worked example: the bell-shaped order `d e f g a b c j i h`. */
  lemma ExampleArrange(frags: map<FragId, Detail>, c: real, ra: real, rb: real, rc: real, rd: real)
    requires ExampleFrags(frags, c) && rd < rc < ra < rb
    ensures var buckets := ExampleBuckets(ra, rb, rc, rd);
            Outcome(SplitTimes(buckets, frags, Start(buckets), |buckets.keys|))
              == Ok(["d", "e", "f", "g", "a", "b", "c", "j", "i", "h"])
  {
    ExampleSplits(frags, c, ra, rb, rc, rd);
    ExampleOutcome();
  }

  /** Flattening the two sides and reversing the right one behind the left. */
  lemma ExampleOutcome()
    ensures Outcome(Bisection([Single("d"), Group(["e", "f", "g"]), Single("a")], [Group(["h", "i", "j"]), Single("c"), Single("b")], [], 0))
         == Ok(["d", "e", "f", "g", "a", "b", "c", "j", "i", "h"])
  {
    var b4 := Bisection([Single("d"), Group(["e", "f", "g"]), Single("a")], [Group(["h", "i", "j"]), Single("c"), Single("b")], [], 0);
    assert b4.right[0].Group? && HasGroup(b4.right);
    assert Flat(b4.left) == ["d", "e", "f", "g", "a"];
    assert Flat(b4.right) == ["h", "i", "j", "c", "b"];
    assert Reverse(["h", "i", "j", "c", "b"]) == ["b", "c", "j", "i", "h"];
    assert ["d", "e", "f", "g", "a"] + ["b", "c", "j", "i", "h"] == ["d", "e", "f", "g", "a", "b", "c", "j", "i", "h"];
  }
}
