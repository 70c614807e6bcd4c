/**
 * lib/ratio_filter.rb: mark the fragments that lack variants as discarded,
 * then bucket the survivors by their ratio.
 */
module RatioFilter {
  import opened Collections
  import opened Fragments
  import Stuff

  /** `ratio_type`: which record field buckets the fragments. */
  datatype RatioType = Ratio | BfrRat

  /**
   * Under `:bfr_rat` the filter compares `:bfr` with 0, which needs a number:
   * on the `''` placeholder (`None`) Ruby's `<=` raises.
   */
  predicate RecordComparable(d: Detail, ratioType: RatioType, onlyFragWithVars: bool) {
    onlyFragWithVars && ratioType == BfrRat ==> d.bfr.Some?
  }

  /** The error `'' <= 0` raises. */
  const IncomparableBfr := "comparison of String with 0 failed"

  /** Every record of the hash can be compared. */
  ghost predicate Comparable(h: OHash<FragId, Detail>, ratioType: RatioType, onlyFragWithVars: bool) {
    forall f :: f in h.table ==> RecordComparable(h.table[f], ratioType, onlyFragWithVars)
  }

  /** The records of the keys `ks` exist and can be compared. */
  ghost predicate ComparableAt(t: map<FragId, Detail>, ks: seq<FragId>, ratioType: RatioType, onlyFragWithVars: bool) {
    forall f :: f in ks ==> f in t && RecordComparable(t[f], ratioType, onlyFragWithVars)
  }

  /** The verdict `filter_hash` writes into `:discard`. */
  predicate Discarded(d: Detail, adjust: real, ratioType: RatioType, onlyFragWithVars: bool)
    requires RecordComparable(d, ratioType, onlyFragWithVars)
  {
    onlyFragWithVars &&
    match ratioType
    case Ratio => d.ht + d.hm <= 2.0 * adjust
    case BfrRat => d.bfr.value <= 0
  }

  /** The records after `filter_hash`: each one has its `:discard` flag set, nothing else changes. */
  function Marked(h: OHash<FragId, Detail>, adjust: real, ratioType: RatioType, onlyFragWithVars: bool): OHash<FragId, Detail>
    requires Comparable(h, ratioType, onlyFragWithVars)
  {
    OHash(h.keys, map f | f in h.table :: h.table[f].(discard := Some(Discarded(h.table[f], adjust, ratioType, onlyFragWithVars))))
  }

  /** The number of keys among `ks` whose record is discarded. */
  function CountDiscarded(t: map<FragId, Detail>, ks: seq<FragId>, adjust: real, ratioType: RatioType, onlyFragWithVars: bool): nat
    requires ComparableAt(t, ks, ratioType, onlyFragWithVars)
  {
    if ks == [] then 0
    else
      var f := ks[|ks| - 1];
      CountDiscarded(t, ks[..|ks| - 1], adjust, ratioType, onlyFragWithVars) + (if Discarded(t[f], adjust, ratioType, onlyFragWithVars) then 1 else 0)
  }

  /** The records halfway through the loop: the first `done` keys marked, the others untouched. */
  function PartlyMarked(t: map<FragId, Detail>, done: seq<FragId>, adjust: real, ratioType: RatioType, onlyFragWithVars: bool): map<FragId, Detail>
    requires ComparableAt(t, done, ratioType, onlyFragWithVars)
  {
    map f | f in t :: if f in done then t[f].(discard := Some(Discarded(t[f], adjust, ratioType, onlyFragWithVars))) else t[f]
  }

  /**
   * The hash `m` left behind when `filter_hash` raises on `h`: the loop
   * reached the first record it cannot compare, after marking those before it.
   */
  ghost predicate RaisedAt(h: OHash<FragId, Detail>, m: OHash<FragId, Detail>, adjust: real, ratioType: RatioType, onlyFragWithVars: bool)
    requires h.Valid()
  {
    exists i :: 0 <= i < |h.keys| && !RecordComparable(h.table[h.keys[i]], ratioType, onlyFragWithVars)
      && ComparableAt(h.table, h.keys[..i], ratioType, onlyFragWithVars)
      && m == OHash(h.keys, PartlyMarked(h.table, h.keys[..i], adjust, ratioType, onlyFragWithVars))
  }

  /**
   * `filter_hash`: writes `:discard` into every record of `inhash` in place
   * and counts the records discarded, the count its warning reports (the
   * source returns the hash itself, the very same object, which the caller
   * sees through `inhash`). A record it cannot compare raises, with the
   * records before it already marked.
   */
  method FilterHash(inhash: Cell<OHash<FragId, Detail>>, adjust: real, ratioType: RatioType, onlyFragWithVars: bool)
    returns (discard: Result<nat>)
    requires inhash.value.Valid()
    modifies inhash
    ensures discard.Ok? <==> Comparable(old(inhash.value), ratioType, onlyFragWithVars)
    ensures discard.Ok? ==> inhash.value == Marked(old(inhash.value), adjust, ratioType, onlyFragWithVars)
    ensures discard.Ok? ==> discard.value == CountDiscarded(old(inhash.value).table, old(inhash.value).keys, adjust, ratioType, onlyFragWithVars)
    ensures discard.Raises? ==> discard.error == IncomparableBfr && RaisedAt(old(inhash.value), inhash.value, adjust, ratioType, onlyFragWithVars)
  {
    ghost var h := inhash.value;
    var keys := inhash.value.keys;
    var count := 0;
    var i := 0;
    assert h.keys[..0] == [];
    while i < |keys|
      invariant keys == h.keys && MarkedUpTo(h, i, inhash.value, count, adjust, ratioType, onlyFragWithVars)
    {
      var frag := keys[i];
      MarkedUntouched(h, i, inhash.value, count, adjust, ratioType, onlyFragWithVars);
      var rec := inhash.value.table[frag];
      if onlyFragWithVars && ratioType == BfrRat && rec.bfr.None? {
        RaiseStep(h, i, inhash.value, count, adjust, ratioType, onlyFragWithVars);
        return Raises(IncomparableBfr);
      }
      count := MarkOne(inhash, frag, h, i, count, adjust, ratioType, onlyFragWithVars);
      i := i + 1;
    }
    MarkedAll(h, i, inhash.value, count, adjust, ratioType, onlyFragWithVars);
    discard := Ok(count);
  }

  /** One pass of the marking loop: writes the verdict of the `i`-th record into it in place and counts a discard. */
  method MarkOne(inhash: Cell<OHash<FragId, Detail>>, frag: FragId, ghost h: OHash<FragId, Detail>, ghost i: int, count: nat,
                 adjust: real, ratioType: RatioType, onlyFragWithVars: bool) returns (count': nat)
    requires MarkedUpTo(h, i, inhash.value, count, adjust, ratioType, onlyFragWithVars) && i < |h.keys| && frag == h.keys[i]
    requires RecordComparable(h.table[frag], ratioType, onlyFragWithVars)
    modifies inhash
    ensures MarkedUpTo(h, i + 1, inhash.value, count', adjust, ratioType, onlyFragWithVars)
  {
    MarkedUntouched(h, i, inhash.value, count, adjust, ratioType, onlyFragWithVars);
    MarkOneStep(h, i, inhash.value, count, adjust, ratioType, onlyFragWithVars);
    var rec := inhash.value.table[frag];
    var verdict := Discarded(rec, adjust, ratioType, onlyFragWithVars);
    inhash.value := inhash.value.(table := inhash.value.table[frag := rec.(discard := Some(verdict))]);
    count' := if verdict then count + 1 else count;
  }

  /** The state of the marking loop after the first `i` keys: those records marked, and their discards counted. */
  ghost predicate MarkedUpTo(h: OHash<FragId, Detail>, i: int, m: OHash<FragId, Detail>, count: nat,
                             adjust: real, ratioType: RatioType, onlyFragWithVars: bool)
  {
    h.Valid() && 0 <= i <= |h.keys| && ComparableAt(h.table, h.keys[..i], ratioType, onlyFragWithVars)
    && m == OHash(h.keys, PartlyMarked(h.table, h.keys[..i], adjust, ratioType, onlyFragWithVars))
    && count == CountDiscarded(h.table, h.keys[..i], adjust, ratioType, onlyFragWithVars)
  }

  /** The record the loop reaches next is still the original one. */
  lemma MarkedUntouched(h: OHash<FragId, Detail>, i: int, m: OHash<FragId, Detail>, count: nat,
                        adjust: real, ratioType: RatioType, onlyFragWithVars: bool)
    requires MarkedUpTo(h, i, m, count, adjust, ratioType, onlyFragWithVars) && i < |h.keys|
    ensures h.keys[i] in h.table && h.keys[i] in m.table && m.table[h.keys[i]] == h.table[h.keys[i]]
  {
    DistinctFresh(h.keys, i);
  }

  /** A comparable record is marked, its verdict counted, and the loop moves on. */
  lemma MarkOneStep(h: OHash<FragId, Detail>, i: int, m: OHash<FragId, Detail>, count: nat,
                    adjust: real, ratioType: RatioType, onlyFragWithVars: bool)
    requires MarkedUpTo(h, i, m, count, adjust, ratioType, onlyFragWithVars) && i < |h.keys|
    requires RecordComparable(h.table[h.keys[i]], ratioType, onlyFragWithVars)
    ensures var f := h.keys[i];
      var v := Discarded(h.table[f], adjust, ratioType, onlyFragWithVars);
      MarkedUpTo(h, i + 1, m.(table := m.table[f := h.table[f].(discard := Some(v))]), count + (if v then 1 else 0),
                 adjust, ratioType, onlyFragWithVars)
  {
    var f := h.keys[i];
    assert h.keys[..i + 1] == h.keys[..i] + [f];
    DistinctFresh(h.keys, i);
    MarkStep(h, h.keys[..i], f, adjust, ratioType, onlyFragWithVars);
  }

  /** An incomparable record stops the loop where `RaisedAt` says, and the hash was not comparable. */
  lemma RaiseStep(h: OHash<FragId, Detail>, i: int, m: OHash<FragId, Detail>, count: nat,
                  adjust: real, ratioType: RatioType, onlyFragWithVars: bool)
    requires MarkedUpTo(h, i, m, count, adjust, ratioType, onlyFragWithVars) && i < |h.keys|
    requires !RecordComparable(h.table[h.keys[i]], ratioType, onlyFragWithVars)
    ensures RaisedAt(h, m, adjust, ratioType, onlyFragWithVars)
    ensures !Comparable(h, ratioType, onlyFragWithVars)
  {
  }

  /** Once every key is done the loop's state is the marked hash and the count of its discards. */
  lemma MarkedAll(h: OHash<FragId, Detail>, i: int, m: OHash<FragId, Detail>, count: nat,
                  adjust: real, ratioType: RatioType, onlyFragWithVars: bool)
    requires MarkedUpTo(h, i, m, count, adjust, ratioType, onlyFragWithVars) && i >= |h.keys|
    ensures Comparable(h, ratioType, onlyFragWithVars)
    ensures m == Marked(h, adjust, ratioType, onlyFragWithVars)
    ensures count == CountDiscarded(h.table, h.keys, adjust, ratioType, onlyFragWithVars)
  {
    assert h.keys[..|h.keys|] == h.keys;
  }

  /** Marking one more key of the loop. */
  lemma MarkStep(h: OHash<FragId, Detail>, done: seq<FragId>, frag: FragId, adjust: real, ratioType: RatioType, onlyFragWithVars: bool)
    requires ComparableAt(h.table, done, ratioType, onlyFragWithVars)
    requires frag in h.table && frag !in done && RecordComparable(h.table[frag], ratioType, onlyFragWithVars)
    ensures ComparableAt(h.table, done + [frag], ratioType, onlyFragWithVars)
    ensures PartlyMarked(h.table, done + [frag], adjust, ratioType, onlyFragWithVars)
         == PartlyMarked(h.table, done, adjust, ratioType, onlyFragWithVars)[frag := h.table[frag].(discard := Some(Discarded(h.table[frag], adjust, ratioType, onlyFragWithVars)))]
  {
  }

  /** The value `selected_ratios` buckets a record by: `None` when the record has no number there. */
  function KeyOf(d: Detail, ratioType: RatioType): Option<real> {
    match ratioType
    case Ratio => Some(d.ratio)
    case BfrRat => d.bfrRat
  }

  /** The fragments among `ks` that are not marked discarded, each paired with its bucketing value. */
  function Survivors(t: map<FragId, Detail>, ks: seq<FragId>, ratioType: RatioType): seq<(FragId, Option<real>)>
    requires forall f :: f in ks ==> f in t
  {
    if ks == [] then []
    else
      var f := ks[|ks| - 1];
      Survivors(t, ks[..|ks| - 1], ratioType) + (if t[f].discard == Some(true) then [] else [(f, KeyOf(t[f], ratioType))])
  }

  /**
   * `selected_ratios`: runs the filter over `inhash` (which it changes in
   * place) and buckets the fragments left by their `ratio_type` value, in
   * key order; a raise of the filter is passed on. The source's defaults are
   * `onlyFragWithVars` true, `adjust` 0.5 and `Ratio`.
   */
  method SelectedRatios(inhash: Cell<OHash<FragId, Detail>>, adjust: real, ratioType: RatioType, onlyFragWithVars: bool)
    returns (ratiosHash: Result<OHash<Option<real>, seq<FragId>>>)
    requires inhash.value.Valid()
    modifies inhash
    ensures ratiosHash.Ok? <==> Comparable(old(inhash.value), ratioType, onlyFragWithVars)
    ensures ratiosHash.Ok? ==> inhash.value == Marked(old(inhash.value), adjust, ratioType, onlyFragWithVars)
    ensures ratiosHash.Ok? ==> ratiosHash.value == Stuff.SafeInvert(Survivors(inhash.value.table, inhash.value.keys, ratioType))
    ensures ratiosHash.Raises? ==> ratiosHash.error == IncomparableBfr && RaisedAt(old(inhash.value), inhash.value, adjust, ratioType, onlyFragWithVars)
  {
    var discard := FilterHash(inhash, adjust, ratioType, onlyFragWithVars);
    if discard.Raises? {
      return Raises(discard.error);
    }
    var buckets := BucketSurvivors(inhash.value, ratioType);
    ratiosHash := Ok(buckets);
  }

  /** The loop of `selected_ratios` over the marked records: appends every kept fragment to the bucket of its value. */
  method BucketSurvivors(m: OHash<FragId, Detail>, ratioType: RatioType) returns (ratiosHash: OHash<Option<real>, seq<FragId>>)
    requires m.Valid()
    ensures ratiosHash == Stuff.SafeInvert(Survivors(m.table, m.keys, ratioType))
  {
    ratiosHash := Empty();
    var i := 0;
    while i < |m.keys|
      invariant 0 <= i <= |m.keys|
      invariant ratiosHash == Stuff.SafeInvert(Survivors(m.table, m.keys[..i], ratioType))
    {
      var frag := m.keys[i];
      SelectStep(m.table, m.keys, i, ratioType);
      var rec := m.table[frag];
      if rec.discard != Some(true) {
        var ratio := KeyOf(rec, ratioType);
        var bucket := if ratio in ratiosHash.table then ratiosHash.table[ratio] else [];
        ratiosHash := ratiosHash.Store(ratio, bucket + [frag]);
      }
      i := i + 1;
    }
    assert m.keys[..i] == m.keys;
  }

  /** One step of the bucketing loop. */
  lemma SelectStep(t: map<FragId, Detail>, ks: seq<FragId>, i: int, ratioType: RatioType)
    requires forall f :: f in ks ==> f in t
    requires 0 <= i < |ks|
    ensures var out := Stuff.SafeInvert(Survivors(t, ks[..i], ratioType));
      var k := KeyOf(t[ks[i]], ratioType);
      Stuff.SafeInvert(Survivors(t, ks[..i + 1], ratioType))
        == if t[ks[i]].discard == Some(true) then out
           else out.Store(k, (if k in out.table then out.table[k] else []) + [ks[i]])
  {
    var pre := Survivors(t, ks[..i], ratioType);
    var f := ks[i];
    assert ks[..i + 1][..i] == ks[..i] && ks[..i + 1][i] == f;
    if t[f].discard == Some(true) {
      assert Survivors(t, ks[..i + 1], ratioType) == pre;
    } else {
      var p := pre + [(f, KeyOf(t[f], ratioType))];
      assert Survivors(t, ks[..i + 1], ratioType) == p;
      assert p[..|p| - 1] == pre;
    }
  }

  /** After marking, a fragment survives exactly when the filter's verdict was to keep it. */
  lemma {:induction false} SurvivorsMember(h: OHash<FragId, Detail>, ks: seq<FragId>, adjust: real, ratioType: RatioType, onlyFragWithVars: bool, f: FragId, k: Option<real>)
    requires h.Valid() && Comparable(h, ratioType, onlyFragWithVars)
    requires forall g :: g in ks ==> g in h.table
    ensures (f, k) in Survivors(Marked(h, adjust, ratioType, onlyFragWithVars).table, ks, ratioType)
        <==> f in ks && !Discarded(h.table[f], adjust, ratioType, onlyFragWithVars) && k == KeyOf(h.table[f], ratioType)
  {
    if ks != [] {
      SurvivorsMember(h, ks[..|ks| - 1], adjust, ratioType, onlyFragWithVars, f, k);
      assert ks == ks[..|ks| - 1] + [ks[|ks| - 1]];
    }
  }

  /** Discarded and surviving fragments together account for every key once. */
  lemma {:induction false} SurvivorsCount(h: OHash<FragId, Detail>, ks: seq<FragId>, adjust: real, ratioType: RatioType, onlyFragWithVars: bool)
    requires h.Valid() && Comparable(h, ratioType, onlyFragWithVars)
    requires forall g :: g in ks ==> g in h.table
    ensures |Survivors(Marked(h, adjust, ratioType, onlyFragWithVars).table, ks, ratioType)| + CountDiscarded(h.table, ks, adjust, ratioType, onlyFragWithVars) == |ks|
  {
    if ks != [] {
      SurvivorsCount(h, ks[..|ks| - 1], adjust, ratioType, onlyFragWithVars);
    }
  }

  /**
   * What `selected_ratios` returns: fragment `f` sits in bucket `k` exactly
   * when the filter kept `f` and `k` is its value; and no bucket is empty.
   */
  lemma SelectedBuckets(h: OHash<FragId, Detail>, adjust: real, ratioType: RatioType, onlyFragWithVars: bool, f: FragId, k: Option<real>)
    requires h.Valid() && Comparable(h, ratioType, onlyFragWithVars)
    ensures var r := Stuff.SafeInvert(Survivors(Marked(h, adjust, ratioType, onlyFragWithVars).table, h.keys, ratioType));
      (k in r.table && f in r.table[k]) <==> f in h.table && !Discarded(h.table[f], adjust, ratioType, onlyFragWithVars) && k == KeyOf(h.table[f], ratioType)
    ensures var r := Stuff.SafeInvert(Survivors(Marked(h, adjust, ratioType, onlyFragWithVars).table, h.keys, ratioType));
      k in r.table ==> r.table[k] != []
  {
    var pairs := Survivors(Marked(h, adjust, ratioType, onlyFragWithVars).table, h.keys, ratioType);
    Stuff.SafeInvertBucket(pairs, k);
    Stuff.KeysWithMember(pairs, k, f);
    SurvivorsMember(h, h.keys, adjust, ratioType, onlyFragWithVars, f, k);
  }

  /** The buckets hold as many fragments as were not discarded: the count the warning reports accounts for the rest. */
  lemma SelectedSize(h: OHash<FragId, Detail>, adjust: real, ratioType: RatioType, onlyFragWithVars: bool)
    requires h.Valid() && Comparable(h, ratioType, onlyFragWithVars)
    ensures var r := Stuff.SafeInvert(Survivors(Marked(h, adjust, ratioType, onlyFragWithVars).table, h.keys, ratioType));
      |Gather(r.table, r.keys)| + CountDiscarded(h.table, h.keys, adjust, ratioType, onlyFragWithVars) == |h.keys|
  {
    var pairs := Survivors(Marked(h, adjust, ratioType, onlyFragWithVars).table, h.keys, ratioType);
    var r := Stuff.SafeInvert(pairs);
    Stuff.SafeInvertConserves(pairs);
    assert |multiset(Gather(r.table, r.keys))| == |multiset(Firsts(pairs))|;
    SurvivorsCount(h, h.keys, adjust, ratioType, onlyFragWithVars);
  }

  /** Without `only_frag_with_vars` nothing is discarded. */
  lemma {:induction false} NoFilterDiscardsNothing(h: OHash<FragId, Detail>, ks: seq<FragId>, adjust: real, ratioType: RatioType)
    requires forall g :: g in ks ==> g in h.table
    ensures CountDiscarded(h.table, ks, adjust, ratioType, false) == 0
  {
    if ks != [] {
      NoFilterDiscardsNothing(h, ks[..|ks| - 1], adjust, ratioType);
    }
  }

  /** The count the warning reports never exceeds the number of fragments. */
  lemma {:induction false} DiscardBound(t: map<FragId, Detail>, ks: seq<FragId>, adjust: real, ratioType: RatioType, onlyFragWithVars: bool)
    requires ComparableAt(t, ks, ratioType, onlyFragWithVars)
    ensures CountDiscarded(t, ks, adjust, ratioType, onlyFragWithVars) <= |ks|
    ensures CountDiscarded(t, ks, adjust, ratioType, onlyFragWithVars) == |ks| <==> forall f :: f in ks ==> Discarded(t[f], adjust, ratioType, onlyFragWithVars)
  {
    if ks != [] {
      DiscardBound(t, ks[..|ks| - 1], adjust, ratioType, onlyFragWithVars);
      assert ks == ks[..|ks| - 1] + [ks[|ks| - 1]];
    }
  }

  /**
   * The records `varpos_aggregate` builds carry the `''` placeholder for
   * `:bfr`: the `:ratio` filter can always compare them, while the filtering
   * `:bfr_rat` filter raises on every non-empty aggregate.
   */
  lemma AggregateComparable(hom: map<FragId, seq<int>>, het: map<FragId, seq<int>>, fragLen: map<FragId, int>,
                            adjust: real, cumulate: bool, order: seq<FragId>, onlyFragWithVars: bool)
    requires adjust > 0.0
    ensures Comparable(Aggregate(hom, het, fragLen, adjust, cumulate, order), Ratio, onlyFragWithVars)
    ensures Comparable(Aggregate(hom, het, fragLen, adjust, cumulate, order), BfrRat, true) <==> order == []
  {
    AggregateKeys(hom, het, fragLen, adjust, cumulate, order);
    if order != [] {
      AggregateRecord(hom, het, fragLen, adjust, cumulate, order, |order| - 1);
    }
  }
}
