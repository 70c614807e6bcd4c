/**
 * lib/ratio_filtering.rb: an older percentage-threshold filter over the
 * fragment records, with helpers that keep only the positions of the
 * fragments left.
 */
module RatioFiltering {
  import opened Collections
  import opened Fragments
  import Stuff

  /** `get_ratios`: the `:ratio` of each of `frags`, in the order of `frags`. */
  method GetRatios(inhash: OHash<FragId, Detail>, frags: seq<FragId>) returns (ratios: seq<real>)
    requires forall f :: f in frags ==> f in inhash.table
    ensures |ratios| == |frags|
    ensures forall i :: 0 <= i < |frags| ==> ratios[i] == inhash.table[frags[i]].ratio
  {
    ratios := [];
    for i := 0 to |frags|
      invariant |ratios| == i
      invariant forall j :: 0 <= j < i ==> ratios[j] == inhash.table[frags[j]].ratio
    {
      ratios := ratios + [inhash.table[frags[i]].ratio];
    }
  }

  /** Each fragment paired with its ratio, in key order. */
  function RatioPairs(inhash: OHash<FragId, Detail>): (ps: seq<(FragId, real)>)
    requires inhash.Valid()
    ensures |ps| == |inhash.keys|
  {
    seq(|inhash.keys|, i requires 0 <= i < |inhash.keys| => (inhash.keys[i], inhash.table[inhash.keys[i]].ratio))
  }

  /** `ratio_hash`: the fragments bucketed by `:ratio`, in key order. */
  method RatioHash(inhash: OHash<FragId, Detail>) returns (hash: OHash<real, seq<FragId>>)
    requires inhash.Valid()
    ensures hash == Stuff.SafeInvert(RatioPairs(inhash))
  {
    ghost var pairs := RatioPairs(inhash);
    hash := Empty();
    for i := 0 to |inhash.keys|
      invariant hash == Stuff.SafeInvert(pairs[..i])
    {
      var frag := inhash.keys[i];
      var ratio := inhash.table[frag].ratio;
      Stuff.SafeInvertPrefix(pairs, i);
      var bucket := if ratio in hash.table then hash.table[ratio] else [];
      hash := hash.Store(ratio, bucket + [frag]);
    }
    assert pairs[..|inhash.keys|] == pairs;
  }

  /**
   * What `ratio_hash` returns: every fragment sits in the bucket of its own
   * ratio and in no other, no bucket is empty, and the buckets come in the
   * order in which their ratios first occur.
   */
  lemma RatioHashBuckets(inhash: OHash<FragId, Detail>, f: FragId, r: real)
    requires inhash.Valid()
    ensures var hash := Stuff.SafeInvert(RatioPairs(inhash));
      (r in hash.table && f in hash.table[r]) <==> f in inhash.table && inhash.table[f].ratio == r
    ensures var hash := Stuff.SafeInvert(RatioPairs(inhash));
      r in hash.table ==> hash.table[r] != []
    ensures Stuff.SafeInvert(RatioPairs(inhash)).keys == Uniq(Seconds(RatioPairs(inhash)))
  {
    var pairs := RatioPairs(inhash);
    Stuff.SafeInvertBucket(pairs, r);
    Stuff.KeysWithMember(pairs, r, f);
    Stuff.SafeInvertKeys(pairs);
    if f in inhash.table && inhash.table[f].ratio == r {
      var i :| 0 <= i < |inhash.keys| && inhash.keys[i] == f;
      assert pairs[i] == (f, r);
    }
  }

  /** The largest ratio, or 0.0 for no fragments (`nil.to_f`). */
  function MaxRatio(inhash: OHash<FragId, Detail>): real
    requires inhash.Valid()
  {
    if inhash.keys == [] then 0.0 else MaxOf(Seconds(RatioPairs(inhash)))
  }

  lemma MaxRatioIs(inhash: OHash<FragId, Detail>, f: FragId)
    requires inhash.Valid() && f in inhash.table
    ensures inhash.table[f].ratio <= MaxRatio(inhash)
    ensures exists g :: g in inhash.table && inhash.table[g].ratio == MaxRatio(inhash)
  {
    var rs := Seconds(RatioPairs(inhash));
    var i :| 0 <= i < |inhash.keys| && inhash.keys[i] == f;
    assert rs[i] == inhash.table[f].ratio && rs[i] in rs;
    var j :| 0 <= j < |rs| && rs[j] == MaxOf(rs);
    assert inhash.keys[j] in inhash.table;
  }

  /** The cut applied by one pass: `threshold` percent of the largest ratio. */
  function Filter(maxRatio: real, threshold: real): real
    requires threshold > 0.0
  {
    maxRatio / (100.0 / threshold)
  }

  /** The fragments one pass keeps: those whose ratio is above the cut. */
  function Above(inhash: OHash<FragId, Detail>, filter: real): set<FragId> {
    set f | f in inhash.table && inhash.table[f].ratio > filter
  }

  /** `inhash` after one deletion pass. */
  function Pass(inhash: OHash<FragId, Detail>, filter: real): OHash<FragId, Detail> {
    Restrict(inhash, Above(inhash, filter))
  }

  /** The deletion loop of `selected_ratios`: every fragment whose ratio is at most `filter` is deleted from `inhash`. */
  method DeletePass(inhash: Cell<OHash<FragId, Detail>>, filter: real)
    requires inhash.value.Valid()
    modifies inhash
    ensures inhash.value == Pass(old(inhash.value), filter)
  {
    ghost var h := inhash.value;
    ghost var keep := Above(h, filter);
    var keys := inhash.value.keys;
    RestrictStart(h, keep);
    for i := 0 to |keys|
      invariant keys == h.keys
      invariant inhash.value == PartlyRestricted(h, keep, i)
    {
      var frag := keys[i];
      RestrictStep(h, keep, i);
      assert frag in inhash.value.table;
      if inhash.value.table[frag].ratio <= filter {
        inhash.value := inhash.value.Delete(frag);
      }
    }
    RestrictEnd(h, keep);
  }

  /** The outcome of `selected_ratios`: the buckets it returns, or a loop that never ends. */
  datatype Selection = Returned(ratiosHash: OHash<real, seq<FragId>>) | Diverges

  /**
   * `selected_ratios`. With a positive threshold one pass deletes the
   * fragments at or under the cut; the loop exits once at least one fragment
   * in thirty-one has been discarded (remaining at most 30 times the number
   * discarded). Otherwise it runs again with the same cut
   * (the raised threshold never feeds back), deletes nothing more, and so
   * never stops.
   */
  method SelectedRatios(inhash: Cell<OHash<FragId, Detail>>, threshold: real) returns (result: Selection)
    requires inhash.value.Valid()
    modifies inhash
    ensures threshold <= 0.0 ==> inhash.value == old(inhash.value)
    ensures threshold > 0.0 ==> inhash.value == Pass(old(inhash.value), Filter(MaxRatio(old(inhash.value)), threshold))
    ensures inhash.value.Valid()
    ensures var remaining := |inhash.value.keys|;
      result == if threshold > 0.0 && remaining > 30 * (|old(inhash.value).keys| - remaining) then Diverges
                else Returned(Stuff.SafeInvert(RatioPairs(inhash.value)))
  {
    ghost var h := inhash.value;
    if threshold > 0.0 {
      var initial := |inhash.value.keys|;
      var ratios := GetRatios(inhash.value, inhash.value.keys);
      assert ratios == Seconds(RatioPairs(h));
      var thres := 100.0 / threshold;
      var filter := (if ratios == [] then 0.0 else MaxOf(ratios)) / thres;
      var selIds := inhash.value.keys;
      var contigsDiscarded := initial - |selIds|;
      if |selIds| > 30 * contigsDiscarded {
        DeletePass(inhash, filter);
        RestrictValid(h, Above(h, filter));
        selIds := inhash.value.keys;
        contigsDiscarded := initial - |selIds|;
        if |selIds| > 30 * contigsDiscarded {
          return Diverges;
        }
      } else {
        assert h.keys == [];
        RestrictStart(h, Above(h, filter));
        RestrictEnd(h, Above(h, filter));
      }
    }
    var ratiosHash := RatioHash(inhash.value);
    return Returned(ratiosHash);
  }

  /**
   * A second pass with the same cut deletes nothing: this is why the loop,
   * once it does not exit after its first pass, never exits.
   */
  lemma PassTwice(inhash: OHash<FragId, Detail>, filter: real)
    ensures Pass(Pass(inhash, filter), filter) == Pass(inhash, filter)
  {
    var once := Pass(inhash, filter);
    assert Above(once, filter) == Above(inhash, filter);
    SelectTwice(inhash.keys, Above(inhash, filter));
  }

  /** A pass keeps exactly the fragments above the cut, with their records unchanged. */
  lemma PassKeeps(inhash: OHash<FragId, Detail>, filter: real, f: FragId)
    requires inhash.Valid()
    ensures Pass(inhash, filter).Valid()
    ensures f in Pass(inhash, filter).keys <==> f in inhash.keys && inhash.table[f].ratio > filter
    ensures f in Pass(inhash, filter).table ==> Pass(inhash, filter).table[f] == inhash.table[f]
  {
    RestrictValid(inhash, Above(inhash, filter));
  }

  /** Below a threshold of 100 percent the fragments holding a positive maximum ratio always survive the pass. */
  lemma PassKeepsMaximum(inhash: OHash<FragId, Detail>, threshold: real, f: FragId)
    requires inhash.Valid() && 0.0 < threshold < 100.0 && MaxRatio(inhash) > 0.0
    requires f in inhash.table && inhash.table[f].ratio == MaxRatio(inhash)
    ensures f in Pass(inhash, Filter(MaxRatio(inhash), threshold)).table
  {
    var m := MaxRatio(inhash);
    var d := 100.0 / threshold;
    var q := m / d;
    assert d * threshold == 100.0;
    assert d > 1.0;
    assert q * d == m;
    assert q > 0.0;
    assert m - q == q * (d - 1.0);
    assert q * (d - 1.0) > 0.0;
  }

  /**
   * `important_pos`: deletes from `pos`, in place, every fragment not listed
   * in `idsShort`, and answers the positions of those left, in key order.
   */
  method ImportantPos(idsShort: seq<FragId>, pos: Cell<OHash<FragId, seq<int>>>) returns (sh: seq<int>)
    requires pos.value.Valid()
    modifies pos
    ensures pos.value == Restrict(old(pos.value), set f | f in idsShort)
    ensures sh == Gather(pos.value.table, pos.value.keys)
  {
    ghost var h := pos.value;
    ghost var keep := set f | f in idsShort;
    var keys := pos.value.keys;
    RestrictStart(h, keep);
    for i := 0 to |keys|
      invariant keys == h.keys
      invariant pos.value == PartlyRestricted(h, keep, i)
    {
      var frag := keys[i];
      RestrictStep(h, keep, i);
      if frag !in idsShort {
        pos.value := pos.value.Delete(frag);
      }
    }
    RestrictEnd(h, keep);
    sh := Gather(pos.value.table, pos.value.keys);
  }

  /** A position is answered by `important_pos` exactly when a listed fragment holds it. */
  lemma ImportantPositions(pos: OHash<FragId, seq<int>>, idsShort: seq<FragId>, x: int)
    requires pos.Valid()
    ensures var short := Restrict(pos, set f | f in idsShort);
      x in Gather(short.table, short.keys) <==> exists f :: f in idsShort && f in pos.table && x in pos.table[f]
  {
    var keep := set f | f in idsShort;
    var short := Restrict(pos, keep);
    GatherMember(short.table, short.keys, x);
    forall f ensures f in short.keys <==> f in pos.keys && f in keep {
      SelectCount(pos.keys, keep, f);
      assert f in short.keys <==> multiset(short.keys)[f] > 0;
    }
  }

  /** Each of `xs` paired with `v`. */
  function Tagged(xs: seq<int>, v: real): (ps: seq<(int, real)>)
    ensures |ps| == |xs| && Firsts(ps) == xs
  {
    seq(|xs|, j requires 0 <= j < |xs| => (xs[j], v))
  }

  /** The stores of `csv_pos_ratio`: each position of each fragment in `ks`, in order, with that fragment's ratio. */
  function PosPairs(t: map<FragId, seq<int>>, ks: seq<FragId>, ratios: map<FragId, real>): seq<(int, real)>
    requires forall k :: k in ks ==> k in t && k in ratios
  {
    if ks == [] then []
    else
      var k := ks[|ks| - 1];
      PosPairs(t, ks[..|ks| - 1], ratios) + Tagged(t[k], ratios[k])
  }

  /**
   * `csv_pos_ratio`: deletes from `pos`, in place, the fragments without a
   * ratio, then maps every position of the fragments left to its fragment's
   * ratio, a later fragment overwriting an equal position.
   */
  method CsvPosRatio(pos: Cell<OHash<FragId, seq<int>>>, ratios: map<FragId, real>) returns (posRatio: OHash<int, real>)
    requires pos.value.Valid()
    modifies pos
    ensures pos.value == Restrict(old(pos.value), ratios.Keys)
    ensures forall k :: k in pos.value.keys ==> k in pos.value.table && k in ratios
    ensures posRatio == StoreAll(PosPairs(pos.value.table, pos.value.keys, ratios))
  {
    ghost var h := pos.value;
    var keys := pos.value.keys;
    RestrictStart(h, ratios.Keys);
    for i := 0 to |keys|
      invariant keys == h.keys
      invariant pos.value == PartlyRestricted(h, ratios.Keys, i)
    {
      var id := keys[i];
      RestrictStep(h, ratios.Keys, i);
      if id !in ratios {
        pos.value := pos.value.Delete(id);
      }
    }
    RestrictEnd(h, ratios.Keys);
    RestrictValid(h, ratios.Keys);
    var short := pos.value;
    forall k | k in short.keys ensures k in ratios {
      SelectCount(h.keys, ratios.Keys, k);
      assert multiset(short.keys)[k] > 0;
    }
    posRatio := StorePositions(short, ratios);
  }

  /** The second loop of `csv_pos_ratio`: one store per position, fragment by fragment. */
  method StorePositions(short: OHash<FragId, seq<int>>, ratios: map<FragId, real>) returns (posRatio: OHash<int, real>)
    requires forall k :: k in short.keys ==> k in short.table && k in ratios
    ensures posRatio == StoreAll(PosPairs(short.table, short.keys, ratios))
  {
    posRatio := Empty();
    for i := 0 to |short.keys|
      invariant posRatio == StoreAll(PosPairs(short.table, short.keys[..i], ratios))
    {
      var id := short.keys[i];
      PosPairsSnoc(short.table, short.keys, ratios, i);
      posRatio := StoreFragment(posRatio, PosPairs(short.table, short.keys[..i], ratios), short.table[id], ratios[id]);
    }
    assert short.keys[..|short.keys|] == short.keys;
  }

  /** The inner loop of `csv_pos_ratio`: every position of one fragment stored with its ratio. */
  method StoreFragment(posRatio0: OHash<int, real>, ghost done: seq<(int, real)>, positions: seq<int>, ratio: real)
    returns (posRatio: OHash<int, real>)
    requires posRatio0 == StoreAll(done)
    ensures posRatio == StoreAll(done + Tagged(positions, ratio))
  {
    posRatio := posRatio0;
    assert done + Tagged(positions[..0], ratio) == done;
    for j := 0 to |positions|
      invariant posRatio == StoreAll(done + Tagged(positions[..j], ratio))
    {
      StoreTaggedStep(done, positions, ratio, j);
      posRatio := posRatio.Store(positions[j], ratio);
    }
    assert positions[..|positions|] == positions;
  }

  /** One store of the inner loop. */
  lemma StoreTaggedStep(done: seq<(int, real)>, positions: seq<int>, ratio: real, j: int)
    requires 0 <= j < |positions|
    ensures StoreAll(done + Tagged(positions[..j + 1], ratio)) == StoreAll(done + Tagged(positions[..j], ratio)).Store(positions[j], ratio)
  {
    var before := done + Tagged(positions[..j], ratio);
    TaggedSnoc(positions, ratio, j);
    StoreAllSnoc(before, positions[j], ratio);
    assert done + Tagged(positions[..j + 1], ratio) == before + [(positions[j], ratio)];
  }

  lemma PosPairsSnoc(t: map<FragId, seq<int>>, ks: seq<FragId>, ratios: map<FragId, real>, i: int)
    requires forall k :: k in ks ==> k in t && k in ratios
    requires 0 <= i < |ks|
    ensures PosPairs(t, ks[..i + 1], ratios) == PosPairs(t, ks[..i], ratios) + Tagged(t[ks[i]], ratios[ks[i]])
  {
    assert ks[..i + 1][..i] == ks[..i];
  }

  lemma TaggedSnoc(xs: seq<int>, v: real, j: int)
    requires 0 <= j < |xs|
    ensures Tagged(xs[..j + 1], v) == Tagged(xs[..j], v) + [(xs[j], v)]
  {
  }

  lemma {:induction false} PosPairsFirsts(t: map<FragId, seq<int>>, ks: seq<FragId>, ratios: map<FragId, real>, p: int)
    requires forall k :: k in ks ==> k in t && k in ratios
    ensures p in Firsts(PosPairs(t, ks, ratios)) <==> exists k :: k in ks && p in t[k]
  {
    if ks != [] {
      var init, last := ks[..|ks| - 1], ks[|ks| - 1];
      PosPairsFirsts(t, init, ratios, p);
      FirstsAppend(PosPairs(t, init, ratios), Tagged(t[last], ratios[last]));
      assert ks == init + [last];
    }
  }

  /** `csv_pos_ratio` maps exactly the positions of the fragments kept. */
  lemma CsvPositions(t: map<FragId, seq<int>>, ks: seq<FragId>, ratios: map<FragId, real>, p: int)
    requires forall k :: k in ks ==> k in t && k in ratios
    ensures p in StoreAll(PosPairs(t, ks, ratios)).table <==> exists k :: k in ks && p in t[k]
  {
    StoreAllMember(PosPairs(t, ks, ratios), p);
    PosPairsFirsts(t, ks, ratios, p);
  }

  /** A position held by several fragments carries the ratio of the last of them. */
  lemma {:induction false} CsvLaterWins(t: map<FragId, seq<int>>, ks: seq<FragId>, ratios: map<FragId, real>, a: int, p: int)
    requires forall k :: k in ks ==> k in t && k in ratios
    requires 0 <= a < |ks| && p in t[ks[a]]
    requires forall b :: a < b < |ks| ==> p !in t[ks[b]]
    ensures p in StoreAll(PosPairs(t, ks, ratios)).table
    ensures StoreAll(PosPairs(t, ks, ratios)).table[p] == ratios[ks[a]]
  {
    var init, last := ks[..|ks| - 1], ks[|ks| - 1];
    var block := Tagged(t[last], ratios[last]);
    assert PosPairs(t, ks, ratios) == PosPairs(t, init, ratios) + block;
    if a == |ks| - 1 {
      assert p in Firsts(block);
      StoreAllLater(PosPairs(t, init, ratios), block, p);
      StoreAllUniform(block, ratios[last], p);
    } else {
      assert p !in Firsts(block);
      assert init[a] == ks[a];
      CsvLaterWins(t, init, ratios, a, p);
      StoreAllLater(PosPairs(t, init, ratios), block, p);
    }
  }
}
