/**
 * lib/fragments.rb, `select_fragments`: the ratio cutoff that picks candidate
 * fragments out of the permutation `arrange` returns.
 */
module Selection {
  import opened Collections
  import opened Fragments

  /**
   * The minimum ratio a bucket needs. `None` stands for Ruby's `Infinity`,
   * what `1.0 / adjust` gives for a zero `adjust`; no ratio reaches it.
   */
  function Cutoff(filterOutLowHmes: bool, cross: string, polyploidy: bool, adjust: real): Option<real> {
    if !filterOutLowHmes || polyploidy then Some(1.1)
    else if adjust == 0.0 then None
    else if cross == "back" then Some(1.0 / adjust + 1.0)
    else Some(2.0 / adjust + 1.0)
  }

  predicate Passes(ratio: real, cutoff: Option<real>) {
    cutoff.Some? && ratio >= cutoff.value
  }

  /** Without filtering, and for polyploids, the cutoff is 1.1; otherwise a back cross asks for `1/adjust + 1` and any other cross for `2/adjust + 1`. */
  lemma CutoffCases(filterOutLowHmes: bool, cross: string, polyploidy: bool, adjust: real)
    ensures !filterOutLowHmes || polyploidy ==> Cutoff(filterOutLowHmes, cross, polyploidy, adjust) == Some(1.1)
    ensures filterOutLowHmes && !polyploidy && adjust > 0.0 ==>
              Cutoff(filterOutLowHmes, cross, polyploidy, adjust).Some? &&
              Cutoff(filterOutLowHmes, cross, polyploidy, adjust).value > 1.0 &&
              Cutoff(filterOutLowHmes, cross, polyploidy, adjust).value * adjust == (if cross == "back" then 1.0 else 2.0) + adjust
  {
  }

  /** With a positive `adjust` a back cross is filtered less strictly than any other cross. */
  lemma BackCrossLowerCutoff(cross: string, adjust: real)
    requires adjust > 0.0 && cross != "back"
    ensures Cutoff(true, "back", false, adjust).value < Cutoff(true, cross, false, adjust).value
  {
  }

  /** `frags_to_keep` before `flatten!`: the buckets whose ratio passes, in key order. */
  function KeptBuckets(t: map<real, seq<FragId>>, ks: seq<real>, cutoff: Option<real>): seq<seq<FragId>>
    requires forall k :: k in ks ==> k in t
  {
    if ks == [] then []
    else
      var k := ks[|ks| - 1];
      KeptBuckets(t, ks[..|ks| - 1], cutoff) + (if Passes(k, cutoff) then [t[k]] else [])
  }

  /** A fragment is kept exactly when some bucket holding it passes the cutoff. */
  lemma {:induction false} KeptMember(t: map<real, seq<FragId>>, ks: seq<real>, cutoff: Option<real>, f: FragId)
    requires forall k :: k in ks ==> k in t
    ensures f in Flatten(KeptBuckets(t, ks, cutoff)) <==> exists k :: k in ks && Passes(k, cutoff) && f in t[k]
  {
    if ks != [] {
      var init := ks[..|ks| - 1];
      var k := ks[|ks| - 1];
      assert forall j :: j in init ==> j in ks;
      KeptMember(t, init, cutoff, f);
      FlattenAppend(KeptBuckets(t, init, cutoff), if Passes(k, cutoff) then [t[k]] else []);
      assert ks == init + [k];
      if Passes(k, cutoff) {
        assert Flatten([t[k]]) == t[k];
      }
    }
  }

  /** Both loops of `select_fragments`. */
  method SelectFragments(buckets: OHash<real, seq<FragId>>, perm: seq<FragId>, adjust: real,
                         filterOutLowHmes: bool, cross: string, polyploidy: bool)
    returns (mutfrags: seq<FragId>)
    requires buckets.Valid()
    ensures mutfrags == RetainIn(perm, Flatten(KeptBuckets(buckets.table, buckets.keys, Cutoff(filterOutLowHmes, cross, polyploidy, adjust))))
  {
    var cutoff := Cutoff(filterOutLowHmes, cross, polyploidy, adjust);
    var kept: seq<seq<FragId>> := [];
    var i := 0;
    while i < |buckets.keys|
      invariant 0 <= i <= |buckets.keys|
      invariant kept == KeptBuckets(buckets.table, buckets.keys[..i], cutoff)
    {
      var ratio := buckets.keys[i];
      assert buckets.keys[..i + 1][..i] == buckets.keys[..i];
      if Passes(ratio, cutoff) {
        kept := kept + [buckets.table[ratio]];
      }
      i := i + 1;
    }
    assert buckets.keys[..i] == buckets.keys;
    var fragsToKeep := Flatten(kept);
    mutfrags := [];
    var j := 0;
    while j < |perm|
      invariant 0 <= j <= |perm|
      invariant mutfrags == RetainIn(perm[..j], fragsToKeep)
    {
      assert perm[..j + 1][..j] == perm[..j];
      if perm[j] in fragsToKeep {
        mutfrags := mutfrags + [perm[j]];
      }
      j := j + 1;
    }
    assert perm[..j] == perm;
  }

  /** The selected fragments: those of `perm` sitting in a bucket whose ratio passes the cutoff, each as often as in `perm`. */
  lemma SelectedAre(buckets: OHash<real, seq<FragId>>, perm: seq<FragId>, cutoff: Option<real>, f: FragId)
    requires buckets.Valid()
    ensures multiset(RetainIn(perm, Flatten(KeptBuckets(buckets.table, buckets.keys, cutoff))))[f]
         == if exists k :: k in buckets.keys && Passes(k, cutoff) && f in buckets.table[k] then multiset(perm)[f] else 0
  {
    KeptMember(buckets.table, buckets.keys, cutoff, f);
    RetainInCount(perm, Flatten(KeptBuckets(buckets.table, buckets.keys, cutoff)), f);
  }

  /** Raising the cutoff can only drop fragments. */
  lemma SelectionShrinks(buckets: OHash<real, seq<FragId>>, perm: seq<FragId>, low: real, high: real, f: FragId)
    requires buckets.Valid() && low <= high
    ensures f in RetainIn(perm, Flatten(KeptBuckets(buckets.table, buckets.keys, Some(high))))
        ==> f in RetainIn(perm, Flatten(KeptBuckets(buckets.table, buckets.keys, Some(low))))
  {
    SelectedAre(buckets, perm, Some(high), f);
    SelectedAre(buckets, perm, Some(low), f);
  }
}
