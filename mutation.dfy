/**
 * lib/mutation.rb, class Mutation: the hypothetical SNP density of an
 * ordering of fragments, and the candidate fragments with their variant
 * positions.
 */
module Mutation {
  import opened Collections
  import opened Fragments
  import SnpDist
  import SDM

  /**
   * The density `putative_density` builds once flattened: for the `i`-th
   * fragment (counting from 1), `i` times the mean contig length, repeated
   * `trunc(10 * ratio)` times.
   */
  function Density(mean: real, ratios: seq<real>): seq<real> {
    if ratios == [] then []
    else
      var n := |ratios|;
      Density(mean, ratios[..n - 1]) + Repeat(Multiple(mean, n), Times(ratios[n - 1] * 10.0))
  }

  /** `mean_contig_len * multiple`: the end of the `k`-th fragment of mean length. */
  function Multiple(mean: real, k: nat): real {
    mean * k as real
  }

  /** The last ratio's block closes the density. */
  lemma DensityLast(mean: real, ratios: seq<real>)
    requires ratios != []
    ensures Density(mean, ratios)
         == Density(mean, ratios[..|ratios| - 1]) + Repeat(Multiple(mean, |ratios|), Times(ratios[|ratios| - 1] * 10.0))
  {
  }

  /** One ratio of the loop: its block follows the blocks before it. */
  lemma DensityStep(mean: real, ratios: seq<real>, i: int)
    requires 0 <= i < |ratios|
    ensures Density(mean, ratios[..i + 1])
         == Density(mean, ratios[..i]) + Repeat(Multiple(mean, i + 1), Times(ratios[i] * 10.0))
    ensures Trunc(ratios[i] * 10.0) >= 0 ==> Times(ratios[i] * 10.0) == Trunc(ratios[i] * 10.0)
  {
    var r := ratios[..i + 1];
    assert |r| == i + 1 && r[..i] == ratios[..i] && r[i] == ratios[i];
    DensityLast(mean, r);
    assert Multiple(mean, |r|) == Multiple(mean, i + 1);
    assert Times(r[|r| - 1] * 10.0) == Times(ratios[i] * 10.0);
  }

  /** One block flattened is that block. */
  lemma FlattenSingle(block: seq<real>)
    ensures Flatten([block]) == block
  {
    assert [block][1..] == [];
  }

  /** The loop's blocks so far, flattened, followed by the next one. */
  lemma FlattenStep(positions: seq<seq<real>>, mean: real, ratios: seq<real>, i: int)
    requires 0 <= i < |ratios| && Trunc(ratios[i] * 10.0) >= 0
    requires Flatten(positions) == Density(mean, ratios[..i])
    ensures Flatten(positions + [Repeat(Multiple(mean, i + 1), Trunc(ratios[i] * 10.0))]) == Density(mean, ratios[..i + 1])
  {
    var block := Repeat(Multiple(mean, i + 1), Trunc(ratios[i] * 10.0));
    DensityStep(mean, ratios, i);
    FlattenAppend(positions, [block]);
    FlattenSingle(block);
  }

  /** Some ratio makes `[x] * n` take a negative count. */
  predicate NegativeCount(ratios: seq<real>) {
    exists i :: 0 <= i < |ratios| && Trunc(ratios[i] * 10.0) < 0
  }

  /**
   * What `putative_density` returns: `Array#*` raises on a negative count;
   * `flatten!` returns `nil` when there was nothing to flatten, that is for no
   * ratio at all; otherwise the flattened blocks.
   */
  function Putative(mean: real, ratios: seq<real>): Result<Option<seq<real>>> {
    if NegativeCount(ratios) then Raises("negative argument")
    else if ratios == [] then Ok(None)
    else Ok(Some(Density(mean, ratios)))
  }

  /** `putative_density`: one block per ratio, then `flatten!`. */
  method PutativeDensity(meanContigLen: real, ratios: seq<real>) returns (r: Result<Option<seq<real>>>)
    ensures r == Putative(meanContigLen, ratios)
  {
    var positions: seq<seq<real>> := [];
    for i := 0 to |ratios|
      invariant |positions| == i && Flatten(positions) == Density(meanContigLen, ratios[..i])
      invariant forall j :: 0 <= j < i ==> Trunc(ratios[j] * 10.0) >= 0
    {
      var multiple := i + 1;
      var count := Trunc(ratios[i] * 10.0);
      if count < 0 {
        return Raises("negative argument");
      }
      var block := Repeat(Multiple(meanContigLen, multiple), count);
      FlattenStep(positions, meanContigLen, ratios, i);
      positions := positions + [block];
    }
    assert ratios[..|ratios|] == ratios;
    if positions == [] {
      return Ok(None);
    }
    r := Ok(Some(Flatten(positions)));
  }

  /**
   * A negative count raises; otherwise an empty list of ratios gives `nil`
   * and any other the density, one entry per tenth of each ratio.
   */
  lemma {:induction false} PutativeCases(mean: real, ratios: seq<real>)
    ensures Putative(mean, ratios).Raises? <==> NegativeCount(ratios)
    ensures Putative(mean, ratios) == Ok(None) <==> ratios == []
    ensures Putative(mean, ratios).Ok? && ratios != [] ==>
      |Putative(mean, ratios).value.value| == SnpDist.TotalTimes(ratios)
  {
    if ratios != [] && !NegativeCount(ratios) {
      DensityLength(mean, ratios);
    }
  }

  lemma {:induction false} DensityLength(mean: real, ratios: seq<real>)
    ensures |Density(mean, ratios)| == SnpDist.TotalTimes(ratios)
  {
    if ratios != [] {
      DensityLength(mean, ratios[..|ratios| - 1]);
    }
  }

  lemma ScaleMonotone(mean: real, a: nat, b: nat)
    requires mean >= 0.0 && a <= b
    ensures Multiple(mean, a) <= Multiple(mean, b)
  {
    assert Multiple(mean, b) - Multiple(mean, a) == mean * (b - a) as real;
  }

  /**
   * For a non-negative mean the density never decreases, and it stays within
   * the end of the last fragment.
   */
  lemma {:induction false} DensitySorted(mean: real, ratios: seq<real>)
    requires mean >= 0.0
    ensures var d := Density(mean, ratios);
      (forall i, j :: 0 <= i < j < |d| ==> d[i] <= d[j])
      && forall x :: x in d ==> x <= Multiple(mean, |ratios|)
  {
    if ratios != [] {
      var n := |ratios|;
      var init := ratios[..n - 1];
      DensitySorted(mean, init);
      var a := Density(mean, init);
      var top := Multiple(mean, n);
      var block := Repeat(top, Times(ratios[n - 1] * 10.0));
      DensityLast(mean, ratios);
      ScaleMonotone(mean, n - 1, n);
      assert Multiple(mean, n - 1) == Multiple(mean, |init|);
      assert forall x :: x in a ==> x <= top;
      assert forall x :: x in block ==> x == top;
      SortedJoin(a, block, top);
    }
  }

  /** A sorted list followed by a sorted list that starts no lower than the first one's bound is sorted. */
  lemma SortedJoin(a: seq<real>, b: seq<real>, bound: real)
    requires forall i, j :: 0 <= i < j < |a| ==> a[i] <= a[j]
    requires forall x :: x in a ==> x <= bound
    requires forall x :: x in b ==> x == bound
    ensures forall i, j :: 0 <= i < j < |a + b| ==> (a + b)[i] <= (a + b)[j]
    ensures forall x :: x in a + b ==> x <= bound
  {
    var d := a + b;
    forall i, j | 0 <= i < j < |d| ensures d[i] <= d[j] {
      if j >= |a| {
        assert d[j] in b;
        if i < |a| {
          assert d[i] in a;
        } else {
          assert d[i] in b;
        }
      }
    }
  }

  /** Every value of a list, as a non-`nil` entry. */
  function Somes(s: seq<real>): (r: seq<Option<real>>)
    ensures |r| == |s| && forall i :: 0 <= i < |s| ==> r[i] == Some(s[i])
  {
    seq(|s|, i requires 0 <= i < |s| => Some(s[i]))
  }

  lemma SomesJoin(a: seq<real>, x: real, k: nat)
    ensures Somes(a + Repeat(x, k)) == Somes(a) + Repeat(Some(x), k)
  {
  }

  /**
   * `putative_density` lists what `SNPdist.densities_pos` lists over the
   * positions `SNPdist.general_positions` builds from the same mean size.
   */
  lemma {:induction false} DensityMatchesSnpDist(mean: real, ratios: seq<real>, positions: seq<real>)
    requires |positions| >= |ratios|
    requires forall i :: 0 <= i < |ratios| ==> positions[i] == Multiple(mean, i + 1)
    ensures SnpDist.Expand(ratios, positions) == Somes(Density(mean, ratios))
  {
    if ratios != [] {
      var n := |ratios|;
      var init := ratios[..n - 1];
      DensityMatchesSnpDist(mean, init, positions);
      var k := Times(ratios[n - 1] * 10.0);
      DensityLast(mean, ratios);
      assert SnpDist.At(positions, n - 1) == Some(Multiple(mean, n));
      assert SnpDist.Expand(ratios, positions) == SnpDist.Expand(init, positions) + Repeat(Some(Multiple(mean, n)), k);
      SomesJoin(Density(mean, init), Multiple(mean, n), k);
    }
  }

  /** The general positions of any mean size are the positions that lemma asks for. */
  lemma DensityMatchesGeneralPositions(mean: real, ratios: seq<real>)
    ensures SnpDist.Expand(ratios, SnpDist.Multiples(mean, |ratios|)) == Somes(Density(mean, ratios))
  {
    DensityMatchesSnpDist(mean, ratios, SnpDist.Multiples(mean, |ratios|));
  }

  /**
   * The hash `get_candidates` builds: the fragments of `frags` with variant
   * positions, once each in first-occurrence order, with their own lists.
   */
  function CandidateFrags(frags: seq<FragId>, varPosHm: map<FragId, seq<int>>): OHash<FragId, seq<int>> {
    OHash(Uniq(Select(frags, varPosHm.Keys)), Picked(frags, varPosHm))
  }

  /** The fragments of `frags` with variant positions, each with its own list. */
  function Picked(frags: seq<FragId>, varPosHm: map<FragId, seq<int>>): map<FragId, seq<int>> {
    map f | f in frags && f in varPosHm :: varPosHm[f]
  }

  lemma CandidateFragsValid(frags: seq<FragId>, varPosHm: map<FragId, seq<int>>)
    ensures CandidateFrags(frags, varPosHm).Valid()
    ensures forall f :: f in CandidateFrags(frags, varPosHm).keys <==> f in frags && f in varPosHm
  {
    var sel := Select(frags, varPosHm.Keys);
    forall f ensures f in Uniq(sel) <==> f in frags && f in varPosHm {
      SelectCount(frags, varPosHm.Keys, f);
      assert f in sel <==> multiset(sel)[f] > 0;
    }
  }

  /** The table part of one step of the loop. */
  lemma CandidateTableStep(pre: seq<FragId>, f: FragId, varPosHm: map<FragId, seq<int>>)
    ensures Picked(pre + [f], varPosHm)
         == if f in varPosHm then Picked(pre, varPosHm)[f := varPosHm[f]] else Picked(pre, varPosHm)
  {
    var m0, m1 := Picked(pre, varPosHm), Picked(pre + [f], varPosHm);
    if f in varPosHm {
      assert m1.Keys == m0.Keys + {f};
    } else {
      assert m1.Keys == m0.Keys;
    }
  }

  /** The key part of one step of the loop. */
  lemma CandidateKeysStep(pre: seq<FragId>, f: FragId, varPosHm: map<FragId, seq<int>>)
    ensures CandidateFrags(pre + [f], varPosHm).keys
         == if f in varPosHm && f !in CandidateFrags(pre, varPosHm).keys then CandidateFrags(pre, varPosHm).keys + [f]
            else CandidateFrags(pre, varPosHm).keys
  {
    var sel := Select(pre, varPosHm.Keys);
    assert (pre + [f])[..|pre|] == pre;
    assert Select(pre + [f], varPosHm.Keys) == sel + (if f in varPosHm then [f] else []);
    if f in varPosHm {
      UniqSnoc(sel, f);
    } else {
      assert sel + [] == sel;
    }
  }

  /** One fragment of the loop: stored when it has positions, passed over otherwise. */
  lemma CandidateStep(frags: seq<FragId>, varPosHm: map<FragId, seq<int>>, i: int)
    requires 0 <= i < |frags|
    ensures CandidateFrags(frags[..i], varPosHm).Valid()
    ensures CandidateFrags(frags[..i + 1], varPosHm)
         == if frags[i] in varPosHm then CandidateFrags(frags[..i], varPosHm).Store(frags[i], varPosHm[frags[i]])
            else CandidateFrags(frags[..i], varPosHm)
  {
    var pre, f := frags[..i], frags[i];
    CandidateFragsValid(pre, varPosHm);
    assert frags[..i + 1] == pre + [f];
    CandidateTableStep(pre, f, varPosHm);
    CandidateKeysStep(pre, f, varPosHm);
  }

  /** `get_candidates`: a loop over `frags`, looking each up in `var_pos_hm`. */
  method GetCandidates(frags: seq<FragId>, varPosHm: map<FragId, seq<int>>) returns (candidateFrags: OHash<FragId, seq<int>>)
    ensures candidateFrags.Valid() && candidateFrags == CandidateFrags(frags, varPosHm)
  {
    candidateFrags := Empty();
    assert frags[..0] == [];
    for i := 0 to |frags|
      invariant candidateFrags == CandidateFrags(frags[..i], varPosHm)
    {
      var frag := frags[i];
      CandidateStep(frags, varPosHm, i);
      if frag in varPosHm {
        candidateFrags := candidateFrags.Store(frag, varPosHm[frag]);
      }
    }
    assert frags[..|frags|] == frags;
    CandidateStep(frags + [""], varPosHm, |frags|);
    assert (frags + [""])[..|frags|] == frags;
  }

  /**
   * The candidates are exactly the fragments of `frags` that have variant
   * positions, each with its own list, in the order of `frags`.
   */
  lemma CandidateFragsMember(frags: seq<FragId>, varPosHm: map<FragId, seq<int>>, f: FragId)
    ensures f in CandidateFrags(frags, varPosHm).table <==> f in frags && f in varPosHm
    ensures f in CandidateFrags(frags, varPosHm).table ==> CandidateFrags(frags, varPosHm).table[f] == varPosHm[f]
    ensures f in CandidateFrags(frags, varPosHm).keys <==> f in frags && f in varPosHm
  {
    SelectCount(frags, varPosHm.Keys, f);
    assert f in Select(frags, varPosHm.Keys) <==> multiset(Select(frags, varPosHm.Keys))[f] > 0;
  }

  /** For duplicate-free fragments this is the candidate hash `SDM.calling_SDM` builds. */
  lemma CandidateFragsMatchSdm(frags: seq<FragId>, varPosHm: map<FragId, seq<int>>)
    requires Distinct(frags)
    ensures CandidateFrags(frags, varPosHm) == SDM.Candidates(frags, varPosHm)
  {
    var sel := Select(frags, varPosHm.Keys);
    forall f ensures multiset(sel)[f] <= 1 {
      SelectCount(frags, varPosHm.Keys, f);
    }
    UniqOfDistinct(sel);
  }
}
