/**
 * lib/poly_vcf.rb, class Polyploid: allele fractions over the total read
 * count, a wider heterozygous band, and one zygosity push per single-base
 * variant whose zygosity differs from the background's.
 */
module Polyploid {
  import opened Collections
  import opened Zygosity
  import opened Fragments
  import opened Pileup
  import Stuff

  /** The default band of `var_mode`: 0.10 to 0.90. */
  const HtLow: real := 0.10
  const HtHigh: real := 0.90

  /** `hash.values.inject { |sum, n| sum + n.to_f }`: every count, `:ref` included. */
  function Coverage(hash: OHash<Sym, nat>): nat
    requires hash.Valid()
  {
    Stuff.SumOver(hash.table, hash.keys)
  }

  /**
   * What `get_base_freq` returns. An empty count hash makes `inject` return
   * `nil`, and comparing `nil` with the depth raises; below the depth nothing
   * is kept; otherwise the share above noise of every base but `:ref`.
   */
  function BaseFreq(hash: OHash<Sym, nat>, depth: real, noise: real): Result<OHash<Sym, real>>
    requires hash.Valid() && depth > 0.0
  {
    if hash.keys == [] then Raises("undefined method '<' for nil")
    else if (Coverage(hash) as real) < depth then Ok(Empty())
    else Ok(Fractions(hash, hash.keys, Ref, Coverage(hash) as real, noise))
  }

  /** `get_base_freq`: a fold for the coverage, then a loop over the bases. */
  method GetBaseFreq(hash: OHash<Sym, nat>, depth: real, noise: real) returns (snpHash: Result<OHash<Sym, real>>)
    requires hash.Valid() && depth > 0.0
    ensures snpHash == BaseFreq(hash, depth, noise)
    ensures snpHash.Ok? ==> snpHash.value.Valid()
  {
    if hash.keys == [] {
      return Raises("undefined method '<' for nil");
    }
    var coverage := 0;
    for i := 0 to |hash.keys|
      invariant coverage == Stuff.SumOver(hash.table, hash.keys[..i])
    {
      assert hash.keys[..i + 1] == hash.keys[..i] + [hash.keys[i]];
      Stuff.SumOverAppend(hash.table, hash.keys[..i], [hash.keys[i]]);
      coverage := coverage + hash.table[hash.keys[i]];
    }
    assert hash.keys[..|hash.keys|] == hash.keys;
    var cov := coverage as real;
    if cov < depth {
      return Ok(Empty());
    }
    var out := Empty();
    FractionsEnds(hash, Ref, cov, noise);
    for i := 0 to |hash.keys|
      invariant out.Valid() && out == Fractions(hash, hash.keys[..i], Ref, cov, noise)
    {
      var base := hash.keys[i];
      FractionsSnoc(hash, Ref, cov, noise, i);
      if base == Ref {
        continue;
      }
      var freq := Share(hash.table[base], cov);
      if freq <= noise {
        continue;
      }
      out := out.Store(base, freq);
    }
    snpHash := Ok(out);
  }

  /** The total of the fractions stored under `ks`. */
  function SumFractions(t: map<Sym, real>, ks: seq<Sym>): real
    requires forall k :: k in ks ==> k in t
  {
    if ks == [] then 0.0 else t[ks[0]] + SumFractions(t, ks[1..])
  }

  lemma {:induction false} SumFractionsAppend(t: map<Sym, real>, a: seq<Sym>, b: seq<Sym>)
    requires forall k :: k in a + b ==> k in t
    ensures SumFractions(t, a + b) == SumFractions(t, a) + SumFractions(t, b)
  {
    if a == [] {
      assert a + b == b;
    } else {
      assert (a + b)[1..] == a[1..] + b;
      SumFractionsAppend(t, a[1..], b);
    }
  }

  lemma {:induction false} SumFractionsFrame(t: map<Sym, real>, u: map<Sym, real>, ks: seq<Sym>)
    requires forall k :: k in ks ==> k in t && k in u && t[k] == u[k]
    ensures SumFractions(t, ks) == SumFractions(u, ks)
  {
    if ks != [] {
      SumFractionsFrame(t, u, ks[1..]);
    }
  }

  /** The shares of `coverage` of the counts under `ks`. */
  function ShareSum(t: map<Sym, nat>, ks: seq<Sym>, coverage: real): real
    requires coverage > 0.0 && forall k :: k in ks ==> k in t
  {
    if ks == [] then 0.0 else t[ks[0]] as real / coverage + ShareSum(t, ks[1..], coverage)
  }

  lemma {:induction false} ShareSumAppend(t: map<Sym, nat>, a: seq<Sym>, b: seq<Sym>, coverage: real)
    requires coverage > 0.0 && forall k :: k in a + b ==> k in t
    ensures ShareSum(t, a + b, coverage) == ShareSum(t, a, coverage) + ShareSum(t, b, coverage)
  {
    if a == [] {
      assert a + b == b;
    } else {
      assert (a + b)[1..] == a[1..] + b;
      ShareSumAppend(t, a[1..], b, coverage);
    }
  }

  /** The shares add up to the share of the total. */
  lemma {:induction false} ShareSumOver(t: map<Sym, nat>, ks: seq<Sym>, coverage: real)
    requires coverage > 0.0 && forall k :: k in ks ==> k in t
    ensures ShareSum(t, ks, coverage) == Stuff.SumOver(t, ks) as real / coverage
  {
    if ks != [] {
      ShareSumOver(t, ks[1..], coverage);
      var x, y := t[ks[0]] as real, Stuff.SumOver(t, ks[1..]) as real;
      assert (x + y) / coverage == x / coverage + y / coverage;
    }
  }

  /** Keeping only some of the keys keeps at most their total share. */
  lemma {:induction false} ShareSumSelect(t: map<Sym, nat>, ks: seq<Sym>, kept: set<Sym>, coverage: real)
    requires coverage > 0.0 && forall k :: k in ks ==> k in t
    ensures forall k :: k in Select(ks, kept) ==> k in t
    ensures ShareSum(t, Select(ks, kept), coverage) <= ShareSum(t, ks, coverage)
  {
    forall k | k in Select(ks, kept) ensures k in t {
      SelectCount(ks, kept, k);
    }
    if ks != [] {
      var init, last := ks[..|ks| - 1], ks[|ks| - 1];
      assert ks == init + [last];
      ShareSumSelect(t, init, kept, coverage);
      ShareSumAppend(t, init, [last], coverage);
      var tail := if last in kept then [last] else [];
      ShareSumAppend(t, Select(init, kept), tail, coverage);
      assert t[last] as real / coverage >= 0.0;
    }
  }

  /** A sum of fractions that are each a share of `coverage` is that share sum. */
  lemma {:induction false} SumFractionsShares(r: map<Sym, real>, t: map<Sym, nat>, ks: seq<Sym>, coverage: real)
    requires coverage > 0.0
    requires forall k :: k in ks ==> k in r && k in t && r[k] == t[k] as real / coverage
    ensures SumFractions(r, ks) == ShareSum(t, ks, coverage)
  {
    if ks != [] {
      SumFractionsShares(r, t, ks[1..], coverage);
    }
  }

  /** The kept fractions of the bases `ks` add up to at most their share of the coverage. */
  lemma FractionsTotal(hash: OHash<Sym, nat>, ks: seq<Sym>, coverage: real, noise: real)
    requires coverage > 0.0 && forall k :: k in ks ==> k in hash.table
    ensures var r := Fractions(hash, ks, Ref, coverage, noise);
      (forall k :: k in r.keys ==> k in r.table)
      && SumFractions(r.table, r.keys) <= Stuff.SumOver(hash.table, ks) as real / coverage
  {
    var kept := Kept(hash.table, Ref, coverage, noise);
    var r := Fractions(hash, ks, Ref, coverage, noise);
    forall k | k in r.keys ensures k in ks && k in kept {
      SelectCount(ks, kept, k);
    }
    SumFractionsShares(r.table, hash.table, r.keys, coverage);
    ShareSumSelect(hash.table, ks, kept, coverage);
    ShareSumOver(hash.table, ks, coverage);
  }

  lemma WholeShare(x: real)
    requires x > 0.0
    ensures x / x == 1.0
  {
  }

  /** The fractions `get_base_freq` returns add up to at most 1. */
  lemma BaseFreqTotal(hash: OHash<Sym, nat>, depth: real, noise: real)
    requires hash.Valid() && depth > 0.0
    ensures BaseFreq(hash, depth, noise).Ok? ==>
      var r := BaseFreq(hash, depth, noise).value;
      r.Valid() && SumFractions(r.table, r.keys) <= 1.0
  {
    if hash.keys != [] && (Coverage(hash) as real) >= depth {
      var cov := Coverage(hash) as real;
      FractionsValid(hash, hash.keys, Ref, cov, noise);
      FractionsTotal(hash, hash.keys, cov, noise);
      WholeShare(cov);
    }
  }

  /**
   * `get_base_freq` raises on an empty count hash, returns nothing below the
   * depth, and otherwise keeps a base other than `:ref` exactly when its share
   * of the coverage is above the noise level.
   */
  lemma BaseFreqMember(hash: OHash<Sym, nat>, depth: real, noise: real, k: Sym)
    requires hash.Valid() && depth > 0.0
    ensures BaseFreq(hash, depth, noise).Raises? <==> hash.keys == []
    ensures hash.keys != [] && (Coverage(hash) as real) < depth ==> BaseFreq(hash, depth, noise) == Ok(Empty())
    ensures hash.keys != [] && (Coverage(hash) as real) >= depth ==>
      var r := BaseFreq(hash, depth, noise).value;
      var cov := Coverage(hash) as real;
      (k in r.table <==> k in hash.table && k != Ref && hash.table[k] as real / cov > noise)
      && (k in r.table ==> k in hash.table && r.table[k] == hash.table[k] as real / cov)
  {
    if hash.keys != [] && (Coverage(hash) as real) >= depth {
      FractionsMember(hash, Ref, Coverage(hash) as real, noise, k);
    }
  }

  /** `Vcf.push_to_hash(store_hash, frag, pos, mut_type)`, recorded as one entry of a log. */
  datatype Push = Push(frag: FragId, pos: int, mode: Mode)

  /**
   * `push_base_hash` as written. Several bases are skipped (with a warning);
   * a single base is pushed unless the background has it in the same mode.
   * An empty fraction hash reaches `var_mode(nil)` on either branch and raises.
   */
  function PushBaseHash(bases: OHash<Sym, real>, store: seq<Push>, frag: FragId, pos: int,
                        background: Option<OHash<Sym, real>>): Result<seq<Push>>
    requires bases.Valid()
  {
    if |bases.keys| > 1 then Ok(store)
    else if bases.keys == [] then Raises("undefined method 'between?' for nil")
    else
      var base := bases.keys[0];
      var mutType := VarMode(bases.table[base], HtLow, HtHigh);
      if background.Some? && base in background.value.table
         && VarMode(background.value.table[base], HtLow, HtHigh) == mutType
      then Ok(store)
      else Ok(store + [Push(frag, pos, mutType)])
  }

  /**
   * The store is unchanged for several bases or for a background with the
   * same base in the same mode; every other single-base variant is pushed
   * exactly once, with its own mode.
   */
  lemma PushBaseHashCases(bases: OHash<Sym, real>, store: seq<Push>, frag: FragId, pos: int,
                          background: Option<OHash<Sym, real>>)
    requires bases.Valid()
    ensures |bases.keys| > 1 ==> PushBaseHash(bases, store, frag, pos, background) == Ok(store)
    ensures |bases.keys| == 1 ==>
      var base := bases.keys[0];
      var mode := VarMode(bases.table[base], HtLow, HtHigh);
      var same := background.Some? && base in background.value.table
                  && VarMode(background.value.table[base], HtLow, HtHigh) == mode;
      PushBaseHash(bases, store, frag, pos, background) == if same then Ok(store) else Ok(store + [Push(frag, pos, mode)])
  {
  }

  /** As written, the call raises exactly when no fraction is left. */
  lemma EmptyBasesRaise(bases: OHash<Sym, real>, store: seq<Push>, frag: FragId, pos: int,
                        background: Option<OHash<Sym, real>>)
    requires bases.Valid()
    ensures PushBaseHash(bases, store, frag, pos, background).Raises? <==> bases.keys == []
  {
  }

  /**
   * A site read by three reads, all showing base A: below the default depth of
   * 6, `get_base_freq` returns an empty hash, and handing it on raises.
   */
  lemma LowCoverageRaises(store: seq<Push>, frag: FragId, pos: int)
    ensures var counts := OHash([Base("A")], map[Base("A") := 3]);
      counts.Valid() && BaseFreq(counts, 6.0, 0.1) == Ok(Empty())
      && PushBaseHash(Empty(), store, frag, pos, None).Raises?
  {
    var counts := OHash([Base("A")], map[Base("A") := 3]);
    assert Coverage(counts) == 3;
  }

  /** `push_base_hash` with the empty-hash guard of `PileupCompare.push_base_hash`. */
  function PushBaseHashFixed(bases: OHash<Sym, real>, store: seq<Push>, frag: FragId, pos: int,
                             background: Option<OHash<Sym, real>>): seq<Push>
    requires bases.Valid()
  {
    if bases.keys == [] then store
    else PushBaseHash(bases, store, frag, pos, background).value
  }

  /**
   * The guarded version never raises, agrees with the original wherever that
   * does not raise, and pushes at most once, after what was stored.
   */
  lemma PushBaseHashFixedSound(bases: OHash<Sym, real>, store: seq<Push>, frag: FragId, pos: int,
                               background: Option<OHash<Sym, real>>)
    requires bases.Valid()
    ensures PushBaseHash(bases, store, frag, pos, background).Ok? ==>
      PushBaseHashFixed(bases, store, frag, pos, background) == PushBaseHash(bases, store, frag, pos, background).value
    ensures var r := PushBaseHashFixed(bases, store, frag, pos, background);
      |store| <= |r| <= |store| + 1 && r[..|store|] == store
      && (|r| > |store| ==> r[|store|].frag == frag && r[|store|].pos == pos)
    ensures bases.keys == [] ==> PushBaseHashFixed(bases, store, frag, pos, background) == store
  {
    var r := PushBaseHashFixed(bases, store, frag, pos, background);
    assert r == store || exists m :: r == store + [Push(frag, pos, m)];
  }
}
