/**
 * lib/compare_pileup.rb, class PileupCompare: turning base counts into allele
 * fractions, classifying a variant as heterozygous or homozygous, and storing
 * it unless the background bulk already shows the same zygosity.
 */
module PileupCompare {
  import opened Collections
  import opened Zygosity
  import opened Fragments
  import opened Pileup

  /** The entries of `@defaults` the classification reads, passed explicitly. */
  datatype Settings = Settings(noise: real, htLow: real, htHigh: real, minDepth: int)

  /** `noise: 0.1`, `ht_low: 0.2`, `ht_high: 0.9`, `min_depth: 6`. */
  const Defaults := Settings(0.1, 0.2, 0.9, 6)

  /** `store_hash[mode][frag][pos]`, flattened into one key. */
  datatype Site = Site(mode: Mode, frag: FragId, pos: int)

  /** The fractions `get_var_base_frac` returns: none below `min_depth`, otherwise the shares above noise of every key but `:cov`. */
  function VarBaseFrac(hash: OHash<Sym, nat>, s: Settings): OHash<Sym, real>
    requires Cov in hash.table && s.minDepth > 0
  {
    var coverage := hash.table[Cov];
    if coverage < s.minDepth then Empty()
    else Fractions(hash, hash.keys, Cov, coverage as real, s.noise)
  }

  /** `get_var_base_frac`: a loop over the keys of the count hash. */
  method GetVarBaseFrac(hash: OHash<Sym, nat>, s: Settings) returns (snpHash: OHash<Sym, real>)
    requires hash.Valid() && Cov in hash.table && s.minDepth > 0
    ensures snpHash.Valid() && snpHash == VarBaseFrac(hash, s)
  {
    snpHash := Empty();
    var coverage := hash.table[Cov];
    if coverage < s.minDepth {
      return;
    }
    var cov := coverage as real;
    FractionsEnds(hash, Cov, cov, s.noise);
    for i := 0 to |hash.keys|
      invariant snpHash.Valid() && snpHash == Fractions(hash, hash.keys[..i], Cov, cov, s.noise)
    {
      var base := hash.keys[i];
      FractionsSnoc(hash, Cov, cov, s.noise, i);
      if base == Cov {
        continue;
      }
      var freq := Share(hash.table[base], cov);
      if freq <= s.noise {
        continue;
      }
      snpHash := snpHash.Store(base, freq);
    }
  }

  /**
   * Below `min_depth` nothing is kept; otherwise a key, `:ref` included, is kept
   * exactly when its count over `:cov` is above the noise level, with that share.
   */
  lemma VarBaseFracMember(hash: OHash<Sym, nat>, s: Settings, k: Sym)
    requires hash.Valid() && Cov in hash.table && s.minDepth > 0
    ensures hash.table[Cov] < s.minDepth ==> VarBaseFrac(hash, s).keys == []
    ensures hash.table[Cov] >= s.minDepth ==>
      var frac := VarBaseFrac(hash, s);
      var cov := hash.table[Cov] as real;
      (k in frac.table <==> k in hash.table && k != Cov && hash.table[k] as real / cov > s.noise)
      && (k in frac.table ==> k in hash.table && frac.table[k] == hash.table[k] as real / cov)
  {
    if hash.table[Cov] >= s.minDepth {
      FractionsMember(hash, Cov, hash.table[Cov] as real, s.noise, k);
    }
  }

  /** The fractions are kept in the order of the count hash. */
  lemma VarBaseFracOrder(hash: OHash<Sym, nat>, s: Settings)
    requires hash.Valid() && Cov in hash.table && s.minDepth > 0
    ensures VarBaseFrac(hash, s).Valid()
    ensures hash.table[Cov] >= s.minDepth ==>
      VarBaseFrac(hash, s).keys == Select(hash.keys, set k | k in VarBaseFrac(hash, s).table)
  {
    var frac := VarBaseFrac(hash, s);
    if hash.table[Cov] >= s.minDepth {
      var cov := hash.table[Cov] as real;
      FractionsValid(hash, hash.keys, Cov, cov, s.noise);
      assert (set k | k in frac.table) == Kept(hash.table, Cov, cov, s.noise);
    }
  }

  /**
   * What `push_base_hash` does with fractions from which `:ref` is gone: store
   * nothing, store a fraction under a mode, or raise. Several bases are
   * classified by their largest fraction, and a background without any
   * fraction then makes `var_mode(nil)` raise.
   */
  function Verdict(bases: OHash<Sym, real>, background: Option<OHash<Sym, real>>, s: Settings): Result<Option<(Mode, real)>>
    requires bases.Valid() && (background.Some? ==> background.value.Valid())
  {
    if bases.keys == [] then Ok(None)
    else if |bases.keys| > 1 then
      var top := MaxOf(bases.Values());
      var mutType := VarMode(top, s.htLow, s.htHigh);
      if background.None? then Ok(Some((mutType, top)))
      else if background.value.keys == [] then Raises("undefined method 'between?' for nil")
      else if VarMode(MaxOf(background.value.Values()), s.htLow, s.htHigh) == mutType then Ok(None)
      else Ok(Some((mutType, top)))
    else
      var base := bases.keys[0];
      var mutType := VarMode(bases.table[base], s.htLow, s.htHigh);
      if background.Some? && base in background.value.table
         && VarMode(background.value.table[base], s.htLow, s.htHigh) == mutType
      then Ok(None)
      else Ok(Some((mutType, bases.table[base])))
  }

  /** The store after a verdict: unchanged, or one entry set. */
  function Stored(store: map<Site, real>, frag: FragId, pos: int, v: Result<Option<(Mode, real)>>): map<Site, real> {
    if v.Ok? && v.value.Some? then store[Site(v.value.value.0, frag, pos) := v.value.value.1] else store
  }

  /**
   * `push_base_hash`: deletes `:ref` from the caller's fraction hash, then
   * stores the verdict into the caller's store hash.
   */
  method PushBaseHash(baseHash: Cell<OHash<Sym, real>>, store: Cell<map<Site, real>>, frag: FragId, pos: int,
                      background: Option<OHash<Sym, real>>, s: Settings) returns (outcome: Result<()>)
    requires baseHash.value.Valid() && (background.Some? ==> background.value.Valid())
    modifies baseHash, store
    ensures baseHash.value == old(baseHash.value).Delete(Ref)
    ensures var v := Verdict(baseHash.value, background, s);
      store.value == Stored(old(store.value), frag, pos, v)
      && outcome == if v.Raises? then Raises(v.error) else Ok(())
  {
    baseHash.value := baseHash.value.Delete(Ref);
    var v := Verdict(baseHash.value, background, s);
    if v.Raises? {
      return Raises(v.error);
    }
    if v.value.Some? {
      var (mode, fraction) := v.value.value;
      store.value := store.value[Site(mode, frag, pos) := fraction];
    }
    outcome := Ok(());
  }

  /**
   * A stored fraction is the largest fraction of the variant, filed under its
   * own mode; nothing is stored for a variant without fractions.
   */
  lemma VerdictStoresMaximum(bases: OHash<Sym, real>, background: Option<OHash<Sym, real>>, s: Settings)
    requires bases.Valid() && (background.Some? ==> background.value.Valid())
    ensures bases.keys == [] ==> Verdict(bases, background, s) == Ok(None)
    ensures Verdict(bases, background, s).Ok? && Verdict(bases, background, s).value.Some? ==>
      var (mode, f) := Verdict(bases, background, s).value.value;
      f in bases.Values() && (forall x :: x in bases.Values() ==> x <= f) && mode == VarMode(f, s.htLow, s.htHigh)
  {
    if |bases.keys| == 1 {
      var vs := bases.Values();
      assert vs == [bases.table[bases.keys[0]]];
    }
  }

  /**
   * With one base, nothing is stored exactly when the background has that base
   * in the same mode; otherwise its fraction is stored even under the `''` mode.
   */
  lemma VerdictOneBase(bases: OHash<Sym, real>, background: Option<OHash<Sym, real>>, s: Settings)
    requires bases.Valid() && |bases.keys| == 1 && (background.Some? ==> background.value.Valid())
    ensures var base := bases.keys[0];
      var mode := VarMode(bases.table[base], s.htLow, s.htHigh);
      var same := background.Some? && base in background.value.table
                  && VarMode(background.value.table[base], s.htLow, s.htHigh) == mode;
      Verdict(bases, background, s) == if same then Ok(None) else Ok(Some((mode, bases.table[base])))
  {
  }

  /**
   * With several bases, nothing is stored exactly when the background's largest
   * fraction has the same mode as the variant's; the call raises when the
   * background has no fraction at all.
   */
  lemma VerdictSeveralBases(bases: OHash<Sym, real>, background: Option<OHash<Sym, real>>, s: Settings)
    requires bases.Valid() && |bases.keys| > 1 && (background.Some? ==> background.value.Valid())
    ensures Verdict(bases, background, s).Raises? <==> background.Some? && background.value.keys == []
    ensures background.Some? && background.value.keys != [] ==>
      (Verdict(bases, background, s) == Ok(None)
       <==> VarMode(MaxOf(background.value.Values()), s.htLow, s.htHigh) == VarMode(MaxOf(bases.Values()), s.htLow, s.htHigh))
    ensures background.None? ==> Verdict(bases, background, s).Ok? && Verdict(bases, background, s).value.Some?
  {
  }

  /** A push changes the store in at most one entry, and that entry is for the variant's own fragment and position. */
  lemma StoredAtMostOne(store: map<Site, real>, frag: FragId, pos: int, v: Result<Option<(Mode, real)>>)
    ensures store.Keys <= Stored(store, frag, pos, v).Keys
    ensures |Stored(store, frag, pos, v).Keys| <= |store.Keys| + 1
    ensures forall k :: k in Stored(store, frag, pos, v) && (k !in store || Stored(store, frag, pos, v)[k] != store[k])
                        ==> k.frag == frag && k.pos == pos
  {
    if v.Ok? && v.value.Some? {
      var k := Site(v.value.value.0, frag, pos);
      assert Stored(store, frag, pos, v).Keys == store.Keys + {k};
    }
  }

  /**
   * `wrapper_to_push_base_hash`: the background's fractions are passed only
   * when the background bulk has a count hash at this fragment and position.
   */
  method WrapperToPushBaseHash(mutBases: Cell<OHash<Sym, real>>, frag: FragId, pos: int,
                               bgPileupHash: map<FragId, map<int, OHash<Sym, nat>>>, outHash: Cell<map<Site, real>>,
                               s: Settings) returns (outcome: Result<()>)
    requires mutBases.value.Valid() && s.minDepth > 0
    requires frag in bgPileupHash && pos in bgPileupHash[frag] ==>
      bgPileupHash[frag][pos].Valid() && Cov in bgPileupHash[frag][pos].table
    modifies mutBases, outHash
    ensures mutBases.value == old(mutBases.value).Delete(Ref)
    ensures var background := if frag in bgPileupHash && pos in bgPileupHash[frag]
                              then Some(VarBaseFrac(bgPileupHash[frag][pos], s)) else None;
      (background.Some? ==> background.value.Valid())
      && var v := Verdict(mutBases.value, background, s);
      outHash.value == Stored(old(outHash.value), frag, pos, v)
      && outcome == if v.Raises? then Raises(v.error) else Ok(())
  {
    if frag in bgPileupHash && pos in bgPileupHash[frag] {
      var bgBases := GetVarBaseFrac(bgPileupHash[frag][pos], s);
      outcome := PushBaseHash(mutBases, outHash, frag, pos, Some(bgBases), s);
    } else {
      outcome := PushBaseHash(mutBases, outHash, frag, pos, None, s);
    }
  }
}
