/**
 * lib/pileup.rb: reading an mpileup read-bases column. `.` and `,` are reads
 * that match the reference, `acgtACGT` are reads that do not, and `+n…` or
 * `-n…` mark an insertion or deletion of `n` bases listed after the number.
 */
module Pileup {
  import opened Collections
  import opened Text

  /** The keys of a base-count hash: `:cov`, `:ref` and one symbol per base (`:A`, `:C`, …). */
  datatype Sym = Cov | Ref | Base(name: string)

  const Letters: set<char> := {'a', 'c', 'g', 't', 'A', 'C', 'G', 'T'}
  const RefMarks: set<char> := {'.', ','}

  /** `read_bases =~ /\+/ or read_bases =~ /\-/`: the column carries an indel marker. */
  predicate HasIndel(s: string) {
    '+' in s || '-' in s
  }

  /** `read_base_hash`: no counts at an indel, otherwise case-insensitive counts of A, C, G and T. */
  function ReadBaseHash(s: string): (h: OHash<Sym, nat>)
    ensures h.Valid()
    ensures h.keys == [] <==> HasIndel(s)
  {
    if HasIndel(s) then Empty()
    else
      OHash([Base("A"), Base("C"), Base("G"), Base("T")],
            map[Base("A") := Count(s, {'a', 'A'}), Base("C") := Count(s, {'c', 'C'}),
                Base("G") := Count(s, {'g', 'G'}), Base("T") := Count(s, {'t', 'T'})])
  }

  /** Without an indel marker each base is stored with its case-insensitive count. */
  lemma ReadBaseHashCounts(s: string)
    requires !HasIndel(s)
    ensures var t := ReadBaseHash(s).table;
      Base("A") in t && Base("C") in t && Base("G") in t && Base("T") in t
      && t[Base("A")] == Count(s, {'a', 'A'}) && t[Base("C")] == Count(s, {'c', 'C'})
      && t[Base("G")] == Count(s, {'g', 'G'}) && t[Base("T")] == Count(s, {'t', 'T'})
  {
  }

  /** The four case-insensitive counts add up to the count of all base letters. */
  lemma LetterCounts(s: string)
    ensures Count(s, {'a', 'A'}) + Count(s, {'c', 'C'}) + Count(s, {'g', 'G'}) + Count(s, {'t', 'T'}) == Count(s, Letters)
  {
    CountUnion(s, {'a', 'A'}, {'c', 'C'});
    CountUnion(s, {'g', 'G'}, {'t', 'T'});
    CountUnion(s, {'a', 'A', 'c', 'C'}, {'g', 'G', 't', 'T'});
    assert {'a', 'A'} + {'c', 'C'} == {'a', 'A', 'c', 'C'};
    assert {'g', 'G'} + {'t', 'T'} == {'g', 'G', 't', 'T'};
    assert {'a', 'A', 'c', 'C'} + {'g', 'G', 't', 'T'} == Letters;
  }

  /** Without an indel marker the four counts account for every base letter of the column. */
  lemma ReadBaseHashSum(s: string)
    requires !HasIndel(s)
    ensures var t := ReadBaseHash(s).table;
      t[Base("A")] + t[Base("C")] + t[Base("G")] + t[Base("T")] == Count(s, Letters)
  {
    ReadBaseHashCounts(s);
    LetterCounts(s);
  }

  /**
   * `/^(\d+)[atgcATGC]/.match(e)[1].to_i`: the indel length written at the
   * start of a piece, or `None` when the piece does not match (Ruby then
   * raises calling `[]` on `nil`).
   */
  function IndelLength(e: string): (k: Option<nat>)
    ensures k.Some? <==> 0 < LeadingDigits(e) < |e| && e[LeadingDigits(e)] in Letters
  {
    var n := LeadingDigits(e);
    if 0 < n < |e| && e[n] in Letters then Some(DigitsValue(e[..n])) else None
  }

  /** The summed indel lengths of the pieces, or the error of a piece that does not match. */
  function SumIndels(es: seq<string>): Result<nat> {
    if es == [] then Ok(0)
    else
      match SumIndels(es[..|es| - 1])
      case Raises(e) => Raises(e)
      case Ok(n) =>
        match IndelLength(es[|es| - 1])
        case None => Raises("undefined method '[]' for nil")
        case Some(k) => Ok(n + k)
  }

  /** The sum fails exactly when some piece does not start with a number followed by a base. */
  lemma {:induction false} SumIndelsRaises(es: seq<string>)
    ensures SumIndels(es).Raises? <==> exists i :: 0 <= i < |es| && IndelLength(es[i]).None?
  {
    if es != [] {
      var init := es[..|es| - 1];
      SumIndelsRaises(init);
      assert forall i :: 0 <= i < |init| ==> init[i] == es[i];
    }
  }

  /**
   * `count_indels`: drops the first piece from the caller's array (the text
   * before the first marker) and sums the lengths written at the start of the
   * others.
   */
  method CountIndels(pieces: Cell<seq<string>>) returns (number: Result<nat>)
    modifies pieces
    ensures pieces.value == if old(pieces.value) == [] then [] else old(pieces.value)[1..]
    ensures number == SumIndels(pieces.value)
  {
    if pieces.value != [] {
      pieces.value := pieces.value[1..];
    }
    var es := pieces.value;
    var sum := 0;
    for i := 0 to |es|
      invariant SumIndels(es[..i]) == Ok(sum)
    {
      assert es[..i + 1][..i] == es[..i];
      var k := IndelLength(es[i]);
      if k.None? {
        SumIndelsStop(es, i);
        return Raises("undefined method '[]' for nil");
      }
      sum := sum + k.value;
    }
    assert es[..|es|] == es;
    number := Ok(sum);
  }

  /** Once a piece fails to match, the whole sum fails. */
  lemma {:induction false} SumIndelsStop(es: seq<string>, i: int)
    requires 0 <= i < |es| && IndelLength(es[i]).None?
    ensures SumIndels(es) == Raises("undefined method '[]' for nil")
  {
    SumIndelsRaises(es);
    SumIndelsMessage(es);
  }

  lemma {:induction false} SumIndelsMessage(es: seq<string>)
    ensures SumIndels(es).Raises? ==> SumIndels(es) == Raises("undefined method '[]' for nil")
  {
    if es != [] {
      SumIndelsMessage(es[..|es| - 1]);
    }
  }

  /** The pieces after the first one, as `count_indels` sees them after its `shift`. */
  function AfterFirst(ps: seq<string>): seq<string> {
    if ps == [] then [] else ps[1..]
  }

  /** The non-reference read count of `get_nonref_ratio`, or the error `count_indels` raises. */
  function NonRefCount(s: string): Result<int> {
    var baseCounts := Count(s, Letters);
    if '+' in s then
      match SumIndels(AfterFirst(Split(s, '+')))
      case Raises(e) => Raises(e)
      case Ok(indelBases) => Ok(baseCounts + Count(s, {'+'}) - indelBases)
    else if '-' in s then
      match SumIndels(AfterFirst(Split(s, '-')))
      case Raises(e) => Raises(e)
      case Ok(indelBases) => Ok(baseCounts + Count(s, {'-'}) - indelBases)
    else Ok(baseCounts)
  }

  /**
   * `get_nonref_ratio`: the non-reference share of the reads. A zero
   * denominator (a float NaN or infinity in Ruby) is `None`.
   */
  function NonRefRatio(s: string): Result<Option<real>> {
    var refCount := Count(s, RefMarks);
    match NonRefCount(s)
    case Raises(e) => Raises(e)
    case Ok(nonRef) =>
      if refCount + nonRef == 0 then Ok(None)
      else Ok(Some(nonRef as real / (refCount + nonRef) as real))
  }

  /** Without an indel marker every base letter is a non-reference read. */
  lemma NonRefWithoutIndel(s: string)
    requires !HasIndel(s)
    ensures NonRefCount(s) == Ok(Count(s, Letters))
    ensures Count(s, RefMarks) + Count(s, Letters) > 0 ==>
      NonRefRatio(s) == Ok(Some(Count(s, Letters) as real / (Count(s, RefMarks) + Count(s, Letters)) as real))
  {
  }

  /**
   * With a `+` marker each insertion counts as one non-reference read and its
   * inserted bases are taken back out; the `-` branch is only reached without any `+`.
   */
  lemma NonRefWithIndel(s: string, c: char)
    requires c == '+' || (c == '-' && '+' !in s)
    requires c in s
    ensures SumIndels(AfterFirst(Split(s, c))).Ok? ==>
      NonRefCount(s) == Ok(Count(s, Letters) + Count(s, {c}) - SumIndels(AfterFirst(Split(s, c))).value)
    ensures SumIndels(AfterFirst(Split(s, c))).Raises? <==> NonRefCount(s).Raises?
  {
  }

  /** The indel pieces list their bases: the `k` characters after the number are base letters. */
  predicate IndelFits(e: string) {
    var n := LeadingDigits(e);
    match IndelLength(e)
    case None => false
    case Some(k) => n + k <= |e| && forall j :: n <= j < n + k ==> e[j] in Letters
  }

  /** A piece that lists its bases has at least as many letters as its length says. */
  lemma IndelFitsCount(e: string)
    requires IndelFits(e)
    ensures IndelLength(e).value <= Count(e, Letters)
  {
    var n := LeadingDigits(e);
    var k := IndelLength(e).value;
    assert e == e[..n] + e[n..n + k] + e[n + k..];
    CountAppend(e[..n] + e[n..n + k], e[n + k..], Letters);
    CountAppend(e[..n], e[n..n + k], Letters);
    AllLetters(e[n..n + k]);
  }

  lemma {:induction false} AllLetters(s: string)
    requires forall j :: 0 <= j < |s| ==> s[j] in Letters
    ensures Count(s, Letters) == |s|
  {
    if s != [] {
      AllLetters(s[1..]);
    }
  }

  /** Summed over pieces that list their bases, the indel lengths are covered by the letters. */
  lemma {:induction false} SumIndelsBound(es: seq<string>)
    requires forall i :: 0 <= i < |es| ==> IndelFits(es[i])
    ensures SumIndels(es).Ok? && SumIndels(es).value <= CountAll(es, Letters)
  {
    if es != [] {
      var init, last := es[..|es| - 1], es[|es| - 1];
      SumIndelsBound(init);
      IndelFitsCount(last);
      assert es == init + [last];
      CountAllAppend(init, [last], Letters);
    }
  }

  /** When every indel lists its bases as letters the non-reference count is never negative. */
  lemma NonRefNonNegative(s: string)
    requires var c := if '+' in s then '+' else '-';
      forall e :: e in AfterFirst(Split(s, c)) ==> IndelFits(e)
    ensures NonRefCount(s).Ok? && NonRefCount(s).value >= 0
  {
    var c := if '+' in s then '+' else '-';
    if HasIndel(s) {
      var ps := Split(s, c);
      var es := AfterFirst(ps);
      SumIndelsBound(es);
      CountSplit(s, c, Letters);
      if ps != [] {
        assert ps == [ps[0]] + es;
      }
    }
  }

  /** So then a non-zero denominator gives a ratio between 0 and 1. */
  lemma NonRefRatioBounds(s: string)
    requires var c := if '+' in s then '+' else '-';
      forall e :: e in AfterFirst(Split(s, c)) ==> IndelFits(e)
    ensures NonRefRatio(s).Ok?
    ensures NonRefRatio(s).value.Some? ==> 0.0 <= NonRefRatio(s).value.value <= 1.0
  {
    NonRefNonNegative(s);
    var refCount := Count(s, RefMarks);
    var nonRef := NonRefCount(s).value;
    if refCount + nonRef != 0 {
      ShareBounds(nonRef, refCount);
    }
  }

  /** A part of a non-negative total is a share between 0 and 1. */
  lemma ShareBounds(part: int, rest: int)
    requires 0 <= part && 0 <= rest && part + rest > 0
    ensures 0.0 <= part as real / (part + rest) as real <= 1.0
  {
    var d := (part + rest) as real;
    assert part as real / d * d == part as real;
  }

  /** `count.to_f / coverage`: the share of `coverage` one count makes. */
  function Share(count: nat, coverage: real): real
    requires coverage != 0.0
  {
    count as real / coverage
  }

  /** The keys other than `skip` whose share of `coverage` is above `noise`. */
  function Kept(t: map<Sym, nat>, skip: Sym, coverage: real, noise: real): set<Sym>
    requires coverage != 0.0
  {
    set k | k in t && k != skip && Share(t[k], coverage) > noise
  }

  /**
   * The share of `coverage` of each key of `ks` other than `skip` whose share
   * is above `noise`, in the order of `ks`: the hash that the base-fraction
   * loops of lib/compare_pileup.rb and lib/poly_vcf.rb fill.
   */
  function Fractions(h: OHash<Sym, nat>, ks: seq<Sym>, skip: Sym, coverage: real, noise: real): OHash<Sym, real>
    requires coverage != 0.0
  {
    var kept := Kept(h.table, skip, coverage, noise);
    OHash(Select(ks, kept), SharesOf(h.table, ks, kept, coverage))
  }

  /** The share of each key of `ks` that is in `kept`. */
  function SharesOf(t: map<Sym, nat>, ks: seq<Sym>, kept: set<Sym>, coverage: real): map<Sym, real>
    requires coverage != 0.0 && kept <= t.Keys
  {
    map k | k in ks && k in kept :: Share(t[k], coverage)
  }

  /** One more key: its share is added when it is kept. */
  lemma SharesOfSnoc(t: map<Sym, nat>, ks: seq<Sym>, kept: set<Sym>, coverage: real, k: Sym)
    requires coverage != 0.0 && kept <= t.Keys
    ensures SharesOf(t, ks + [k], kept, coverage)
         == if k in kept then SharesOf(t, ks, kept, coverage)[k := Share(t[k], coverage)] else SharesOf(t, ks, kept, coverage)
  {
    assert forall x :: x in ks + [k] <==> x in ks || x == k;
  }

  lemma FractionsValid(h: OHash<Sym, nat>, ks: seq<Sym>, skip: Sym, coverage: real, noise: real)
    requires coverage != 0.0 && Distinct(ks)
    ensures Fractions(h, ks, skip, coverage, noise).Valid()
  {
    var kept := Kept(h.table, skip, coverage, noise);
    forall x ensures multiset(Select(ks, kept))[x] <= 1 && (x in Select(ks, kept) <==> x in ks && x in kept) {
      SelectCount(ks, kept, x);
    }
  }

  /** One key of the loop: stored with its share when it is kept, skipped otherwise. */
  lemma FractionsSnoc(h: OHash<Sym, nat>, skip: Sym, coverage: real, noise: real, i: int)
    requires coverage != 0.0 && h.Valid() && 0 <= i < |h.keys|
    ensures Fractions(h, h.keys[..i], skip, coverage, noise).Valid()
    ensures var k := h.keys[i];
      Fractions(h, h.keys[..i + 1], skip, coverage, noise)
      == if k != skip && Share(h.table[k], coverage) > noise
         then Fractions(h, h.keys[..i], skip, coverage, noise).Store(k, Share(h.table[k], coverage))
         else Fractions(h, h.keys[..i], skip, coverage, noise)
  {
    var kept := Kept(h.table, skip, coverage, noise);
    DistinctPrefix(h.keys, i);
    DistinctFresh(h.keys, i);
    FractionsValid(h, h.keys[..i], skip, coverage, noise);
    SelectPrefixSnoc(h.keys, kept, i);
    assert h.keys[..i + 1] == h.keys[..i] + [h.keys[i]];
    SharesOfSnoc(h.table, h.keys[..i], kept, coverage, h.keys[i]);
  }

  /** Before the loop nothing is stored; after it every key has been seen. */
  lemma FractionsEnds(h: OHash<Sym, nat>, skip: Sym, coverage: real, noise: real)
    requires coverage != 0.0
    ensures Fractions(h, h.keys[..0], skip, coverage, noise) == Empty()
    ensures Fractions(h, h.keys[..|h.keys|], skip, coverage, noise) == Fractions(h, h.keys, skip, coverage, noise)
  {
    assert h.keys[..|h.keys|] == h.keys;
  }

  /**
   * A key gets a fraction exactly when it is not `skip` and its share is above
   * `noise`, and the fraction is that share.
   */
  lemma FractionsMember(h: OHash<Sym, nat>, skip: Sym, coverage: real, noise: real, k: Sym)
    requires coverage != 0.0 && h.Valid()
    ensures var r := Fractions(h, h.keys, skip, coverage, noise);
      (k in r.table <==> k in h.table && k != skip && h.table[k] as real / coverage > noise)
      && (k in r.table ==> r.table[k] == h.table[k] as real / coverage)
  {
  }

  /** The column `.,+2ag` splits at its one marker. */
  lemma SplitExample()
    ensures Split(".,+2ag", '+') == [".,", "2ag"]
  {
    var s := ".,+2ag";
    var p0 := Pieces("", '+');
    assert p0 == [""];
    var p1 := Pieces("g", '+');
    assert p1 == [['g'] + p0[0]] + p0[1..] by { assert "g"[0] == 'g' && "g"[1..] == ""; }
    assert ['g'] + "" == "g";
    assert p1 == ["g"];
    var p2 := Pieces("ag", '+');
    assert p2 == [['a'] + p1[0]] + p1[1..] by { assert "ag"[0] == 'a' && "ag"[1..] == "g"; }
    assert ['a'] + "g" == "ag";
    assert p2 == ["ag"];
    var p3 := Pieces("2ag", '+');
    assert p3 == [['2'] + p2[0]] + p2[1..] by { assert "2ag"[0] == '2' && "2ag"[1..] == "ag"; }
    assert ['2'] + "ag" == "2ag";
    assert p3 == ["2ag"];
    var p4 := Pieces("+2ag", '+');
    assert p4 == [""] + p3 by { assert "+2ag"[0] == '+' && "+2ag"[1..] == "2ag"; }
    assert p4 == ["", "2ag"];
    var p5 := Pieces(",+2ag", '+');
    assert p5 == [[','] + p4[0]] + p4[1..] by { assert ",+2ag"[0] == ',' && ",+2ag"[1..] == "+2ag"; }
    assert [','] + "" == ",";
    assert p5 == [",", "2ag"];
    var p6 := Pieces(s, '+');
    assert p6 == [['.'] + p5[0]] + p5[1..] by { assert s[0] == '.' && s[1..] == ",+2ag"; }
    assert ['.'] + "," == ".,";
    assert p6 == [".,", "2ag"];
  }

  lemma CountExample()
    ensures Count(".,+2ag", Letters) == 2 && Count(".,+2ag", {'+'}) == 1 && Count(".,+2ag", RefMarks) == 2
  {
    var s := ".,+2ag";
    assert s[1..] == ",+2ag" && s[1..][1..] == "+2ag" && s[1..][1..][1..] == "2ag";
    assert "2ag"[1..] == "ag" && "ag"[1..] == "g" && "g"[1..] == "";
  }

  /**
   * Two reference reads and one read with a two-base insertion: the insertion
   * counts once and its bases `ag` do not, so one read in three is non-reference.
   */
  lemma InsertionExample()
    ensures NonRefRatio(".,+2ag") == Ok(Some(1.0 / 3.0))
  {
    SplitExample();
    CountExample();
    IndelExample();
    assert AfterFirst([".,", "2ag"]) == ["2ag"];
    assert NonRefCount(".,+2ag") == Ok(1);
  }

  /** `2ag` is an insertion of two bases. */
  lemma IndelExample()
    ensures SumIndels(["2ag"]) == Ok(2)
  {
    assert LeadingDigits("ag") == 0;
    assert LeadingDigits("2ag") == 1 by { assert "2ag"[1..] == "ag"; }
    assert "2ag"[..1] == "2";
    assert DigitsValue("2") == 2;
    assert IndelLength("2ag") == Some(2);
    assert ["2ag"][..0] == [];
  }
}
