/**
 * lib/vcf.rb, class Vcf: the zygosity of each variant position read from the
 * INFO flags of a VCF file, and the removal of the variants a parent shares
 * with the mutant.
 */
module Vcf {
  import opened Collections
  import opened Text

  /** The INFO column of one record, as a hash from field name to value. */
  type Info = OHash<string, string>

  /** A variant position; `nil` where a flag has no position left to take. */
  type Position = Option<int>

  /** The INFO fields of one record whose value is `1`. */
  function FlagSet(info: Info): set<string> {
    set k | k in info.table && info.table[k] == "1"
  }

  /** The flags of one record, in field order. */
  function Ones(info: Info): seq<string> {
    Select(info.keys, FlagSet(info))
  }

  /** The flags of every record, record after record. */
  function Flags(infos: seq<Info>): seq<string> {
    if infos == [] then [] else Flags(infos[..|infos| - 1]) + Ones(infos[|infos| - 1])
  }

  /** `vcfs_pos[x]`: `nil` past the end of the list. */
  function At(pos: seq<int>, x: nat): Position {
    if x < |pos| then Some(pos[x]) else None
  }

  /** The `x`-th flag is paired with the `x`-th position, whichever record it comes from. */
  function Typed(flags: seq<string>, pos: seq<int>): (pairs: seq<(Position, string)>)
    ensures |pairs| == |flags|
    ensures forall i :: 0 <= i < |flags| ==> pairs[i] == (At(pos, i), flags[i])
  {
    seq(|flags|, i requires 0 <= i < |flags| => (At(pos, i), flags[i]))
  }

  /** The `snps` hash `type_per_pos` builds. */
  function Snps(infos: seq<Info>, pos: seq<int>): OHash<Position, string> {
    StoreAll(Typed(Flags(infos), pos))
  }

  /** The positions stored with type `t`, in the order of the hash. */
  function WithType(snps: OHash<Position, string>, t: string): seq<Position> {
    Select(snps.keys, set p | p in snps.table && snps.table[p] == t)
  }

  lemma TypedSnoc(flags: seq<string>, t: string, pos: seq<int>)
    ensures Typed(flags + [t], pos) == Typed(flags, pos) + [(At(pos, |flags|), t)]
  {
  }

  /** One flag of the inner loop: it is stored under the next position. */
  lemma FlagStored(done: seq<string>, t: string, pos: seq<int>)
    ensures StoreAll(Typed(done + [t], pos)) == StoreAll(Typed(done, pos)).Store(At(pos, |done|), t)
  {
    TypedSnoc(done, t, pos);
    StoreAllSnoc(Typed(done, pos), At(pos, |done|), t);
  }

  /** The state of the inner loop after the first `j` fields of a record. */
  ghost predicate FlagsDone(hash: Info, pos: seq<int>, before: seq<string>, j: int, snps: OHash<Position, string>, x: int)
    requires 0 <= j <= |hash.keys|
  {
    var done := before + Select(hash.keys[..j], FlagSet(hash));
    x == |done| && snps == StoreAll(Typed(done, pos))
  }

  /** A flag is stored under the next position. */
  lemma FlagStep(hash: Info, pos: seq<int>, before: seq<string>, j: int, snps: OHash<Position, string>, x: int)
    requires hash.Valid() && 0 <= j < |hash.keys| && FlagsDone(hash, pos, before, j, snps, x)
    requires hash.table[hash.keys[j]] == "1"
    ensures snps.Valid() && FlagsDone(hash, pos, before, j + 1, snps.Store(At(pos, x), hash.keys[j]), x + 1)
  {
    var t := hash.keys[j];
    var sel := Select(hash.keys[..j], FlagSet(hash));
    var done := before + sel;
    assert t in FlagSet(hash);
    SelectPrefixSnoc(hash.keys, FlagSet(hash), j);
    assert Select(hash.keys[..j + 1], FlagSet(hash)) == sel + [t];
    FlagStored(done, t, pos);
    assert before + (sel + [t]) == done + [t];
  }

  /** Any other field is passed over. */
  lemma OtherFieldStep(hash: Info, pos: seq<int>, before: seq<string>, j: int, snps: OHash<Position, string>, x: int)
    requires hash.Valid() && 0 <= j < |hash.keys| && FlagsDone(hash, pos, before, j, snps, x)
    requires hash.table[hash.keys[j]] != "1"
    ensures FlagsDone(hash, pos, before, j + 1, snps, x)
  {
    var t := hash.keys[j];
    assert t !in FlagSet(hash);
    SelectPrefixSnoc(hash.keys, FlagSet(hash), j);
    assert Select(hash.keys[..j + 1], FlagSet(hash)) == Select(hash.keys[..j], FlagSet(hash));
  }

  /** The inner loop of `type_per_pos`: the flags of one record, each under the next position. */
  method StoreFlags(hash: Info, pos: seq<int>, snps0: OHash<Position, string>, x0: int, ghost before: seq<string>)
    returns (snps: OHash<Position, string>, x: int)
    requires hash.Valid() && x0 == |before| && snps0 == StoreAll(Typed(before, pos))
    ensures x == |before + Ones(hash)| && snps == StoreAll(Typed(before + Ones(hash), pos))
  {
    snps, x := snps0, x0;
    assert before + Select(hash.keys[..0], FlagSet(hash)) == before;
    for j := 0 to |hash.keys|
      invariant FlagsDone(hash, pos, before, j, snps, x)
    {
      var t := hash.keys[j];
      if hash.table[t] == "1" {
        FlagStep(hash, pos, before, j, snps, x);
        snps := snps.Store(At(pos, x), t);
        x := x + 1;
      } else {
        OtherFieldStep(hash, pos, before, j, snps, x);
      }
    }
    assert hash.keys[..|hash.keys|] == hash.keys;
  }

  /** The second loop of `type_per_pos`: the `HOM` and the `HET` positions, in hash order. */
  method SplitByType(snps: OHash<Position, string>) returns (hm: seq<Position>, ht: seq<Position>)
    requires snps.Valid()
    ensures hm == WithType(snps, "HOM") && ht == WithType(snps, "HET")
  {
    hm, ht := [], [];
    ghost var homs := set p | p in snps.table && snps.table[p] == "HOM";
    ghost var hets := set p | p in snps.table && snps.table[p] == "HET";
    for k := 0 to |snps.keys|
      invariant hm == Select(snps.keys[..k], homs) && ht == Select(snps.keys[..k], hets)
    {
      var p := snps.keys[k];
      assert snps.keys[..k + 1][..k] == snps.keys[..k];
      if snps.table[p] == "HET" {
        ht := ht + [p];
      } else if snps.table[p] == "HOM" {
        hm := hm + [p];
      }
    }
    assert snps.keys[..|snps.keys|] == snps.keys;
  }

  /**
   * `type_per_pos`: every flag of every record stores its field name under the
   * next position of the list; then the positions stored as `HOM` and as `HET`.
   */
  method TypePerPos(infos: seq<Info>, pos: seq<int>) returns (snps: OHash<Position, string>, hm: seq<Position>, ht: seq<Position>)
    requires forall i :: 0 <= i < |infos| ==> infos[i].Valid()
    ensures snps == Snps(infos, pos)
    ensures hm == WithType(snps, "HOM") && ht == WithType(snps, "HET")
  {
    snps := Empty();
    var x := 0;
    for i := 0 to |infos|
      invariant x == |Flags(infos[..i])| && snps == StoreAll(Typed(Flags(infos[..i]), pos))
    {
      assert infos[..i + 1][..i] == infos[..i];
      snps, x := StoreFlags(infos[i], pos, snps, x, Flags(infos[..i]));
    }
    assert infos[..|infos|] == infos;
    hm, ht := SplitByType(snps);
  }

  /**
   * The `x`-th flag stores its field name under `vcfs_pos[x]`, unless a later
   * flag takes the same position and overwrites it.
   */
  lemma SnpsStored(infos: seq<Info>, pos: seq<int>, x: nat)
    requires x < |Flags(infos)|
    requires forall y :: x < y < |Flags(infos)| ==> At(pos, y) != At(pos, x)
    ensures At(pos, x) in Snps(infos, pos).table
    ensures Snps(infos, pos).table[At(pos, x)] == Flags(infos)[x]
  {
    StoreAllLast(Typed(Flags(infos), pos), x);
  }

  /**
   * A position is stored exactly when some flag takes it; once there are more
   * flags than positions, the extra flags land under `nil`.
   */
  lemma SnpsKeys(infos: seq<Info>, pos: seq<int>, p: Position)
    ensures p in Snps(infos, pos).table <==> exists x :: 0 <= x < |Flags(infos)| && At(pos, x) == p
    ensures |Flags(infos)| > |pos| ==> None in Snps(infos, pos).table
  {
    var pairs := Typed(Flags(infos), pos);
    StoreAllMember(pairs, p);
    StoreAllMember(pairs, None);
    if |Flags(infos)| > |pos| {
      assert Firsts(pairs)[|pos|] == None;
    }
    if p in Firsts(pairs) {
      var x :| 0 <= x < |pairs| && Firsts(pairs)[x] == p;
      assert At(pos, x) == p;
    }
  }

  /**
   * The `hm` and `ht` lists hold each position stored as `HOM`, respectively
   * `HET`, once, in the order of the hash; no position is in both.
   */
  lemma ZygosityLists(snps: OHash<Position, string>, p: Position)
    requires snps.Valid()
    ensures p in WithType(snps, "HOM") <==> p in snps.table && snps.table[p] == "HOM"
    ensures p in WithType(snps, "HET") <==> p in snps.table && snps.table[p] == "HET"
    ensures !(p in WithType(snps, "HOM") && p in WithType(snps, "HET"))
    ensures Distinct(WithType(snps, "HOM")) && Distinct(WithType(snps, "HET"))
  {
    var homs := set p | p in snps.table && snps.table[p] == "HOM";
    var hets := set p | p in snps.table && snps.table[p] == "HET";
    forall q ensures multiset(Select(snps.keys, homs))[q] <= 1 && multiset(Select(snps.keys, hets))[q] <= 1 {
      SelectCount(snps.keys, homs, q);
      SelectCount(snps.keys, hets, q);
    }
    SelectCount(snps.keys, homs, p);
    SelectCount(snps.keys, hets, p);
    assert "HOM" != "HET" by { assert "HOM"[1] != "HET"[1]; }
  }

  /** `line.split("\t")[1].to_i`; a line without a second field reads as 0 (`nil.to_i`). */
  function LinePos(line: string): int {
    var fields := Split(line, '\t');
    if |fields| > 1 then ToI(fields[1]) else 0
  }

  /** A record whose second field is the number `n` is read back as `n`. */
  lemma LinePosField(chrom: string, n: nat, rest: string)
    requires '\t' !in chrom
    ensures LinePos(chrom + "\t" + Decimal(n) + "\t" + rest) == n
  {
    var d := Decimal(n);
    assert '\t' !in d;
    var line := chrom + "\t" + d + "\t" + rest;
    PiecesAfter(chrom, '\t', d + "\t" + rest);
    PiecesAfter(d, '\t', rest);
    assert line == chrom + ['\t'] + (d + ['\t'] + rest);
    var ps := Pieces(line, '\t');
    assert ps == [chrom, d] + Pieces(rest, '\t');
    assert ps[1] == d && d != [];
    ToIDecimal(n);
  }

  /** What `filtering` leaves of the mutant's hash: the positions the parent does not have. */
  function ChildOnly(snpsC: OHash<Position, string>, snpsP: OHash<Position, string>): OHash<Position, string> {
    Restrict(snpsC, set k | k in snpsC.table && k !in snpsP.table)
  }

  /** What `filtering` leaves of the mutant's position list: every occurrence of a shared position goes. */
  function KeptPositions(vcfsPos: seq<int>, snpsP: OHash<Position, string>, snpsC: OHash<Position, string>): seq<int> {
    Select(vcfsPos, set x | x in vcfsPos && !(Some(x) in snpsP.table && Some(x) in snpsC.table))
  }

  /** The records whose position is in the list, in file order. */
  function ShortLines(lines: seq<string>, positions: seq<int>): seq<string> {
    Select(lines, set l | l in lines && LinePos(l) in positions)
  }

  ghost function ChildKeep(snpsC: OHash<Position, string>, seen: seq<Position>): set<Position> {
    set k | k in snpsC.table && k !in seen
  }

  ghost function PosKeep(vcfsPos: seq<int>, seen: seq<Position>, snpsC: OHash<Position, string>): set<int> {
    set x | x in vcfsPos && !(Some(x) in seen && Some(x) in snpsC.table)
  }

  /** One parent position of the deletion loop: deleted from both when the mutant has it, else nothing. */
  lemma DropStep(c0: OHash<Position, string>, v0: seq<int>, seen: seq<Position>, pos: Position)
    requires c0.Valid() && pos !in seen
    ensures Restrict(c0, ChildKeep(c0, seen)).Valid()
    ensures pos in Restrict(c0, ChildKeep(c0, seen)).table <==> pos in c0.table
    ensures Restrict(c0, ChildKeep(c0, seen + [pos]))
      == if pos in c0.table then Restrict(c0, ChildKeep(c0, seen)).Delete(pos) else Restrict(c0, ChildKeep(c0, seen))
    ensures Select(v0, PosKeep(v0, seen + [pos], c0))
      == if pos in c0.table && pos.Some? then RemoveAll(Select(v0, PosKeep(v0, seen, c0)), pos.value)
         else Select(v0, PosKeep(v0, seen, c0))
  {
    RestrictValid(c0, ChildKeep(c0, seen));
    if pos in c0.table {
      assert ChildKeep(c0, seen + [pos]) == ChildKeep(c0, seen) - {pos};
      RestrictDelete(c0, ChildKeep(c0, seen), pos);
      if pos.Some? {
        assert PosKeep(v0, seen + [pos], c0) == PosKeep(v0, seen, c0) - {pos.value};
        SelectRemoveAll(v0, PosKeep(v0, seen, c0), pos.value);
      } else {
        assert PosKeep(v0, seen + [pos], c0) == PosKeep(v0, seen, c0);
      }
    } else {
      assert ChildKeep(c0, seen + [pos]) == ChildKeep(c0, seen);
      assert PosKeep(v0, seen + [pos], c0) == PosKeep(v0, seen, c0);
    }
  }

  /** Before the deletion loop nothing is deleted; after it, every shared position is. */
  lemma DropEnds(c0: OHash<Position, string>, v0: seq<int>, snpsP: OHash<Position, string>)
    requires c0.Valid() && snpsP.Valid()
    ensures Restrict(c0, ChildKeep(c0, snpsP.keys[..0])) == c0
    ensures Select(v0, PosKeep(v0, snpsP.keys[..0], c0)) == v0
    ensures Restrict(c0, ChildKeep(c0, snpsP.keys[..|snpsP.keys|])) == ChildOnly(c0, snpsP)
    ensures Select(v0, PosKeep(v0, snpsP.keys[..|snpsP.keys|], c0)) == KeptPositions(v0, snpsP, c0)
  {
    SelectAll(c0.keys, ChildKeep(c0, snpsP.keys[..0]));
    SelectAll(v0, PosKeep(v0, snpsP.keys[..0], c0));
    assert snpsP.keys[..|snpsP.keys|] == snpsP.keys;
    assert ChildKeep(c0, snpsP.keys) == set k | k in c0.table && k !in snpsP.table;
    assert PosKeep(v0, snpsP.keys, c0) == set x | x in v0 && !(Some(x) in snpsP.table && Some(x) in c0.table);
  }

  /** The deletion loop of `filtering`, over the parent's positions. */
  method DropShared(vcfsPosC: Cell<seq<int>>, snpsP: OHash<Position, string>, snpsC: Cell<OHash<Position, string>>)
    requires snpsP.Valid() && snpsC.value.Valid()
    modifies vcfsPosC, snpsC
    ensures snpsC.value == ChildOnly(old(snpsC.value), snpsP)
    ensures vcfsPosC.value == KeptPositions(old(vcfsPosC.value), snpsP, old(snpsC.value))
  {
    ghost var c0 := snpsC.value;
    ghost var v0 := vcfsPosC.value;
    DropEnds(c0, v0, snpsP);
    for j := 0 to |snpsP.keys|
      invariant snpsC.value == Restrict(c0, ChildKeep(c0, snpsP.keys[..j]))
      invariant vcfsPosC.value == Select(v0, PosKeep(v0, snpsP.keys[..j], c0))
    {
      var pos := snpsP.keys[j];
      assert snpsP.keys[..j + 1] == snpsP.keys[..j] + [pos];
      DistinctFresh(snpsP.keys, j);
      DropStep(c0, v0, snpsP.keys[..j], pos);
      if pos in snpsC.value.table {
        snpsC.value := snpsC.value.Delete(pos);
        if pos.Some? {
          vcfsPosC.value := RemoveAll(vcfsPosC.value, pos.value);
        }
      }
    }
  }

  /**
   * `filtering`: deletes from the mutant's hash and position list (both the
   * caller's own) every position the parent shares, then keeps the mutant's
   * records whose position is still listed.
   */
  method Filtering(vcfsPosC: Cell<seq<int>>, snpsP: OHash<Position, string>, snpsC: Cell<OHash<Position, string>>,
                   childChrVcf: seq<string>) returns (shortChildChrVcf: seq<string>)
    requires snpsP.Valid() && snpsC.value.Valid()
    modifies vcfsPosC, snpsC
    ensures snpsC.value == ChildOnly(old(snpsC.value), snpsP)
    ensures vcfsPosC.value == KeptPositions(old(vcfsPosC.value), snpsP, old(snpsC.value))
    ensures shortChildChrVcf == ShortLines(childChrVcf, vcfsPosC.value)
  {
    DropShared(vcfsPosC, snpsP, snpsC);
    var shortVcfsPosC := vcfsPosC.value;
    ghost var keep := set l | l in childChrVcf && LinePos(l) in shortVcfsPosC;
    shortChildChrVcf := [];
    for i := 0 to |childChrVcf|
      invariant shortChildChrVcf == Select(childChrVcf[..i], keep)
    {
      var line := childChrVcf[i];
      assert childChrVcf[..i + 1][..i] == childChrVcf[..i];
      var position := LinePos(line);
      if position in shortVcfsPosC {
        shortChildChrVcf := shortChildChrVcf + [line];
      }
    }
    assert childChrVcf[..|childChrVcf|] == childChrVcf;
  }

  /**
   * After `filtering` the mutant keeps exactly its positions the parent does
   * not have, with their types; a listed position is never one both share; and
   * a record is kept exactly when its position is still listed.
   */
  lemma FilteringKeeps(vcfsPos: seq<int>, snpsP: OHash<Position, string>, snpsC: OHash<Position, string>,
                       lines: seq<string>, k: Position, x: int, l: string)
    requires snpsC.Valid()
    ensures ChildOnly(snpsC, snpsP).Valid()
    ensures k in ChildOnly(snpsC, snpsP).table <==> k in snpsC.table && k !in snpsP.table
    ensures k in ChildOnly(snpsC, snpsP).table ==> ChildOnly(snpsC, snpsP).table[k] == snpsC.table[k]
    ensures x in KeptPositions(vcfsPos, snpsP, snpsC) <==> x in vcfsPos && !(Some(x) in snpsP.table && Some(x) in snpsC.table)
    ensures var kept := KeptPositions(vcfsPos, snpsP, snpsC);
      l in ShortLines(lines, kept) <==> l in lines && LinePos(l) in kept
  {
    RestrictValid(snpsC, set k | k in snpsC.table && k !in snpsP.table);
    var kept := KeptPositions(vcfsPos, snpsP, snpsC);
    SelectCount(vcfsPos, (set x | x in vcfsPos && !(Some(x) in snpsP.table && Some(x) in snpsC.table)), x);
    SelectCount(lines, (set l | l in lines && LinePos(l) in kept), l);
    assert x in kept <==> multiset(kept)[x] > 0;
    assert l in ShortLines(lines, kept) <==> multiset(ShortLines(lines, kept))[l] > 0;
  }

  /** An INFO column as the test records carry it, with the read depth `adp`. */
  function TestInfo(adp: string): Info {
    OHash(["ADP", "WT", "HET", "HOM", "NC"], map["ADP" := adp, "WT" := "0", "HET" := "1", "HOM" := "0", "NC" := "0"])
  }

  /** Selecting from five fields of which only the third is chosen. */
  lemma SelectThirdOfFive<T>(ks: seq<T>, f: set<T>)
    requires |ks| == 5 && ks[0] !in f && ks[1] !in f && ks[2] in f && ks[3] !in f && ks[4] !in f
    ensures Select(ks, f) == [ks[2]]
  {
    SelectPrefixSnoc(ks, f, 0);
    SelectPrefixSnoc(ks, f, 1);
    SelectPrefixSnoc(ks, f, 2);
    SelectPrefixSnoc(ks, f, 3);
    SelectPrefixSnoc(ks, f, 4);
    assert ks[..0] == [] && ks[..5] == ks;
  }

  /** Of such a column only `HET` is flagged. */
  lemma TestInfoOnes(adp: string)
    requires adp != "1"
    ensures Ones(TestInfo(adp)) == ["HET"]
  {
    var info := TestInfo(adp);
    var f := FlagSet(info);
    assert "0" != "1";
    assert "ADP" !in f && "WT" !in f && "HOM" !in f && "NC" !in f && "HET" in f;
    SelectThirdOfFive(info.keys, f);
  }

  /** The flags of two such records: `HET`, then `HET`. */
  lemma TestInfoFlags(a: string, b: string)
    requires a != "1" && b != "1"
    ensures Flags([TestInfo(a), TestInfo(b)]) == ["HET", "HET"]
  {
    var infos := [TestInfo(a), TestInfo(b)];
    TestInfoOnes(a);
    TestInfoOnes(b);
    assert infos[..1] == [TestInfo(a)] && infos[..1][..0] == [];
    assert Flags(infos[..1]) == ["HET"];
  }

  /** Storing two distinct positions with one type each. */
  lemma StoreTwo(p: Position, q: Position, t: string)
    requires p != q
    ensures StoreAll([(p, t), (q, t)]) == OHash([p, q], map[p := t, q := t])
  {
    StoreAllSnoc([], p, t);
    assert [] + [(p, t)] == [(p, t)];
    var h1 := Empty().Store(p, t);
    assert h1 == OHash([p], map[p := t]);
    StoreAllSnoc([(p, t)], q, t);
    assert [(p, t)] + [(q, t)] == [(p, t), (q, t)];
  }

  /** Two records flagged `HET` at positions 5 and 123: both are stored as heterozygous. */
  lemma TypePerPosExample()
    ensures Snps([TestInfo("17"), TestInfo("25")], [5, 123])
         == OHash([Some(5), Some(123)], map[Some(5) := "HET", Some(123) := "HET"])
  {
    assert "17" != "1" && "25" != "1";
    TestInfoFlags("17", "25");
    assert Typed(["HET", "HET"], [5, 123]) == [(Some(5), "HET"), (Some(123), "HET")];
    StoreTwo(Some(5), Some(123), "HET");
  }

  /** Of the two heterozygous positions of the test, `ht` lists both and `hm` none. */
  lemma ZygosityListsExample()
    ensures var snps := OHash([Some(5), Some(123)], map[Some(5) := "HET", Some(123) := "HET"]);
      WithType(snps, "HOM") == [] && WithType(snps, "HET") == [Some(5), Some(123)]
  {
    var snps := OHash([Some(5), Some(123)], map[Some(5) := "HET", Some(123) := "HET"]);
    var homs := set p | p in snps.table && snps.table[p] == "HOM";
    var hets := set p | p in snps.table && snps.table[p] == "HET";
    assert "HET" != "HOM" by { assert "HET"[1] != "HOM"[1]; }
    assert Some(5) !in homs && Some(123) !in homs && Some(5) in hets && Some(123) in hets;
    assert snps.keys[..1] == [Some(5)];
    assert Select([Some(5)], homs) == [] && Select([Some(5)], hets) == [Some(5)] by {
      assert [Some(5)][..0] == [];
    }
    assert WithType(snps, "HOM") == Select([Some(5)], homs);
    assert WithType(snps, "HET") == Select([Some(5)], hets) + [Some(123)];
  }

  /** The parent of the test shares position 5 with the mutant but not 123. */
  const TestParent := OHash([Some(5), Some(365)], map[Some(5) := "HET", Some(365) := "HOM"])
  const TestChild := OHash([Some(5), Some(123)], map[Some(5) := "HET", Some(123) := "HET"])

  /** The shared position leaves the mutant's hash. */
  lemma ChildOnlyExample()
    ensures ChildOnly(TestChild, TestParent) == OHash([Some(123)], map[Some(123) := "HET"])
  {
    var keep := set k | k in TestChild.table && k !in TestParent.table;
    assert Some(123) in TestChild.table && Some(123) !in TestParent.table && Some(5) in TestParent.table;
    assert Some(5) !in keep && Some(123) in keep;
    assert Select([Some(5)], keep) == [] by { assert [Some(5)][..0] == []; }
    assert TestChild.keys[..1] == [Some(5)];
    assert Select(TestChild.keys, keep) == Select([Some(5)], keep) + [Some(123)];
  }

  /** The shared position leaves the mutant's position list. */
  lemma KeptPositionsExample()
    ensures KeptPositions([5, 123], TestParent, TestChild) == [123]
  {
    var keep := set x | x in [5, 123] && !(Some(x) in TestParent.table && Some(x) in TestChild.table);
    assert 5 !in keep && 123 in keep;
    assert Select([5], keep) == [] by { assert [5][..0] == []; }
    assert [5, 123][..1] == [5];
    assert Select([5, 123], keep) == Select([5], keep) + [123];
  }

  /** The positions of the two test records are read back from their second fields. */
  lemma DecimalExample()
    ensures Decimal(5) == "5" && Decimal(123) == "123"
  {
    assert Decimal(12) == "1" + "2";
    assert Decimal(123) == "12" + "3";
  }

  /**
   * Of two records of one chromosome at positions 5 and 123, only the one at
   * 123 is kept when 123 alone is listed.
   */
  lemma ShortLinesExample(chrom: string, rest5: string, rest123: string)
    requires '\t' !in chrom
    ensures var r5 := chrom + "\t5\t" + rest5;
      var r123 := chrom + "\t123\t" + rest123;
      ShortLines([r5, r123], [123]) == [r123]
  {
    DecimalExample();
    var r5 := chrom + "\t5\t" + rest5;
    var r123 := chrom + "\t123\t" + rest123;
    LinePosField(chrom, 5, rest5);
    LinePosField(chrom, 123, rest123);
    assert r5 == chrom + "\t" + Decimal(5) + "\t" + rest5;
    assert r123 == chrom + "\t" + Decimal(123) + "\t" + rest123;
    var lines := [r5, r123];
    var keep := set l | l in lines && LinePos(l) in [123];
    assert r5 !in keep && r123 in keep;
    assert Select([r5], keep) == [] by { assert [r5][..0] == []; }
    assert lines[..1] == [r5];
    assert Select(lines, keep) == Select([r5], keep) + [r123];
  }
}
