/**
 * lib/snp_dist.rb, class SNPdist: hypothetical SNP positions, one per
 * fragment, and the expansion of per-fragment densities into a list in which
 * each position occurs ten times its density.
 */
module SnpDist {
  import opened Collections

  /** `size, 2*size, ..., n*size`: the end of each of `n` fragments of the same size. */
  function Multiples(size: real, n: nat): (ps: seq<real>)
    ensures |ps| == n
  {
    seq(n, i requires 0 <= i < n => size * (i + 1) as real)
  }

  /** `general_positions`: `pos` grows by the contig size once per ratio. */
  method GeneralPositions(averageContigSize: real, ratios: seq<real>) returns (positions: seq<real>)
    ensures |positions| == |ratios|
    ensures forall i :: 0 <= i < |ratios| ==> positions[i] == averageContigSize * (i + 1) as real
  {
    positions := [];
    var pos := 0.0;
    for i := 0 to |ratios|
      invariant |positions| == i && pos == averageContigSize * i as real
      invariant forall j :: 0 <= j < i ==> positions[j] == averageContigSize * (j + 1) as real
    {
      pos := pos + averageContigSize;
      positions := positions + [pos];
    }
  }

  /** For a positive size the positions strictly increase, and they are the fragments' ends. */
  lemma MultiplesIncrease(size: real, n: nat)
    requires size > 0.0
    ensures forall i, j :: 0 <= i < j < n ==> Multiples(size, n)[i] < Multiples(size, n)[j]
    ensures forall i :: 0 <= i < n ==> Multiples(size, n)[i] > 0.0
  {
    var ps := Multiples(size, n);
    forall i, j | 0 <= i < j < n ensures ps[i] < ps[j] {
      assert ps[j] - ps[i] == size * (j - i) as real;
    }
  }

  /** `positions[y]`: `nil` past the end of the list. */
  function At(positions: seq<real>, y: nat): Option<real> {
    if y < |positions| then Some(positions[y]) else None
  }

  /** The output of `densities_pos`: `positions[y]` repeated `trunc(10 * density)` times for each density, in order. */
  function Expand(densities: seq<real>, positions: seq<real>): seq<Option<real>> {
    if densities == [] then []
    else
      var y := |densities| - 1;
      Expand(densities[..y], positions) + Repeat(At(positions, y), Times(densities[y] * 10.0))
  }

  /** `densities_pos`: for each density, an inner loop appending the position of its fragment. */
  method DensitiesPos(rawDensities: seq<real>, positions: seq<real>) returns (densitiesInPos: seq<Option<real>>)
    ensures densitiesInPos == Expand(rawDensities, positions)
  {
    var y := 0;
    densitiesInPos := [];
    for k := 0 to |rawDensities|
      invariant y == k && densitiesInPos == Expand(rawDensities[..k], positions)
    {
      var density := rawDensities[k];
      assert rawDensities[..k + 1][..k] == rawDensities[..k];
      ghost var before := densitiesInPos;
      for i := 0 to Times(density * 10.0)
        invariant densitiesInPos == before + Repeat(At(positions, y), i)
      {
        assert Repeat(At(positions, y), i + 1) == Repeat(At(positions, y), i) + [At(positions, y)];
        densitiesInPos := densitiesInPos + [At(positions, y)];
      }
      y := y + 1;
    }
    assert rawDensities[..|rawDensities|] == rawDensities;
  }

  /** The number of positions the densities expand to. */
  function TotalTimes(densities: seq<real>): nat {
    if densities == [] then 0
    else TotalTimes(densities[..|densities| - 1]) + Times(densities[|densities| - 1] * 10.0)
  }

  /** The output holds `trunc(10 * density)` entries per density, non-positive densities none. */
  lemma {:induction false} ExpandLength(densities: seq<real>, positions: seq<real>)
    ensures |Expand(densities, positions)| == TotalTimes(densities)
  {
    if densities != [] {
      ExpandLength(densities[..|densities| - 1], positions);
    }
  }

  /**
   * With a position for every density no entry is `nil`, and a position is
   * emitted exactly when its density reaches a tenth.
   */
  lemma {:induction false} ExpandMember(densities: seq<real>, positions: seq<real>, x: Option<real>)
    requires |positions| >= |densities|
    ensures forall i :: 0 <= i < |Expand(densities, positions)| ==> Expand(densities, positions)[i].Some?
    ensures x in Expand(densities, positions) <==>
      exists y :: 0 <= y < |densities| && densities[y] * 10.0 >= 1.0 && x == Some(positions[y])
  {
    if densities != [] {
      var y := |densities| - 1;
      var init := densities[..y];
      ExpandMember(init, positions, x);
      var block := Repeat(At(positions, y), Times(densities[y] * 10.0));
      assert Expand(densities, positions) == Expand(init, positions) + block;
      assert Times(densities[y] * 10.0) > 0 <==> densities[y] * 10.0 >= 1.0;
      if Times(densities[y] * 10.0) > 0 {
        assert block[0] == At(positions, y);
      }
      assert x in block <==> densities[y] * 10.0 >= 1.0 && x == Some(positions[y]);
      if x in Expand(init, positions) {
        var z :| 0 <= z < |init| && init[z] * 10.0 >= 1.0 && x == Some(positions[z]);
        assert densities[z] == init[z];
      }
      if exists z :: 0 <= z < |densities| && densities[z] * 10.0 >= 1.0 && x == Some(positions[z]) {
        var z :| 0 <= z < |densities| && densities[z] * 10.0 >= 1.0 && x == Some(positions[z]);
        if z < y {
          assert init[z] == densities[z];
        }
      }
    }
  }

  /** Expanding over increasing positions gives a list in increasing order. */
  lemma {:induction false} ExpandSorted(densities: seq<real>, positions: seq<real>)
    requires |positions| >= |densities|
    requires forall i, j :: 0 <= i < j < |positions| ==> positions[i] < positions[j]
    ensures var e := Expand(densities, positions);
      forall i, j :: 0 <= i < j < |e| ==> e[i].Some? && e[j].Some? && e[i].value <= e[j].value
    ensures densities != [] ==> forall x :: x in Expand(densities, positions) ==> x.Some? && x.value <= positions[|densities| - 1]
  {
    ExpandMember(densities, positions, None);
    if densities != [] {
      var y := |densities| - 1;
      var init := densities[..y];
      ExpandSorted(init, positions);
      ExpandMember(init, positions, None);
      var a, block := Expand(init, positions), Repeat(At(positions, y), Times(densities[y] * 10.0));
      var e := a + block;
      forall x | x in a ensures x.Some? && x.value <= positions[y] {
        ExpandMember(init, positions, x);
        var z :| 0 <= z < |init| && init[z] * 10.0 >= 1.0 && x == Some(positions[z]);
      }
      forall i, j | 0 <= i < j < |e| ensures e[i].Some? && e[j].Some? && e[i].value <= e[j].value {
        if j >= |a| && i < |a| {
          assert e[i] in a;
        }
      }
      forall x | x in e ensures x.Some? && x.value <= positions[y] {
        if x in block {
          assert x == Some(positions[y]);
        }
      }
    }
  }

  /** One density of the loop: its block follows the blocks of the densities before it. */
  lemma ExpandSnoc(densities: seq<real>, positions: seq<real>, k: nat)
    requires k < |densities|
    ensures Expand(densities[..k + 1], positions)
         == Expand(densities[..k], positions) + Repeat(At(positions, k), Times(densities[k] * 10.0))
  {
    assert densities[..k + 1][..k] == densities[..k];
  }

  /** The first four densities of the unit test. */
  lemma DensitiesPosExampleStart(ds: seq<real>, ps: seq<real>)
    requires ds == [0.1, 0.1, 0.2, 0.5, 1.0, 0.2, 0.1]
    requires ps == [10.0, 20.0, 30.0, 40.0, 50.0, 60.0, 70.0]
    ensures Expand(ds[..4], ps) == [Some(10.0), Some(20.0), Some(30.0), Some(30.0)] + Repeat(Some(40.0), 5)
  {
    assert Times(0.1 * 10.0) == 1 && Times(0.2 * 10.0) == 2 && Times(0.5 * 10.0) == 5;
    assert ds[..0] == [];
    ExpandSnoc(ds, ps, 0);
    var e1 := Expand(ds[..1], ps);
    assert e1 == [Some(10.0)] by { assert Repeat(Some(10.0), 1) == [Some(10.0)]; }
    ExpandSnoc(ds, ps, 1);
    var e2 := Expand(ds[..2], ps);
    assert e2 == e1 + [Some(20.0)] by { assert Repeat(Some(20.0), 1) == [Some(20.0)]; }
    ExpandSnoc(ds, ps, 2);
    var e3 := Expand(ds[..3], ps);
    assert e3 == e2 + [Some(30.0), Some(30.0)] by { assert Repeat(Some(30.0), 2) == [Some(30.0), Some(30.0)]; }
    ExpandSnoc(ds, ps, 3);
  }

  /**
   * The densities of the unit test over seven fragments of size 10: each
   * position is listed ten times its density.
   */
  lemma DensitiesPosExample(ds: seq<real>, ps: seq<real>)
    requires ds == [0.1, 0.1, 0.2, 0.5, 1.0, 0.2, 0.1]
    requires ps == [10.0, 20.0, 30.0, 40.0, 50.0, 60.0, 70.0]
    ensures Expand(ds, ps)
         == [Some(10.0), Some(20.0), Some(30.0), Some(30.0)]
          + Repeat(Some(40.0), 5) + Repeat(Some(50.0), 10)
          + [Some(60.0), Some(60.0), Some(70.0)]
  {
    assert Times(0.1 * 10.0) == 1 && Times(0.2 * 10.0) == 2 && Times(1.0 * 10.0) == 10;
    DensitiesPosExampleStart(ds, ps);
    var e4 := Expand(ds[..4], ps);
    ExpandSnoc(ds, ps, 4);
    var e5 := Expand(ds[..5], ps);
    assert e5 == e4 + Repeat(Some(50.0), 10);
    ExpandSnoc(ds, ps, 5);
    var e6 := Expand(ds[..6], ps);
    assert e6 == e5 + [Some(60.0), Some(60.0)] by { assert Repeat(Some(60.0), 2) == [Some(60.0), Some(60.0)]; }
    ExpandSnoc(ds, ps, 6);
    assert ds[..7] == ds;
    assert Expand(ds, ps) == e6 + [Some(70.0)] by { assert Repeat(Some(70.0), 1) == [Some(70.0)]; }
  }
}
