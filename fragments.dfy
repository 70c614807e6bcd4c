/**
 * lib/fragments.rb: per-fragment variant aggregation, the bisection that
 * lays ratio buckets out as a bell-shaped permutation, and the cutoff that
 * picks candidate fragments from that permutation.
 */
module Fragments {
  import opened Collections
  import Stuff

  /** A fragment (contig) identifier. */
  type FragId = string

  /**
   * `details[frag]` as built by `varpos_aggregate`: smoothed hom/het counts,
   * shifted positions, cumulative offset, ratio and length. `bfr` is `None`
   * for the empty-string placeholder, `bfrRat` and `discard` are `None` while
   * the key is absent.
   */
  datatype Detail = Detail(
    hm: real, ht: real,
    hmPos: seq<int>, htPos: seq<int>,
    cumLen: int, ratio: real, len: int,
    bfr: Option<int>, bfrRat: Option<real>,
    discard: Option<bool>)

  /** The variant positions of `f` (the keys of its position hash), none when absent. */
  function Positions(info: map<FragId, seq<int>>, f: FragId): seq<int> {
    if f in info then info[f] else []
  }

  /** `frag_len[frag].to_i`: a missing length reads as `nil.to_i`, that is 0. */
  function LengthOf(fragLen: map<FragId, int>, f: FragId): int {
    if f in fragLen then fragLen[f] else 0
  }

  function Shift(ps: seq<int>, offset: int): (r: seq<int>)
    ensures |r| == |ps| && forall j :: 0 <= j < |ps| ==> r[j] == ps[j] + offset
  {
    seq(|ps|, j requires 0 <= j < |ps| => ps[j] + offset)
  }

  /** The summed lengths of `order`, or 0 throughout when lengths are not accumulated. */
  function Offset(fragLen: map<FragId, int>, cumulate: bool, order: seq<FragId>): int {
    if !cumulate || order == [] then 0
    else Offset(fragLen, cumulate, order[..|order| - 1]) + LengthOf(fragLen, order[|order| - 1])
  }

  /** The hom/het ratio with the `0.0` sentinel for a fragment that kept both smoothed counts at `adjust`. */
  function RatioOf(hm: real, ht: real, adjust: real): real
    requires ht != 0.0
  {
    if hm == adjust && ht == adjust then 0.0 else hm / ht
  }

  /** The record one pass of the aggregation loop stores for `f` at offset `cum`. */
  function FragDetail(hom: map<FragId, seq<int>>, het: map<FragId, seq<int>>, fragLen: map<FragId, int>,
                      adjust: real, f: FragId, cum: int): Detail
    requires adjust > 0.0
  {
    var hm := adjust + |Positions(hom, f)| as real;
    var ht := adjust + |Positions(het, f)| as real;
    Detail(hm, ht, Shift(Positions(hom, f), cum), Shift(Positions(het, f), cum), cum,
           RatioOf(hm, ht, adjust), LengthOf(fragLen, f), None, None, None)
  }

  /** What a stored record says: smoothed counts, positions moved by the offset, the length. */
  lemma FragDetailFields(hom: map<FragId, seq<int>>, het: map<FragId, seq<int>>, fragLen: map<FragId, int>,
                         adjust: real, f: FragId, cum: int)
    requires adjust > 0.0
    ensures FragDetail(hom, het, fragLen, adjust, f, cum).hm == adjust + |Positions(hom, f)| as real
    ensures FragDetail(hom, het, fragLen, adjust, f, cum).ht == adjust + |Positions(het, f)| as real
    ensures |FragDetail(hom, het, fragLen, adjust, f, cum).hmPos| == |Positions(hom, f)|
    ensures forall j :: 0 <= j < |Positions(hom, f)| ==>
              FragDetail(hom, het, fragLen, adjust, f, cum).hmPos[j] == Positions(hom, f)[j] + cum
    ensures |FragDetail(hom, het, fragLen, adjust, f, cum).htPos| == |Positions(het, f)|
    ensures forall j :: 0 <= j < |Positions(het, f)| ==>
              FragDetail(hom, het, fragLen, adjust, f, cum).htPos[j] == Positions(het, f)[j] + cum
    ensures FragDetail(hom, het, fragLen, adjust, f, cum).cumLen == cum
    ensures FragDetail(hom, het, fragLen, adjust, f, cum).len == LengthOf(fragLen, f)
  {
  }

  /**
   * For a positive `adjust` the ratio is the `0.0` sentinel exactly when the
   * fragment has no variant at all, and otherwise the positive quotient hm/ht.
   */
  lemma RatioSentinel(hom: map<FragId, seq<int>>, het: map<FragId, seq<int>>, fragLen: map<FragId, int>,
                      adjust: real, f: FragId, cum: int)
    requires adjust > 0.0
    ensures var d := FragDetail(hom, het, fragLen, adjust, f, cum);
            (d.ratio == 0.0 <==> Positions(hom, f) == [] && Positions(het, f) == []) &&
            (d.ratio != 0.0 ==> d.ratio == d.hm / d.ht > 0.0)
  {
    var d := FragDetail(hom, het, fragLen, adjust, f, cum);
    if Positions(hom, f) != [] || Positions(het, f) != [] {
      assert d.hm > adjust || d.ht > adjust;
      assert d.hm / d.ht > 0.0;
    }
  }

  /** Position `i` holds the last occurrence of its fragment among the first `n`. */
  predicate LastAt(order: seq<FragId>, i: int, n: int)
    requires 0 <= i < n <= |order|
  {
    forall k :: i < k < n ==> order[k] != order[i]
  }

  /** The key/value pairs the aggregation loop stores, one per entry of `order`, each at the offset of the entries before it. */
  function Stores(hom: map<FragId, seq<int>>, het: map<FragId, seq<int>>, fragLen: map<FragId, int>,
                  adjust: real, cumulate: bool, order: seq<FragId>): (ps: seq<(FragId, Detail)>)
    requires adjust > 0.0
    ensures |ps| == |order|
  {
    seq(|order|, i requires 0 <= i < |order| =>
      (order[i], FragDetail(hom, het, fragLen, adjust, order[i], Offset(fragLen, cumulate, order[..i]))))
  }

  /** The hash the aggregation loop has built after the fragments of `order`. */
  function Aggregate(hom: map<FragId, seq<int>>, het: map<FragId, seq<int>>, fragLen: map<FragId, int>,
                     adjust: real, cumulate: bool, order: seq<FragId>): OHash<FragId, Detail>
    requires adjust > 0.0
  {
    StoreAll(Stores(hom, het, fragLen, adjust, cumulate, order))
  }

  /** One record per distinct fragment, in the order the fragments first appear. */
  lemma AggregateKeys(hom: map<FragId, seq<int>>, het: map<FragId, seq<int>>, fragLen: map<FragId, int>,
                      adjust: real, cumulate: bool, order: seq<FragId>)
    requires adjust > 0.0
    ensures Aggregate(hom, het, fragLen, adjust, cumulate, order).Valid()
    ensures Aggregate(hom, het, fragLen, adjust, cumulate, order).keys == Uniq(order)
  {
    var ps := Stores(hom, het, fragLen, adjust, cumulate, order);
    StoreAllKeys(ps);
    assert Firsts(ps) == order;
  }

  /** A fragment listed more than once keeps the record of its last occurrence. */
  lemma AggregateRecord(hom: map<FragId, seq<int>>, het: map<FragId, seq<int>>, fragLen: map<FragId, int>,
                        adjust: real, cumulate: bool, order: seq<FragId>, i: int)
    requires adjust > 0.0
    requires 0 <= i < |order| && LastAt(order, i, |order|)
    ensures order[i] in Aggregate(hom, het, fragLen, adjust, cumulate, order).table
    ensures Aggregate(hom, het, fragLen, adjust, cumulate, order).table[order[i]]
            == FragDetail(hom, het, fragLen, adjust, order[i], Offset(fragLen, cumulate, order[..i]))
  {
    StoreAllLast(Stores(hom, het, fragLen, adjust, cumulate, order), i);
  }

  /** Extending `order` by one fragment extends the stored pairs by that fragment's pair. */
  lemma StoresSnoc(hom: map<FragId, seq<int>>, het: map<FragId, seq<int>>, fragLen: map<FragId, int>,
                   adjust: real, cumulate: bool, order: seq<FragId>, i: int)
    requires adjust > 0.0 && 0 <= i < |order|
    ensures Stores(hom, het, fragLen, adjust, cumulate, order[..i + 1])
            == Stores(hom, het, fragLen, adjust, cumulate, order[..i])
               + [(order[i], FragDetail(hom, het, fragLen, adjust, order[i], Offset(fragLen, cumulate, order[..i])))]
  {
    var ps := Stores(hom, het, fragLen, adjust, cumulate, order[..i + 1]);
    var qs := Stores(hom, het, fragLen, adjust, cumulate, order[..i]);
    forall j | 0 <= j < i ensures ps[j] == qs[j] {
      assert order[..i + 1][..j] == order[..j] == order[..i][..j];
    }
    assert order[..i + 1][..i] == order[..i];
  }

  lemma OffsetSnoc(fragLen: map<FragId, int>, cumulate: bool, order: seq<FragId>, i: int)
    requires 0 <= i < |order|
    ensures Offset(fragLen, cumulate, order[..i + 1]) == Offset(fragLen, cumulate, order[..i]) + (if cumulate then LengthOf(fragLen, order[i]) else 0)
  {
    assert order[..i + 1][..i] == order[..i];
  }

  lemma AggregateSnoc(hom: map<FragId, seq<int>>, het: map<FragId, seq<int>>, fragLen: map<FragId, int>,
                      adjust: real, cumulate: bool, order: seq<FragId>, i: int)
    requires adjust > 0.0 && 0 <= i < |order|
    ensures Aggregate(hom, het, fragLen, adjust, cumulate, order[..i]).Valid()
    ensures Aggregate(hom, het, fragLen, adjust, cumulate, order[..i + 1])
            == Aggregate(hom, het, fragLen, adjust, cumulate, order[..i]).Store(order[i], FragDetail(hom, het, fragLen, adjust, order[i], Offset(fragLen, cumulate, order[..i])))
  {
    StoresSnoc(hom, het, fragLen, adjust, cumulate, order, i);
    var ps := Stores(hom, het, fragLen, adjust, cumulate, order[..i + 1]);
    assert ps[..i] == Stores(hom, het, fragLen, adjust, cumulate, order[..i]);
  }

  /** The body of the aggregation loop for one fragment at offset `cumulateLen`. */
  method Record(hom: map<FragId, seq<int>>, het: map<FragId, seq<int>>, fragLen: map<FragId, int>,
                adjust: real, frag: FragId, cumulateLen: int) returns (d: Detail)
    requires adjust > 0.0
    ensures d == FragDetail(hom, het, fragLen, adjust, frag, cumulateLen)
  {
    var hm, ht := adjust, adjust;
    var hmPos: seq<int>, htPos: seq<int> := [], [];
    if frag in hom {
      hm := hm + |hom[frag]| as real;
      hmPos := Shift(hom[frag], cumulateLen);
    }
    if frag in het {
      ht := ht + |het[frag]| as real;
      htPos := Shift(het[frag], cumulateLen);
    }
    var ratio := if hm == adjust && ht == adjust then 0.0 else hm / ht;
    d := Detail(hm, ht, hmPos, htPos, cumulateLen, ratio, LengthOf(fragLen, frag), None, None, None);
  }

  /** The state of the aggregation loop after the first `i` fragments of `order`. */
  ghost predicate Aggregated(hom: map<FragId, seq<int>>, het: map<FragId, seq<int>>, fragLen: map<FragId, int>,
                             adjust: real, cumulate: bool, order: seq<FragId>, i: int,
                             details: OHash<FragId, Detail>, cumulateLen: int)
    requires adjust > 0.0 && 0 <= i <= |order|
  {
    details == Aggregate(hom, het, fragLen, adjust, cumulate, order[..i])
    && cumulateLen == Offset(fragLen, cumulate, order[..i])
  }

  /** One fragment of the aggregation loop: its record is stored at the running offset, which then grows by its length. */
  lemma AggregateStep(hom: map<FragId, seq<int>>, het: map<FragId, seq<int>>, fragLen: map<FragId, int>,
                      adjust: real, cumulate: bool, order: seq<FragId>, i: int,
                      details: OHash<FragId, Detail>, cumulateLen: int)
    requires adjust > 0.0 && 0 <= i < |order|
    requires Aggregated(hom, het, fragLen, adjust, cumulate, order, i, details, cumulateLen)
    ensures details.Valid()
    ensures Aggregated(hom, het, fragLen, adjust, cumulate, order, i + 1,
                       details.Store(order[i], FragDetail(hom, het, fragLen, adjust, order[i], cumulateLen)),
                       cumulateLen + if cumulate then LengthOf(fragLen, order[i]) else 0)
  {
    AggregateSnoc(hom, het, fragLen, adjust, cumulate, order, i);
    OffsetSnoc(fragLen, cumulate, order, i);
  }

  /** One pass of the aggregation loop: the record of `order[i]` stored at the running offset, and the offset advanced. */
  method AggregateOne(hom: map<FragId, seq<int>>, het: map<FragId, seq<int>>, fragLen: map<FragId, int>,
                      adjust: real, cumulate: bool, order: seq<FragId>, i: int,
                      details0: OHash<FragId, Detail>, cumulateLen0: int)
    returns (details: OHash<FragId, Detail>, cumulateLen: int)
    requires adjust > 0.0 && 0 <= i < |order|
    requires Aggregated(hom, het, fragLen, adjust, cumulate, order, i, details0, cumulateLen0)
    ensures Aggregated(hom, het, fragLen, adjust, cumulate, order, i + 1, details, cumulateLen)
  {
    var frag := order[i];
    var d := Record(hom, het, fragLen, adjust, frag, cumulateLen0);
    AggregateStep(hom, het, fragLen, adjust, cumulate, order, i, details0, cumulateLen0);
    details := details0.Store(frag, d);
    cumulateLen := cumulateLen0;
    if cumulate {
      cumulateLen := cumulateLen + LengthOf(fragLen, frag);
    }
  }

  /**
   * `varpos_aggregate` without its polyploid branch: the loop over `order`
   * builds exactly `Aggregate`, carrying the running offset along.
   */
  method VarposAggregate(hom: map<FragId, seq<int>>, het: map<FragId, seq<int>>, fragLen: map<FragId, int>,
                         order: seq<FragId>, adjust: real, cumulate: bool)
    returns (details: OHash<FragId, Detail>)
    requires adjust > 0.0
    ensures details == Aggregate(hom, het, fragLen, adjust, cumulate, order)
  {
    details := Empty();
    var cumulateLen := 0;
    var i := 0;
    assert Stores(hom, het, fragLen, adjust, cumulate, order[..0]) == [];
    while i < |order|
      invariant 0 <= i <= |order|
      invariant Aggregated(hom, het, fragLen, adjust, cumulate, order, i, details, cumulateLen)
    {
      details, cumulateLen := AggregateOne(hom, het, fragLen, adjust, cumulate, order, i, details, cumulateLen);
      i := i + 1;
    }
    assert order[..i] == order;
  }
}
