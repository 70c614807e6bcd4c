/**
 * lib/SDM.rb: the earlier SNP distribution method. Fragments are bucketed
 * by a score, the buckets are dealt from the lowest score outwards onto a
 * right and a left side, and the candidates are taken next to the seam.
 */
module SDM {
  import opened Collections
  import Stuff
  import opened Fragments

  /** `snps.to_f / length`: SNPs per base pair. */
  function PerBp(snps: int, length: int): real
    requires length != 0
  {
    snps as real / length as real
  }

  /** Each fragment with its SNP count divided by its length, in key order. */
  function Densities(lengths: map<FragId, int>, shuf: OHash<FragId, int>): (ps: seq<(FragId, real)>)
    requires shuf.Valid() && forall f :: f in shuf.table ==> f in lengths && lengths[f] != 0
    ensures Firsts(ps) == shuf.keys
  {
    seq(|shuf.keys|, i requires 0 <= i < |shuf.keys| => (shuf.keys[i], PerBp(shuf.table[shuf.keys[i]], lengths[shuf.keys[i]])))
  }

  /**
   * `normalise_by_length`: the fragments bucketed by SNPs per base pair.
   * A fragment without a length, or of length 0, gives a float infinity or
   * NaN in the source; those are excluded.
   */
  method NormaliseByLength(lengths: map<FragId, int>, shuf: OHash<FragId, int>) returns (shufNorm: OHash<real, seq<FragId>>)
    requires shuf.Valid() && forall f :: f in shuf.table ==> f in lengths && lengths[f] != 0
    ensures shufNorm == Stuff.SafeInvert(Densities(lengths, shuf))
  {
    var perbps: OHash<FragId, real> := Empty();
    for i := 0 to |shuf.keys|
      invariant perbps.Valid() && perbps.keys == shuf.keys[..i]
      invariant forall j :: 0 <= j < i ==> perbps.table[shuf.keys[j]] == PerBp(shuf.table[shuf.keys[j]], lengths[shuf.keys[j]])
    {
      var frag := shuf.keys[i];
      DistinctFresh(shuf.keys, i);
      assert shuf.keys[..i + 1] == shuf.keys[..i] + [frag];
      perbps := perbps.Store(frag, PerBp(shuf.table[frag], lengths[frag]));
    }
    assert shuf.keys[..|shuf.keys|] == shuf.keys;
    DensitiesAre(lengths, shuf, perbps);
    shufNorm := Stuff.SafeInvert(Entries(perbps));
  }

  /** The hash of densities `normalise_by_length` builds, read back in key order. */
  lemma DensitiesAre(lengths: map<FragId, int>, shuf: OHash<FragId, int>, perbps: OHash<FragId, real>)
    requires shuf.Valid() && forall f :: f in shuf.table ==> f in lengths && lengths[f] != 0
    requires perbps.Valid() && perbps.keys == shuf.keys
    requires forall j :: 0 <= j < |shuf.keys| ==> perbps.table[shuf.keys[j]] == PerBp(shuf.table[shuf.keys[j]], lengths[shuf.keys[j]])
    ensures Entries(perbps) == Densities(lengths, shuf)
  {
  }

  /** Each fragment sits in the bucket of its own density and in no other, and no bucket is empty. */
  lemma NormaliseBuckets(lengths: map<FragId, int>, shuf: OHash<FragId, int>, f: FragId, d: real)
    requires shuf.Valid() && forall g :: g in shuf.table ==> g in lengths && lengths[g] != 0
    ensures var inv := Stuff.SafeInvert(Densities(lengths, shuf));
      (d in inv.table && f in inv.table[d]) <==> f in shuf.table && d == PerBp(shuf.table[f], lengths[f])
    ensures var inv := Stuff.SafeInvert(Densities(lengths, shuf));
      d in inv.table ==> inv.table[d] != []
  {
    var pairs := Densities(lengths, shuf);
    Stuff.SafeInvertMember(pairs, f, d);
    if f in shuf.table {
      var i :| 0 <= i < |shuf.keys| && shuf.keys[i] == f;
      assert pairs[i].0 == f;
    }
  }

  /** The state `divide_array` threads through `sorting`: both sides and the keys not yet dealt. */
  datatype Sides = Sides(right: seq<Chunk<FragId>>, left: seq<Chunk<FragId>>, keys: seq<real>)

  /** Everything dealt onto either side. */
  ghost function Placed(s: Sides): multiset<FragId> {
    multiset(Flat(s.right)) + multiset(Flat(s.left))
  }

  /** `dic_hm_inv.values_at(k).flatten`: the bucket of `k`, none when there is none. */
  function BucketOf(dic: OHash<real, seq<FragId>>, k: real): seq<FragId> {
    if k in dic.table then dic.table[k] else []
  }

  /**
   * `divide_array`: the bucket of the minimum key is dealt and the key
   * deleted. An even bucket: first half right, second half left. An odd
   * bucket of three or more: the first fragment is set aside, the rest
   * halved the same way, then the set-aside fragment goes right as a bare
   * element. A single fragment goes right for `dest` 0, left for `dest` 1,
   * nowhere otherwise. (With no key left the state stays as it is;
   * `sorting` never asks for that.)
   */
  function Divide(dic: OHash<real, seq<FragId>>, s: Sides, dest: int): (r: Sides)
    ensures s.keys != [] ==> r.keys == RemoveAll(s.keys, MinOf(s.keys))
  {
    if s.keys == [] then s
    else
      var m := MinOf(s.keys);
      Deal(s, BucketOf(dic, m), dest).(keys := RemoveAll(s.keys, m))
  }

  /** Where the fragments of one bucket go (the keys are left to `Divide`). */
  function Deal(s: Sides, contigs: seq<FragId>, dest: int): Sides {
    var n := |contigs|;
    if n % 2 == 0 then
      s.(right := s.right + [Group(contigs[..n / 2])], left := s.left + [Group(contigs[n / 2..])])
    else if n > 2 then
      var rest := contigs[1..];
      s.(right := s.right + [Group(rest[..|rest| / 2]), Single(contigs[0])], left := s.left + [Group(rest[|rest| / 2..])])
    else if dest == 0 then s.(right := s.right + [Group(contigs)])
    else if dest == 1 then s.(left := s.left + [Group(contigs)])
    else s
  }

  /**
   * `divide_array`. The arrays it appends to and deletes from are also
   * returned, and `sorting` rebinds its variables to them, so they are
   * passed and returned as values here. `cross` is not used by the source.
   */
  method DivideArray(dicHmInv: OHash<real, seq<FragId>>, right: seq<Chunk<FragId>>, left: seq<Chunk<FragId>>, keysHm: seq<real>, dest: int)
    returns (right': seq<Chunk<FragId>>, left': seq<Chunk<FragId>>, keysHm': seq<real>)
    requires keysHm != []
    ensures Sides(right', left', keysHm') == Divide(dicHmInv, Sides(right, left, keysHm), dest)
  {
    var minimum := MinOf(keysHm);
    var contigsAtMin := BucketOf(dicHmInv, minimum);
    keysHm' := RemoveAll(keysHm, minimum);
    right', left' := right, left;
    var n := |contigsAtMin|;
    if n % 2 == 0 {
      right' := right' + [Group(contigsAtMin[..n / 2])];
      left' := left' + [Group(contigsAtMin[n / 2..])];
    } else if n > 2 {
      var first := contigsAtMin[0];
      contigsAtMin := contigsAtMin[1..];
      var half := |contigsAtMin| / 2;
      right' := right' + [Group(contigsAtMin[..half])];
      left' := left' + [Group(contigsAtMin[half..])];
      right' := right' + [Single(first)];
    } else if dest == 0 {
      right' := right' + [Group(contigsAtMin)];
    } else if dest == 1 {
      left' := left' + [Group(contigsAtMin)];
    }
  }

  /** The state `sorting` starts from: empty sides and the hash's keys. */
  function Start(dic: OHash<real, seq<FragId>>): Sides {
    Sides([], [], dic.keys)
  }

  /** `n` calls of `divide_array`, the first with `dest`, the others alternating between 0 and 1 after it. */
  function Steps(dic: OHash<real, seq<FragId>>, s: Sides, n: nat, dest: int): Sides
    decreases n
  {
    if n == 0 then s else Steps(dic, Divide(dic, s, dest), n - 1, 1 - dest)
  }

  /** The `dest` of the call after the first `n`. */
  function DestAfter(dest: int, n: nat): int {
    if n % 2 == 0 then dest else 1 - dest
  }

  /** The call after the first `n` is the outermost. */
  lemma {:induction false} StepsUnfold(dic: OHash<real, seq<FragId>>, s: Sides, n: nat, dest: int)
    ensures Steps(dic, s, n + 1, dest) == Divide(dic, Steps(dic, s, n, dest), DestAfter(dest, n))
    decreases n
  {
    if n > 0 {
      StepsUnfold(dic, Divide(dic, s, dest), n - 1, 1 - dest);
      DestAfterStep(dest, n);
    }
  }

  /** One call later, the toggle has flipped once more. */
  lemma DestAfterStep(dest: int, n: nat)
    requires n > 0
    ensures DestAfter(1 - dest, n - 1) == DestAfter(dest, n)
  {
    if n % 2 == 0 {
      assert (n - 1) % 2 == 1;
    } else {
      assert (n - 1) % 2 == 0;
    }
  }

  /** `perm`: the right side's chunks, then the left side's chunks in reverse chunk order, flattened. */
  function Perm(s: Sides): seq<FragId> {
    Flat(s.right + Reverse(s.left))
  }

  /** The last `nr` chunks of the right side, then the last `nl` of the left in reverse chunk order, flattened. */
  function Seam(s: Sides, nr: nat, nl: nat): seq<FragId>
    requires nr <= |s.right| && nl <= |s.left|
  {
    Flat(s.right[|s.right| - nr..]) + Flat(Reverse(s.left[|s.left| - nl..]))
  }

  /**
   * `mut`, the candidates next to the seam: for a small average contig up to
   * 10 chunks a side for a back cross and 20 for an out cross (both sides
   * whole when the smaller one has no more), none for another cross; for a
   * large average contig as many chunks a side as the smaller side has, at
   * most 6. `average_contig.to_i` truncates.
   */
  function Window(s: Sides, cross: string, averageContig: real): seq<FragId> {
    var smaller := if |s.right| <= |s.left| then |s.right| else |s.left|;
    if Trunc(averageContig) < 10000 then
      if cross == "back" then
        if smaller > 10 then Seam(s, 10, 10) else Seam(s, |s.right|, |s.left|)
      else if cross == "out" then
        if smaller > 20 then Seam(s, 20, 20) else Seam(s, |s.right|, |s.left|)
      else []
    else
      var num := if smaller > 6 then 6 else smaller;
      Seam(s, num, num)
  }

  /**
   * The window lies inside `perm` around the seam: `perm` is the right side's
   * earlier chunks, then the seam, then the left side's earlier chunks.
   */
  lemma SeamInPerm(s: Sides, nr: nat, nl: nat)
    requires nr <= |s.right| && nl <= |s.left|
    ensures Perm(s) == Flat(s.right[..|s.right| - nr]) + Seam(s, nr, nl) + Flat(Reverse(s.left[..|s.left| - nl]))
  {
    var r1, r2 := s.right[..|s.right| - nr], s.right[|s.right| - nr..];
    var l1, l2 := s.left[..|s.left| - nl], s.left[|s.left| - nl..];
    assert s.right == r1 + r2 && s.left == l1 + l2;
    ReverseAppend(l1, l2);
    FlatAppend(s.right, Reverse(s.left));
    FlatAppend(r1, r2);
    FlatAppend(Reverse(l2), Reverse(l1));
    var a, b, c, d := Flat(r1), Flat(r2), Flat(Reverse(l2)), Flat(Reverse(l1));
    assert Perm(s) == (a + b) + (c + d);
    assert Seam(s, nr, nl) == b + c;
    ConcatRegroup(a, b, c, d);
  }

  /** `mut` is a contiguous stretch of `perm`. */
  lemma WindowInPerm(s: Sides, cross: string, averageContig: real)
    ensures exists i, j :: 0 <= i <= j <= |Perm(s)| && Perm(s)[i..j] == Window(s, cross, averageContig)
  {
    var smaller := if |s.right| <= |s.left| then |s.right| else |s.left|;
    var nr, nl;
    if Trunc(averageContig) < 10000 {
      if cross == "back" && smaller > 10 {
        nr, nl := 10, 10;
      } else if cross == "out" && smaller > 20 {
        nr, nl := 20, 20;
      } else if cross == "back" || cross == "out" {
        nr, nl := |s.right|, |s.left|;
      } else {
        assert Perm(s)[0..0] == Window(s, cross, averageContig);
        return;
      }
    } else {
      var num := if smaller > 6 then 6 else smaller;
      nr, nl := num, num;
    }
    assert Window(s, cross, averageContig) == Seam(s, nr, nl);
    SeamSlice(s, nr, nl);
  }

  /** Every seam is a contiguous stretch of `perm`. */
  lemma SeamSlice(s: Sides, nr: nat, nl: nat)
    requires nr <= |s.right| && nl <= |s.left|
    ensures exists i, j :: 0 <= i <= j <= |Perm(s)| && Perm(s)[i..j] == Seam(s, nr, nl)
  {
    SeamInPerm(s, nr, nl);
    var i := |Flat(s.right[..|s.right| - nr])|;
    var j := i + |Seam(s, nr, nl)|;
    assert Perm(s)[i..j] == Seam(s, nr, nl);
  }

  /** With a small average contig and a back or out cross, a side too short for the cut gives all of `perm`. */
  lemma WindowWhole(s: Sides, cross: string, averageContig: real)
    requires Trunc(averageContig) < 10000
    requires (cross == "back" && (|s.right| <= 10 || |s.left| <= 10)) || (cross == "out" && (|s.right| <= 20 || |s.left| <= 20))
    ensures Window(s, cross, averageContig) == Perm(s)
  {
    SeamInPerm(s, |s.right|, |s.left|);
    assert s.right[..0] == [] && s.left[..0] == [];
  }

  /** The state `sorting` ends in: `keys.length / 2` passes of two calls each. */
  function Final(dic: OHash<real, seq<FragId>>): Sides {
    Steps(dic, Start(dic), 2 * (|dic.keys| / 2), 0)
  }

  /** The remaining keys are distinct keys of the hash. */
  ghost predicate Ready(dic: OHash<real, seq<FragId>>, keys: seq<real>) {
    Distinct(keys) && forall k :: k in keys ==> k in dic.table
  }

  /**
   * The passes of `sorting`: `keys.length / 2` of them, each a call of
   * `divide_array` with `dest` 0 and then one with `dest` 1. Every fragment
   * is either placed on a side or still in the bucket of a key left over.
   */
  method Passes(dicHmInv: OHash<real, seq<FragId>>) returns (right: seq<Chunk<FragId>>, left: seq<Chunk<FragId>>, keys: seq<real>)
    requires dicHmInv.Valid()
    ensures Sides(right, left, keys) == Final(dicHmInv)
    ensures Ready(dicHmInv, keys) && |keys| == |dicHmInv.keys| - 2 * (|dicHmInv.keys| / 2)
    ensures Whole(dicHmInv, Sides(right, left, keys)) == multiset(Gather(dicHmInv.table, dicHmInv.keys))
  {
    left, right := [], [];
    keys := dicHmInv.keys;
    var passes := |keys| / 2;
    for it := 0 to passes
      invariant Sides(right, left, keys) == Steps(dicHmInv, Start(dicHmInv), 2 * it, 0)
      invariant Ready(dicHmInv, keys) && |keys| == |dicHmInv.keys| - 2 * it
      invariant Whole(dicHmInv, Sides(right, left, keys)) == Whole(dicHmInv, Start(dicHmInv))
    {
      StepsPass(dicHmInv, Start(dicHmInv), it);
      DivideStep(dicHmInv, Sides(right, left, keys), 0);
      right, left, keys := DivideArray(dicHmInv, right, left, keys, 0);
      DivideStep(dicHmInv, Sides(right, left, keys), 1);
      right, left, keys := DivideArray(dicHmInv, right, left, keys, 1);
      assert 2 * (it + 1) == 2 * it + 2;
    }
    assert Placed(Start(dicHmInv)) == multiset{};
  }

  /**
   * `sorting`: the passes (the `compact.flatten!` calls work on copies and
   * change nothing), then `perm` and the window `mut`. What `perm` misses is
   * exactly the bucket of a key left over.
   */
  method Sorting(dicHmInv: OHash<real, seq<FragId>>, cross: string, averageContig: real) returns (perm: seq<FragId>, mut: seq<FragId>)
    requires dicHmInv.Valid()
    ensures perm == Perm(Final(dicHmInv)) && mut == Window(Final(dicHmInv), cross, averageContig)
    ensures multiset(perm) + multiset(Gather(dicHmInv.table, Final(dicHmInv).keys)) == multiset(Gather(dicHmInv.table, dicHmInv.keys))
  {
    var right, left, keys := Passes(dicHmInv);
    var s := Sides(right, left, keys);
    perm := Flat(right + Reverse(left));
    assert perm == Perm(s);
    mut := Window(s, cross, averageContig);
    PermPlaced(s);
  }

  /** One pass of `sorting`: a call with `dest` 0, then one with `dest` 1. */
  lemma StepsPass(dic: OHash<real, seq<FragId>>, s: Sides, it: nat)
    ensures Steps(dic, s, 2 * it + 1, 0) == Divide(dic, Steps(dic, s, 2 * it, 0), 0)
    ensures Steps(dic, s, 2 * it + 2, 0) == Divide(dic, Steps(dic, s, 2 * it + 1, 0), 1)
  {
    StepsUnfold(dic, s, 2 * it, 0);
    StepsUnfold(dic, s, 2 * it + 1, 0);
    assert (2 * it) % 2 == 0 && (2 * it + 1) % 2 == 1;
  }

  /** The keys left after `n` deletions of the minimum. */
  function DropMins(keys: seq<real>, n: nat): seq<real>
    decreases n
  {
    if n == 0 || keys == [] then keys
    else
      var rest := RemoveAll(keys, MinOf(keys));
      DropMins(rest, n - 1)
  }

  /** Deleting the minimum of distinct keys removes one key, the smallest. */
  lemma DropMin(keys: seq<real>)
    requires Distinct(keys) && keys != []
    ensures |RemoveAll(keys, MinOf(keys))| == |keys| - 1
    ensures Distinct(RemoveAll(keys, MinOf(keys)))
  {
    RemoveOnce(keys, MinOf(keys));
    RemoveAllDistinct(keys, MinOf(keys));
  }

  /** After `n` deletions from distinct keys, `n` fewer are left, still distinct. */
  lemma {:induction false} DropMinsLength(keys: seq<real>, n: nat)
    requires Distinct(keys) && n <= |keys|
    ensures |DropMins(keys, n)| == |keys| - n && Distinct(DropMins(keys, n))
    decreases n
  {
    if n > 0 {
      assert keys != [];
      var rest := RemoveAll(keys, MinOf(keys));
      DropMin(keys);
      DropMinsLength(rest, n - 1);
      assert DropMins(keys, n) == DropMins(rest, n - 1);
    }
  }

  /** The keys left are keys from the start, each larger than every key deleted. */
  lemma {:induction false} DropMinsOrder(keys: seq<real>, n: nat)
    ensures forall k :: k in DropMins(keys, n) ==> k in keys
    ensures forall k, k' :: k in keys && k !in DropMins(keys, n) && k' in DropMins(keys, n) ==> k < k'
    decreases n
  {
    if n > 0 && keys != [] {
      var rest := RemoveAll(keys, MinOf(keys));
      DropMinsOrder(rest, n - 1);
    }
  }

  /** `divide_array` deals with the keys alone: after `n` calls, the minimum has been deleted `n` times. */
  lemma {:induction false} StepsKeys(dic: OHash<real, seq<FragId>>, s: Sides, n: nat, dest: int)
    ensures Steps(dic, s, n, dest).keys == DropMins(s.keys, n)
    decreases n
  {
    if n > 0 {
      StepsKeys(dic, Divide(dic, s, dest), n - 1, 1 - dest);
    }
  }

  lemma PlacedAppend(s: Sides, r: seq<Chunk<FragId>>, l: seq<Chunk<FragId>>)
    ensures Placed(s.(right := s.right + r, left := s.left + l)) == Placed(s) + multiset(Flat(r)) + multiset(Flat(l))
  {
    FlatAppend(s.right, r);
    FlatAppend(s.left, l);
  }

  /** One chunk flattened is its fragments. */
  lemma FlatChunk(c: Chunk<FragId>)
    ensures Flat([c]) == Items(c)
  {
    assert [c][1..] == [];
  }

  /** Appending one chunk to the right side adds exactly its fragments. */
  lemma PlacedRight(s: Sides, c: Chunk<FragId>)
    ensures Placed(s.(right := s.right + [c])) == Placed(s) + multiset(Items(c))
  {
    FlatAppend(s.right, [c]);
    FlatChunk(c);
  }

  /** Appending one chunk to the left side adds exactly its fragments. */
  lemma PlacedLeft(s: Sides, c: Chunk<FragId>)
    ensures Placed(s.(left := s.left + [c])) == Placed(s) + multiset(Items(c))
  {
    FlatAppend(s.left, [c]);
    FlatChunk(c);
  }

  /** Halves of a bucket go one to each side. */
  lemma PlacedHalves(s: Sides, a: seq<FragId>, b: seq<FragId>)
    ensures Placed(s.(right := s.right + [Group(a)], left := s.left + [Group(b)])) == Placed(s) + multiset(a + b)
  {
    var s1 := s.(right := s.right + [Group(a)]);
    PlacedRight(s, Group(a));
    PlacedLeft(s1, Group(b));
  }

  /** Halves of the rest of a bucket go one to each side, the set-aside fragment right after them. */
  lemma PlacedHalvesAside(s: Sides, c: FragId, a: seq<FragId>, b: seq<FragId>)
    ensures Placed(s.(right := s.right + [Group(a), Single(c)], left := s.left + [Group(b)])) == Placed(s) + multiset([c] + a + b)
  {
    var s1 := s.(right := s.right + [Group(a)]);
    var s2 := s1.(right := s1.right + [Single(c)]);
    PlacedRight(s, Group(a));
    PlacedRight(s1, Single(c));
    PlacedLeft(s2, Group(b));
    assert s1.right + [Single(c)] == s.right + [Group(a), Single(c)];
    assert multiset([c] + a + b) == multiset(a) + multiset([c]) + multiset(b);
  }

  lemma DealEven(s: Sides, contigs: seq<FragId>, dest: int)
    requires |contigs| % 2 == 0
    ensures Placed(Deal(s, contigs, dest)) == Placed(s) + multiset(contigs)
  {
    var n := |contigs|;
    PlacedHalves(s, contigs[..n / 2], contigs[n / 2..]);
    assert contigs == contigs[..n / 2] + contigs[n / 2..];
  }

  lemma DealOdd(s: Sides, contigs: seq<FragId>, dest: int)
    requires |contigs| % 2 == 1 && |contigs| > 2
    ensures Placed(Deal(s, contigs, dest)) == Placed(s) + multiset(contigs)
  {
    var rest := contigs[1..];
    PlacedHalvesAside(s, contigs[0], rest[..|rest| / 2], rest[|rest| / 2..]);
    assert contigs == [contigs[0]] + rest[..|rest| / 2] + rest[|rest| / 2..];
  }

  lemma DealOne(s: Sides, contigs: seq<FragId>, dest: int)
    requires |contigs| == 1 && (dest == 0 || dest == 1)
    ensures Placed(Deal(s, contigs, dest)) == Placed(s) + multiset(contigs)
  {
    var n := |contigs|;
    assert n % 2 == 1 && !(n > 2);
    if dest == 0 {
      assert Deal(s, contigs, dest) == s.(right := s.right + [Group(contigs)]);
      PlacedRight(s, Group(contigs));
    } else {
      assert Deal(s, contigs, dest) == s.(left := s.left + [Group(contigs)]);
      PlacedLeft(s, Group(contigs));
    }
  }

  /** With `dest` 0 or 1, every fragment of the bucket is placed, and nothing else. */
  lemma DealConserves(s: Sides, contigs: seq<FragId>, dest: int)
    requires dest == 0 || dest == 1
    ensures Placed(Deal(s, contigs, dest)) == Placed(s) + multiset(contigs)
  {
    if |contigs| % 2 == 0 {
      DealEven(s, contigs, dest);
    } else if |contigs| > 2 {
      DealOdd(s, contigs, dest);
    } else {
      DealOne(s, contigs, dest);
    }
  }

  /** With `dest` 0 or 1, a call places every fragment of the minimum bucket and nothing else. */
  lemma DivideConserves(dic: OHash<real, seq<FragId>>, s: Sides, dest: int)
    requires s.keys != [] && (dest == 0 || dest == 1)
    ensures Placed(Divide(dic, s, dest)) == Placed(s) + multiset(BucketOf(dic, MinOf(s.keys)))
  {
    DealConserves(s, BucketOf(dic, MinOf(s.keys)), dest);
  }

  /** Every fragment, placed or still in the bucket of a key not yet dealt. */
  ghost function Whole(dic: OHash<real, seq<FragId>>, s: Sides): multiset<FragId> {
    Placed(s) + multiset(Gather(dic.table, s.keys))
  }

  /** One call moves the minimum bucket from the pending keys onto the sides. */
  lemma DivideStep(dic: OHash<real, seq<FragId>>, t: Sides, dest: int)
    requires Ready(dic, t.keys) && t.keys != [] && (dest == 0 || dest == 1)
    ensures Ready(dic, Divide(dic, t, dest).keys) && |Divide(dic, t, dest).keys| == |t.keys| - 1
    ensures Whole(dic, Divide(dic, t, dest)) == Whole(dic, t)
  {
    var m := MinOf(t.keys);
    DropMin(t.keys);
    DivideConserves(dic, t, dest);
    GatherRemove(dic.table, t.keys, m);
  }

  lemma {:induction false} FlatReverse(cs: seq<Chunk<FragId>>)
    ensures multiset(Flat(Reverse(cs))) == multiset(Flat(cs))
  {
    if cs != [] {
      FlatReverse(cs[1..]);
      FlatAppend(Reverse(cs[1..]), [cs[0]]);
      assert Flat(cs) == Items(cs[0]) + Flat(cs[1..]);
    }
  }

  /** `perm` holds exactly the fragments placed on either side. */
  lemma PermPlaced(s: Sides)
    ensures multiset(Perm(s)) == Placed(s)
  {
    FlatAppend(s.right, Reverse(s.left));
    FlatReverse(s.left);
  }

  /**
   * As written, with an odd number of keys `sorting` stops one call short:
   * the one key left over is the largest, so its bucket never reaches `perm`.
   */
  lemma SortingLeavesLargest(dic: OHash<real, seq<FragId>>)
    requires dic.Valid() && |dic.keys| % 2 == 1
    ensures Final(dic).keys == [MaxOf(dic.keys)]
  {
    var k := |dic.keys|;
    assert 2 * (k / 2) == k - 1;
    StepsKeys(dic, Start(dic), k - 1, 0);
    DropMinsLast(dic.keys);
  }

  /** Deleting the minimum from `n` distinct keys `n - 1` times leaves the largest. */
  lemma DropMinsLast(keys: seq<real>)
    requires Distinct(keys) && keys != []
    ensures DropMins(keys, |keys| - 1) == [MaxOf(keys)]
  {
    var n := |keys| - 1;
    DropMinsLength(keys, n);
    DropMinsOrder(keys, n);
    var rest := DropMins(keys, n);
    var r := rest[0];
    assert rest == [r] && r in rest;
    forall x | x in keys ensures x <= r {
      if x != r {
        assert x !in rest;
      }
    }
    var m := MaxOf(keys);
    assert r in keys && m in keys;
    assert m <= r && r <= m;
  }

  /** A single key whose bucket is non-empty: `perm` comes out empty. */
  lemma SortingOneKeyEmpty(k: real, frags: seq<FragId>)
    requires frags != []
    ensures Perm(Final(OHash([k], map[k := frags]))) == []
    ensures Gather(map[k := frags], [k]) == frags
  {
    assert Final(OHash([k], map[k := frags])) == Start(OHash([k], map[k := frags]));
  }

  /** The evident intent: one call per key, so that every bucket is dealt. */
  function FinalFixed(dic: OHash<real, seq<FragId>>): Sides {
    Steps(dic, Start(dic), |dic.keys|, 0)
  }

  /**
   * `sorting` as evidently intended: the same passes, then, when the number
   * of keys is odd, one more call with `dest` 0 for the key left over.
   */
  method SortingFixed(dicHmInv: OHash<real, seq<FragId>>, cross: string, averageContig: real) returns (perm: seq<FragId>, mut: seq<FragId>)
    requires dicHmInv.Valid()
    ensures perm == Perm(FinalFixed(dicHmInv)) && mut == Window(FinalFixed(dicHmInv), cross, averageContig)
    ensures multiset(perm) == multiset(Gather(dicHmInv.table, dicHmInv.keys))
  {
    var right, left, keys := Passes(dicHmInv);
    FinalFixedIs(dicHmInv);
    if keys != [] {
      DivideStep(dicHmInv, Sides(right, left, keys), 0);
      right, left, keys := DivideArray(dicHmInv, right, left, keys, 0);
    }
    var s := Sides(right, left, keys);
    perm := Flat(right + Reverse(left));
    assert perm == Perm(s);
    mut := Window(s, cross, averageContig);
    PermPlaced(s);
  }

  /** With one call per key, the only difference is a last call for an odd key count. */
  lemma FinalFixedIs(dic: OHash<real, seq<FragId>>)
    ensures FinalFixed(dic) == if 2 * (|dic.keys| / 2) == |dic.keys| then Final(dic) else Divide(dic, Final(dic), 0)
  {
    var k := |dic.keys|;
    if k % 2 == 1 {
      assert k == 2 * (k / 2) + 1;
      StepsPass(dic, Start(dic), k / 2);
    } else {
      assert k == 2 * (k / 2);
    }
  }

  /** `or_pos`: the candidates that have positions, in the order of `mut`, each with its positions. */
  function Candidates(mut: seq<FragId>, pos: map<FragId, seq<int>>): OHash<FragId, seq<int>> {
    OHash(Select(mut, pos.Keys), map f | f in mut && f in pos :: pos[f])
  }

  lemma CandidatesValid(mut: seq<FragId>, pos: map<FragId, seq<int>>)
    requires Distinct(mut)
    ensures Candidates(mut, pos).Valid()
  {
    forall x ensures multiset(Select(mut, pos.Keys))[x] <= 1 && (x in Select(mut, pos.Keys) <==> x in mut && x in pos) {
      SelectCount(mut, pos.Keys, x);
    }
  }

  /** One candidate of the `mut.each` loop: stored when it has positions, skipped otherwise. */
  lemma CandidatesSnoc(mut: seq<FragId>, pos: map<FragId, seq<int>>, i: int)
    requires Distinct(mut) && 0 <= i < |mut|
    ensures Distinct(mut[..i]) && Candidates(mut[..i], pos).Valid()
    ensures Candidates(mut[..i + 1], pos)
         == if mut[i] in pos then Candidates(mut[..i], pos).Store(mut[i], pos[mut[i]]) else Candidates(mut[..i], pos)
  {
    var f := mut[i];
    DistinctPrefix(mut, i);
    DistinctFresh(mut, i);
    CandidatesValid(mut[..i], pos);
    SelectPrefixSnoc(mut, pos.Keys, i);
  }

  /** `hyp`: the position arrays of the candidates sorted, then flattened; nil when there is none. */
  function Hyp(orPos: OHash<FragId, seq<int>>): Option<seq<int>>
    requires orPos.Valid()
  {
    if orPos.keys == [] then None else Some(Flatten(SortLex(orPos.Values())))
  }

  /**
   * `calling_SDM`: sort both inverted hashes, merge the two windows without
   * duplicates into `mut`, collect the positions of the candidates in `mut`
   * and sort them into `hyp`.
   */
  method CallingSdm(dicHmInv: OHash<real, seq<FragId>>, dicRatiosInv: OHash<real, seq<FragId>>, dicPosHm: map<FragId, seq<int>>, cross: string, averageContig: real)
    returns (permHm: seq<FragId>, permRatio: seq<FragId>, mut: seq<FragId>, hyp: Option<seq<int>>)
    requires dicHmInv.Valid() && dicRatiosInv.Valid()
    ensures permHm == Perm(Final(dicHmInv)) && permRatio == Perm(Final(dicRatiosInv))
    ensures mut == Uniq(Window(Final(dicHmInv), cross, averageContig) + Window(Final(dicRatiosInv), cross, averageContig))
    ensures Candidates(mut, dicPosHm).Valid() && hyp == Hyp(Candidates(mut, dicPosHm))
  {
    var mutHm, mutRatio;
    permHm, mutHm := Sorting(dicHmInv, cross, averageContig);
    permRatio, mutRatio := Sorting(dicRatiosInv, cross, averageContig);
    mut := Uniq(mutHm + mutRatio);
    var orPos := OrPos(mut, dicPosHm);
    hyp := Hyp(orPos);
  }

  /** The `mut.each` loop of `calling_SDM`: store each candidate that has positions. */
  method OrPos(mut: seq<FragId>, dicPosHm: map<FragId, seq<int>>) returns (orPos: OHash<FragId, seq<int>>)
    requires Distinct(mut)
    ensures orPos.Valid() && orPos == Candidates(mut, dicPosHm)
  {
    orPos := Empty();
    assert Candidates(mut[..0], dicPosHm) == orPos;
    for i := 0 to |mut|
      invariant orPos == Candidates(mut[..i], dicPosHm)
    {
      CandidatesSnoc(mut, dicPosHm, i);
      if mut[i] in dicPosHm {
        orPos := orPos.Store(mut[i], dicPosHm[mut[i]]);
      }
    }
    assert mut[..|mut|] == mut;
    CandidatesValid(mut, dicPosHm);
  }

  /** `hyp` is nil exactly when no candidate has positions. */
  lemma HypNone(mut: seq<FragId>, pos: map<FragId, seq<int>>)
    requires Distinct(mut)
    ensures Candidates(mut, pos).Valid()
    ensures Hyp(Candidates(mut, pos)) == None <==> forall f :: f in mut ==> f !in pos
  {
    CandidatesValid(mut, pos);
    var keys := Select(mut, pos.Keys);
    forall f | f in mut && f in pos ensures f in keys {
      SelectCount(mut, pos.Keys, f);
    }
    if keys != [] {
      SelectCount(mut, pos.Keys, keys[0]);
    }
  }

  /** Otherwise `hyp` holds every position of every candidate, as often as it occurs. */
  lemma HypPositions(mut: seq<FragId>, pos: map<FragId, seq<int>>)
    requires Distinct(mut)
    ensures Candidates(mut, pos).Valid()
    ensures Hyp(Candidates(mut, pos)) != None ==> multiset(Hyp(Candidates(mut, pos)).value) == multiset(Gather(pos, mut))
  {
    var orPos := Candidates(mut, pos);
    CandidatesValid(mut, pos);
    if orPos.keys != [] {
      var vs := orPos.Values();
      SortLexFlatten(vs);
      GatherLookups(orPos.table, orPos.keys, vs);
      forall k | k in orPos.keys ensures k in orPos.table && k in pos && orPos.table[k] == pos[k] {
        SelectCount(mut, pos.Keys, k);
      }
      GatherFrame(orPos.table, pos, orPos.keys);
      GatherSelect(pos, mut);
    }
  }

  /** Any ascending arrangement of the candidates' position arrays, flattened, is `hyp`. */
  lemma HypSorted(orPos: OHash<FragId, seq<int>>, v: seq<seq<int>>)
    requires orPos.Valid() && orPos.keys != []
    requires LexSorted(v) && multiset(v) == multiset(orPos.Values())
    ensures Hyp(orPos) == Some(Flatten(v))
  {
    SortLexSorted(orPos.Values());
    SortLexPermutes(orPos.Values());
    SortedUnique(SortLex(orPos.Values()), v);
  }
}
