/**
 * Test/unit_tests_SDM.rb: the fixture hash and what `divide_array`,
 * `sorting` and `calling_SDM` make of it.
 */
module SdmExamples {
  import opened Collections
  import opened Fragments
  import opened SDM

  /** The fixture: three single-fragment buckets and one of seven. */
  function Fixture(): OHash<real, seq<FragId>> {
    OHash([11.374979, 11.842904, 10.120768, 5.022447],
          map[11.374979 := ["a"], 11.842904 := ["b"], 10.120768 := ["c"], 5.022447 := ["d", "e", "f", "g", "h", "i", "j"]])
  }

  /** A bucket of seven: its second to fourth fragments go right, then the first, set aside; the last three go left. */
  lemma DivideSeven(dic: OHash<real, seq<FragId>>, s: Sides, m: real, dest: int)
    requires s.keys != [] && MinOf(s.keys) == m && |BucketOf(dic, m)| == 7
    ensures var c := BucketOf(dic, m);
      Divide(dic, s, dest) == Sides(s.right + [Group(c[1..4]), Single(c[0])], s.left + [Group(c[4..])], RemoveAll(s.keys, m))
  {
    var c := BucketOf(dic, m);
    assert c[1..][..3] == c[1..4] && c[1..][3..] == c[4..];
  }

  /** The fixture's smallest key is the one of the bucket of seven. */
  lemma FixtureMin()
    ensures MinOf(Fixture().keys) == 5.022447
  {
    MinOfIs(Fixture().keys, 5.022447);
  }

  /** The fixture's bucket of seven, cut as `divide_array` cuts it. */
  lemma FixtureSeven(c: seq<FragId>)
    requires c == BucketOf(Fixture(), 5.022447)
    ensures |c| == 7 && c[0] == "d" && c[1..4] == ["e", "f", "g"] && c[4..] == ["h", "i", "j"]
  {
    assert c == ["d", "e", "f", "g", "h", "i", "j"];
  }

  /** Deleting the last of four distinct keys. */
  lemma RemoveFourth(a: real, b: real, c: real, x: real)
    requires a != x && b != x && c != x
    ensures RemoveAll([a, b, c, x], x) == [a, b, c]
  {
    assert RemoveAll([x], x) == [] by { assert [x][1..] == []; }
    assert RemoveAll([c, x], x) == [c] by { assert [c, x][1..] == [x]; }
    assert RemoveAll([b, c, x], x) == [b, c] by { assert [b, c, x][1..] == [c, x]; }
    assert [a, b, c, x][1..] == [b, c, x];
  }

  /** The first call (`test_split`): the odd bucket of seven sets `d` aside after the halves `e f g` and `h i j`. */
  lemma SplitExample()
    ensures Divide(Fixture(), Start(Fixture()), 0)
         == Sides([Group(["e", "f", "g"]), Single("d")], [Group(["h", "i", "j"])], [11.374979, 11.842904, 10.120768])
  {
    var dic := Fixture();
    FixtureMin();
    FixtureSeven(BucketOf(dic, 5.022447));
    DivideSeven(dic, Start(dic), 5.022447, 0);
    RemoveFourth(11.374979, 11.842904, 10.120768, 5.022447);
  }

  /** The states after the first, second, third and fourth call. */
  function After1(): Sides {
    Sides([Group(["e", "f", "g"]), Single("d")], [Group(["h", "i", "j"])], [11.374979, 11.842904, 10.120768])
  }

  function After2(): Sides {
    Sides([Group(["e", "f", "g"]), Single("d")], [Group(["h", "i", "j"]), Group(["c"])], [11.374979, 11.842904])
  }

  function After3(): Sides {
    Sides([Group(["e", "f", "g"]), Single("d"), Group(["a"])], [Group(["h", "i", "j"]), Group(["c"])], [11.842904])
  }

  function After4(): Sides {
    Sides([Group(["e", "f", "g"]), Single("d"), Group(["a"])], [Group(["h", "i", "j"]), Group(["c"]), Group(["b"])], [])
  }

  /** The second call (`dest` 1) puts the single fragment `c` on the left. */
  lemma SecondCall()
    ensures Divide(Fixture(), After1(), 1) == After2()
  {
    var keys := After1().keys;
    MinOfIs(keys, 10.120768);
    assert RemoveAll(keys, 10.120768) == [11.374979, 11.842904];
  }

  /** The third call (`dest` 0) puts `a` on the right. */
  lemma ThirdCall()
    ensures Divide(Fixture(), After2(), 0) == After3()
  {
    var keys := After2().keys;
    MinOfIs(keys, 11.374979);
    assert RemoveAll(keys, 11.374979) == [11.842904];
  }

  /** The fourth call (`dest` 1) puts `b` on the left. */
  lemma FourthCall()
    ensures Divide(Fixture(), After3(), 1) == After4()
  {
    assert MinOf(After3().keys) == 11.842904;
  }

  /** The two passes of `sorting` on the fixture. */
  lemma FinalExample()
    ensures Final(Fixture()) == After4()
  {
    SplitExample();
    SecondCall();
    ThirdCall();
    FourthCall();
    var dic := Fixture();
    assert Steps(dic, After3(), 1, 1) == After4();
    assert Steps(dic, After2(), 2, 0) == After4();
    assert Steps(dic, After1(), 3, 1) == After4();
  }

  /**
   * `sorting` on the fixture: `perm` is `e f g d a b c h i j` and, with a back
   * cross and an average contig of 2500, so is `mut`. (The test expects
   * `e d a b c f` for both.)
   */
  lemma SortingExample()
    ensures Perm(Final(Fixture())) == ["e", "f", "g", "d", "a", "b", "c", "h", "i", "j"]
    ensures Window(Final(Fixture()), "back", 2500.0) == Perm(Final(Fixture()))
  {
    FinalExample();
    PermExample();
    WindowWhole(After4(), "back", 2500.0);
  }

  /** Three chunks reversed. */
  lemma ReverseThree<T>(s: seq<T>)
    requires |s| == 3
    ensures Reverse(s) == [s[2], s[1], s[0]]
  {
  }

  /** Six chunks flattened, one after another. */
  lemma FlatSix<T>(cs: seq<Chunk<T>>)
    requires |cs| == 6
    ensures Flat(cs) == Items(cs[0]) + (Items(cs[1]) + (Items(cs[2]) + (Items(cs[3]) + (Items(cs[4]) + Items(cs[5])))))
  {
    assert Flat(cs[5..]) == Items(cs[5]) by { assert cs[5..][1..] == []; }
    assert Flat(cs[4..]) == Items(cs[4]) + Flat(cs[5..]) by { assert cs[4..][1..] == cs[5..]; }
    assert Flat(cs[3..]) == Items(cs[3]) + Flat(cs[4..]) by { assert cs[3..][1..] == cs[4..]; }
    assert Flat(cs[2..]) == Items(cs[2]) + Flat(cs[3..]) by { assert cs[2..][1..] == cs[3..]; }
    assert Flat(cs[1..]) == Items(cs[1]) + Flat(cs[2..]) by { assert cs[1..][1..] == cs[2..]; }
  }

  /** The order the fixture ends in: the right side, then the left side reversed. */
  lemma PermExample()
    ensures Perm(After4()) == ["e", "f", "g", "d", "a", "b", "c", "h", "i", "j"]
  {
    var s := After4();
    ReverseThree(s.left);
    var cs := s.right + Reverse(s.left);
    assert cs == [Group(["e", "f", "g"]), Single("d"), Group(["a"]), Group(["b"]), Group(["c"]), Group(["h", "i", "j"])];
    FlatSix(cs);
  }

  /** The fixture's positions: `g`, `h`, `i` and `j` have none. */
  function FixturePositions(): map<FragId, seq<int>> {
    map["a" := [1], "b" := [2], "c" := [3, 4], "d" := [5, 6], "e" := [7], "f" := [10]]
  }

  function FixtureMut(): seq<FragId> {
    ["e", "f", "g", "d", "a", "b", "c", "h", "i", "j"]
  }

  /** `or_pos` for the fixture: the candidates with positions, in the order of `mut`. */
  function FixtureOrPos(): OHash<FragId, seq<int>> {
    OHash(["e", "f", "d", "a", "b", "c"], FixturePositions())
  }

  lemma CandidatesExample()
    ensures Candidates(FixtureMut(), FixturePositions()) == FixtureOrPos()
  {
    var m := FixtureMut();
    SelectExample(m, FixturePositions().Keys);
    assert Candidates(m, FixturePositions()).table == FixturePositions();
  }

  /** Of the ten fragments of `mut`, `g`, `h`, `i` and `j` have no positions. */
  lemma SelectExample(m: seq<FragId>, ks: set<FragId>)
    requires m == FixtureMut() && ks == FixturePositions().Keys
    ensures Select(m, ks) == ["e", "f", "d", "a", "b", "c"]
  {
    SelectFirstSix(m, ks);
    assert "h" !in ks && "i" !in ks && "j" !in ks;
    SelectPrefixSnoc(m, ks, 7);
    SelectPrefixSnoc(m, ks, 8);
    SelectPrefixSnoc(m, ks, 9);
    assert m[..10] == m;
  }

  lemma SelectFirstSix(m: seq<FragId>, ks: set<FragId>)
    requires m == FixtureMut() && ks == FixturePositions().Keys
    ensures Select(m[..7], ks) == ["e", "f", "d", "a", "b", "c"]
  {
    assert "g" !in ks;
    assert m[..0] == [];
    SelectPrefixSnoc(m, ks, 0);
    SelectPrefixSnoc(m, ks, 1);
    SelectPrefixSnoc(m, ks, 2);
    SelectPrefixSnoc(m, ks, 3);
    SelectPrefixSnoc(m, ks, 4);
    SelectPrefixSnoc(m, ks, 5);
    SelectPrefixSnoc(m, ks, 6);
  }

  lemma OrPosValidExample()
    ensures FixtureOrPos().Valid()
  {
    assert Distinct(FixtureOrPos().keys);
  }

  /** The positions of the six candidates, looked up one by one. */
  lemma FixtureLookups()
    ensures var t := FixturePositions();
      "e" in t && "f" in t && "d" in t && "a" in t && "b" in t && "c" in t
      && t["e"] == [7] && t["f"] == [10] && t["d"] == [5, 6] && t["a"] == [1] && t["b"] == [2] && t["c"] == [3, 4]
  {
  }

  /** `or_pos.values`: the position arrays in the order of `mut`. */
  lemma ValuesExample()
    ensures FixtureOrPos().Valid()
    ensures FixtureOrPos().Values() == [[7], [10], [5, 6], [1], [2], [3, 4]]
  {
    OrPosValidExample();
    FixtureLookups();
    var vs := FixtureOrPos().Values();
    assert vs == [vs[0], vs[1], vs[2], vs[3], vs[4], vs[5]];
  }

  /** `sort` orders the position arrays lexicographically. */
  lemma SortExample(vals: seq<seq<int>>)
    requires vals == [[7], [10], [5, 6], [1], [2], [3, 4]]
    ensures SortLex(vals) == [[1], [2], [3, 4], [5, 6], [7], [10]]
  {
    assert SortLex(vals[5..]) == [[3, 4]];
    assert SortLex(vals[4..]) == [[2], [3, 4]];
    assert SortLex(vals[3..]) == [[1], [2], [3, 4]];
    assert InsertLex([5, 6], [[3, 4]]) == [[3, 4], [5, 6]];
    assert InsertLex([5, 6], [[2], [3, 4]]) == [[2], [3, 4], [5, 6]];
    assert SortLex(vals[2..]) == [[1], [2], [3, 4], [5, 6]];
    assert InsertLex([10], [[5, 6]]) == [[5, 6], [10]];
    assert InsertLex([10], [[3, 4], [5, 6]]) == [[3, 4], [5, 6], [10]];
    assert InsertLex([10], [[2], [3, 4], [5, 6]]) == [[2], [3, 4], [5, 6], [10]];
    assert SortLex(vals[1..]) == [[1], [2], [3, 4], [5, 6], [10]];
    assert InsertLex([7], [[5, 6], [10]]) == [[5, 6], [7], [10]];
    assert InsertLex([7], [[3, 4], [5, 6], [10]]) == [[3, 4], [5, 6], [7], [10]];
    assert InsertLex([7], [[2], [3, 4], [5, 6], [10]]) == [[2], [3, 4], [5, 6], [7], [10]];
  }

  lemma FlattenExample(v: seq<seq<int>>)
    requires v == [[1], [2], [3, 4], [5, 6], [7], [10]]
    ensures Flatten(v) == [1, 2, 3, 4, 5, 6, 7, 10]
  {
    assert Flatten(v[5..]) == [10];
    assert Flatten(v[4..]) == [7, 10];
    assert Flatten(v[3..]) == [5, 6, 7, 10];
    assert Flatten(v[2..]) == [3, 4, 5, 6, 7, 10];
    assert Flatten(v[1..]) == [2, 3, 4, 5, 6, 7, 10];
  }

  /**
   * `calling_SDM` on the fixture (both windows are `perm`, so `mut` is too):
   * `hyp` is `[1, 2, 3, 4, 5, 6, 7, 10]`, as the test expects.
   */
  lemma HypExample()
    ensures Candidates(FixtureMut(), FixturePositions()).Valid()
    ensures Hyp(Candidates(FixtureMut(), FixturePositions())) == Some([1, 2, 3, 4, 5, 6, 7, 10])
  {
    CandidatesExample();
    ValuesExample();
    var v := [[1], [2], [3, 4], [5, 6], [7], [10]];
    SortExample(FixtureOrPos().Values());
    FlattenExample(v);
  }
}
