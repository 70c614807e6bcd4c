/**
 * The few Ruby String operations the pileup and VCF readers rely on:
 * `count` over a character set, `split` on one character, and the leading
 * decimal number read by `to_i` or by a `/^(\d+)/` match.
 */
module Text {
  import opened Collections

  /** `s.count(chars)`: how many characters of `s` belong to `cs`. */
  function Count(s: string, cs: set<char>): (n: nat)
    ensures n <= |s|
  {
    if s == [] then 0 else (if s[0] in cs then 1 else 0) + Count(s[1..], cs)
  }

  lemma {:induction false} CountAppend(a: string, b: string, cs: set<char>)
    ensures Count(a + b, cs) == Count(a, cs) + Count(b, cs)
  {
    if a == [] {
      assert a + b == b;
    } else {
      assert (a + b)[1..] == a[1..] + b;
      CountAppend(a[1..], b, cs);
    }
  }

  /** Counting two disjoint sets at once adds their counts. */
  lemma {:induction false} CountUnion(s: string, c1: set<char>, c2: set<char>)
    requires c1 !! c2
    ensures Count(s, c1 + c2) == Count(s, c1) + Count(s, c2)
  {
    if s != [] {
      CountUnion(s[1..], c1, c2);
    }
  }

  /** `s =~ /c/`: the count is positive exactly when some character of `s` is in the set. */
  lemma {:induction false} CountPositive(s: string, cs: set<char>)
    ensures Count(s, cs) > 0 <==> exists i :: 0 <= i < |s| && s[i] in cs
  {
    if s != [] {
      CountPositive(s[1..], cs);
      assert forall i :: 0 < i < |s| ==> s[i] == s[1..][i - 1];
      if Count(s[1..], cs) > 0 {
        var i :| 0 <= i < |s[1..]| && s[1..][i] in cs;
        assert s[i + 1] in cs;
      }
    }
  }

  /** The pieces of `s` between occurrences of `c`, keeping every empty piece. */
  function Pieces(s: string, c: char): (ps: seq<string>)
    ensures |ps| >= 1
  {
    if s == [] then [[]]
    else
      var rest := Pieces(s[1..], c);
      if s[0] == c then [[]] + rest else [[s[0]] + rest[0]] + rest[1..]
  }

  /** The pieces put back together with `c` between them (`Array#join`). */
  function Join(ps: seq<string>, c: char): string
    requires |ps| >= 1
  {
    if |ps| == 1 then ps[0] else ps[0] + [c] + Join(ps[1..], c)
  }

  /** Splitting and joining again gives back the string. */
  lemma {:induction false} JoinPieces(s: string, c: char)
    ensures Join(Pieces(s, c), c) == s
  {
    if s != [] {
      var rest := Pieces(s[1..], c);
      JoinPieces(s[1..], c);
      if s[0] == c {
        assert Pieces(s, c)[1..] == rest;
        assert s == [] + [c] + s[1..];
      } else {
        var ps := Pieces(s, c);
        assert ps[1..] == rest[1..];
        if |rest| == 1 {
          assert s == [s[0]] + rest[0];
        } else {
          assert ps[0] + [c] + Join(ps[1..], c) == [s[0]] + (rest[0] + [c] + Join(rest[1..], c));
        }
      }
    }
  }

  /** No piece holds the separator, and there is one piece more than there are separators. */
  lemma {:induction false} PiecesCount(s: string, c: char)
    ensures |Pieces(s, c)| == Count(s, {c}) + 1
    ensures forall i :: 0 <= i < |Pieces(s, c)| ==> c !in Pieces(s, c)[i]
  {
    if s != [] {
      var rest := Pieces(s[1..], c);
      PiecesCount(s[1..], c);
      var ps := Pieces(s, c);
      if s[0] != c {
        assert forall i :: 1 <= i < |ps| ==> ps[i] == rest[i];
      } else {
        assert forall i :: 1 <= i < |ps| ==> ps[i] == rest[i - 1];
      }
    }
  }

  /** A leading field without the separator becomes the first piece. */
  lemma {:induction false} PiecesAfter(a: string, c: char, b: string)
    requires c !in a
    ensures Pieces(a + [c] + b, c) == [a] + Pieces(b, c)
  {
    if a == [] {
      assert a + [c] + b == [c] + b;
      assert ([c] + b)[1..] == b;
    } else {
      assert (a + [c] + b)[1..] == a[1..] + [c] + b;
      PiecesAfter(a[1..], c, b);
      assert [a[0]] + a[1..] == a;
    }
  }

  /** The total of `Count` over a list of strings. */
  function CountAll(ps: seq<string>, cs: set<char>): nat {
    if ps == [] then 0 else Count(ps[0], cs) + CountAll(ps[1..], cs)
  }

  /** Characters other than the separator are all found in the pieces. */
  lemma {:induction false} CountPieces(s: string, c: char, cs: set<char>)
    requires c !in cs
    ensures CountAll(Pieces(s, c), cs) == Count(s, cs)
  {
    if s != [] {
      var rest := Pieces(s[1..], c);
      CountPieces(s[1..], c, cs);
      var ps := Pieces(s, c);
      if s[0] == c {
        assert ps[1..] == rest;
      } else {
        assert ps[1..] == rest[1..];
        assert rest == [rest[0]] + rest[1..];
        CountAppend([s[0]], rest[0], cs);
      }
    }
  }

  /** Ruby's `split` drops the empty strings at the end of the list. */
  function DropTrailingEmpty(ps: seq<string>): (r: seq<string>)
    ensures |r| <= |ps| && r == ps[..|r|]
    ensures r != [] ==> r[|r| - 1] != []
    ensures forall i :: |r| <= i < |ps| ==> ps[i] == []
  {
    if ps == [] then []
    else if ps[|ps| - 1] == [] then DropTrailingEmpty(ps[..|ps| - 1])
    else ps
  }

  /** `s.split(c)` for a one-character separator. */
  function Split(s: string, c: char): (r: seq<string>)
    ensures |r| <= |Pieces(s, c)| && r == Pieces(s, c)[..|r|]
  {
    DropTrailingEmpty(Pieces(s, c))
  }

  lemma {:induction false} CountAllAppend(a: seq<string>, b: seq<string>, cs: set<char>)
    ensures CountAll(a + b, cs) == CountAll(a, cs) + CountAll(b, cs)
  {
    if a == [] {
      assert a + b == b;
    } else {
      assert (a + b)[1..] == a[1..] + b;
      CountAllAppend(a[1..], b, cs);
    }
  }

  lemma {:induction false} CountAllEmpty(ps: seq<string>, cs: set<char>)
    requires forall i :: 0 <= i < |ps| ==> ps[i] == []
    ensures CountAll(ps, cs) == 0
  {
    if ps != [] {
      CountAllEmpty(ps[1..], cs);
    }
  }

  /** Dropping the trailing empty pieces drops no character. */
  lemma CountSplit(s: string, c: char, cs: set<char>)
    requires c !in cs
    ensures CountAll(Split(s, c), cs) == Count(s, cs)
  {
    var ps := Pieces(s, c);
    var r := Split(s, c);
    assert ps == r + ps[|r|..];
    CountAllAppend(r, ps[|r|..], cs);
    CountAllEmpty(ps[|r|..], cs);
    CountPieces(s, c, cs);
  }

  predicate IsDigit(ch: char) {
    '0' <= ch <= '9'
  }

  /** The number of decimal digits at the start of `s`. */
  function LeadingDigits(s: string): (n: nat)
    ensures n <= |s|
    ensures forall i :: 0 <= i < n ==> IsDigit(s[i])
    ensures n < |s| ==> !IsDigit(s[n])
  {
    if s == [] || !IsDigit(s[0]) then 0
    else
      var n := LeadingDigits(s[1..]);
      assert forall i :: 1 <= i < n + 1 ==> s[i] == s[1..][i - 1];
      n + 1
  }

  /** The value of a string of decimal digits, most significant first. */
  function DigitsValue(s: string): nat {
    if s == [] then 0
    else
      var d := s[|s| - 1] as int - '0' as int;
      DigitsValue(s[..|s| - 1]) * 10 + (if 0 <= d then d else 0)
  }

  /**
   * `String#to_i`: an optional sign followed by the leading digits; a string
   * that does not start with a number reads as 0.
   */
  function ToI(s: string): int {
    if s != [] && (s[0] == '-' || s[0] == '+') then
      var rest := s[1..];
      var v: int := DigitsValue(rest[..LeadingDigits(rest)]);
      if s[0] == '-' then -v else v
    else DigitsValue(s[..LeadingDigits(s)])
  }

  /** The decimal representation of a natural number, as `Integer#to_s` prints it. */
  function Decimal(n: nat): (s: string)
    ensures s != [] && forall i :: 0 <= i < |s| ==> IsDigit(s[i])
  {
    var d := ['0' + (n % 10) as char];
    if n < 10 then d else Decimal(n / 10) + d
  }

  /** A digit string is read whole. */
  lemma {:induction false} LeadingAllDigits(s: string)
    requires forall i :: 0 <= i < |s| ==> IsDigit(s[i])
    ensures LeadingDigits(s) == |s|
  {
    if s != [] {
      LeadingAllDigits(s[1..]);
    }
  }

  lemma {:induction false} DigitsValueDecimal(n: nat)
    ensures DigitsValue(Decimal(n)) == n
  {
    if n >= 10 {
      DigitsValueDecimal(n / 10);
      var s := Decimal(n);
      assert s[..|s| - 1] == Decimal(n / 10);
    }
  }

  /** `n.to_s.to_i == n` for every natural number. */
  lemma ToIDecimal(n: nat)
    ensures ToI(Decimal(n)) == n
  {
    var s := Decimal(n);
    assert IsDigit(s[0]);
    LeadingAllDigits(s);
    assert s[..|s|] == s;
    DigitsValueDecimal(n);
  }
}
