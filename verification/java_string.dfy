/**
  Java's `String.split` for a delimiter that is one literal character.

  `s.split("&")` and `s.split("=")` take Java's fast path: the delimiter is a
  single character that is not a regular-expression metacharacter, so it is
  matched literally. With the default limit of 0 the result is
    - `[s]` when the delimiter does not occur in `s` (so `"".split("=")` is `[""]`);
    - otherwise every piece between occurrences, with the trailing empty pieces
      removed (so `"a=".split("=")` is `["a"]` and `"=".split("=")` is `[]`),
      while leading empty pieces are kept (`"=b".split("=")` is `["", "b"]`).
*/
module JavaString {

  /** The number of occurrences of `c` in `s`. */
  function Count(s: string, c: char): nat
  {
    if s == [] then 0 else (if s[0] == c then 1 else 0) + Count(s[1..], c)
  }

  /** `n` copies of `x`. */
  function Repeat<T>(x: T, n: nat): (r: seq<T>)
    ensures |r| == n
    ensures forall i :: 0 <= i < |r| ==> r[i] == x
  {
    if n == 0 then [] else [x] + Repeat(x, n - 1)
  }

  /** `x` is a contiguous part of `s`. */
  ghost predicate Occurs(x: string, s: string)
  {
    exists i, j :: 0 <= i <= j <= |s| && s[i..j] == x
  }

  /**
    Every piece of `s` between two occurrences of `c` (or the start or end),
    before Java drops the trailing empty ones. Defined one character at a
    time, independently of how Java searches for the delimiter.
  */
  function Pieces(s: string, c: char): (ps: seq<string>)
    ensures |ps| == Count(s, c) + 1
    ensures forall i :: 0 <= i < |ps| ==> c !in ps[i]
  {
    if s == [] then [[]]
    else
      var rest := Pieces(s[1..], c);
      if s[0] == c then [[]] + rest
      else [[s[0]] + rest[0]] + rest[1..]
  }

  /** The pieces written back out with `c` between neighbours. */
  function Join(ps: seq<string>, c: char): string
  {
    if |ps| == 0 then []
    else if |ps| == 1 then ps[0]
    else ps[0] + [c] + Join(ps[1..], c)
  }

  /** The longest prefix of `ps` that does not end with an empty string. */
  function DropTrailingEmpty(ps: seq<string>): (r: seq<string>)
    ensures r <= ps
    ensures forall i :: |r| <= i < |ps| ==> ps[i] == []
    ensures r != [] ==> r[|r| - 1] != []
  {
    if ps == [] || ps[|ps| - 1] != [] then ps
    else DropTrailingEmpty(ps[..|ps| - 1])
  }

  /** `s.split(String.valueOf(c))` in Java, for a non-metacharacter `c`. */
  function JavaSplit(s: string, c: char): (r: seq<string>)
    ensures forall i :: 0 <= i < |r| ==> c !in r[i]
    ensures |r| <= Count(s, c) + 1
  {
    if c !in s then [s] else DropTrailingEmpty(Pieces(s, c))
  }

  // ---------------------------------------------------------------------
  // Pieces and Join are inverse to each other
  // ---------------------------------------------------------------------

  lemma JoinCons(x: string, ps: seq<string>, c: char)
    requires |ps| >= 1
    ensures Join([x] + ps, c) == x + [c] + Join(ps, c)
  {
  }

  /** Writing the pieces of `s` back out with `c` gives `s` again. */
  lemma {:induction false} JoinPieces(s: string, c: char)
    ensures Join(Pieces(s, c), c) == s
  {
    if s != [] {
      var rest := Pieces(s[1..], c);
      JoinPieces(s[1..], c);
      assert [s[0]] + s[1..] == s;
      if s[0] == c {
        assert Pieces(s, c) == [[]] + rest;
        JoinCons([], rest, c);
      } else if |rest| == 1 {
        assert Pieces(s, c) == [[s[0]] + rest[0]];
      } else {
        var tail := rest[1..];
        assert Pieces(s, c) == [[s[0]] + rest[0]] + tail;
        assert rest == [rest[0]] + tail;
        JoinCons(rest[0], tail, c);
        JoinCons([s[0]] + rest[0], tail, c);
      }
    }
  }

  /** A string without `c` is a single piece. */
  lemma {:induction false} PiecesWithout(x: string, c: char)
    requires c !in x
    ensures Pieces(x, c) == [x]
  {
    if x != [] {
      PiecesWithout(x[1..], c);
      assert [x[0]] + x[1..] == x;
    }
  }

  /** A leading piece without `c`, followed by `c`, splits off as the first piece. */
  lemma {:induction false} PiecesCons(x: string, t: string, c: char)
    requires c !in x
    ensures Pieces(x + [c] + t, c) == [x] + Pieces(t, c)
  {
    var s := x + [c] + t;
    if x == [] {
      assert s[1..] == t;
    } else {
      assert s[1..] == x[1..] + [c] + t;
      PiecesCons(x[1..], t, c);
      assert [x[0]] + x[1..] == x;
    }
  }

  /** Splitting pieces that were joined with `c` gives the pieces back. */
  lemma {:induction false} PiecesJoin(ps: seq<string>, c: char)
    requires |ps| >= 1
    requires forall i :: 0 <= i < |ps| ==> c !in ps[i]
    ensures Pieces(Join(ps, c), c) == ps
  {
    if |ps| == 1 {
      PiecesWithout(ps[0], c);
    } else {
      PiecesJoin(ps[1..], c);
      PiecesCons(ps[0], Join(ps[1..], c), c);
      assert [ps[0]] + ps[1..] == ps;
    }
  }

  // ---------------------------------------------------------------------
  // Trailing empty pieces correspond to trailing delimiters
  // ---------------------------------------------------------------------

  lemma {:induction false} JoinEmpties(n: nat, c: char)
    requires n >= 1
    ensures Join(Repeat<string>([], n), c) == Repeat(c, n - 1)
  {
    if n > 1 {
      JoinEmpties(n - 1, c);
      assert Repeat<string>([], n)[1..] == Repeat<string>([], n - 1);
    }
  }

  /** `n` empty pieces after the last piece are `n` more delimiters. */
  lemma {:induction false} JoinTrailingEmpties(ps: seq<string>, n: nat, c: char)
    requires |ps| >= 1
    ensures Join(ps + Repeat<string>([], n), c) == Join(ps, c) + Repeat(c, n)
  {
    var qs := ps + Repeat<string>([], n);
    if |ps| == 1 {
      if n == 0 {
        assert qs == ps;
      } else {
        assert qs[1..] == Repeat<string>([], n);
        JoinEmpties(n, c);
        assert Repeat(c, n) == [c] + Repeat(c, n - 1);
      }
    } else {
      assert qs[1..] == ps[1..] + Repeat<string>([], n);
      JoinTrailingEmpties(ps[1..], n, c);
    }
  }

  /** Dropping the trailing empties of `ps + [] * n` leaves `ps` when `ps` ends non-empty. */
  lemma {:induction false} DropTrailingEmptyExact(ps: seq<string>, n: nat)
    requires ps != [] ==> ps[|ps| - 1] != []
    ensures DropTrailingEmpty(ps + Repeat<string>([], n)) == ps
  {
    var qs := ps + Repeat<string>([], n);
    if n == 0 {
      assert qs == ps;
    } else {
      assert qs[|qs| - 1] == [];
      assert qs[..|qs| - 1] == ps + Repeat<string>([], n - 1);
      DropTrailingEmptyExact(ps, n - 1);
    }
  }

  /** A sequence is its non-empty-ending prefix followed by only empty strings. */
  lemma DropTrailingEmptySplit(ps: seq<string>)
    ensures ps == DropTrailingEmpty(ps) + Repeat<string>([], |ps| - |DropTrailingEmpty(ps)|)
  {
  }

  /** Two or more pieces joined always contain the delimiter. */
  lemma JoinHasDelimiter(ps: seq<string>, c: char)
    requires |ps| >= 2
    ensures |ps[0]| < |Join(ps, c)| && Join(ps, c)[|ps[0]|] == c
  {
  }

  // ---------------------------------------------------------------------
  // JavaSplit: its round trip and its inverse
  // ---------------------------------------------------------------------

  /** The pieces Java keeps, written back out, are `s` without its trailing delimiters. */
  lemma {:induction false} DropTrailingDelimiters(s: string, c: char)
    requires c in s
    ensures var j := Join(DropTrailingEmpty(Pieces(s, c)), c);
      |j| <= |s| && s == j + Repeat(c, |s| - |j|)
  {
    var ps := Pieces(s, c);
    var r := DropTrailingEmpty(ps);
    var n := |ps| - |r|;
    JoinPieces(s, c);
    DropTrailingEmptySplit(ps);
    assert ps == r + Repeat<string>([], n);
    if r == [] {
      assert ps == Repeat<string>([], n);
      JoinEmpties(n, c);
      assert s == Repeat(c, n - 1);
      assert Join(r, c) == [];
    } else {
      JoinTrailingEmpties(r, n, c);
      assert s == Join(r, c) + Repeat(c, n);
    }
  }

  /**
    Joining what `JavaSplit` returns gives back the input except for
    the trailing delimiters that were dropped with the empty pieces.
  */
  lemma {:induction false} JavaSplitRoundTrip(s: string, c: char)
    ensures var j := Join(JavaSplit(s, c), c);
      |j| <= |s| && s == j + Repeat(c, |s| - |j|)
  {
    if c !in s {
      assert JavaSplit(s, c) == [s];
      assert Repeat(c, 0) == [];
    } else {
      DropTrailingDelimiters(s, c);
    }
  }

  /** When `split` gives two parts, the input is those parts around `c`, then only more `c`. */
  lemma JavaSplitTwoParts(s: string, c: char)
    requires |JavaSplit(s, c)| == 2
    ensures var r := JavaSplit(s, c);
      |r[0]| + 1 + |r[1]| <= |s| &&
      s == r[0] + [c] + r[1] + Repeat(c, |s| - |r[0]| - 1 - |r[1]|)
  {
    var r := JavaSplit(s, c);
    JavaSplitRoundTrip(s, c);
    assert r == [r[0]] + [r[1]];
    JoinCons(r[0], [r[1]], c);
  }

  /**
    `JavaSplit` undoes `Join` followed by any number of delimiters, as long
    as the pieces are free of the delimiter and the last one is not empty.
  */
  lemma {:induction false} JavaSplitJoin(ps: seq<string>, n: nat, c: char)
    requires |ps| >= 1
    requires forall i :: 0 <= i < |ps| ==> c !in ps[i]
    requires ps[|ps| - 1] != []
    ensures JavaSplit(Join(ps, c) + Repeat(c, n), c) == ps
  {
    var s := Join(ps, c) + Repeat(c, n);
    if |ps| == 1 && n == 0 {
      assert s == ps[0];
    } else {
      if |ps| >= 2 {
        JoinHasDelimiter(ps, c);
        assert s[|ps[0]|] == c;
      } else {
        assert s[|s| - 1] == c;
      }
      var qs := ps + Repeat<string>([], n);
      JoinTrailingEmpties(ps, n, c);
      assert forall i :: 0 <= i < |qs| ==> c !in qs[i];
      PiecesJoin(qs, c);
      DropTrailingEmptyExact(ps, n);
    }
  }

  // ---------------------------------------------------------------------
  // Where pieces sit in the string they came from
  // ---------------------------------------------------------------------

  lemma PrefixOccurs(x: string, s: string)
    requires x <= s
    ensures Occurs(x, s)
  {
    assert s[0..|x|] == x;
  }

  lemma OccursTransitive(x: string, y: string, z: string)
    requires Occurs(x, y) && Occurs(y, z)
    ensures Occurs(x, z)
  {
    var i, j :| 0 <= i <= j <= |y| && y[i..j] == x;
    var a, b :| 0 <= a <= b <= |z| && z[a..b] == y;
    forall k | 0 <= k < j - i
      ensures z[a + i..a + j][k] == x[k]
    {
      assert x[k] == y[i + k] == z[a + i + k];
    }
    assert z[a + i..a + j] == x;
  }

  /** Every piece occurs, unchanged, in the pieces joined with `c`. */
  lemma {:induction false} JoinOccurs(ps: seq<string>, c: char, i: int)
    requires 0 <= i < |ps|
    ensures Occurs(ps[i], Join(ps, c))
  {
    var s := Join(ps, c);
    if |ps| == 1 {
      assert s[0..|ps[0]|] == ps[0];
    } else {
      JoinCons(ps[0], ps[1..], c);
      assert [ps[0]] + ps[1..] == ps;
      if i == 0 {
        PrefixOccurs(ps[0], s);
      } else {
        var t := Join(ps[1..], c);
        JoinOccurs(ps[1..], c, i - 1);
        assert s[|ps[0]| + 1..|s|] == t;
        OccursTransitive(ps[i], t, s);
      }
    }
  }

  /** Every string `JavaSplit` returns occurs, unchanged, in its input. */
  lemma JavaSplitOccurs(s: string, c: char, i: int)
    requires 0 <= i < |JavaSplit(s, c)|
    ensures Occurs(JavaSplit(s, c)[i], s)
  {
    var r := JavaSplit(s, c);
    JoinOccurs(r, c, i);
    JavaSplitRoundTrip(s, c);
    PrefixOccurs(Join(r, c), s);
    OccursTransitive(r[i], Join(r, c), s);
  }

  /** The edge cases of Java's `split` that the query parser depends on. */
  lemma JavaSplitExamples()
    ensures JavaSplit("", '=') == [""]
    ensures JavaSplit("a", '=') == ["a"]
    ensures JavaSplit("=", '=') == []
    ensures JavaSplit("a=", '=') == ["a"]
    ensures JavaSplit("=b", '=') == ["", "b"]
    ensures JavaSplit("a=b=", '=') == ["a", "b"]
    ensures JavaSplit("a==b", '=') == ["a", "", "b"]
  {
    JavaSplitJoin(["a"], 1, '=');
    assert "a=" == Join(["a"], '=') + Repeat('=', 1);
    JavaSplitJoin(["", "b"], 0, '=');
    assert "=b" == Join(["", "b"], '=') + Repeat('=', 0);
    JavaSplitJoin(["a", "b"], 1, '=');
    assert "a=b=" == Join(["a", "b"], '=') + Repeat('=', 1);
    JavaSplitJoin(["a", "", "b"], 0, '=');
    assert "a==b" == Join(["a", "", "b"], '=') + Repeat('=', 0);
    JavaSplitRoundTrip("=", '=');
  }
}
