/**
 * The few `java.lang.String` operations the detection checks rely on, with Java's own
 * semantics: `split` on a one-character separator (limit 0), `contains`, `replace` of a
 * one-character string by the empty string, and `equalsIgnoreCase`.
 */
module JavaString {

  // ---------------------------------------------------------------------------
  // contains

  /** t occurs in s starting at index i. */
  predicate OccursAt(s: string, t: string, i: int) {
    0 <= i && i + |t| <= |s| && s[i..i + |t|] == t
  }

  /** `s.contains(t)`: t occurs somewhere in s (the empty string occurs everywhere). */
  predicate Contains(s: string, t: string) {
    exists i :: 0 <= i <= |s| - |t| && OccursAt(s, t, i)
  }

  /** A string that misses one character of t does not contain t. */
  lemma MissingCharNotContained(s: string, t: string, j: int)
    requires 0 <= j < |t| && t[j] !in s
    ensures !Contains(s, t)
  {
  }

  // ---------------------------------------------------------------------------
  // replace(x, "") for a one-character x

  /** `s.replace(String.valueOf(x), "")`: every occurrence of x removed. */
  function Remove(s: string, x: char): string {
    if |s| == 0 then ""
    else if s[0] == x then Remove(s[1..], x)
    else [s[0]] + Remove(s[1..], x)
  }

  /**
   * Removing x leaves no x and keeps the count of every other character (their order is
   * kept too, piece by piece, as `RemoveConcat` states).
   */
  lemma {:induction false} RemoveSpec(s: string, x: char)
    ensures x !in Remove(s, x)
    ensures forall y :: y != x ==> multiset(Remove(s, x))[y] == multiset(s)[y]
    ensures |Remove(s, x)| <= |s|
  {
    if |s| > 0 {
      RemoveSpec(s[1..], x);
      assert s == [s[0]] + s[1..];
    }
  }

  /** A string without x is unchanged by removing x; so removal is idempotent. */
  lemma {:induction false} RemoveAbsent(s: string, x: char)
    requires x !in s
    ensures Remove(s, x) == s
  {
    if |s| > 0 {
      assert x !in s[1..];
      RemoveAbsent(s[1..], x);
    }
  }

  lemma {:induction false} RemoveConcat(a: string, b: string, x: char)
    ensures Remove(a + b, x) == Remove(a, x) + Remove(b, x)
  {
    if |a| > 0 {
      assert (a + b)[1..] == a[1..] + b;
      RemoveConcat(a[1..], b, x);
    } else {
      assert a + b == b;
    }
  }

  /** Removing one character keeps another character out. */
  lemma {:induction false} RemoveKeepsAbsent(s: string, x: char, y: char)
    requires y !in s
    ensures y !in Remove(s, x)
  {
    if |s| > 0 {
      assert y !in s[1..];
      RemoveKeepsAbsent(s[1..], x, y);
    }
  }

  // ---------------------------------------------------------------------------
  // equalsIgnoreCase

  /** Lower-case mapping of the ASCII letters. */
  function ToLower(ch: char): char {
    if 'A' <= ch <= 'Z' then (ch as int + 32) as char else ch
  }

  /** `a.equalsIgnoreCase(b)`: same length, same characters up to ASCII case. */
  predicate EqualsIgnoreCase(a: string, b: string) {
    |a| == |b| && forall i :: 0 <= i < |a| ==> ToLower(a[i]) == ToLower(b[i])
  }

  /** The strings equal to "rw" ignoring case are exactly its four spellings. */
  lemma RwSpellings(o: string)
    ensures EqualsIgnoreCase(o, "rw") <==> o in {"rw", "rW", "Rw", "RW"}
  {
    if EqualsIgnoreCase(o, "rw") {
      assert ToLower(o[0]) == 'r' && ToLower(o[1]) == 'w';
      assert o[0] == 'r' || o[0] == 'R';
      assert o[1] == 'w' || o[1] == 'W';
      assert o == [o[0], o[1]];
    }
  }

  // ---------------------------------------------------------------------------
  // split on a one-character separator, limit 0

  /**
   * The pieces of s between occurrences of c, the first of them prefixed by `current`
   * (the piece being read so far).
   */
  function PiecesFrom(s: string, c: char, current: string): (r: seq<string>)
    ensures |r| >= 1
  {
    if |s| == 0 then [current]
    else if s[0] == c then [current] + PiecesFrom(s[1..], c, "")
    else PiecesFrom(s[1..], c, current + [s[0]])
  }

  /** All pieces of s between occurrences of c: k occurrences give k + 1 pieces. */
  function Pieces(s: string, c: char): (r: seq<string>)
    ensures |r| >= 1
  {
    PiecesFrom(s, c, "")
  }

  lemma {:induction false} PiecesFromCurrent(s: string, c: char, current: string)
    ensures PiecesFrom(s, c, current) == [current + Pieces(s, c)[0]] + Pieces(s, c)[1..]
  {
    if |s| > 0 && s[0] != c {
      var rest := Pieces(s[1..], c);
      PiecesFromCurrent(s[1..], c, current + [s[0]]);
      PiecesFromCurrent(s[1..], c, [s[0]]);
      assert "" + [s[0]] == [s[0]];
      var p := [[s[0]] + rest[0]] + rest[1..];
      assert Pieces(s, c) == p;
      assert p[0] == [s[0]] + rest[0] && p[1..] == rest[1..];
      assert current + [s[0]] + rest[0] == current + ([s[0]] + rest[0]);
    } else if |s| > 0 {
      assert current + "" == current;
      assert Pieces(s, c) == [""] + PiecesFrom(s[1..], c, "");
    } else {
      assert current + "" == current;
    }
  }

  /** One step of splitting: the first character either ends a piece or extends it. */
  lemma PiecesUnfold(s: string, c: char)
    requires |s| > 0
    ensures var rest := Pieces(s[1..], c);
      Pieces(s, c) == if s[0] == c then [""] + rest else [[s[0]] + rest[0]] + rest[1..]
  {
    if s[0] != c {
      PiecesFromCurrent(s[1..], c, [s[0]]);
      assert "" + [s[0]] == [s[0]];
    }
  }

  /** Drops the empty strings at the end of ps. */
  function DropTrailingEmpty(ps: seq<string>): seq<string> {
    if |ps| > 0 && ps[|ps| - 1] == "" then DropTrailingEmpty(ps[..|ps| - 1]) else ps
  }

  /**
   * `s.split(String.valueOf(c))`: when c does not occur the result is `[s]` (even for the
   * empty string); otherwise the pieces between separators, where two consecutive
   * separators give an empty piece and trailing empty pieces are removed.
   */
  function Split(s: string, c: char): seq<string> {
    if c !in s then [s] else DropTrailingEmpty(Pieces(s, c))
  }

  /** The pieces glued back with c; the inverse of splitting. */
  function Join(ps: seq<string>, c: char): string {
    if |ps| == 0 then ""
    else if |ps| == 1 then ps[0]
    else ps[0] + [c] + Join(ps[1..], c)
  }

  /** s without its trailing run of c. */
  function StripTrailing(s: string, c: char): string {
    if |s| > 0 && s[|s| - 1] == c then StripTrailing(s[..|s| - 1], c) else s
  }

  predicate NoSeparator(ps: seq<string>, c: char) {
    forall i :: 0 <= i < |ps| ==> c !in ps[i]
  }

  lemma {:induction false} PiecesNoSeparator(s: string, c: char)
    ensures NoSeparator(Pieces(s, c), c)
  {
    if |s| > 0 {
      PiecesUnfold(s, c);
      PiecesNoSeparator(s[1..], c);
      var rest := Pieces(s[1..], c);
      if s[0] != c {
        assert c !in [s[0]] + rest[0];
        forall i | 0 <= i < |rest| - 1 ensures c !in rest[1..][i] {
          assert rest[1..][i] == rest[i + 1];
        }
      }
    }
  }

  /** Joining the pieces gives back the string. */
  lemma {:induction false} PiecesJoin(s: string, c: char)
    ensures Join(Pieces(s, c), c) == s
  {
    if |s| > 0 {
      PiecesUnfold(s, c);
      PiecesJoin(s[1..], c);
      var rest := Pieces(s[1..], c);
      if s[0] == c {
        assert ([""] + rest)[1..] == rest;
      } else {
        var r := [[s[0]] + rest[0]] + rest[1..];
        if |rest| == 1 {
          assert Join(r, c) == [s[0]] + rest[0];
        } else {
          assert r[1..] == rest[1..];
          assert Join(rest, c) == rest[0] + [c] + Join(rest[1..], c);
        }
        assert s == [s[0]] + s[1..];
      }
    }
  }

  /** Pieces of a prefix without c followed by c. */
  lemma {:induction false} PiecesCons(a: string, b: string, c: char)
    requires c !in a
    ensures Pieces(a + [c] + b, c) == [a] + Pieces(b, c)
  {
    if |a| == 0 {
      assert a + [c] + b == [c] + b;
      assert ([c] + b)[1..] == b;
      PiecesUnfold([c] + b, c);
    } else {
      assert (a + [c] + b)[1..] == a[1..] + [c] + b;
      assert c !in a[1..];
      PiecesCons(a[1..], b, c);
      assert [a[0]] + a[1..] == a;
      PiecesUnfold(a + [c] + b, c);
    }
  }

  lemma {:induction false} PiecesOfAbsent(a: string, c: char)
    requires c !in a
    ensures Pieces(a, c) == [a]
  {
    if |a| > 0 {
      assert c !in a[1..];
      PiecesOfAbsent(a[1..], c);
      PiecesUnfold(a, c);
      assert [a[0]] + a[1..] == a;
    }
  }

  /** Splitting a join into pieces recovers the pieces. */
  lemma {:induction false} PiecesOfJoin(ps: seq<string>, c: char)
    requires |ps| >= 1 && NoSeparator(ps, c)
    ensures Pieces(Join(ps, c), c) == ps
  {
    if |ps| == 1 {
      PiecesOfAbsent(ps[0], c);
    } else {
      assert c !in ps[0];
      PiecesOfJoin(ps[1..], c);
      PiecesCons(ps[0], Join(ps[1..], c), c);
      assert [ps[0]] + ps[1..] == ps;
    }
  }

  lemma {:induction false} JoinSnoc(ps: seq<string>, p: string, c: char)
    requires |ps| >= 1
    ensures Join(ps + [p], c) == Join(ps, c) + [c] + p
  {
    if |ps| == 1 {
      assert (ps + [p])[1..] == [p];
    } else {
      assert (ps + [p])[1..] == ps[1..] + [p];
      JoinSnoc(ps[1..], p, c);
    }
  }

  /** Dropping trailing empty pieces strips the trailing separators of the join. */
  lemma {:induction false} DropJoin(ps: seq<string>, c: char)
    requires NoSeparator(ps, c)
    ensures Join(DropTrailingEmpty(ps), c) == StripTrailing(Join(ps, c), c)
  {
    if |ps| == 0 {
    } else if ps[|ps| - 1] == "" {
      var init := ps[..|ps| - 1];
      assert ps == init + [""];
      DropJoin(init, c);
      if |init| == 0 {
        assert Join(ps, c) == "";
      } else {
        JoinSnoc(init, "", c);
        var j := Join(init, c) + [c];
        assert Join(ps, c) == j;
        assert j[..|j| - 1] == Join(init, c);
      }
    } else {
      var last := ps[|ps| - 1];
      assert c !in last;
      if |ps| == 1 {
        assert Join(ps, c) == last;
      } else {
        var init := ps[..|ps| - 1];
        assert ps == init + [last];
        JoinSnoc(init, last, c);
      }
      var j := Join(ps, c);
      assert j[|j| - 1] == last[|last| - 1];
    }
  }

  lemma {:induction false} DropTrailingEmptyNoSeparator(ps: seq<string>, c: char)
    requires NoSeparator(ps, c)
    ensures NoSeparator(DropTrailingEmpty(ps), c)
    ensures |DropTrailingEmpty(ps)| <= |ps|
    ensures DropTrailingEmpty(ps) == ps[..|DropTrailingEmpty(ps)|]
    ensures |DropTrailingEmpty(ps)| > 0 ==> DropTrailingEmpty(ps)[|DropTrailingEmpty(ps)| - 1] != ""
  {
    if |ps| > 0 && ps[|ps| - 1] == "" {
      DropTrailingEmptyNoSeparator(ps[..|ps| - 1], c);
    }
  }

  /**
   * What `split` produces: s itself when the separator is absent (even for the empty
   * string); tokens free of the separator which, joined back, give s without its trailing
   * separators; the last token is non-empty once a separator occurred.
   */
  lemma SplitSpec(s: string, c: char)
    ensures c !in s ==> Split(s, c) == [s]
    ensures NoSeparator(Split(s, c), c)
    ensures Join(Split(s, c), c) == StripTrailing(s, c)
    ensures c in s && |Split(s, c)| > 0 ==> Split(s, c)[|Split(s, c)| - 1] != ""
  {
    if c !in s {
      if |s| > 0 {
        assert s[|s| - 1] in s;
      }
    } else {
      PiecesNoSeparator(s, c);
      PiecesJoin(s, c);
      DropJoin(Pieces(s, c), c);
      DropTrailingEmptyNoSeparator(Pieces(s, c), c);
    }
  }

  /** k separators make k + 1 pieces. */
  lemma {:induction false} PiecesCount(s: string, c: char)
    ensures |Pieces(s, c)| == multiset(s)[c] + 1
  {
    if |s| > 0 {
      PiecesUnfold(s, c);
      PiecesCount(s[1..], c);
      assert s == [s[0]] + s[1..];
      assert multiset(s) == multiset([s[0]]) + multiset(s[1..]);
    }
  }

  /** k separators give at most k + 1 tokens. */
  lemma SplitCount(s: string, c: char)
    ensures |Split(s, c)| <= multiset(s)[c] + 1
  {
    PiecesCount(s, c);
    PiecesNoSeparator(s, c);
    DropTrailingEmptyNoSeparator(Pieces(s, c), c);
  }

  /** A character other than the separator is absent from a join of pieces without it. */
  lemma {:induction false} JoinAvoids(ps: seq<string>, c: char, x: char)
    requires x != c && forall i :: 0 <= i < |ps| ==> x !in ps[i]
    ensures x !in Join(ps, c)
  {
    if |ps| > 1 {
      JoinAvoids(ps[1..], c, x);
    }
  }

  /** A join whose last piece is non-empty is non-empty. */
  lemma JoinNonEmpty(ps: seq<string>, c: char)
    requires |ps| >= 1 && ps[|ps| - 1] != ""
    ensures Join(ps, c) != ""
  {
    if |ps| > 1 {
      assert |Join(ps, c)| >= |ps[0]| + 1;
    }
  }

  /**
   * Splitting the join of several separator-free fields gives the fields back, less the
   * empty ones at the end.
   */
  lemma SplitOfJoin(fs: seq<string>, c: char)
    requires |fs| >= 2 && NoSeparator(fs, c)
    ensures Split(Join(fs, c), c) == DropTrailingEmpty(fs)
  {
    assert Join(fs, c) == fs[0] + [c] + Join(fs[1..], c);
    assert c in Join(fs, c);
    PiecesOfJoin(fs, c);
  }

  /**
   * Round trip: fields without the separator, the last non-empty when there are several,
   * are recovered by splitting their join.
   */
  lemma SplitJoin(fs: seq<string>, c: char)
    requires |fs| >= 1 && NoSeparator(fs, c)
    requires |fs| > 1 ==> fs[|fs| - 1] != ""
    ensures Split(Join(fs, c), c) == fs
  {
    if |fs| == 1 {
      assert Join(fs, c) == fs[0];
    } else {
      SplitOfJoin(fs, c);
    }
  }
}
