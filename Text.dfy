/** The pieces of Python's `str` that the codec and the filters rely on:
    `s.split(c)` for a one-character separator, `c.join(parts)`, and the
    substring test `a in s`. Strings are sequences of characters. */
module Text {

  /** Python `s.split(c)`: the maximal runs between occurrences of `c`,
      always at least one piece (`"".split(c) == [""]`). */
  function Split(s: string, c: char): (r: seq<string>)
    ensures |r| >= 1
    decreases |s|
  {
    if s == [] then [""]
    else if s[0] == c then [""] + Split(s[1..], c)
    else
      var rest := Split(s[1..], c);
      [[s[0]] + rest[0]] + rest[1..]
  }

  /** Python `c.join(parts)`. */
  function Join(c: char, parts: seq<string>): string
    decreases |parts|
  {
    if |parts| == 0 then ""
    else if |parts| == 1 then parts[0]
    else parts[0] + [c] + Join(c, parts[1..])
  }

  /** Python `a in s` on two strings: `a` occurs somewhere in `s`. */
  predicate Substring(a: string, s: string)
    decreases |s|
  {
    a <= s || (s != [] && Substring(a, s[1..]))
  }

  /** No piece of `parts` contains the separator. */
  predicate Free(c: char, parts: seq<string>)
  {
    forall i :: 0 <= i < |parts| ==> c !in parts[i]
  }

  /** Joining what was split gives the string back. */
  lemma {:induction false} JoinSplit(s: string, c: char)
    ensures Join(c, Split(s, c)) == s
    decreases |s|
  {
    if s != [] {
      var rest := Split(s[1..], c);
      JoinSplit(s[1..], c);
      if s[0] == c {
        JoinEmptyFirst(c, rest);
      } else {
        JoinExtendFirst(c, s[0], rest);
      }
      assert s == [s[0]] + s[1..];
    }
  }

  /** An empty first piece contributes only its separator. */
  lemma JoinEmptyFirst(c: char, parts: seq<string>)
    requires |parts| >= 1
    ensures Join(c, [""] + parts) == [c] + Join(c, parts)
  {
    assert ([""] + parts)[1..] == parts;
  }

  /** Extending the first piece extends the join at its front. */
  lemma JoinExtendFirst(c: char, x: char, parts: seq<string>)
    requires |parts| >= 1
    ensures Join(c, [[x] + parts[0]] + parts[1..]) == [x] + Join(c, parts)
  {
    var q := [[x] + parts[0]] + parts[1..];
    assert q[1..] == parts[1..];
  }

  /** Splitting a piece free of the separator, followed by more text that
      starts with the separator, puts the piece first. */
  lemma {:induction false} SplitPrefix(p: string, c: char, t: string)
    requires c !in p
    ensures Split(p + [c] + t, c) == [p] + Split(t, c)
    ensures Split(p, c) == [p]
    decreases |p|
  {
    if p == [] {
      assert [] + [c] + t == [c] + t;
      assert ([c] + t)[1..] == t;
    } else {
      SplitPrefix(p[1..], c, t);
      assert (p + [c] + t)[1..] == p[1..] + [c] + t;
      assert [p[0]] + p[1..] == p;
    }
  }

  /** Splitting a join of separator-free pieces gives the pieces back. */
  lemma {:induction false} SplitJoin(c: char, parts: seq<string>)
    requires |parts| >= 1
    requires Free(c, parts)
    ensures Split(Join(c, parts), c) == parts
    decreases |parts|
  {
    if |parts| == 1 {
      SplitPrefix(parts[0], c, "");
    } else {
      SplitJoin(c, parts[1..]);
      SplitPrefix(parts[0], c, Join(c, parts[1..]));
      assert [parts[0]] + parts[1..] == parts;
    }
  }

  /** Joining one more piece onto a non-empty list. */
  lemma {:induction false} JoinSnoc(c: char, parts: seq<string>, last: string)
    requires |parts| >= 1
    ensures Join(c, parts + [last]) == Join(c, parts) + [c] + last
    decreases |parts|
  {
    if |parts| == 1 {
      assert (parts + [last])[1..] == [last];
    } else {
      assert (parts + [last])[1..] == parts[1..] + [last];
      JoinSnoc(c, parts[1..], last);
    }
  }

  /** Joining two non-empty lists is joining their joins. */
  lemma {:induction false} JoinAppend(c: char, a: seq<string>, b: seq<string>)
    requires |a| >= 1 && |b| >= 1
    ensures Join(c, a + b) == Join(c, a) + [c] + Join(c, b)
    decreases |a|
  {
    if |a| == 1 {
      assert (a + b)[1..] == b;
    } else {
      assert (a + b)[1..] == a[1..] + b;
      JoinAppend(c, a[1..], b);
    }
  }

  /** A character other than the separator that no piece holds is not in
      the join either. */
  lemma {:induction false} JoinFree(c: char, parts: seq<string>, d: char)
    requires d != c
    requires Free(d, parts)
    ensures d !in Join(c, parts)
    decreases |parts|
  {
    if |parts| > 1 {
      JoinFree(c, parts[1..], d);
    }
  }

  /** The part before the first separator, and what follows it. */
  lemma {:induction false} SplitFirst(s: string, c: char)
    ensures Split(s, c)[0] <= s
    ensures |Split(s, c)[0]| < |s| ==> s[|Split(s, c)[0]|] == c
    ensures |Split(s, c)| == 1 <==> c !in s
    decreases |s|
  {
    if s != [] && s[0] != c {
      SplitFirst(s[1..], c);
    }
  }

  /** In a string with exactly one separator, the two sides of it. */
  lemma {:induction false} SplitTwo(a: string, c: char, b: string)
    requires c !in a && c !in b
    ensures Split(a + [c] + b, c) == [a, b]
  {
    SplitPrefix(a, c, b);
    SplitPrefix(b, c, "");
  }

  /** A join whose last piece is non-empty ends with that piece's last
      character. */
  lemma {:induction false} JoinLast(c: char, parts: seq<string>)
    requires |parts| >= 1 && |parts[|parts| - 1]| >= 1
    ensures |Join(c, parts)| >= 1
    ensures Join(c, parts)[|Join(c, parts)| - 1] == parts[|parts| - 1][|parts[|parts| - 1]| - 1]
    decreases |parts|
  {
    if |parts| > 1 {
      JoinLast(c, parts[1..]);
    }
  }

  /** The last piece of a split is whatever follows the last separator. */
  lemma {:induction false} SplitLastPiece(x: string, c: char, t: string)
    requires c !in t
    ensures var r := Split(x + [c] + t, c); r[|r| - 1] == t
    decreases |x|
  {
    if x == [] {
      SplitPrefix([], c, t);
      SplitPrefix(t, c, []);
    } else if x[0] == c {
      assert (x + [c] + t)[1..] == x[1..] + [c] + t;
      SplitLastPiece(x[1..], c, t);
    } else {
      var y := x[1..] + [c] + t;
      assert (x + [c] + t)[1..] == y;
      SplitLastPiece(x[1..], c, t);
      SplitFirst(y, c);
      assert y[|x| - 1] == c;
    }
  }

  /** When the separator occurs, the second piece is a prefix of what
      follows its first occurrence. */
  lemma SplitSecond(s: string, c: char)
    requires c in s
    ensures |Split(s, c)| >= 2
    ensures var a := Split(s, c)[0];
      |a| < |s| && s == a + [c] + s[|a| + 1..] &&
      Split(s, c) == [a] + Split(s[|a| + 1..], c)
  {
    SplitFirst(s, c);
    SplitPiecesFree(s, c);
    var a := Split(s, c)[0];
    assert a == s[..|a|];
    assert s == a + [c] + s[|a| + 1..];
    SplitPrefix(a, c, s[|a| + 1..]);
  }

  /** Splitting introduces no character the string did not have. */
  lemma {:induction false} SplitFree(s: string, c: char, d: char)
    requires d !in s
    ensures Free(d, Split(s, c))
    decreases |s|
  {
    if s != [] {
      SplitFree(s[1..], c, d);
    }
  }

  /** No piece of a split holds the separator. */
  lemma {:induction false} SplitPiecesFree(s: string, c: char)
    ensures Free(c, Split(s, c))
    decreases |s|
  {
    if s != [] {
      SplitPiecesFree(s[1..], c);
    }
  }

  /** The last piece of a split is a suffix free of the separator, and the
      separator comes right before it unless it is the whole string. */
  lemma {:induction false} SplitLast(s: string, c: char)
    ensures var r := Split(s, c); var t := r[|r| - 1];
      && c !in t
      && |t| <= |s| && s[|s| - |t|..] == t
      && (|t| < |s| ==> s[|s| - |t| - 1] == c)
    decreases |s|
  {
    if s != [] {
      var rest := Split(s[1..], c);
      var t := rest[|rest| - 1];
      SplitLast(s[1..], c);
      assert s[1..][|s| - 1 - |t|..] == s[|s| - |t|..];
      if s[0] == c {
        assert Split(s, c)[|Split(s, c)| - 1] == t;
      } else if |rest| >= 2 {
        assert Split(s, c)[|Split(s, c)| - 1] == t;
        SplitFirst(s[1..], c);
      } else {
        SplitFirst(s[1..], c);
        SplitPrefix(s[1..], c, "");
        assert s == [s[0]] + s[1..];
      }
    }
  }

  /** Concatenation regrouped. */
  lemma Reassoc(a: string, b: string, c: string, d: string)
    ensures a + (b + c + d) == (a + b) + c + d
  {
  }
}
