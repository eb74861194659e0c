/** The two functions of Python's `posixpath` that the codec uses:
    `os.path.split` and `os.path.join`. */
module PosixPath {
  import Text

  /** Python `p.rfind(c)`: the last index of `c` in `p`, or -1. */
  function RFind(p: string, c: char): (r: int)
    ensures -1 <= r < |p|
    ensures r >= 0 ==> p[r] == c
    ensures forall k :: r < k < |p| ==> p[k] != c
    decreases |p|
  {
    if p == [] then -1
    else if p[|p| - 1] == c then |p| - 1
    else RFind(p[..|p| - 1], c)
  }

  /** Python `h.rstrip('/')`. */
  function RStripSlashes(h: string): (r: string)
    ensures r <= h
    ensures r == [] || r[|r| - 1] != '/'
    ensures forall i :: |r| <= i < |h| ==> h[i] == '/'
    decreases |h|
  {
    if h != [] && h[|h| - 1] == '/' then RStripSlashes(h[..|h| - 1]) else h
  }

  predicate AllSlashes(h: string)
  {
    forall i :: 0 <= i < |h| ==> h[i] == '/'
  }

  /** Python `os.path.split(p)`: the text up to the last slash, with its
      trailing slashes removed unless it is made only of slashes, and the
      text after that slash. */
  function Split(p: string): (r: (string, string))
    ensures r.1 == p[RFind(p, '/') + 1..]
    ensures forall k :: 0 <= k < |r.1| ==> r.1[k] != '/'
  {
    var i := RFind(p, '/') + 1;
    var head, tail := p[..i], p[i..];
    if head != [] && !AllSlashes(head) then (RStripSlashes(head), tail) else (head, tail)
  }

  /** One step of Python `os.path.join`: an argument starting with a slash
      replaces what came before; otherwise a slash is put between the two
      unless the path so far is empty or already ends with one. */
  function JoinStep(path: string, b: string): string
  {
    if b != [] && b[0] == '/' then b
    else if path == [] || path[|path| - 1] == '/' then path + b
    else path + "/" + b
  }

  /** Python `os.path.join(a, *rest)`. */
  function Join(a: string, rest: seq<string>): string
    decreases |rest|
  {
    if rest == [] then a else Join(JoinStep(a, rest[0]), rest[1..])
  }

  /** Joining onto a path that starts with a slash gives a path that
      starts with a slash. */
  lemma {:induction false} JoinAbsolute(a: string, rest: seq<string>)
    requires a != [] && a[0] == '/'
    ensures var p := Join(a, rest); p != [] && p[0] == '/'
    decreases |rest|
  {
    if rest != [] {
      JoinAbsolute(JoinStep(a, rest[0]), rest[1..]);
    }
  }

  /** The joined path ends with the last argument. */
  lemma {:induction false} JoinEndsWith(a: string, rest: seq<string>)
    requires rest != []
    ensures var p, b := Join(a, rest), rest[|rest| - 1]; |b| <= |p| && p[|p| - |b|..] == b
    decreases |rest|
  {
    if |rest| > 1 {
      JoinEndsWith(JoinStep(a, rest[0]), rest[1..]);
    }
  }

  /** A path segment as a normalised path has them: non-empty, free of
      slashes, and neither `.` nor `..`. */
  predicate IsSegment(s: string)
  {
    s != [] && '/' !in s && s != "." && s != ".."
  }

  /** The segments of a path starting with a slash. */
  function Segments(p: string): seq<string>
    requires p != [] && p[0] == '/'
  {
    Text.Split(p[1..], '/')
  }

  /** What `os.path.abspath` returns for a path already absolute: a slash,
      then segments separated by single slashes, with no `.`, `..` or empty
      segment. The root `/` alone is left out (it has no file name). */
  predicate Normalised(p: string)
  {
    |p| >= 2 && p[0] == '/' &&
    forall i :: 0 <= i < |Segments(p)| ==> IsSegment(Segments(p)[i])
  }

  /** The last slash of a path that ends with slash-free text. */
  lemma {:induction false} RFindLast(x: string, b: string)
    requires '/' !in b
    ensures RFind(x + "/" + b, '/') == |x|
    decreases |b|
  {
    if b != [] {
      var p := x + "/" + b;
      assert p[..|p| - 1] == x + "/" + b[..|b| - 1];
      RFindLast(x, b[..|b| - 1]);
    }
  }

  /** `os.path.split` of a slash-led directory not ending in a slash,
      a slash and a file name. */
  lemma SplitDirFile(p: string, d: string, b: string)
    requires d != [] && d[0] == '/' && d[|d| - 1] != '/'
    requires '/' !in b
    requires p == d + "/" + b
    ensures Split(p) == (d, b)
  {
    RFindLast(d, b);
    assert p[..|d| + 1] == d + "/";
    assert p[|d| + 1..] == b;
    assert !AllSlashes(d + "/") by { assert (d + "/")[|d| - 1] != '/'; }
    assert RStripSlashes(d + "/") == RStripSlashes(d);
  }

  /** `os.path.split` of a file name right under the root. */
  lemma SplitRootFile(b: string)
    requires '/' !in b
    ensures Split("/" + b) == ("/", b)
  {
    RFindLast("", b);
    assert ("/" + b)[..1] == "/";
    assert ("/" + b)[1..] == b;
  }

  /** Joining slash-free segments onto a non-empty path puts one slash
      between each two, and one after the path unless it already ends with
      one. */
  lemma {:induction false} JoinSegments(path: string, segs: seq<string>)
    requires path != []
    requires forall i :: 0 <= i < |segs| ==> segs[i] != [] && '/' !in segs[i]
    ensures Join(path, segs) ==
      if segs == [] then path
      else if path[|path| - 1] == '/' then path + Text.Join('/', segs)
      else path + "/" + Text.Join('/', segs)
    decreases |segs|
  {
    if segs != [] {
      var next := JoinStep(path, segs[0]);
      assert next == if path[|path| - 1] == '/' then path + segs[0] else path + "/" + segs[0];
      assert next[|next| - 1] == segs[0][|segs[0]| - 1];
      JoinSegments(next, segs[1..]);
    }
  }

  /** Joining slash-free segments starting from the empty path. */
  lemma JoinFromEmpty(segs: seq<string>)
    requires forall i :: 0 <= i < |segs| ==> segs[i] != [] && '/' !in segs[i]
    ensures Join("", segs) == Text.Join('/', segs)
  {
    if segs != [] {
      assert JoinStep("", segs[0]) == segs[0];
      JoinSegments(segs[0], segs[1..]);
    }
  }

  /** A normalised path is a slash followed by its segments joined with
      slashes, and `os.path.split` cuts it before the last segment. */
  lemma SplitNormalised(fp: string)
    requires Normalised(fp)
    ensures var segs := Segments(fp);
      fp == "/" + Text.Join('/', segs) &&
      Split(fp) == (if |segs| == 1 then "/" else "/" + Text.Join('/', segs[..|segs| - 1]), segs[|segs| - 1])
  {
    var segs := Segments(fp);
    var base := segs[|segs| - 1];
    Text.JoinSplit(fp[1..], '/');
    assert fp == [fp[0]] + fp[1..];
    assert IsSegment(base);
    if |segs| == 1 {
      assert Text.Join('/', segs) == base;
      SplitRootFile(base);
    } else {
      var dirs := segs[..|segs| - 1];
      assert segs == dirs + [base];
      assert IsSegment(dirs[|dirs| - 1]);
      SplitJoined(fp, dirs, base);
    }
  }

  /** `os.path.split` of a slash, directory segments, a slash and a file
      name. */
  lemma SplitJoined(p: string, dirs: seq<string>, base: string)
    requires |dirs| >= 1 && IsSegment(dirs[|dirs| - 1]) && IsSegment(base)
    requires p == "/" + Text.Join('/', dirs + [base])
    ensures Split(p) == ("/" + Text.Join('/', dirs), base)
  {
    var x := Text.Join('/', dirs);
    Text.JoinSnoc('/', dirs, base);
    SlashLed(dirs);
    Text.Reassoc("/", x, "/", base);
    SplitDirFile(p, "/" + x, base);
  }

  /** A slash followed by segments does not end with a slash. */
  lemma SlashLed(dirs: seq<string>)
    requires |dirs| >= 1 && IsSegment(dirs[|dirs| - 1])
    ensures var dn := "/" + Text.Join('/', dirs); dn[|dn| - 1] != '/'
  {
    var last := dirs[|dirs| - 1];
    Text.JoinLast('/', dirs);
    var dn := "/" + Text.Join('/', dirs);
    assert dn[|dn| - 1] == last[|last| - 1];
  }

  /** `os.path.join("/", root, *segs)` for a relative `root` (possibly
      empty) and slash-free segments. */
  lemma JoinUnderRoot(root: string, segs: seq<string>)
    requires root == [] || (root[0] != '/' && root[|root| - 1] != '/')
    requires |segs| >= 1
    requires forall i :: 0 <= i < |segs| ==> segs[i] != [] && '/' !in segs[i]
    ensures Join("/", [root] + segs) ==
      if root == [] then "/" + Text.Join('/', segs) else "/" + root + "/" + Text.Join('/', segs)
  {
    JoinCons("/", root, segs);
    if root == [] {
      assert JoinStep("/", root) == "/";
      JoinSegments("/", segs);
    } else {
      assert JoinStep("/", root) == "/" + root;
      JoinSegments("/" + root, segs);
    }
  }

  /** The first step of a join. */
  lemma JoinCons(a: string, b: string, rest: seq<string>)
    ensures Join(a, [b] + rest) == Join(JoinStep(a, b), rest)
  {
    assert ([b] + rest)[1..] == rest;
  }

  /** `os.path.join("/", root, *segs)` where `root` is itself segments
      joined with slashes: a slash, then all the segments. */
  lemma JoinRootSegments(rs: seq<string>, segs: seq<string>)
    requires forall i :: 0 <= i < |rs| ==> rs[i] != [] && '/' !in rs[i]
    requires |segs| >= 1
    requires forall i :: 0 <= i < |segs| ==> segs[i] != [] && '/' !in segs[i]
    ensures Join("/", [Text.Join('/', rs)] + segs) == "/" + Text.Join('/', rs + segs)
  {
    var root := Text.Join('/', rs);
    if rs == [] {
      assert rs + segs == segs;
    } else {
      Text.JoinLast('/', rs);
      assert root[0] == rs[0][0] by {
        if |rs| > 1 { assert root == rs[0] + "/" + Text.Join('/', rs[1..]); }
      }
      Text.JoinAppend('/', rs, segs);
    }
    JoinUnderRoot(root, segs);
  }

  /** `os.path.join(dirname, basename)` for a directory of segments and a
      slash-free file name. */
  lemma JoinFile(dn: string, segs: seq<string>, b: string)
    requires |segs| >= 1 && segs[|segs| - 1] != []
    requires dn == "/" + Text.Join('/', segs)
    requires '/' !in segs[|segs| - 1] && b != [] && '/' !in b
    ensures Join(dn, [b]) == "/" + Text.Join('/', segs + [b])
  {
    Text.JoinLast('/', segs);
    assert dn[|dn| - 1] != '/';
    JoinSegments(dn, [b]);
    Text.JoinSnoc('/', segs, b);
  }
}
