/** The CMIP5 path codec of `Cmip5File`: a decoded record, the path it is
    decoded from, and the path it prints back to.

    The directory layout is
      <root>/<inst>/<model>/<experiment>/<freq>/<realm>/<mip>/<run>/<version>/<variable>/<file>
    and the file name is
      <variable>_<mip>_<model>_<experiment>_<run>_<trange>
    where `trange` keeps whatever extension the file name has. */
module Cmip5 {
  import opened Wrappers
  import Text
  import PosixPath

  /** The attributes `Cmip5File.__init__` sets. */
  datatype Cmip5File = Cmip5File(
    root: string,
    inst: string,
    model: string,
    experiment: string,
    freq: string,
    realm: string,
    mip: string,
    run: string,
    version: string,
    variable: string,
    trange: string)

  /** The two ways decoding fails: fewer than nine pieces to unpack
      (a `ValueError`), or exactly nine, which leaves `os.path.join` with no
      argument at all (a `TypeError`). */
  datatype DecodeError = TooFewDirectories(found: nat) | NoRootComponents

  /** The nine positional directory fields, in directory order. */
  function Fields(r: Cmip5File): seq<string>
  {
    [r.inst, r.model, r.experiment, r.freq, r.realm, r.mip, r.run, r.version, r.variable]
  }

  /** `Cmip5File(fp)`, for a path `os.path.abspath` leaves unchanged. */
  function Decode(fp: string): (r: Result<Cmip5File, DecodeError>)
    ensures r.Ok? ==> forall i :: 0 <= i < 9 ==> '/' !in Fields(r.value)[i]
    ensures r.Ok? ==> r.value.trange == LastToken(PosixPath.Split(fp).1) && '/' !in r.value.trange
  {
    var (dirname, basename) := PosixPath.Split(fp);
    Text.SplitPiecesFree(dirname, '/');
    Assign(Text.Split(dirname, '/'), basename)
  }

  /** The assignments of `Cmip5File.__init__` once the directory has been
      split on `/`: the last nine pieces are unpacked positionally, the
      pieces before them are joined into `root`, and the last `_` token of
      the file name is `trange`. */
  function Assign(splitdirs: seq<string>, basename: string): (r: Result<Cmip5File, DecodeError>)
    ensures r.Ok? <==> |splitdirs| >= 10
    ensures r.Ok? ==> Fields(r.value) == splitdirs[|splitdirs| - 9..]
    ensures r.Ok? ==> r.value.trange == LastToken(basename)
  {
    var n := |splitdirs|;
    if n < 9 then Err(TooFewDirectories(n))
    else if n == 9 then Err(NoRootComponents)
    else
      var r := Cmip5File(
        PosixPath.Join(splitdirs[0], splitdirs[1..n - 9]),
        splitdirs[n - 9], splitdirs[n - 8], splitdirs[n - 7], splitdirs[n - 6],
        splitdirs[n - 5], splitdirs[n - 4], splitdirs[n - 3], splitdirs[n - 2],
        splitdirs[n - 1],
        LastToken(basename));
      assert Fields(r) == splitdirs[n - 9..];
      Ok(r)
  }

  /** `basename.split('_')[-1]`: what follows the last underscore of a file
      name, or all of it when there is none. */
  function LastToken(basename: string): (t: string)
    ensures '_' !in t
    ensures |t| <= |basename| && basename[|basename| - |t|..] == t
    ensures |t| < |basename| ==> basename[|basename| - |t| - 1] == '_'
  {
    Text.SplitLast(basename, '_');
    var tokens := Text.Split(basename, '_');
    tokens[|tokens| - 1]
  }

  /** The `basename` property: the variable, MIP table, model, experiment
      and run, then the time range, joined by underscores. */
  function Basename(r: Cmip5File): (b: string)
    ensures |r.trange| < |b| && b[|b| - |r.trange| - 1..] == "_" + r.trange
  {
    var front := [r.variable, r.mip, r.model, r.experiment, r.run];
    Text.JoinSnoc('_', front, r.trange);
    assert front + [r.trange] == [r.variable, r.mip, r.model, r.experiment, r.run, r.trange];
    Text.Join('_', [r.variable, r.mip, r.model, r.experiment, r.run, r.trange])
  }

  /** The `dirname` property (its `root` argument is never supplied, so it
      is always `self.root`): an absolute path ending with the variable's
      directory. */
  function Dirname(r: Cmip5File): (d: string)
    ensures d != [] && d[0] == '/'
    ensures |r.variable| <= |d| && d[|d| - |r.variable|..] == r.variable
  {
    PosixPath.JoinAbsolute("/", [r.root] + Fields(r));
    PosixPath.JoinEndsWith("/", [r.root] + Fields(r));
    PosixPath.Join("/", [r.root] + Fields(r))
  }

  /** The `fullpath` property: an absolute path ending with the basename. */
  function Fullpath(r: Cmip5File): (f: string)
    ensures f != [] && f[0] == '/'
    ensures var b := Basename(r); |b| <= |f| && f[|f| - |b|..] == b
  {
    PosixPath.JoinAbsolute(Dirname(r), [Basename(r)]);
    PosixPath.JoinEndsWith(Dirname(r), [Basename(r)]);
    PosixPath.Join(Dirname(r), [Basename(r)])
  }

  /** The `t_start` property: the part of `trange` before its first `-`
      (all of it when there is none). */
  function TStart(r: Cmip5File): (s: string)
    ensures s <= r.trange && '-' !in s
    ensures |s| < |r.trange| ==> r.trange[|s|] == '-'
  {
    Text.SplitFirst(r.trange, '-');
    Text.SplitPiecesFree(r.trange, '-');
    Text.Split(r.trange, '-')[0]
  }

  /** The `t_end` property: the part of `trange` between its first and its
      second `-`; `None` stands for the `IndexError` raised when `trange`
      has no `-`. */
  function TEnd(r: Cmip5File): (e: Option<string>)
    ensures e.None? <==> '-' !in r.trange
    ensures e.Some? ==> '-' !in e.value && TStart(r) + "-" + e.value <= r.trange
    ensures e.Some? ==> var n := |TStart(r)| + 1 + |e.value|; n == |r.trange| || r.trange[n] == '-'
  {
    Text.SplitFirst(r.trange, '-');
    Text.SplitPiecesFree(r.trange, '-');
    var parts := Text.Split(r.trange, '-');
    if |parts| >= 2 then
      Text.SplitSecond(r.trange, '-');
      var rest := r.trange[|parts[0]| + 1..];
      Text.SplitFirst(rest, '-');
      assert parts[1] == Text.Split(rest, '-')[0];
      assert |parts[1]| < |rest| ==> r.trange[|parts[0]| + 1 + |parts[1]|] == rest[|parts[1]|];
      Some(parts[1])
    else None
  }

  /** With exactly one `-` in `trange`, `t_start`, a dash and `t_end` give
      `trange` back. */
  lemma TimeRangeRoundTrip(r: Cmip5File)
    requires multiset(r.trange)['-'] == 1
    ensures TEnd(r).Some?
    ensures TStart(r) + "-" + TEnd(r).value == r.trange
  {
    assert '-' in r.trange;
    var a := TStart(r);
    var rest := r.trange[|a| + 1..];
    Text.SplitSecond(r.trange, '-');
    assert r.trange == a + "-" + rest;
    assert multiset(r.trange) == multiset(a) + multiset("-") + multiset(rest);
    assert '-' !in rest by {
      assert multiset(a)['-'] == 0;
      assert multiset(rest)['-'] == 0;
    }
    Text.SplitPrefix(rest, '-', "");
  }

  /** What decoding means for a normalised path with directory segments
      `dirs` and file name `base`: with fewer than eight directories there
      are too few pieces to unpack (the slash-split of the directory has one
      piece more than it has segments, and two for the root itself); with
      exactly eight no piece is left for `root`; otherwise the last nine
      segments are the fields in order, the ones before them joined with
      `/` are `root` (empty when there are exactly nine), and `trange` is
      the last `_` token of the file name. */
  function FromSegments(dirs: seq<string>, base: string): (r: Result<Cmip5File, DecodeError>)
    ensures r.Ok? <==> |dirs| >= 9
    ensures r.Ok? ==> Fields(r.value) == dirs[|dirs| - 9..]
  {
    var d := |dirs|;
    if d < 8 then Err(TooFewDirectories(if d == 0 then 2 else d + 1))
    else if d == 8 then Err(NoRootComponents)
    else
      var r := Cmip5File(
        Text.Join('/', dirs[..d - 9]),
        dirs[d - 9], dirs[d - 8], dirs[d - 7], dirs[d - 6], dirs[d - 5],
        dirs[d - 4], dirs[d - 3], dirs[d - 2], dirs[d - 1],
        LastToken(base));
      assert Fields(r) == dirs[d - 9..];
      Ok(r)
  }

  /** Decoding a normalised path is `FromSegments` of its directory
      segments and its file name. */
  lemma DecodeNormalised(fp: string)
    requires PosixPath.Normalised(fp)
    ensures var segs := PosixPath.Segments(fp);
      Decode(fp) == FromSegments(segs[..|segs| - 1], segs[|segs| - 1])
  {
    var segs := PosixPath.Segments(fp);
    var dirs, base := segs[..|segs| - 1], segs[|segs| - 1];
    PosixPath.SplitNormalised(fp);
    FrontSegments(segs, dirs);
    DecodeSplit(fp, DirnameOf(dirs), base);
    SplitDirname(dirs);
    AssignSegments(dirs, base);
  }

  /** The `dirname` of a normalised path, from its directory segments. */
  function DirnameOf(dirs: seq<string>): string
  {
    if dirs == [] then "/" else "/" + Text.Join('/', dirs)
  }

  /** `dirname.split('/')` of a normalised path's directory. */
  lemma SplitDirname(dirs: seq<string>)
    requires forall i :: 0 <= i < |dirs| ==> PosixPath.IsSegment(dirs[i])
    ensures Text.Split(DirnameOf(dirs), '/') == if dirs == [] then ["", ""] else [""] + dirs
  {
    if dirs == [] {
      SplitRoot();
    } else {
      SplitDirectory(dirs);
    }
  }

  /** Decoding is assigning from the slash-split of what `os.path.split`
      gives. */
  lemma DecodeSplit(fp: string, dn: string, base: string)
    requires PosixPath.Split(fp) == (dn, base)
    ensures Decode(fp) == Assign(Text.Split(dn, '/'), base)
  {
  }

  /** `'/'.split('/')`. */
  lemma SplitRoot()
    ensures Text.Split("/", '/') == ["", ""]
  {
    Text.SplitPrefix([], '/', []);
    assert [] + ['/'] + [] == "/";
  }

  /** All but the last of a sequence of segments are segments. */
  lemma FrontSegments(segs: seq<string>, dirs: seq<string>)
    requires |segs| >= 1 && dirs == segs[..|segs| - 1]
    requires forall i :: 0 <= i < |segs| ==> PosixPath.IsSegment(segs[i])
    ensures forall i :: 0 <= i < |dirs| ==> PosixPath.IsSegment(dirs[i])
  {
    forall i | 0 <= i < |dirs| ensures PosixPath.IsSegment(dirs[i]) {
      assert dirs[i] == segs[i];
    }
  }

  /** `dirname.split('/')` of a slash-led directory of segments. */
  lemma SplitDirectory(dirs: seq<string>)
    requires |dirs| >= 1
    requires forall i :: 0 <= i < |dirs| ==> PosixPath.IsSegment(dirs[i])
    ensures Text.Split("/" + Text.Join('/', dirs), '/') == [""] + dirs
  {
    Text.SplitPrefix([], '/', Text.Join('/', dirs));
    assert [] + ['/'] + Text.Join('/', dirs) == "/" + Text.Join('/', dirs);
    assert Text.Free('/', dirs);
    Text.SplitJoin('/', dirs);
  }

  /** The assignments from the slash-split of a slash-led directory of
      segments are `FromSegments`. */
  lemma AssignSegments(dirs: seq<string>, base: string)
    requires forall i :: 0 <= i < |dirs| ==> PosixPath.IsSegment(dirs[i])
    ensures Assign(if dirs == [] then ["", ""] else [""] + dirs, base) == FromSegments(dirs, base)
  {
    if |dirs| >= 9 {
      AssignLong(dirs, base);
    }
  }

  /** `AssignSegments` with enough directories to decode. */
  lemma AssignLong(dirs: seq<string>, base: string)
    requires |dirs| >= 9
    requires forall i :: 0 <= i < |dirs| ==> PosixPath.IsSegment(dirs[i])
    ensures Assign([""] + dirs, base) == FromSegments(dirs, base)
  {
    var d := |dirs|;
    var sd := [""] + dirs;
    var n := |sd|;
    assert sd[n - 9..] == dirs[d - 9..];
    var rs := dirs[..d - 9];
    assert sd[1..n - 9] == rs;
    assert forall i :: 0 <= i < |rs| ==> rs[i] != [] && '/' !in rs[i] by {
      forall i | 0 <= i < |rs| ensures rs[i] != [] && '/' !in rs[i] { assert rs[i] == dirs[i]; }
    }
    PosixPath.JoinFromEmpty(rs);
    var p := Assign(sd, base).value;
    var q := FromSegments(dirs, base).value;
    assert p.root == q.root;
    assert Fields(p) == Fields(q);
  }

  /** The record is the only thing that survives decoding: two normalised
      paths with the same directory and the same last `_` token of the file
      name decode alike, whatever the other file name tokens are. */
  lemma FileNameTokensIgnored(fp1: string, fp2: string)
    requires PosixPath.Normalised(fp1) && PosixPath.Normalised(fp2)
    requires var s1, s2 := PosixPath.Segments(fp1), PosixPath.Segments(fp2);
      s1[..|s1| - 1] == s2[..|s2| - 1] && LastToken(s1[|s1| - 1]) == LastToken(s2[|s2| - 1])
    ensures Decode(fp1) == Decode(fp2)
  {
    var s1, s2 := PosixPath.Segments(fp1), PosixPath.Segments(fp2);
    var dirs, b1, b2 := s1[..|s1| - 1], s1[|s1| - 1], s2[|s2| - 1];
    DecodeNormalised(fp1);
    DecodeNormalised(fp2);
    SameLastToken(dirs, b1, b2);
    assert Decode(fp1) == FromSegments(dirs, b1) == FromSegments(dirs, b2) == Decode(fp2);
  }

  /** `FromSegments` reads nothing of the file name but its last `_`
      token. */
  lemma SameLastToken(dirs: seq<string>, b1: string, b2: string)
    requires LastToken(b1) == LastToken(b2)
    ensures FromSegments(dirs, b1) == FromSegments(dirs, b2)
  {
  }

  /** The segments a `root` value stands for. */
  function RootSegments(root: string): seq<string>
  {
    if root == "" then [] else Text.Split(root, '/')
  }

  /** A record `fullpath` can print so that decoding reads it back:
      every field a path segment, `root` empty or a relative path of
      segments, and `trange` free of slashes and underscores. */
  predicate WellFormed(r: Cmip5File)
  {
    && (forall i :: 0 <= i < |RootSegments(r.root)| ==> PosixPath.IsSegment(RootSegments(r.root)[i]))
    && (forall i :: 0 <= i < 9 ==> PosixPath.IsSegment(Fields(r)[i]))
    && '/' !in r.trange && '_' !in r.trange
  }

  /** `dirname` puts a slash before the root and between all segments. */
  lemma DirnameShape(r: Cmip5File)
    requires WellFormed(r)
    ensures Dirname(r) == "/" + Text.Join('/', RootSegments(r.root) + Fields(r))
  {
    var fs := Fields(r);
    var rs := RootSegments(r.root);
    assert r.root == Text.Join('/', rs) by {
      if r.root != "" { Text.JoinSplit(r.root, '/'); }
    }
    assert forall i :: 0 <= i < |fs| ==> fs[i] != [] && '/' !in fs[i];
    assert forall i :: 0 <= i < |rs| ==> rs[i] != [] && '/' !in rs[i];
    PosixPath.JoinRootSegments(rs, fs);
  }

  /** `basename` is a path segment whose last `_` token is `trange`. */
  lemma BasenameShape(r: Cmip5File)
    requires WellFormed(r)
    ensures PosixPath.IsSegment(Basename(r))
    ensures LastToken(Basename(r)) == r.trange
  {
    var first := [r.variable, r.mip, r.model, r.experiment, r.run];
    assert [r.variable, r.mip, r.model, r.experiment, r.run, r.trange] == first + [r.trange];
    Text.JoinSnoc('_', first, r.trange);
    var x := Text.Join('_', first);
    assert Basename(r) == x + "_" + r.trange;
    Text.SplitLastPiece(x, '_', r.trange);
    assert Fields(r)[8] == r.variable && Fields(r)[5] == r.mip && Fields(r)[1] == r.model;
    assert Fields(r)[2] == r.experiment && Fields(r)[6] == r.run;
    Text.JoinFree('_', first, '/');
    assert Basename(r)[|x|] == '_';
  }

  /** `fullpath` is a slash, then every segment of the record, then the
      file name. */
  lemma FullpathShape(r: Cmip5File)
    requires WellFormed(r)
    ensures Fullpath(r) == "/" + Text.Join('/', RootSegments(r.root) + Fields(r) + [Basename(r)])
  {
    DirnameShape(r);
    BasenameShape(r);
    assert Fields(r)[8] != [];
    PosixPath.JoinFile(Dirname(r), RootSegments(r.root) + Fields(r), Basename(r));
  }

  /** Round trip from the record: decoding what `fullpath` prints gives the
      record back. */
  lemma DecodeFullpath(r: Cmip5File)
    requires WellFormed(r)
    ensures PosixPath.Normalised(Fullpath(r))
    ensures Decode(Fullpath(r)) == Ok(r)
  {
    var rs := RootSegments(r.root);
    var dirs := rs + Fields(r);
    var b := Basename(r);
    var segs := dirs + [b];
    assert segs[..|segs| - 1] == dirs;
    FullpathShape(r);
    BasenameShape(r);
    RecordSegments(r);
    var fp := Fullpath(r);
    assert forall i :: 0 <= i < |segs| ==> PosixPath.IsSegment(segs[i]) by {
      AppendSegments(dirs, [b]);
    }
    assert PosixPath.Segments(fp) == segs by {
      assert fp[1..] == Text.Join('/', segs);
      Text.SplitJoin('/', segs);
    }
    DecodeNormalised(fp);
    FromRecordSegments(r);
  }

  /** The segments of a printable record are segments. */
  lemma RecordSegments(r: Cmip5File)
    requires WellFormed(r)
    ensures var dirs := RootSegments(r.root) + Fields(r);
      forall i :: 0 <= i < |dirs| ==> PosixPath.IsSegment(dirs[i])
  {
    AppendSegments(RootSegments(r.root), Fields(r));
  }

  /** `FromSegments` reads a printable record back from its segments and
      its file name. */
  lemma FromRecordSegments(r: Cmip5File)
    requires WellFormed(r)
    ensures FromSegments(RootSegments(r.root) + Fields(r), Basename(r)) == Ok(r)
  {
    var rs := RootSegments(r.root);
    var dirs := rs + Fields(r);
    var d := |dirs|;
    assert dirs[..d - 9] == rs;
    assert dirs[d - 9..] == Fields(r);
    BasenameShape(r);
    assert r.root == Text.Join('/', rs) by {
      if r.root != "" { Text.JoinSplit(r.root, '/'); }
    }
    var q := FromSegments(dirs, Basename(r)).value;
    assert Fields(q) == Fields(r);
    assert q.inst == r.inst && q.model == r.model && q.experiment == r.experiment by {
      assert Fields(q)[0] == Fields(r)[0] && Fields(q)[1] == Fields(r)[1] && Fields(q)[2] == Fields(r)[2];
    }
    assert q.freq == r.freq && q.realm == r.realm && q.mip == r.mip by {
      assert Fields(q)[3] == Fields(r)[3] && Fields(q)[4] == Fields(r)[4] && Fields(q)[5] == Fields(r)[5];
    }
    assert q.run == r.run && q.version == r.version && q.variable == r.variable by {
      assert Fields(q)[6] == Fields(r)[6] && Fields(q)[7] == Fields(r)[7] && Fields(q)[8] == Fields(r)[8];
    }
  }

  /** A relative path of segments stands for those segments. */
  lemma RootOfSegments(rs: seq<string>)
    requires forall i :: 0 <= i < |rs| ==> PosixPath.IsSegment(rs[i])
    ensures RootSegments(Text.Join('/', rs)) == rs
  {
    if rs != [] {
      Text.JoinLast('/', rs);
      Text.SplitJoin('/', rs);
    }
  }

  /** The record decoded from the directory segments and the file name of
      a normalised path is one `fullpath` can print. */
  lemma FromSegmentsWellFormed(dirs: seq<string>, base: string)
    requires |dirs| >= 9
    requires forall i :: 0 <= i < |dirs| ==> PosixPath.IsSegment(dirs[i])
    requires PosixPath.IsSegment(base)
    ensures var r := FromSegments(dirs, base).value;
      WellFormed(r) && RootSegments(r.root) == dirs[..|dirs| - 9]
  {
    var d := |dirs|;
    var r := FromSegments(dirs, base).value;
    var rs := dirs[..d - 9];
    assert forall i :: 0 <= i < |rs| ==> PosixPath.IsSegment(rs[i]) by {
      forall i | 0 <= i < |rs| ensures PosixPath.IsSegment(rs[i]) { assert rs[i] == dirs[i]; }
    }
    RootOfSegments(rs);
    assert forall i :: 0 <= i < 9 ==> PosixPath.IsSegment(Fields(r)[i]) by {
      forall i | 0 <= i < 9 ensures PosixPath.IsSegment(Fields(r)[i]) {
        assert Fields(r)[i] == dirs[d - 9 + i];
      }
    }
    assert '/' !in r.trange by {
      assert r.trange == base[|base| - |r.trange|..];
    }
  }

  /** Round trip from the path: a normalised path with enough directories
      whose file name is the one its own record prints (as in the docstring
      example) is printed back unchanged by `fullpath`. */
  lemma FullpathDecode(fp: string)
    requires PosixPath.Normalised(fp)
    requires Decode(fp).Ok?
    requires var segs := PosixPath.Segments(fp); Basename(Decode(fp).value) == segs[|segs| - 1]
    ensures Fullpath(Decode(fp).value) == fp
  {
    var segs := PosixPath.Segments(fp);
    var dirs := segs[..|segs| - 1];
    var base := segs[|segs| - 1];
    Snoc(segs);
    PosixPath.SplitNormalised(fp);
    assert forall i :: 0 <= i < |dirs| ==> PosixPath.IsSegment(dirs[i]) by {
      forall i | 0 <= i < |dirs| ensures PosixPath.IsSegment(dirs[i]) { assert dirs[i] == segs[i]; }
    }
    assert PosixPath.IsSegment(base);
    DecodeNormalised(fp);
    FullpathOfSegments(dirs, base);
  }

  /** `FullpathDecode`, stated on directory segments and a file name. */
  lemma FullpathOfSegments(dirs: seq<string>, base: string)
    requires |dirs| >= 9
    requires forall i :: 0 <= i < |dirs| ==> PosixPath.IsSegment(dirs[i])
    requires PosixPath.IsSegment(base)
    requires Basename(FromSegments(dirs, base).value) == base
    ensures Fullpath(FromSegments(dirs, base).value) == "/" + Text.Join('/', dirs + [base])
  {
    var r := FromSegments(dirs, base).value;
    Recombine(dirs, |dirs| - 9);
    FromSegmentsWellFormed(dirs, base);
    FullpathShape(r);
  }

  /** A sequence is its prefix followed by its suffix. */
  lemma Recombine<T>(s: seq<T>, k: nat)
    requires k <= |s|
    ensures s[..k] + s[k..] == s
  {
  }

  /** A non-empty sequence is its front followed by its last element. */
  lemma Snoc<T>(s: seq<T>)
    requires |s| >= 1
    ensures s == s[..|s| - 1] + [s[|s| - 1]]
  {
  }

  /** Every element of two sequences of segments is a segment of their
      concatenation. */
  lemma AppendSegments(a: seq<string>, b: seq<string>)
    requires forall i :: 0 <= i < |a| ==> PosixPath.IsSegment(a[i])
    requires forall i :: 0 <= i < |b| ==> PosixPath.IsSegment(b[i])
    ensures forall i :: 0 <= i < |a + b| ==> PosixPath.IsSegment((a + b)[i])
  {
    forall i | 0 <= i < |a + b| ensures PosixPath.IsSegment((a + b)[i]) {
      if i >= |a| { assert (a + b)[i] == b[i - |a|]; }
    }
  }
}
