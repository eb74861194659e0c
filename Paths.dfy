/** Operations over sequences of CMIP5 file paths: selecting paths by
    model and run, streaming the paths a filter accepts, and grouping the
    paths of one model run into `DerivableBase` objects. The records come
    from the path codec, under the attribute names `ensemble_member`
    (`run`), `temporal_subset` (`trange`) and `variable_name`
    (`variable`). */
module Paths {
  import opened Wrappers
  import PosixPath
  import Cmip5
  import Filters
  import Variables

  // ---------------------------------------------------------------------
  // model_run_filter

  /** `model_run_filter`: whether the decoded record's model is a key of
      `validModelRuns` and its run one of that key's runs. A path that
      does not decode raises. */
  function ModelRunFilter(fp: string, validModelRuns: map<string, seq<string>>): (r: Result<bool, Cmip5.DecodeError>)
    ensures r.Err? <==> Cmip5.Decode(fp).Err?
  {
    match Cmip5.Decode(fp)
    case Err(e) => Err(e)
    case Ok(cf) => Ok(cf.model in validModelRuns && cf.run in validModelRuns[cf.model])
  }

  /** On a normalised path, `model_run_filter` reads the eighth- and the
      third-last directory segments: the model and the run. Fewer than
      nine directories make it raise. */
  lemma ModelRunFilterSegments(fp: string, validModelRuns: map<string, seq<string>>)
    requires PosixPath.Normalised(fp)
    ensures var segs := PosixPath.Segments(fp); var d := |segs| - 1;
      && (d < 9 ==> ModelRunFilter(fp, validModelRuns).Err?)
      && (d >= 9 ==> ModelRunFilter(fp, validModelRuns) == Ok(segs[d - 8] in validModelRuns && segs[d - 3] in validModelRuns[segs[d - 8]]))
  {
    var segs := PosixPath.Segments(fp);
    var dirs := segs[..|segs| - 1];
    Cmip5.DecodeNormalised(fp);
    if |dirs| >= 9 {
      var cf := Cmip5.FromSegments(dirs, segs[|segs| - 1]).value;
      assert Cmip5.Fields(cf)[1] == dirs[|dirs| - 8];
      assert Cmip5.Fields(cf)[6] == dirs[|dirs| - 3];
    }
  }

  // ---------------------------------------------------------------------
  // iter_matching_cmip5_file

  /** What consuming the generator gives: the paths yielded, and the
      exception that ended it early, if any. */
  datatype Generated = Generated(items: seq<string>, failure: Option<Filters.FilterError>)

  /** The outcome of `fp in _filter` for each path, in order. */
  function Tests(files: seq<string>, f: Filters.Filter): (tests: seq<Result<bool, Filters.FilterError>>)
    ensures |tests| == |files|
    ensures forall i :: 0 <= i < |files| ==> tests[i] == Filters.Contains(f, files[i])
  {
    seq(|files|, i requires 0 <= i < |files| => Filters.Contains(f, files[i]))
  }

  /** The generator loop, given the outcome of each membership test: each
      accepted path is yielded in turn, and the first test that raises
      ends the iteration with that exception. */
  function Yield(files: seq<string>, tests: seq<Result<bool, Filters.FilterError>>): (g: Generated)
    requires |tests| == |files|
    ensures g.failure.None? <==> forall i :: 0 <= i < |tests| ==> tests[i].Ok?
    decreases |files|
  {
    if files == [] then Generated([], None)
    else
      match tests[0]
      case Err(e) => Generated([], Some(e))
      case Ok(b) =>
        var rest := Yield(files[1..], tests[1..]);
        assert forall i :: 1 <= i < |tests| ==> tests[i] == tests[1..][i - 1];
        Generated((if b then [files[0]] else []) + rest.items, rest.failure)
  }

  /** The generator over a constructed filter: it yields only accepted
      paths, and runs to the end exactly when no test raises. */
  function Matching(files: seq<string>, f: Filters.Filter): (g: Generated)
    ensures g.failure.None? <==> forall i :: 0 <= i < |files| ==> Filters.Contains(f, files[i]).Ok?
    ensures forall x :: x in g.items ==> Filters.Contains(f, x) == Ok(true)
  {
    YieldSubsequence(files, Tests(files, f));
    Yield(files, Tests(files, f))
  }

  /** `iter_matching_cmip5_file(file_iter, _filter)`. Any argument but
      `'pcic12'` yields nothing, and raises on the first path. */
  function IterMatchingCmip5File(files: seq<string>, filterArg: Filters.FilterArg): (g: Generated)
    ensures filterArg != Filters.Name("pcic12") && files == [] ==> g == Generated([], None)
    ensures filterArg != Filters.Name("pcic12") && files != [] ==> g == Generated([], Some(Filters.FilterUnset))
  {
    if filterArg != Filters.Name("pcic12") && files != [] then
      Filters.UnsetFilterRaises(filterArg, files[0]);
      Matching(files, Filters.NewFilter(filterArg))
    else Matching(files, Filters.NewFilter(filterArg))
  }

  /** `a` is `b` with some elements left out, the rest kept in order. */
  predicate Subsequence(a: seq<string>, b: seq<string>)
    decreases |b|
  {
    a == [] || (b != [] && ((a[0] == b[0] && Subsequence(a[1..], b[1..])) || Subsequence(a, b[1..])))
  }

  /** What is yielded is a subsequence of the input, and every path
      yielded is one whose test gave `True`. */
  lemma {:induction false} YieldSubsequence(files: seq<string>, tests: seq<Result<bool, Filters.FilterError>>)
    requires |tests| == |files|
    ensures Subsequence(Yield(files, tests).items, files)
    ensures forall x :: x in Yield(files, tests).items ==> exists j :: 0 <= j < |files| && files[j] == x && tests[j] == Ok(true)
    decreases |files|
  {
    if files != [] && tests[0].Ok? {
      var rest := Yield(files[1..], tests[1..]);
      YieldSubsequence(files[1..], tests[1..]);
      forall x | x in rest.items
        ensures exists j :: 0 <= j < |files| && files[j] == x && tests[j] == Ok(true)
      {
        var j :| 0 <= j < |files[1..]| && files[1..][j] == x && tests[1..][j] == Ok(true);
        assert files[j + 1] == x && tests[j + 1] == Ok(true);
      }
      if tests[0] == Ok(true) {
        assert Yield(files, tests).items == [files[0]] + rest.items;
        assert ([files[0]] + rest.items)[1..] == rest.items;
      } else {
        assert Yield(files, tests).items == rest.items;
      }
    }
  }

  /** When no test raises, every accepted path is yielded. */
  lemma {:induction false} YieldComplete(files: seq<string>, tests: seq<Result<bool, Filters.FilterError>>, i: nat)
    requires |tests| == |files| && i < |files| && Yield(files, tests).failure.None?
    requires tests[i] == Ok(true)
    ensures files[i] in Yield(files, tests).items
    decreases |files|
  {
    if i > 0 {
      assert files[i] == files[1..][i - 1] && tests[i] == tests[1..][i - 1];
      YieldComplete(files[1..], tests[1..], i - 1);
    }
  }

  /** A test that raises stops the iteration: what was yielded is what the
      paths before it give, and the exception is its own. */
  lemma {:induction false} YieldStopsAtFirstError(files: seq<string>, tests: seq<Result<bool, Filters.FilterError>>, k: nat)
    requires |tests| == |files| && k < |files| && tests[k].Err?
    requires forall j :: 0 <= j < k ==> tests[j].Ok?
    ensures Yield(files, tests) == Generated(Yield(files[..k], tests[..k]).items, Some(tests[k].error))
    decreases k
  {
    if k > 0 {
      assert files[1..][k - 1] == files[k] && tests[1..][k - 1] == tests[k];
      assert forall j :: 0 <= j < k - 1 ==> tests[1..][j] == tests[j + 1];
      YieldStopsAtFirstError(files[1..], tests[1..], k - 1);
      assert files[..k][1..] == files[1..][..k - 1];
      assert tests[..k][1..] == tests[1..][..k - 1];
    }
  }

  /** A path that does not decode, tested against a filter with clauses,
      ends the stream: the paths accepted before it are yielded, and then
      the decoding error propagates out of the generator. */
  lemma MalformedStopsStream(files: seq<string>, f: Filters.Filter, k: nat)
    requires f.filter.Some? && f.filter.value != []
    requires k < |files| && Cmip5.Decode(files[k]).Err?
    requires forall j :: 0 <= j < k ==> Filters.Contains(f, files[j]).Ok?
    ensures Matching(files, f) == Generated(Matching(files[..k], f).items, Some(Filters.Malformed(Cmip5.Decode(files[k]).error)))
  {
    var tests := Tests(files, f);
    YieldStopsAtFirstError(files, tests, k);
    assert Tests(files[..k], f) == tests[..k];
  }

  /** `idx` lists, in increasing order, exactly the positions whose test
      gave `True`. */
  ghost predicate AcceptedIndices(idx: seq<nat>, tests: seq<Result<bool, Filters.FilterError>>)
  {
    Increasing(idx) && AcceptedAt(idx, tests, 0) && CoversFrom(idx, tests, 0)
  }

  /** Each position is greater than the one before. */
  ghost predicate Increasing(idx: seq<nat>)
  {
    forall k, l :: 0 <= k < l < |idx| ==> idx[k] < idx[l]
  }

  /** Every position listed is one from `lo` on whose test gave `True`. */
  ghost predicate AcceptedAt(idx: seq<nat>, tests: seq<Result<bool, Filters.FilterError>>, lo: nat)
  {
    forall k :: 0 <= k < |idx| ==> lo <= idx[k] < |tests| && tests[idx[k]] == Ok(true)
  }

  /** Every position from `lo` on whose test gave `True` is listed. */
  ghost predicate CoversFrom(idx: seq<nat>, tests: seq<Result<bool, Filters.FilterError>>, lo: nat)
  {
    forall i :: lo <= i < |tests| && tests[i] == Ok(true) ==> i in idx
  }

  /** When no test raises, the generator yields exactly the accepted
      paths, each as often as it occurs, in input order: the paths at the
      accepted positions, listed in increasing order. */
  lemma {:induction false} YieldExactly(files: seq<string>, tests: seq<Result<bool, Filters.FilterError>>) returns (idx: seq<nat>)
    requires |tests| == |files| && Yield(files, tests).failure.None?
    ensures AcceptedIndices(idx, tests)
    ensures |Yield(files, tests).items| == |idx|
    ensures forall k :: 0 <= k < |idx| ==> Yield(files, tests).items[k] == files[idx[k]]
    decreases |files|
  {
    if files == [] {
      return [];
    }
    var rest := Yield(files[1..], tests[1..]);
    var r := YieldExactly(files[1..], tests[1..]);
    var shifted := Shift(r);
    ShiftIncreasing(r);
    ShiftAcceptedAt(r, tests);
    ShiftCovers(r, tests);
    ShiftItems(r, files, rest.items);
    if tests[0] == Ok(true) {
      idx := [0] + shifted;
      PrependIncreasing(shifted, tests);
      PrependCovers(shifted, tests);
      PrependItems(shifted, files, rest.items);
      assert Yield(files, tests).items == [files[0]] + rest.items;
    } else {
      idx := shifted;
      assert Yield(files, tests).items == rest.items;
    }
  }

  /** Every position moved up by one. */
  function Shift(r: seq<nat>): (s: seq<nat>)
    ensures |s| == |r| && forall k :: 0 <= k < |r| ==> s[k] == r[k] + 1
  {
    seq(|r|, k requires 0 <= k < |r| => r[k] + 1)
  }

  lemma ShiftIncreasing(r: seq<nat>)
    requires Increasing(r)
    ensures Increasing(Shift(r))
  {
    forall k, l | 0 <= k < l < |r|
      ensures Shift(r)[k] < Shift(r)[l]
    {
      assert r[k] < r[l];
    }
  }

  lemma ShiftAcceptedAt(r: seq<nat>, tests: seq<Result<bool, Filters.FilterError>>)
    requires |tests| >= 1 && AcceptedAt(r, tests[1..], 0)
    ensures AcceptedAt(Shift(r), tests, 1)
  {
    forall k | 0 <= k < |r|
      ensures 1 <= Shift(r)[k] < |tests| && tests[Shift(r)[k]] == Ok(true)
    {
      assert tests[1..][r[k]] == tests[r[k] + 1];
    }
  }

  lemma ShiftCovers(r: seq<nat>, tests: seq<Result<bool, Filters.FilterError>>)
    requires |tests| >= 1 && CoversFrom(r, tests[1..], 0)
    ensures CoversFrom(Shift(r), tests, 1)
  {
    forall i | 1 <= i < |tests| && tests[i] == Ok(true)
      ensures i in Shift(r)
    {
      assert tests[1..][i - 1] == tests[i];
      var k :| 0 <= k < |r| && r[k] == i - 1;
      assert Shift(r)[k] == i;
    }
  }

  lemma ShiftItems(r: seq<nat>, files: seq<string>, items: seq<string>)
    requires |files| >= 1 && |items| == |r|
    requires forall k :: 0 <= k < |r| ==> r[k] < |files| - 1 && items[k] == files[1..][r[k]]
    ensures forall k :: 0 <= k < |r| ==> Shift(r)[k] < |files| && items[k] == files[Shift(r)[k]]
  {
    forall k | 0 <= k < |r|
      ensures items[k] == files[Shift(r)[k]]
    {
      assert files[1..][r[k]] == files[r[k] + 1];
    }
  }

  lemma PrependIncreasing(s: seq<nat>, tests: seq<Result<bool, Filters.FilterError>>)
    requires Increasing(s) && AcceptedAt(s, tests, 1)
    ensures Increasing([0] + s)
  {
    var idx := [0] + s;
    forall k, l | 0 <= k < l < |idx|
      ensures idx[k] < idx[l]
    {
      assert idx[l] == s[l - 1];
      if k > 0 {
        assert idx[k] == s[k - 1];
      }
    }
  }

  lemma PrependCovers(s: seq<nat>, tests: seq<Result<bool, Filters.FilterError>>)
    requires CoversFrom(s, tests, 1)
    ensures CoversFrom([0] + s, tests, 0)
  {
    forall i | 0 <= i < |tests| && tests[i] == Ok(true)
      ensures i in [0] + s
    {
      if i > 0 {
        var k :| 0 <= k < |s| && s[k] == i;
        assert ([0] + s)[k + 1] == i;
      }
    }
  }

  lemma PrependItems(s: seq<nat>, files: seq<string>, items: seq<string>)
    requires |files| >= 1 && |items| == |s|
    requires forall k :: 0 <= k < |s| ==> s[k] < |files| && items[k] == files[s[k]]
    ensures forall k :: 0 <= k < |s| + 1 ==> ([0] + s)[k] < |files| && ([files[0]] + items)[k] == files[([0] + s)[k]]
  {
    forall k | 0 <= k < |s| + 1
      ensures ([0] + s)[k] < |files| && ([files[0]] + items)[k] == files[([0] + s)[k]]
    {
      if k > 0 {
        assert ([0] + s)[k] == s[k - 1] && ([files[0]] + items)[k] == items[k - 1];
      }
    }
  }

  /** What the generator yields: only paths the filter accepts, in input
      order; it fails exactly when some test raises; and when none raises
      it yields exactly the paths at the accepted positions, in order. */
  lemma MatchingFilter(files: seq<string>, f: Filters.Filter)
    ensures var g := Matching(files, f);
      && Subsequence(g.items, files)
      && (forall x :: x in g.items ==> Filters.Contains(f, x) == Ok(true))
      && (g.failure.None? <==> forall i :: 0 <= i < |files| ==> Filters.Contains(f, files[i]).Ok?)
      && (g.failure.None? ==> forall i :: 0 <= i < |files| && Filters.Contains(f, files[i]) == Ok(true) ==> files[i] in g.items)
      && (g.failure.None? ==> exists idx :: AcceptedIndices(idx, Tests(files, f)) && |idx| == |g.items| && forall k :: 0 <= k < |idx| ==> g.items[k] == files[idx[k]])
  {
    var tests := Tests(files, f);
    YieldSubsequence(files, tests);
    forall i | 0 <= i < |files| && Yield(files, tests).failure.None? && tests[i] == Ok(true)
      ensures files[i] in Yield(files, tests).items
    {
      YieldComplete(files, tests, i);
    }
    if Yield(files, tests).failure.None? {
      var idx := YieldExactly(files, tests);
    }
  }

  /** Any filter argument but `'pcic12'` makes the first path raise, so
      nothing is yielded. */
  lemma UnsetFilterYieldsNothing(files: seq<string>, filterArg: Filters.FilterArg)
    requires filterArg != Filters.Name("pcic12") && files != []
    ensures IterMatchingCmip5File(files, filterArg) == Generated([], Some(Filters.FilterUnset))
  {
    Filters.UnsetFilterRaises(filterArg, files[0]);
  }

  // ---------------------------------------------------------------------
  // group_files_by_model_set

  /** The ways grouping fails: a path that does not decode, or a record
      whose `t_end` raises. */
  datatype GroupError = Malformed(error: Cmip5.DecodeError) | NoTimeRangeEnd

  /** The group key `model_experiment_run_tstart-tend`, or `None` when
      `t_end` raises. */
  function Key(cf: Cmip5.Cmip5File): (k: Option<string>)
    ensures k.Some? <==> '-' in cf.trange
  {
    match Cmip5.TEnd(cf)
    case None => None
    case Some(tEnd) => Some(cf.model + "_" + cf.experiment + "_" + cf.run + "_" + Cmip5.TStart(cf) + "-" + tEnd)
  }

  /** The keyword arguments a new group is built from. */
  function Kwargs(cf: Cmip5.Cmip5File): map<string, string>
  {
    map[
      "institute" := cf.inst,
      "model" := cf.model,
      "experiment" := cf.experiment,
      "frequency" := cf.freq,
      "modeling_realm" := cf.realm,
      "mip_table" := cf.mip,
      "ensemble_member" := cf.run,
      "version_number" := cf.version,
      "temporal_subset" := cf.trange]
  }

  /** What one path contributes to the grouping: its key, its variable,
      the attributes a new group would take from it, and the path. */
  datatype Item = Item(key: string, variable: string, atts: map<string, string>, path: string)

  /** The item of a path, or the exception the loop raises on it. */
  function Entry(fp: string): (e: Result<Item, GroupError>)
    ensures e.Ok? <==> Cmip5.Decode(fp).Ok? && '-' in Cmip5.Decode(fp).value.trange
    ensures e.Ok? ==> e.value.path == fp
    ensures e.Ok? ==> var cf := Cmip5.Decode(fp).value;
      e.value.key == Key(cf).value && e.value.variable == cf.variable && e.value.atts == Kwargs(cf)
  {
    EntryOf(Cmip5.Decode(fp), fp)
  }

  /** The item of a path from what decoding it gave. */
  function EntryOf(d: Result<Cmip5.Cmip5File, Cmip5.DecodeError>, fp: string): Result<Item, GroupError>
  {
    match d
    case Err(e) => Err(Malformed(e))
    case Ok(cf) =>
      match Key(cf)
      case None => Err(NoTimeRangeEnd)
      case Some(key) => Ok(Item(key, cf.variable, Kwargs(cf), fp))
  }

  /** What decoding each path gives, in order. */
  function Decoded(files: seq<string>): (ds: seq<Result<Cmip5.Cmip5File, Cmip5.DecodeError>>)
    ensures |ds| == |files|
    decreases |files|
  {
    if files == [] then [] else Decoded(files[..|files| - 1]) + [Cmip5.Decode(files[|files| - 1])]
  }

  /** The decoding at each position is that of the path there. */
  lemma {:induction false} DecodedAt(files: seq<string>, i: nat)
    requires i < |files|
    ensures Decoded(files)[i] == Cmip5.Decode(files[i])
    decreases |files|
  {
    if i < |files| - 1 {
      DecodedAt(files[..|files| - 1], i);
    }
  }

  /** The entry of each path, in order. */
  function EntryList(files: seq<string>): (entries: seq<Result<Item, GroupError>>)
    ensures |entries| == |files|
  {
    seq(|files|, i requires 0 <= i < |files| => EntryOf(Decoded(files)[i], files[i]))
  }

  /** The entry at each position is the entry of the path there. */
  lemma EntryAt(files: seq<string>, i: nat)
    requires i < |files|
    ensures EntryList(files)[i] == Entry(files[i])
  {
    DecodedAt(files, i);
  }

  /** The items of all entries, or the exception of the first entry that
      has none. */
  function Collect(entries: seq<Result<Item, GroupError>>): Result<seq<Item>, GroupError>
    decreases |entries|
  {
    if entries == [] then Ok([])
    else
      match Collect(entries[..|entries| - 1])
      case Err(e) => Err(e)
      case Ok(items) =>
        match entries[|entries| - 1]
        case Err(e) => Err(e)
        case Ok(it) => Ok(items + [it])
  }

  /** The value of a `DerivableBase`: its attributes and its variables. */
  datatype GroupState = GroupState(atts: map<string, string>, variables: map<string, string>)

  /** One pass of the loop: create the group of the key if it is new, then
      register the path under its variable. */
  function AddItem(m: map<string, GroupState>, it: Item): (r: map<string, GroupState>)
    ensures r.Keys == m.Keys + {it.key}
    ensures r[it.key].atts == if it.key in m then m[it.key].atts else it.atts
    ensures it.variable in r[it.key].variables && r[it.key].variables[it.variable] == it.path
  {
    var g := if it.key in m then m[it.key] else GroupState(it.atts, map[]);
    m[it.key := GroupState(g.atts, g.variables[it.variable := it.path])]
  }

  /** One pass of the loop changes no other group, and no other variable
      of the item's group. */
  lemma AddItemUnchanged(m: map<string, GroupState>, it: Item)
    ensures forall k :: k in m && k != it.key ==> AddItem(m, it)[k] == m[k]
    ensures var vs := AddItem(m, it)[it.key].variables;
      forall v :: v in vs && v != it.variable ==> it.key in m && v in m[it.key].variables && vs[v] == m[it.key].variables[v]
  {
  }

  /** The groups after the loop has run over `items`. */
  function GroupsOf(items: seq<Item>): (g: map<string, GroupState>)
    ensures forall k :: k in g ==> g[k].variables != map[]
    decreases |items|
  {
    if items == [] then map[] else AddItem(GroupsOf(items[..|items| - 1]), items[|items| - 1])
  }

  /** `group_files_by_model_set` as a value: the groups of the items of the
      paths, or the exception of the first path the loop fails on. */
  function Groups(files: seq<string>): (r: Result<map<string, GroupState>, GroupError>)
    ensures r.Ok? ==> forall k :: k in r.value ==> r.value[k].variables != map[]
    ensures files == [] ==> r == Ok(map[])
  {
    match Collect(EntryList(files))
    case Err(e) => Err(e)
    case Ok(items) => Ok(GroupsOf(items))
  }

  /** Each object of `sets` holds the group of its key. */
  ghost predicate Holds(sets: map<string, Variables.DerivableBase>, g: map<string, GroupState>)
    reads sets.Values
  {
    && sets.Keys == g.Keys
    && forall k :: k in sets ==> sets[k].atts == g[k].atts && sets[k].variables == g[k].variables
  }

  /** No object is the group of two keys. */
  ghost predicate Distinct(sets: map<string, Variables.DerivableBase>)
  {
    forall k1, k2 :: k1 in sets && k2 in sets && k1 != k2 ==> sets[k1] != sets[k2]
  }

  /** `group_files_by_model_set`: one new `DerivableBase` per key, each
      holding the group `Groups(files)` gives its key; or the exception of
      the first path the loop fails on. */
  method GroupFilesByModelSet(files: seq<string>) returns (r: Result<map<string, Variables.DerivableBase>, GroupError>)
    ensures r.Err? <==> Groups(files).Err?
    ensures r.Err? ==> r.error == Groups(files).error
    ensures r.Ok? ==> Holds(r.value, Groups(files).value)
    ensures r.Ok? ==> Distinct(r.value) && forall k :: k in r.value ==> fresh(r.value[k])
  {
    ghost var entries := EntryList(files);
    ghost var items: seq<Item> := [];
    var sets: map<string, Variables.DerivableBase> := map[];
    var i := 0;
    while i < |files|
      invariant 0 <= i <= |files|
      invariant Collect(entries[..i]) == Ok(items)
      invariant forall k :: k in sets ==> fresh(sets[k])
      invariant Distinct(sets) && Holds(sets, GroupsOf(items))
    {
      CollectStep(entries, i);
      var step := AddPath(sets, GroupsOf(items), files, i);
      if step.Err? {
        CollectErrPersists(entries, i + 1);
        return Err(step.error);
      }
      GroupsOfSnoc(items, entries[i].value);
      items := items + [entries[i].value];
      sets := step.value;
      i := i + 1;
    }
    assert entries[..i] == entries;
    return Ok(sets);
  }

  /** One pass of the loop: decode the path and build its key, raising if
      either fails, then register the path with its group. */
  method AddPath(sets: map<string, Variables.DerivableBase>, ghost g: map<string, GroupState>, files: seq<string>, i: nat)
    returns (r: Result<map<string, Variables.DerivableBase>, GroupError>)
    requires i < |files| && Distinct(sets) && Holds(sets, g)
    modifies sets.Values
    ensures r.Err? <==> EntryList(files)[i].Err?
    ensures r.Err? ==> r.error == EntryList(files)[i].error
    ensures r.Ok? ==> Distinct(r.value) && Holds(r.value, AddItem(g, EntryList(files)[i].value))
    ensures r.Ok? ==> forall k :: k in r.value ==> (k in sets && r.value[k] == sets[k]) || fresh(r.value[k])
  {
    var fp := files[i];
    EntryAt(files, i);
    match Cmip5.Decode(fp)
    case Err(e) =>
      return Err(Malformed(e));
    case Ok(cf) =>
      var key := Key(cf);
      if key.None? {
        return Err(NoTimeRangeEnd);
      }
      KwargsConstruct(cf);
      var sets' := Register(sets, g, Item(key.value, cf.variable, Kwargs(cf), fp));
      return Ok(sets');
  }

  /** The body of the loop for a path with an item: the group of its key
      is created when the key is new, and the path is added under its
      variable. */
  method Register(sets: map<string, Variables.DerivableBase>, ghost g: map<string, GroupState>, it: Item)
    returns (r: map<string, Variables.DerivableBase>)
    requires Distinct(sets) && Holds(sets, g)
    requires Variables.Construct(it.atts) == Ok(it.atts)
    modifies sets.Values
    ensures Distinct(r) && Holds(r, AddItem(g, it))
    ensures forall k :: k in r ==> (k in sets && r[k] == sets[k]) || fresh(r[k])
  {
    r := sets;
    if it.key !in sets {
      var created := Variables.DerivableBase.New(it.atts);
      r := sets[it.key := created.value];
    }
    r[it.key].AddBaseVariable(it.variable, it.path);
  }

  /** The items of one more entry. */
  lemma CollectStep(entries: seq<Result<Item, GroupError>>, i: nat)
    requires i < |entries| && Collect(entries[..i]).Ok?
    ensures Collect(entries[..i + 1]) ==
      match entries[i]
      case Err(e) => Err(e)
      case Ok(it) => Ok(Collect(entries[..i]).value + [it])
  {
    assert entries[..i + 1][..i] == entries[..i];
  }

  /** Once the loop has failed, later entries do not change the outcome. */
  lemma {:induction false} CollectErrPersists(entries: seq<Result<Item, GroupError>>, n: nat)
    requires n <= |entries| && Collect(entries[..n]).Err?
    ensures Collect(entries) == Collect(entries[..n])
    decreases |entries| - n
  {
    if n < |entries| {
      assert entries[..n + 1][..n] == entries[..n];
      CollectErrPersists(entries, n + 1);
    } else {
      assert entries[..n] == entries;
    }
  }

  /** The groups of one more item. */
  lemma GroupsOfSnoc(items: seq<Item>, it: Item)
    ensures GroupsOf(items + [it]) == AddItem(GroupsOf(items), it)
  {
    assert (items + [it])[..|items|] == items;
  }

  /** The keyword arguments of a record always satisfy `DerivableBase`, so
      constructing a group never fails. */
  lemma KwargsConstruct(cf: Cmip5.Cmip5File)
    ensures Variables.Construct(Kwargs(cf)) == Ok(Kwargs(cf))
  {
    assert Kwargs(cf) - {"variables"} == Kwargs(cf);
  }

  /** The loop gets through all entries exactly when each has an item,
      and then the items are those of the entries, in order. */
  lemma {:induction false} CollectOk(entries: seq<Result<Item, GroupError>>)
    ensures Collect(entries).Ok? <==> forall i :: 0 <= i < |entries| ==> entries[i].Ok?
    ensures Collect(entries).Ok? ==> |Collect(entries).value| == |entries|
    ensures Collect(entries).Ok? ==> forall i :: 0 <= i < |entries| ==> Collect(entries).value[i] == entries[i].value
    decreases |entries|
  {
    if entries != [] {
      var pre := entries[..|entries| - 1];
      CollectOk(pre);
      assert forall i :: 0 <= i < |pre| ==> pre[i] == entries[i];
    }
  }

  /** The loop fails with the exception of the first entry that has no
      item. */
  lemma CollectFirstError(entries: seq<Result<Item, GroupError>>, k: nat)
    requires k < |entries| && entries[k].Err?
    requires forall j :: 0 <= j < k ==> entries[j].Ok?
    ensures Collect(entries) == Err(entries[k].error)
  {
    CollectOk(entries[..k]);
    assert forall j :: 0 <= j < k ==> entries[..k][j] == entries[j];
    CollectStep(entries, k);
    CollectErrPersists(entries, k + 1);
  }

  /** The loop gets through all paths exactly when each decodes and has a
      `t_end`. */
  lemma GroupsOk(files: seq<string>)
    ensures Groups(files).Ok? <==> forall i :: 0 <= i < |files| ==> Entry(files[i]).Ok?
  {
    var entries := EntryList(files);
    forall i | 0 <= i < |files|
      ensures entries[i] == Entry(files[i])
    {
      EntryAt(files, i);
    }
    CollectOk(entries);
  }

  /** When the loop gets through, the groups are those of the paths'
      items, in order. */
  lemma GroupsItems(files: seq<string>)
    requires Groups(files).Ok?
    ensures exists items: seq<Item> ::
      && |items| == |files|
      && (forall i :: 0 <= i < |files| ==> Entry(files[i]) == Ok(items[i]))
      && Groups(files).value == GroupsOf(items)
  {
    var entries := EntryList(files);
    CollectOk(entries);
    var items := Collect(entries).value;
    forall i | 0 <= i < |files|
      ensures Entry(files[i]) == Ok(items[i])
    {
      EntryAt(files, i);
    }
  }

  /** With exactly one `-` in the time range, the key is
      `model_experiment_run_trange`. */
  lemma KeyOfTimeRange(cf: Cmip5.Cmip5File)
    requires multiset(cf.trange)['-'] == 1
    ensures Key(cf) == Some(cf.model + "_" + cf.experiment + "_" + cf.run + "_" + cf.trange)
  {
    Cmip5.TimeRangeRoundTrip(cf);
    var prefix := cf.model + "_" + cf.experiment + "_" + cf.run + "_";
    var s, e := Cmip5.TStart(cf), Cmip5.TEnd(cf).value;
    assert prefix + s + "-" + e == prefix + (s + "-" + e);
  }

  /** The keys of the result are exactly the keys of the items. */
  lemma {:induction false} GroupsOfKeys(items: seq<Item>)
    ensures forall k :: k in GroupsOf(items) <==> exists i :: 0 <= i < |items| && items[i].key == k
    decreases |items|
  {
    if items != [] {
      var pre := items[..|items| - 1];
      GroupsOfKeys(pre);
      assert forall i :: 0 <= i < |pre| ==> pre[i] == items[i];
      forall k | k in GroupsOf(items)
        ensures exists i :: 0 <= i < |items| && items[i].key == k
      {
        if k != items[|items| - 1].key {
          var i :| 0 <= i < |pre| && pre[i].key == k;
          assert items[i].key == k;
        }
      }
    }
  }

  /** The attributes of a group come from the first item of its key. */
  lemma {:induction false} GroupsOfAtts(items: seq<Item>, i: nat)
    requires i < |items|
    requires forall j :: 0 <= j < i ==> items[j].key != items[i].key
    ensures items[i].key in GroupsOf(items) && GroupsOf(items)[items[i].key].atts == items[i].atts
    decreases |items|
  {
    var pre := items[..|items| - 1];
    assert forall j :: 0 <= j < |pre| ==> pre[j] == items[j];
    if i == |items| - 1 {
      GroupsOfKeys(pre);
    } else {
      GroupsOfAtts(pre, i);
    }
  }

  /** A group holds a variable exactly when some item of its key is a file
      of that variable. */
  lemma {:induction false} GroupsOfVariables(items: seq<Item>, k: string, v: string)
    requires k in GroupsOf(items)
    ensures v in GroupsOf(items)[k].variables <==> exists i :: 0 <= i < |items| && items[i].key == k && items[i].variable == v
    decreases |items|
  {
    var pre := items[..|items| - 1];
    var x := items[|items| - 1];
    assert forall j :: 0 <= j < |pre| ==> pre[j] == items[j];
    if k in GroupsOf(pre) {
      GroupsOfVariables(pre, k, v);
    } else {
      GroupsOfKeys(pre);
    }
    if exists i :: 0 <= i < |items| && items[i].key == k && items[i].variable == v {
      var i :| 0 <= i < |items| && items[i].key == k && items[i].variable == v;
      if i < |pre| {
        assert pre[i].key == k && pre[i].variable == v;
      }
    }
  }

  /** A variable's file is the path of the last item of its key and
      variable: later items overwrite earlier ones. */
  lemma {:induction false} GroupsOfLastWrite(items: seq<Item>, i: nat)
    requires i < |items|
    requires forall j :: i < j < |items| ==> items[j].key != items[i].key || items[j].variable != items[i].variable
    ensures items[i].key in GroupsOf(items)
    ensures var vars := GroupsOf(items)[items[i].key].variables;
      items[i].variable in vars && vars[items[i].variable] == items[i].path
    decreases |items|
  {
    var pre := items[..|items| - 1];
    assert forall j :: 0 <= j < |pre| ==> pre[j] == items[j];
    if i < |items| - 1 {
      GroupsOfLastWrite(pre, i);
    }
  }
}
