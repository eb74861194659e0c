/** `Filter`: a list of clauses matched against the record decoded from a
    path. A path is accepted when some clause holds (OR over the list);
    a clause holds when every one of its pairs holds (AND within the
    dictionary); a pair whose accepted value is a list holds when the
    record's attribute is one of the list (OR within the value). */
module Filters {
  import opened Wrappers
  import Text
  import Cmip5
  import Pyclimate

  /** The value a clause accepts for an attribute: a single string or a
      list of strings. */
  datatype Accepted = Value(s: string) | OneOf(values: seq<string>)

  /** One dictionary of a filter. */
  type Clause = map<string, Accepted>

  /** A filter: the list of its dictionaries. */
  type Spec = seq<Clause>

  /** What `hasattr` and `getattr` find on a decoded record: nothing, a
      string, or an exception other than `AttributeError` (the `t_end`
      property raises `IndexError` when `trange` has no `-`, and `hasattr`
      lets that through). */
  datatype Lookup = Missing | Present(value: string) | Raises

  /** The ways a membership test fails: the filter attribute was never
      set, the path does not decode, or a clause reads `t_end` of a record
      that has none. */
  datatype FilterError = FilterUnset | Malformed(error: Cmip5.DecodeError) | NoTimeRangeEnd

  /** The attributes and properties of a decoded record. */
  const AttributeNames: set<string> := {
    "root", "inst", "model", "experiment", "freq", "realm", "mip", "run",
    "version", "variable", "trange", "basename", "dirname", "fullpath",
    "t_start", "t_end"}

  /** `getattr(cf, name)`, guarded by `hasattr(cf, name)`. */
  function Attribute(r: Cmip5.Cmip5File, name: string): (l: Lookup)
    ensures l.Missing? <==> name !in AttributeNames
    ensures l.Raises? <==> name == "t_end" && '-' !in r.trange
  {
    if name == "root" then Present(r.root)
    else if name == "inst" then Present(r.inst)
    else if name == "model" then Present(r.model)
    else if name == "experiment" then Present(r.experiment)
    else if name == "freq" then Present(r.freq)
    else if name == "realm" then Present(r.realm)
    else if name == "mip" then Present(r.mip)
    else if name == "run" then Present(r.run)
    else if name == "version" then Present(r.version)
    else if name == "variable" then Present(r.variable)
    else if name == "trange" then Present(r.trange)
    else if name == "basename" then Present(Cmip5.Basename(r))
    else if name == "dirname" then Present(Cmip5.Dirname(r))
    else if name == "fullpath" then Present(Cmip5.Fullpath(r))
    else if name == "t_start" then Present(Cmip5.TStart(r))
    else if name == "t_end" then
      match Cmip5.TEnd(r)
      case Some(e) => Present(e)
      case None => Raises
    else Missing
  }

  /** `getattr(cf, att) == val or getattr(cf, att) in val`: equality or,
      for a string, Python's substring test; membership for a list. */
  predicate PairHolds(v: string, a: Accepted)
    ensures PairHolds(v, a) <==> (a.Value? && Text.Substring(v, a.s)) || (a.OneOf? && v in a.values)
  {
    assert Text.Substring(v, v);
    match a
    case Value(s) => v == s || Text.Substring(v, s)
    case OneOf(xs) => v in xs
  }

  /** Every pair of the clause names an attribute the record has, with a
      value the pair accepts. */
  predicate ClauseHolds(r: Cmip5.Cmip5File, c: Clause)
    ensures ClauseHolds(r, c) ==> c.Keys <= AttributeNames && !ClauseRaises(r, c)
  {
    forall att :: att in c ==> Attribute(r, att).Present? && PairHolds(Attribute(r, att).value, c[att])
  }

  /** Some pair of the clause raises when it is looked up. */
  predicate ClauseRaises(r: Cmip5.Cmip5File, c: Clause)
  {
    exists att :: att in c && Attribute(r, att).Raises?
  }

  /** The `all([...])` of one clause. The list is built in full before
      `all` looks at it, so a pair that raises raises whatever the other
      pairs give. */
  function EvalClause(r: Cmip5.Cmip5File, c: Clause): (res: Result<bool, FilterError>)
    ensures res.Err? <==> ClauseRaises(r, c)
    ensures res.Err? ==> res.error == NoTimeRangeEnd && "t_end" in c && '-' !in r.trange
    ensures res == Ok(true) ==> c.Keys <= AttributeNames
  {
    if ClauseRaises(r, c) then Err(NoTimeRangeEnd) else Ok(ClauseHolds(r, c))
  }

  /** The loop over the clauses: the first clause that holds returns
      `True`, a clause that raises ends the loop with its error, and
      running out of clauses returns `False`. */
  function FirstMatch(spec: Spec, r: Cmip5.Cmip5File): (res: Result<bool, FilterError>)
    ensures res == Ok(true) ==> exists i :: 0 <= i < |spec| && ClauseHolds(r, spec[i])
    ensures res.Err? ==> res.error == NoTimeRangeEnd && '-' !in r.trange
    decreases |spec|
  {
    if spec == [] then Ok(false)
    else
      match EvalClause(r, spec[0])
      case Err(e) => Err(e)
      case Ok(true) => Ok(true)
      case Ok(false) => FirstMatch(spec[1..], r)
  }

  /** A constructed `Filter`: `None` when `self.filter` was never set. */
  datatype Filter = Filter(filter: Option<Spec>)

  /** What `Filter(...)` can be given: no argument, a name, or a literal
      list of clauses. */
  datatype FilterArg = NoArg | Name(name: string) | Clauses(spec: Spec)

  /** `Filter.__init__`: only the name `'pcic12'` sets `self.filter`. */
  function NewFilter(arg: FilterArg): (f: Filter)
    ensures f.filter.Some? <==> arg == Name("pcic12")
  {
    if arg == Name("pcic12") then Filter(Some(Pcic12Filter())) else Filter(None)
  }

  /** `fp in f`, that is `Filter.__contains__`. An empty filter accepts
      without decoding the path. */
  function Contains(f: Filter, fp: string): (res: Result<bool, FilterError>)
    ensures f.filter.None? ==> res == Err(FilterUnset)
    ensures f.filter == Some([]) ==> res == Ok(true)
    ensures f.filter.Some? && f.filter.value != [] && Cmip5.Decode(fp).Err? ==> res == Err(Malformed(Cmip5.Decode(fp).error))
    ensures f.filter.Some? && res.Err? ==> Cmip5.Decode(fp).Err? || '-' !in Cmip5.Decode(fp).value.trange
    ensures f.filter.Some? && f.filter.value != [] && res == Ok(true) ==>
      Cmip5.Decode(fp).Ok? && exists i :: 0 <= i < |f.filter.value| && ClauseHolds(Cmip5.Decode(fp).value, f.filter.value[i])
  {
    match f.filter
    case None => Err(FilterUnset)
    case Some(spec) =>
      if spec == [] then Ok(true)
      else
        match Cmip5.Decode(fp)
        case Err(e) => Err(Malformed(e))
        case Ok(r) => FirstMatch(spec, r)
  }

  /** The lines of the preset text of `filters.pcic12`, each split on
      whitespace: a model, its run, then the experiments. */
  const Pcic12FilterLines: seq<seq<string>> := [
    ["MPI-ESM-LR", "r3i1p1", "historical", "rcp26", "rcp45", "rcp85"],
    ["inmcm4", "r1i1p1", "historical", "rcp26", "rcp45", "rcp85"],
    ["HadGEM2-ES", "r1i1p1", "historical", "rcp26", "rcp45", "rcp85"],
    ["CanESM2", "r1i1p1", "historical", "rcp26", "rcp45", "rcp85"],
    ["MIROC5", "r3i1p1", "historical", "rcp26", "rcp45", "rcp85"],
    ["CSIRO-Mk3-6-0", "r1i1p1", "historical", "rcp26", "rcp45", "rcp85"],
    ["MRI-CGCM3", "r1i1p1", "historical", "rcp26", "rcp45", "rcp85"],
    ["ACCESS1-0", "r1i1p1", "historical", "rcp26", "rcp45", "rcp85"],
    ["CNRM-CM5", "r1i1p1", "historical", "rcp26", "rcp45", "rcp85"],
    ["CCSM4", "r2i1p1", "historical", "rcp26", "rcp45", "rcp85"],
    ["HadGEM2-CC", "r1i1p1", "historical", "rcp26", "rcp45", "rcp85"],
    ["GFDL-ESM2G", "r1i1p1", "historical", "rcp26", "rcp45", "rcp85"]
  ]

  /** `filters.pcic12`: per line, the first word as `model`, the second as
      `run` and the rest, as a list, as `experiment`. */
  function Pcic12Filter(): (spec: Spec)
    ensures |spec| == 12
  {
    seq(|Pcic12FilterLines|, i requires 0 <= i < |Pcic12FilterLines| =>
      var w := Pcic12FilterLines[i];
      map["model" := Value(w[0]), "run" := Value(w[1]), "experiment" := OneOf(w[2..])])
  }

  /** The experiments every preset clause accepts. */
  const Experiments: seq<string> := ["historical", "rcp26", "rcp45", "rcp85"]

  /** `Filter('pcic12')` holds twelve clauses, each on `model`, `run` and
      `experiment`, all four experiments in every one, and the same
      (model, run) pairs as the package's `pcic12`. */
  lemma PresetFilter()
    ensures NewFilter(Name("pcic12")).filter == Some(Pcic12Filter())
    ensures |Pcic12Filter()| == |Pyclimate.Pcic12()| == 12
    ensures forall i :: 0 <= i < 12 ==>
      && Pcic12Filter()[i].Keys == {"model", "run", "experiment"}
      && Pcic12Filter()[i]["experiment"] == OneOf(Experiments)
      && Pcic12Filter()[i]["model"] == Value(Pyclimate.Pcic12()[i]["model"])
      && Pcic12Filter()[i]["run"] == Value(Pyclimate.Pcic12()[i]["run"])
  {
  }

  /** Every argument but `'pcic12'` (no argument, another name, or a
      literal list of clauses) leaves the filter unset, so testing any path
      against it raises. */
  lemma UnsetFilterRaises(arg: FilterArg, fp: string)
    requires arg != Name("pcic12")
    ensures Contains(NewFilter(arg), fp) == Err(FilterUnset)
  {
  }

  /** An empty filter accepts every path, even one that does not decode. */
  lemma EmptyFilterAcceptsAll(fp: string)
    ensures Contains(Filter(Some([])), fp) == Ok(true)
  {
  }

  /** When no clause raises, the loop returns whether some clause holds. */
  lemma {:induction false} FirstMatchHolds(spec: Spec, r: Cmip5.Cmip5File)
    requires forall i :: 0 <= i < |spec| ==> !ClauseRaises(r, spec[i])
    ensures FirstMatch(spec, r) == Ok(exists i :: 0 <= i < |spec| && ClauseHolds(r, spec[i]))
    decreases |spec|
  {
    if spec != [] {
      FirstMatchHolds(spec[1..], r);
      if !ClauseHolds(r, spec[0]) {
        assert forall i :: 1 <= i < |spec| ==> spec[i] == spec[1..][i - 1];
      }
    }
  }

  /** The loop fails exactly when a clause that raises is reached before
      any clause holds. */
  lemma FirstMatchRaises(spec: Spec, r: Cmip5.Cmip5File)
    ensures FirstMatch(spec, r).Err? <==>
      exists i :: 0 <= i < |spec| && ClauseRaises(r, spec[i]) &&
        forall j :: 0 <= j < i ==> !ClauseRaises(r, spec[j]) && !ClauseHolds(r, spec[j])
  {
    if FirstMatch(spec, r).Err? {
      var i := RaisingClause(spec, r);
    }
    forall i | 0 <= i < |spec| && ClauseRaises(r, spec[i]) &&
        forall j :: 0 <= j < i ==> !ClauseRaises(r, spec[j]) && !ClauseHolds(r, spec[j])
      ensures FirstMatch(spec, r).Err?
    {
      RaisingClauseReached(spec, r, i);
    }
  }

  /** A loop that fails has reached a clause that raises, past clauses
      that neither raise nor hold. */
  lemma {:induction false} RaisingClause(spec: Spec, r: Cmip5.Cmip5File) returns (i: nat)
    requires FirstMatch(spec, r).Err?
    ensures i < |spec| && ClauseRaises(r, spec[i])
    ensures forall j :: 0 <= j < i ==> !ClauseRaises(r, spec[j]) && !ClauseHolds(r, spec[j])
    decreases |spec|
  {
    if EvalClause(r, spec[0]).Err? {
      i := 0;
    } else {
      var k := RaisingClause(spec[1..], r);
      i := k + 1;
      forall j | 0 <= j < i
        ensures !ClauseRaises(r, spec[j]) && !ClauseHolds(r, spec[j])
      {
        if j > 0 { assert spec[j] == spec[1..][j - 1]; }
      }
      assert spec[i] == spec[1..][k];
    }
  }

  /** A clause that raises, reached past clauses that neither raise nor
      hold, makes the loop fail. */
  lemma {:induction false} RaisingClauseReached(spec: Spec, r: Cmip5.Cmip5File, i: nat)
    requires i < |spec| && ClauseRaises(r, spec[i])
    requires forall j :: 0 <= j < i ==> !ClauseRaises(r, spec[j]) && !ClauseHolds(r, spec[j])
    ensures FirstMatch(spec, r).Err?
    decreases i
  {
    if i > 0 {
      assert EvalClause(r, spec[0]) == Ok(false);
      assert forall j :: 0 <= j < i - 1 ==> spec[1..][j] == spec[j + 1];
      RaisingClauseReached(spec[1..], r, i - 1);
    }
  }

  /** When no clause raises, the order of the clauses does not change the
      answer. */
  lemma ClauseOrderIrrelevant(s1: Spec, s2: Spec, r: Cmip5.Cmip5File)
    requires multiset(s1) == multiset(s2)
    requires forall i :: 0 <= i < |s1| ==> !ClauseRaises(r, s1[i])
    ensures FirstMatch(s1, r) == FirstMatch(s2, r)
  {
    assert forall c :: c in s1 <==> c in s2 by {
      forall c ensures c in s1 <==> c in s2 {
        assert c in s1 <==> c in multiset(s1);
        assert c in s2 <==> c in multiset(s2);
      }
    }
    assert forall i :: 0 <= i < |s2| ==> !ClauseRaises(r, s2[i]) by {
      forall i | 0 <= i < |s2| ensures !ClauseRaises(r, s2[i]) {
        assert s2[i] in s1;
      }
    }
    FirstMatchHolds(s1, r);
    FirstMatchHolds(s2, r);
    if exists i :: 0 <= i < |s1| && ClauseHolds(r, s1[i]) {
      var i :| 0 <= i < |s1| && ClauseHolds(r, s1[i]);
      assert s1[i] in s2;
    }
    if exists i :: 0 <= i < |s2| && ClauseHolds(r, s2[i]) {
      var i :| 0 <= i < |s2| && ClauseHolds(r, s2[i]);
      assert s2[i] in s1;
    }
  }

  /** A pair on an attribute the record does not have makes its clause
      fail; the lookup itself does not raise. */
  lemma MissingAttributeFails(r: Cmip5.Cmip5File, c: Clause, att: string)
    requires att in c && att !in AttributeNames
    ensures !ClauseHolds(r, c)
    ensures Attribute(r, att) == Missing
    ensures EvalClause(r, c) != Ok(true)
  {
  }

  /** A clause with no pairs holds for every record. */
  lemma EmptyClauseHolds(r: Cmip5.Cmip5File)
    ensures EvalClause(r, map[]) == Ok(true)
  {
  }

  /** A single accepted string accepts exactly its substrings: equality is
      a special case of Python's `in` on strings. */
  lemma ValueAcceptsSubstrings(v: string, s: string)
    ensures PairHolds(v, Value(s)) <==> Text.Substring(v, s)
  {
    assert Text.Substring(s, s);
  }

  /** The substring quirk: a record whose model is `CanESM` (no such
      model) passes a clause asking for `CanESM2`. */
  lemma SubstringQuirk(r: Cmip5.Cmip5File)
    requires r.model == "CanESM"
    ensures ClauseHolds(r, map["model" := Value("CanESM2")])
  {
    assert "CanESM" <= "CanESM2";
  }

  /** The example clause `{model: CanESM2, run: [r1i1p1, r2i1p1]}`: a
      CanESM2 record passes when its run is one of the two, so r1i1p1
      passes and r3i1p1 does not. */
  lemma ExampleClause(r: Cmip5.Cmip5File)
    requires r.model == "CanESM2"
    ensures var c := map["model" := Value("CanESM2"), "run" := OneOf(["r1i1p1", "r2i1p1"])];
      && (ClauseHolds(r, c) <==> r.run in ["r1i1p1", "r2i1p1"])
      && (r.run == "r1i1p1" ==> ClauseHolds(r, c))
      && (r.run == "r3i1p1" ==> !ClauseHolds(r, c))
  {
    var c := map["model" := Value("CanESM2"), "run" := OneOf(["r1i1p1", "r2i1p1"])];
    assert Text.Substring("CanESM2", "CanESM2");
    assert c.Keys == {"model", "run"};
  }

  /** What the preset accepts of a path that decodes: the preset never
      raises, and a record passes when, for some (model, run) pair of the
      package's `pcic12`, its model and run are substrings of that pair's
      and its experiment is one of the four. */
  lemma PresetAccepts(fp: string)
    requires Cmip5.Decode(fp).Ok?
    ensures Contains(NewFilter(Name("pcic12")), fp) == Ok(PresetSelects(Cmip5.Decode(fp).value))
  {
    var r := Cmip5.Decode(fp).value;
    PresetClauses(r);
    ContainsDecoded(NewFilter(Name("pcic12")), fp);
  }

  /** A filter with clauses, a path that decodes and no raising clause:
      the path is in the filter exactly when some clause holds for its
      record (OR over the clauses). */
  lemma ContainsDecoded(f: Filter, fp: string)
    requires f.filter.Some? && f.filter.value != [] && Cmip5.Decode(fp).Ok?
    requires forall i :: 0 <= i < |f.filter.value| ==> !ClauseRaises(Cmip5.Decode(fp).value, f.filter.value[i])
    ensures Contains(f, fp) == Ok(exists i :: 0 <= i < |f.filter.value| && ClauseHolds(Cmip5.Decode(fp).value, f.filter.value[i]))
  {
    FirstMatchHolds(f.filter.value, Cmip5.Decode(fp).value);
  }

  /** Some (model, run) pair of `pcic12` has the record's model and run as
      substrings, and the record's experiment is one of the four. */
  predicate PresetSelects(r: Cmip5.Cmip5File)
  {
    exists i :: 0 <= i < |Pyclimate.Pcic12()| && PresetLineSelects(r, Pyclimate.Pcic12()[i])
  }

  /** One (model, run) pair of `pcic12` accepts the record. */
  predicate PresetLineSelects(r: Cmip5.Cmip5File, pair: map<string, string>)
    requires pair.Keys == {"model", "run"}
  {
    Text.Substring(r.model, pair["model"]) && Text.Substring(r.run, pair["run"]) && r.experiment in Experiments
  }

  /** No preset clause raises, and each holds exactly when its (model,
      run) pair accepts the record. */
  lemma PresetClauses(r: Cmip5.Cmip5File)
    ensures forall i :: 0 <= i < 12 ==> !ClauseRaises(r, Pcic12Filter()[i])
    ensures forall i :: 0 <= i < 12 ==>
      (ClauseHolds(r, Pcic12Filter()[i]) <==> PresetLineSelects(r, Pyclimate.Pcic12()[i]))
  {
    PresetFilter();
    forall i | 0 <= i < 12
      ensures !ClauseRaises(r, Pcic12Filter()[i])
      ensures ClauseHolds(r, Pcic12Filter()[i]) <==> PresetLineSelects(r, Pyclimate.Pcic12()[i])
    {
      var c := Pcic12Filter()[i];
      var p := Pyclimate.Pcic12()[i];
      ValueAcceptsSubstrings(r.model, p["model"]);
      ValueAcceptsSubstrings(r.run, p["run"]);
    }
  }
}
