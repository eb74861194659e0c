/** Base-variable groups and the variables derived from them: a
    `DerivableBase` collects, per CMIP5 variable name, the file that holds
    it; a derived variable (`tas`, `gdd`, `hdd`, `ffd`, `pas`) names the
    base variables it needs and refuses to run without them. */
module Variables {
  import opened Wrappers

  /** The attributes every `DerivableBase` must be given, in the order they
      are checked. */
  const RequiredAtts: seq<string> := ["model", "experiment", "ensemble_member", "temporal_subset"]

  /** The index of the first of `names` that is not a key of `kwargs`, if
      any. */
  function FirstMissingOf(names: seq<string>, kwargs: map<string, string>): (m: Option<nat>)
    ensures m.None? <==> forall i :: 0 <= i < |names| ==> names[i] in kwargs
    ensures m.Some? ==> m.value < |names| && names[m.value] !in kwargs
    ensures m.Some? ==> forall j :: 0 <= j < m.value ==> names[j] in kwargs
    decreases |names|
  {
    if names == [] then None
    else if names[0] !in kwargs then Some(0)
    else
      match FirstMissingOf(names[1..], kwargs)
      case None => None
      case Some(k) => Some(k + 1)
  }

  /** What `DerivableBase(**kwargs)` ends with: the first required
      attribute that is missing, which the raised `KeyError` names, or the
      attributes of the new object. Every keyword becomes an attribute,
      except that `variables` is then reset to an empty map. */
  function Construct(kwargs: map<string, string>): (r: Result<map<string, string>, string>)
    ensures r.Err? <==> exists i :: 0 <= i < |RequiredAtts| && RequiredAtts[i] !in kwargs
    ensures r.Err? ==> exists i :: 0 <= i < |RequiredAtts| && r.error == RequiredAtts[i] && r.error !in kwargs && (forall j :: 0 <= j < i ==> RequiredAtts[j] in kwargs)
    ensures r.Ok? ==> forall i :: 0 <= i < |RequiredAtts| ==> RequiredAtts[i] in r.value
    ensures r.Ok? ==> "variables" !in r.value && forall k :: k in kwargs && k != "variables" ==> k in r.value && r.value[k] == kwargs[k]
    ensures r.Ok? ==> r.value.Keys <= kwargs.Keys
  {
    match FirstMissingOf(RequiredAtts, kwargs)
    case Some(i) => Err(RequiredAtts[i])
    case None => Ok(kwargs - {"variables"})
  }

  /** A group of base variables. `atts` holds the attributes given at
      construction; `variables` maps each base variable name to the file
      that holds it. */
  class DerivableBase {
    var atts: map<string, string>
    var variables: map<string, string>

    /** The object the constructor leaves once its checks have passed:
        the given attributes, and no variables yet. */
    constructor (atts: map<string, string>)
      ensures this.atts == atts && variables == map[]
    {
      this.atts := atts;
      variables := map[];
    }

    /** `DerivableBase(**kwargs)`: pops the required attributes one by one,
        failing on the first that is missing, then stores the remaining
        keywords as they are and starts with no variables. */
    static method New(kwargs: map<string, string>) returns (r: Result<DerivableBase, string>)
      ensures r.Err? ==> Construct(kwargs) == Err(r.error)
      ensures r.Ok? ==> fresh(r.value) && Construct(kwargs) == Ok(r.value.atts) && r.value.variables == map[]
    {
      var rest := kwargs;
      var given: map<string, string> := map[];
      for k := 0 to |RequiredAtts|
        invariant forall j :: 0 <= j < k ==> RequiredAtts[j] in kwargs
        invariant given + rest == kwargs
        invariant forall j :: k <= j < |RequiredAtts| ==> (RequiredAtts[j] in rest <==> RequiredAtts[j] in kwargs)
      {
        var att := RequiredAtts[k];
        if att !in rest {
          return Err(att);
        }
        MoveKey(given, rest, att);
        given := given[att := rest[att]];
        rest := rest - {att};
      }
      var o := new DerivableBase((given + rest) - {"variables"});
      return Ok(o);
    }

    /** `add_base_variable`: records `datasetFp` as the file of `variable`,
        replacing any earlier one; nothing else changes. */
    method AddBaseVariable(variable: string, datasetFp: string)
      modifies this`variables
      ensures variables == old(variables)[variable := datasetFp]
      ensures atts == old(atts)
    {
      variables := variables[variable := datasetFp];
    }

    /** `derive_variable`: the (not yet run) derived variable of that name
        over this group's variables, or `None` for any other name. */
    function DeriveVariable(variable: string, outdir: string): (d: Option<DerivedVariable>)
      reads this
      ensures d.Some? <==> variable in DerivableNames
      ensures d.Some? ==> VariableName(d.value.kind) == variable
      ensures d.Some? ==> d.value.baseVariables == variables && d.value.outdir == outdir
    {
      if variable == "tas" then Some(DerivedVariable(Tas, variables, outdir))
      else if variable == "gdd" then Some(DerivedVariable(Gdd, variables, outdir))
      else if variable == "hdd" then Some(DerivedVariable(Hdd, variables, outdir))
      else if variable == "ffd" then Some(DerivedVariable(Ffd, variables, outdir))
      else if variable == "pas" then Some(DerivedVariable(Pas, variables, outdir))
      else None
    }
  }

  /** Moving one key from the second map to the first keeps their union. */
  lemma MoveKey(given: map<string, string>, rest: map<string, string>, att: string)
    requires att in rest
    ensures given[att := rest[att]] + (rest - {att}) == given + rest
  {
  }

  /** The derived variables: mean temperature, growing and heating degree
      days, frost-free days and precipitation as snow. */
  datatype Kind = Tas | Gdd | Hdd | Ffd | Pas

  /** The names `derive_variable` accepts. */
  const DerivableNames: set<string> := {"tas", "gdd", "hdd", "ffd", "pas"}

  /** The class attribute `variable_name`: one of the names
      `derive_variable` accepts. */
  function VariableName(k: Kind): (n: string)
    ensures n in DerivableNames
  {
    match k
    case Tas => "tas"
    case Gdd => "gdd"
    case Hdd => "hdd"
    case Ffd => "ffd"
    case Pas => "pas"
  }

  /** The class attribute `required_vars`. */
  function RequiredVars(k: Kind): seq<string>
  {
    match k
    case Tas => ["tasmax", "tasmin"]
    case Gdd => ["tasmax", "tasmin"]
    case Hdd => ["tasmax", "tasmin"]
    case Ffd => ["tasmin"]
    case Pas => ["tasmax", "pr"]
  }

  /** The class attribute `variable_atts`: the metadata written on the
      derived variable. */
  function VariableAtts(k: Kind): (atts: map<string, string>)
    ensures "units" in atts && "long_name" in atts
  {
    match k
    case Tas => map[
      "long_name" := "Near-Surface Air Temperature",
      "standard_name" := "air_temperature",
      "units" := "K",
      "cell_methods" := "time: mean",
      "cell_measures" := "area: areacella"]
    case Gdd => map["units" := "degree days", "long_name" := "Growing Degree Days"]
    case Hdd => map["units" := "degree days", "long_name" := "Heating Degree Days"]
    case Ffd => map["units" := "days", "long_name" := "Frost Free Days"]
    case Pas => map["units" := "mm", "long_name" := "Precip as snow"]
  }

  /** Whether every one of `names` is a key of `m`: the `all([...])` of
      `has_required_vars`. */
  function AllPresent(names: seq<string>, m: map<string, string>): (b: bool)
    ensures b <==> forall i :: 0 <= i < |names| ==> names[i] in m
    decreases |names|
  {
    if names == [] then true else names[0] in m && AllPresent(names[1..], m)
  }

  /** What calling a derived variable does before any numeric work: give
      up with status 1, or open the files of its required variables, in
      the order of `required_vars`. */
  datatype CallOutcome = ReturnsEarly(status: int) | Opens(paths: seq<string>)

  /** A derived variable, with the base-variable map it was given and the
      output directory. */
  datatype DerivedVariable = DerivedVariable(kind: Kind, baseVariables: map<string, string>, outdir: string)
  {
    /** `base_varname`: the base variable used as the template of the
        output file. */
    function BaseVarname(): (v: string)
      ensures v in RequiredVars(kind)
      ensures v == if kind == Ffd then "tasmin" else "tasmax"
    {
      RequiredVars(kind)[0]
    }

    /** `has_required_vars`: every required name has a file. */
    predicate HasRequiredVars(required: seq<string>)
      ensures HasRequiredVars(required) <==> forall i :: 0 <= i < |required| ==> required[i] in baseVariables
    {
      AllPresent(required, baseVariables)
    }

    /** The guard at the head of every `__call__`: status 1 exactly when a
        required base variable is missing; otherwise the required files
        are what is opened. */
    function Call(): (o: CallOutcome)
      ensures o.Opens? <==> forall i :: 0 <= i < |RequiredVars(kind)| ==> RequiredVars(kind)[i] in baseVariables
      ensures o.ReturnsEarly? ==> o.status == 1
      ensures o == ReturnsEarly(1) <==> exists i :: 0 <= i < |RequiredVars(kind)| && RequiredVars(kind)[i] !in baseVariables
      ensures o.Opens? ==> |o.paths| == |RequiredVars(kind)| && (forall i :: 0 <= i < |o.paths| ==> RequiredVars(kind)[i] in baseVariables && o.paths[i] == baseVariables[RequiredVars(kind)[i]])
    {
      var required := RequiredVars(kind);
      if !HasRequiredVars(required) then ReturnsEarly(1)
      else Opens(seq(|required|, i requires 0 <= i < |required| => baseVariables[required[i]]))
    }
  }

  /** The base variables each derived variable needs. */
  lemma RequiredBases(k: Kind)
    ensures k in {Tas, Gdd, Hdd} ==> RequiredVars(k) == ["tasmax", "tasmin"]
    ensures k == Ffd ==> RequiredVars(k) == ["tasmin"]
    ensures k == Pas ==> RequiredVars(k) == ["tasmax", "pr"]
  {
  }

  /** More base variables never make a derived variable give up where it
      did not before. */
  lemma {:induction false} HasRequiredVarsMonotone(required: seq<string>, m1: map<string, string>, m2: map<string, string>)
    requires m1.Keys <= m2.Keys
    ensures AllPresent(required, m1) ==> AllPresent(required, m2)
    decreases |required|
  {
    if required != [] {
      HasRequiredVarsMonotone(required[1..], m1, m2);
    }
  }

  /** A group given files for `tasmax` and `tasmin` can derive each of
      `tas`, `gdd`, `hdd` and `ffd`, and calling it opens those files;
      `pas` still gives up until `pr` is given as well. */
  lemma TemperaturesSuffice(variables: map<string, string>, tmax: string, tmin: string, outdir: string)
    ensures var m := variables["tasmax" := tmax]["tasmin" := tmin];
      && DerivedVariable(Tas, m, outdir).Call() == Opens([tmax, tmin])
      && DerivedVariable(Gdd, m, outdir).Call() == Opens([tmax, tmin])
      && DerivedVariable(Hdd, m, outdir).Call() == Opens([tmax, tmin])
      && DerivedVariable(Ffd, m, outdir).Call() == Opens([tmin])
      && ("pr" !in variables ==> DerivedVariable(Pas, m, outdir).Call() == ReturnsEarly(1))
  {
    var m := variables["tasmax" := tmax]["tasmin" := tmin];
    assert DerivedVariable(Tas, m, outdir).Call().paths == [tmax, tmin];
    assert DerivedVariable(Gdd, m, outdir).Call().paths == [tmax, tmin];
    assert DerivedVariable(Hdd, m, outdir).Call().paths == [tmax, tmin];
    assert DerivedVariable(Ffd, m, outdir).Call().paths == [tmin];
    if "pr" !in variables {
      assert "pr" !in m;
      assert !DerivedVariable(Pas, m, outdir).HasRequiredVars(["tasmax", "pr"]);
    }
  }
}
