# pyclimate core in Dafny

This project models the core of `pyclimate`, PCIC's toolkit for CMIP5 climate model output. The core is:

- the CMIP5 path codec `Cmip5File`;
- the package's `pcic12` selection of twelve model runs;
- the clause filter `Filter` and its own `pcic12` preset;
- the path helpers that select, stream and group model files;
- the `DerivableBase` groups of base variables and the derived variables they dispatch to;
- the cutting of a NetCDF time axis into monthly slices.

Each module follows one source file:

| module | models |
|---|---|
| `Wrappers` | `Option` and `Result` |
| `Text` | Python's `str.split`, `str.join` and `in` on strings |
| `PosixPath` | `os.path.split` and `os.path.join` on POSIX |
| `Cmip5` | `pyclimate/cmip5.py`: decoding a path into a record, and printing it back |
| `Pyclimate` | the `pcic12` list of `pyclimate/__init__.py` |
| `Filters` | `pyclimate/filters.py` |
| `Variables` | `pyclimate/variables.py`: `DerivableBase` as a class; the derived variables as values |
| `Paths` | `pyclimate/path.py` |
| `NcHelpers` | `get_monthly_time_slices` of `pyclimate/nchelpers.py` |

## How the parts are modelled

**The codec.** `Cmip5.Decode` follows `Cmip5File.__init__` step by step:

- It splits the path with `os.path.split`, then the directory on `/`.
- It unpacks the last nine pieces.
- It joins the pieces before them into `root`.
- It takes the last `_` token of the file name as `trange`.

The two exceptions the constructor can raise become `DecodeError`:

- `TooFewDirectories`: fewer than nine pieces to unpack.
- `NoRootComponents`: exactly nine pieces, so `os.path.join()` gets no argument.

`t_end` is an `Option`, because `split('-')[1]` raises when the range has no `-`. The round trip is proved in both directions:

- decoding what a well-formed record prints gives the record back;
- printing a decoded normalised path gives the path back, when its file name is the canonical one.

**Filters.** `Filters.Contains` is `Filter.__contains__`:

- OR over the clauses;
- AND within a clause;
- OR within a list value;
- Python's substring test for a string value, because `getattr(cf, att) in val` with `val` a string tests for a substring.

Attribute lookups go through `Filters.Attribute`:

- An unknown name makes its clause fail.
- `t_end` on a range without `-` raises, because Python 3's `hasattr` only swallows `AttributeError`.
- The `all([...])` list is built in full, so one raising pair raises the whole clause.

**Streaming.** `iter_matching_cmip5_file` is a generator, so `Paths.Yield` returns two things:

- the paths yielded before the generator stopped;
- the exception that stopped it, if any.

**Grouping.** `group_files_by_model_set` is a `method`, `Paths.GroupFilesByModelSet`:

- It loops over the paths.
- It creates one `Variables.DerivableBase` object per new key.
- It calls `AddBaseVariable` on the object of each path's key.

It is proved against the value-level fold `Paths.Groups`. Lemmas about that fold state:

- the keys;
- each group's attributes (from the first path of the key);
- the variables, where the last write wins.

**Monthly slices.** `NcHelpers.GetMonthlyTimeSlices` is a `method` with the source's loop, proved equal to `NcHelpers.MonthlySlices`. Lemmas show those slices are the unique partition of the axis into maximal runs of one month. The month of each time step is an input, standing in for `num2date(...).month`.

**Names.** `path.py` and `variables.py` read records through the `cfmeta` attribute names. Here they are the local codec's names:

- `institute` is `inst`;
- `frequency` is `freq`;
- `modeling_realm` is `realm`;
- `mip_table` is `mip`;
- `ensemble_member` is `run`;
- `version_number` is `version`;
- `temporal_subset` is `trange`;
- `variable_name` is `variable`.

**Behaviours worth knowing.**

- **Malformed paths while streaming.** `Cmip5File(fp)` raises inside `__contains__` on a malformed path, so the generator stops there. `Filters.Contains` states that a filter with clauses raises on a path that does not decode, and `Paths.MalformedStopsStream` proves that the stream then ends with that error, after the paths accepted before it.
- **Filter arguments.** `Filter.__init__` sets `self.filter` only for the name `'pcic12'`. Any other argument leaves the attribute unset, so the first membership test raises. `Filters.UnsetFilterRaises` and `Paths.UnsetFilterYieldsNothing` prove this.
- **File extensions.** The file name keeps its extension, so `trange` (and `t_end`) end with `.nc`. Printing the record back writes the same token, so the round trip needs no extension rule.
- **Unknown derived variables.** `derive_variable` returns `None` for an unknown name, and so does `Variables.DerivableBase.DeriveVariable`.
- **Missing required attributes.** `DerivableBase(**kwargs)` raises `KeyError` for the first missing required attribute, in the order `model`, `experiment`, `ensemble_member`, `temporal_subset`. Here the error carries that attribute name.

## Model

| member | source | states |
|---|---|---|
| Text.Split | pyclimate/cmip5.py:16 | `str.split` always gives at least one piece |
| Text.JoinSplit | pyclimate/cmip5.py:16-18 | joining the pieces of a split with the same separator gives the string back |
| Text.SplitJoin | pyclimate/cmip5.py:27-29 | splitting a join of pieces that do not contain the separator gives the pieces back |
| Text.SplitFirst | pyclimate/cmip5.py:40-42 | the first piece is a prefix ending just before the first separator; there is one piece exactly when the separator is absent |
| Text.SplitSecond | pyclimate/cmip5.py:48-50 | with the separator present there are at least two pieces, and the rest splits after the first separator |
| Text.SplitLast | pyclimate/cmip5.py:19 | the last piece is a suffix free of the separator, preceded by the separator when shorter than the string |
| Text.SplitTwo | pyclimate/cmip5.py:40-50 | `a + c + b` with `c` in neither splits into exactly `[a, b]` |
| Text.SplitPiecesFree | pyclimate/cmip5.py:16 | no piece of `str.split` contains the separator |
| PosixPath.RFind | pyclimate/cmip5.py:15 | the index of the last occurrence of the character, or -1 when there is none |
| PosixPath.RStripSlashes | pyclimate/cmip5.py:15 | a prefix that does not end in `/`, and only slashes were removed |
| PosixPath.Split | pyclimate/cmip5.py:15 | the file part is everything after the last slash and contains no slash |
| PosixPath.SplitDirFile | pyclimate/cmip5.py:15 | a slash-led directory without a trailing slash, a slash and a file name split back into those two |
| PosixPath.SplitRootFile | pyclimate/cmip5.py:15 | a file directly under `/` splits into `/` and the file name |
| PosixPath.JoinSegments | pyclimate/cmip5.py:18 | joining segments onto a path puts exactly one slash between parts |
| PosixPath.JoinFromEmpty | pyclimate/cmip5.py:18 | `os.path.join('', *segs)` is the segments joined by `/` |
| PosixPath.SplitNormalised | pyclimate/cmip5.py:15 | a normalised path is `/` plus its segments, and splits into the directory of all but the last segment and the last segment |
| PosixPath.SplitJoined | pyclimate/cmip5.py:36-38 | a path printed from directory segments and a file name splits back into those |
| PosixPath.JoinUnderRoot | pyclimate/cmip5.py:31-34 | `os.path.join('/', root, *segs)` with an empty or relative `root` |
| PosixPath.JoinRootSegments | pyclimate/cmip5.py:31-34 | joining a root made of segments gives `/` plus all the segments |
| PosixPath.JoinFile | pyclimate/cmip5.py:36-38 | joining a file name onto a slash-led directory appends it as one more segment |
| PosixPath.JoinAbsolute | pyclimate/cmip5.py:31-34 | `os.path.join` onto a path that starts with `/` gives a path that starts with `/` |
| PosixPath.JoinEndsWith | pyclimate/cmip5.py:31-38 | `os.path.join` of at least one part ends with its last part |
| Cmip5.Assign | pyclimate/cmip5.py:16-19 | succeeds exactly when there are at least ten pieces; the nine fields are the last nine pieces; `trange` is the last `_` token of the file name |
| Cmip5.LastToken | pyclimate/cmip5.py:19 | the last `_` token is a suffix without `_`, preceded by `_` when shorter than the name |
| Cmip5.TStart | pyclimate/cmip5.py:40-42 | a prefix of `trange` without `-`, followed by `-` when shorter |
| Cmip5.TEnd | pyclimate/cmip5.py:48-50 | absent exactly when `trange` has no `-`; otherwise free of `-`, `t_start-t_end` is a prefix of `trange`, and `t_end` runs up to the next `-` or to the end of `trange` |
| Cmip5.TimeRangeRoundTrip | pyclimate/cmip5.py:40-50 | with exactly one `-`, `t_start + '-' + t_end` is `trange` |
| Cmip5.Decode | pyclimate/cmip5.py:15-19 | on success none of the nine directory fields contains `/`, and `trange` is the last `_` token of the file part of `os.path.split` |
| Cmip5.Basename | pyclimate/cmip5.py:27-29 | the basename ends with `_` followed by `trange` |
| Cmip5.Dirname | pyclimate/cmip5.py:31-34 | the dirname starts with `/` and ends with the variable field |
| Cmip5.Fullpath | pyclimate/cmip5.py:36-38 | the fullpath starts with `/` and ends with the basename |
| Cmip5.FromSegments | pyclimate/cmip5.py:15-19 | on directory segments: success exactly with at least nine, and the fields are the last nine |
| Cmip5.DecodeNormalised | pyclimate/cmip5.py:15-19 | decoding a normalised path is `FromSegments` of its directory segments and its file name |
| Cmip5.SplitDirname | pyclimate/cmip5.py:16 | `dirname.split('/')` of a normalised directory is `['', *dirs]`, or `['', '']` for `/` |
| Cmip5.AssignSegments | pyclimate/cmip5.py:16-19 | assigning from the split of a normalised directory equals `FromSegments` |
| Cmip5.AssignLong | pyclimate/cmip5.py:17-18 | with nine or more directory segments the root is the leading segments joined by `/` |
| Cmip5.FileNameTokensIgnored | pyclimate/cmip5.py:19 | two paths with the same directory and the same last file name token decode alike; the other tokens are not checked |
| Cmip5.SameLastToken | pyclimate/cmip5.py:19 | only the last `_` token of the file name reaches the record |
| Cmip5.DirnameShape | pyclimate/cmip5.py:31-34 | the `dirname` of a well-formed record is `/` plus its root segments and its nine fields |
| Cmip5.BasenameShape | pyclimate/cmip5.py:27-29 | the `basename` is a path segment whose last `_` token is `trange` |
| Cmip5.FullpathShape | pyclimate/cmip5.py:36-38 | the `fullpath` is `/` plus root segments, fields and basename |
| Cmip5.DecodeFullpath | pyclimate/cmip5.py:15-38 | a record's `fullpath` is normalised and decodes to the record (encode, then decode, is the identity) |
| Cmip5.FromRecordSegments | pyclimate/cmip5.py:15-34 | the segments a record prints assign back to the record |
| Cmip5.RootOfSegments | pyclimate/cmip5.py:18 | the root joined from segments splits back into those segments |
| Cmip5.FromSegmentsWellFormed | pyclimate/cmip5.py:15-19 | a decoded record is well-formed, and its root segments are the leading directory segments |
| Cmip5.FullpathDecode | pyclimate/cmip5.py:15-38 | printing a decoded normalised path with a canonical file name gives the path back (decode, then encode, is the identity) |
| Cmip5.FullpathOfSegments | pyclimate/cmip5.py:27-38 | the record decoded from segments prints back to those segments |
| Pyclimate.Pcic12 | pyclimate/__init__.py:2-13 | twelve entries, each with exactly the keys `model` and `run` |
| Pyclimate.Pcic12ModelsDistinct | pyclimate/__init__.py:2-13 | no model is listed twice |
| Pyclimate.Pcic12Runs | pyclimate/__init__.py:2-13 | MPI-ESM-LR and MIROC5 run r3i1p1, CCSM4 r2i1p1, all others r1i1p1 |
| Filters.Attribute | pyclimate/filters.py:51 | the lookup is missing exactly for names that are not attributes of the record, and raises exactly for `t_end` on a range without `-` |
| Filters.PairHolds | pyclimate/filters.py:51 | an attribute value passes a pair exactly when it is a substring of a string value or a member of a list value |
| Filters.ClauseHolds | pyclimate/filters.py:51 | a clause holds only when it names record attributes alone and none of its lookups raises |
| Filters.EvalClause | pyclimate/filters.py:51 | the clause raises exactly when one of its lookups raises, and then only for `t_end` on a range without `-`; `True` only when every name is a record attribute |
| Filters.NewFilter | pyclimate/filters.py:39-41 | `self.filter` is set exactly for the argument `'pcic12'` |
| Filters.Contains | pyclimate/filters.py:43-54 | an unset filter raises; an empty one accepts; a filter with clauses raises the decoding error on a path that does not decode; a set filter raises only when the path does not decode or its `trange` has no `-`; it accepts a non-empty filter's path only when the path decodes and some clause holds |
| Filters.ContainsDecoded | pyclimate/filters.py:47-52 | for a non-empty filter, a path that decodes and no clause that raises on its record, the path is in the filter exactly when some clause holds for the record (OR over the clauses) |
| Filters.FirstMatch | pyclimate/filters.py:50-54 | `True` only when some clause holds |
| Filters.FirstMatchHolds | pyclimate/filters.py:50-54 | when no clause raises, the result is whether some clause holds (OR over the clauses) |
| Filters.FirstMatchRaises | pyclimate/filters.py:50-54 | the loop raises exactly when a raising clause is reached before any clause holds |
| Filters.RaisingClause | pyclimate/filters.py:50-54 | when the loop raises, there is a raising clause and every clause before it neither raises nor holds |
| Filters.RaisingClauseReached | pyclimate/filters.py:50-54 | a raising clause reached with no earlier clause holding or raising makes the loop raise |
| Filters.ClauseOrderIrrelevant | pyclimate/filters.py:50-54 | without raising clauses, reordering the clauses does not change the answer |
| Filters.MissingAttributeFails | pyclimate/filters.py:51 | a clause on a name the record lacks never holds |
| Filters.EmptyClauseHolds | pyclimate/filters.py:51 | an empty clause holds, because `all([])` is true |
| Filters.ValueAcceptsSubstrings | pyclimate/filters.py:51 | a string value accepts exactly the attributes that are substrings of it |
| Filters.SubstringQuirk | pyclimate/filters.py:51 | a clause on model `CanESM2` also accepts model `CanESM` |
| Filters.ExampleClause | pyclimate/filters.py:15-21 | the documented example clause, with the corrected model name `CanESM2` where the docstring writes `CanEMS2`, accepts a `CanESM2` record exactly with run r1i1p1 or r2i1p1 |
| Filters.Pcic12Filter | pyclimate/filters.py:57-68 | the preset has twelve clauses |
| Filters.PresetFilter | pyclimate/filters.py:39-41 | `Filter('pcic12')` holds the twelve preset clauses on `model`, `run` and `experiment`; each accepts all four experiments and has the same model and run as the package's `pcic12` |
| Filters.UnsetFilterRaises | pyclimate/filters.py:39-47 | any other argument leaves `self.filter` unset, so every membership test raises |
| Filters.EmptyFilterAcceptsAll | pyclimate/filters.py:47 | an empty filter accepts every path, even one that does not decode |
| Filters.PresetClauses | pyclimate/filters.py:57-68 | no preset clause raises, and each holds exactly when model, run and experiment match its line |
| Filters.PresetAccepts | pyclimate/filters.py:43-68 | for a path that decodes, the preset filter accepts exactly when the record's model, run and experiment are substrings of one preset line's model, run and one of its four experiments (so `CanESM` passes the `CanESM2` line) |
| Variables.FirstMissingOf | pyclimate/variables.py:39-44 | the first missing name, with every earlier name present; none exactly when all are present |
| Variables.Construct | pyclimate/variables.py:24-49 | fails exactly when a required attribute is missing, naming the first missing one; otherwise keeps every keyword but `variables` and includes all required attributes |
| Variables.DerivableBase.constructor | pyclimate/variables.py:39-49 | the new object holds the given attributes and no variables |
| Variables.DerivableBase.New | pyclimate/variables.py:26-49 | the required-attribute loop fails as `Construct` does; on success a fresh object holds `Construct`'s attributes and no variables |
| Variables.DerivableBase.AddBaseVariable | pyclimate/variables.py:51-61 | `variables` gains the path under the name, replacing an earlier one; the attributes are unchanged |
| Variables.DerivableBase.DeriveVariable | pyclimate/variables.py:63-88 | a derived variable exactly for `tas`, `gdd`, `hdd`, `ffd` and `pas`, of that name, over this group's variables and the output directory; `None` otherwise |
| Variables.AllPresent | pyclimate/variables.py:183-187 | true exactly when every required name is a key of the map |
| Variables.DerivedVariable.HasRequiredVars | pyclimate/variables.py:183-187 | true exactly when every required name is a base variable of the object |
| Variables.VariableName | pyclimate/variables.py:190-326 | each derived variable's name is one `derive_variable` dispatches on |
| Variables.VariableAtts | pyclimate/variables.py:190-326 | each derived variable's attributes include `units` and `long_name` |
| Variables.DerivedVariable.BaseVarname | pyclimate/variables.py:171-175 | the template variable is required, and is `tasmin` for `ffd` and `tasmax` for the others |
| Variables.DerivedVariable.Call | pyclimate/variables.py:204-212 | the call gives up only with status 1, and exactly when a required variable is missing; it opens files exactly when every required variable is present, and then the files are those of the required variables, in order (the same guard is at lines 237-245, 271-279, 305-310 and 335-343) |
| Variables.RequiredBases | pyclimate/variables.py:190-326 | `tas`, `gdd` and `hdd` need `tasmax` and `tasmin`; `ffd` needs `tasmin`; `pas` needs `tasmax` and `pr` |
| Variables.HasRequiredVarsMonotone | pyclimate/variables.py:183-187 | more base variables never make a derived variable give up where it did not before |
| Variables.TemperaturesSuffice | pyclimate/variables.py:204-212 | with `tasmax` and `tasmin` given, `tas`, `gdd`, `hdd` and `ffd` open their files; `pas` gives up without `pr` |
| Paths.ModelRunFilter | pyclimate/path.py:17-24 | raises exactly when the path does not decode |
| Paths.ModelRunFilterSegments | pyclimate/path.py:17-24 | on a normalised path with at least nine directories: true exactly when the eighth-last segment is a valid model and the third-last is one of its runs; with fewer it raises |
| Paths.Yield | pyclimate/path.py:32-34 | the generator runs to the end exactly when no test raises |
| Paths.Matching | pyclimate/path.py:27-34 | the stream with a built filter ends without error exactly when no test raises, and yields only accepted paths |
| Paths.IterMatchingCmip5File | pyclimate/path.py:27-34 | with any argument but `'pcic12'`, an empty input yields nothing and ends normally, and a non-empty one yields nothing and raises `FilterUnset` |
| Paths.YieldSubsequence | pyclimate/path.py:32-34 | whether or not the stream stops early, the yielded paths are a subsequence of the input, each one a path whose test was true |
| Paths.YieldExactly | pyclimate/path.py:32-34 | when nothing raises, the yielded paths are exactly the paths at the positions whose test was true, in increasing order, so each accepted occurrence is yielded once (duplicates included) |
| Paths.YieldStopsAtFirstError | pyclimate/path.py:32-34 | the first raising test ends the stream with its error, after the paths accepted before it |
| Paths.MalformedStopsStream | pyclimate/path.py:27-34 | with a filter that has clauses, the first path that does not decode, after paths whose tests did not raise, ends the stream with its decoding error, after the paths accepted before it |
| Paths.MatchingFilter | pyclimate/path.py:27-34 | for any filter: the output is an in-order subsequence of accepted paths; it ends without error exactly when no test raises; then it yields exactly the paths at the accepted positions, in order, one per accepted occurrence |
| Paths.UnsetFilterYieldsNothing | pyclimate/path.py:27-34 | with any argument but `'pcic12'`, a non-empty input yields nothing and raises |
| Paths.Key | pyclimate/path.py:42 | the key exists exactly when `trange` has a `-` (`t_end` raises otherwise) |
| Paths.KeyOfTimeRange | pyclimate/path.py:42 | with exactly one `-`, the key is `model_experiment_run_trange` |
| Paths.Entry | pyclimate/path.py:41-47 | a path has an item exactly when it decodes and has a `t_end`; the item's key is `Key` of the decoded record, its variable is the record's variable, its attributes are the nine keywords `Kwargs`, and it keeps the path |
| Paths.KwargsConstruct | pyclimate/path.py:45 | the keywords taken from a record always satisfy `DerivableBase`, so no group creation fails |
| Paths.AddItem | pyclimate/path.py:44-47 | the keys gain the item's key; a new key takes the item's attributes and an old one keeps its own; the item's variable maps to its path |
| Paths.AddItemUnchanged | pyclimate/path.py:44-47 | other keys, and other variables of the item's key, are unchanged |
| Paths.GroupsOf | pyclimate/path.py:40-47 | every group holds at least one variable |
| Paths.Groups | pyclimate/path.py:37-49 | every group holds at least one variable, and no paths give no groups |
| Paths.GroupFilesByModelSet | pyclimate/path.py:37-49 | fails exactly as `Groups` does, with the same error; otherwise one distinct fresh object per key, each holding that key's attributes and variables from `Groups` |
| Paths.AddPath | pyclimate/path.py:41-47 | one loop pass: raises exactly on a path without an item; otherwise the objects hold the groups with the path added |
| Paths.Register | pyclimate/path.py:44-47 | a new key gets a fresh object with the path's attributes; the key's object then records the path; objects stay distinct |
| Paths.CollectOk | pyclimate/path.py:40-47 | the loop gets through exactly when every path has an item, and then the items are the paths' items in order |
| Paths.CollectErrPersists | pyclimate/path.py:40-41 | once the loop has raised, later paths change nothing |
| Paths.CollectFirstError | pyclimate/path.py:40-42 | the loop raises the error of the first path without an item |
| Paths.GroupsOk | pyclimate/path.py:37-49 | grouping succeeds exactly when every path decodes and has a `t_end` |
| Paths.GroupsItems | pyclimate/path.py:37-49 | on success the groups are the fold of the paths' items, in order |
| Paths.GroupsOfKeys | pyclimate/path.py:44-45 | the keys of the result are exactly the keys of the items |
| Paths.GroupsOfAtts | pyclimate/path.py:44-45 | a group keeps the attributes of the first path with its key |
| Paths.GroupsOfVariables | pyclimate/path.py:47 | a group holds a variable exactly when some path of its key has that variable |
| Paths.GroupsOfLastWrite | pyclimate/path.py:47 | a variable's path is that of the last path of the key with that variable (last write wins) |
| NcHelpers.MonthlySlices | pyclimate/nchelpers.py:19-30 | at least one slice, and the last stops at the end of the axis |
| NcHelpers.FirstFailure | pyclimate/nchelpers.py:11-17 | the first failing assertion: no calendar, else no units, else more than one dimension |
| NcHelpers.GetMonthlyTimeSlices | pyclimate/nchelpers.py:7-32 | fails exactly when the calendar or units attribute is missing, the variable is not one-dimensional, or the axis is empty, with the first failing check; otherwise returns `MonthlySlices` of the months |
| NcHelpers.MonthlySlicesPartition | pyclimate/nchelpers.py:19-30 | the slices tile the axis from 0 without gaps, none is empty, each lies in one month, and each but the first starts at a change of month |
| NcHelpers.MonthlySlicesUnique | pyclimate/nchelpers.py:19-30 | any partition with those properties is `MonthlySlices` |
| NcHelpers.MonthlySlicesCount | pyclimate/nchelpers.py:24-30 | there is one slice more than there are changes of month |
| NcHelpers.StartsAreChanges | pyclimate/nchelpers.py:26-29 | a slice starts at a step exactly when its month differs from the step before |
| NcHelpers.Year360 | tests/test_nchelpers.py:21-24 | a year of days from the start of a 360-day calendar gives twelve slices of thirty |
| NcHelpers.Year360From15 | tests/test_nchelpers.py:43-46 | a year of days from day 15 gives `slice(0, 15)`, eleven slices of thirty, and `slice(345, 360)` |

## Left out

- `os.path.abspath` (cmip5.py line 15) is not modelled. `Cmip5.Decode` takes the path as given, and the codec lemmas require a normalised absolute path (`PosixPath.Normalised`), which `abspath` returns unchanged.
- The `t_start` and `t_end` setters are not modelled. Both call `str.join` with two arguments, so they always raise.
- `__str__` and `__repr__` of `Cmip5File` and `DerivedVariable` are not modelled (string formatting only). The `eval(repr(cf))` tests and `Cmip3File` are not part of this model.
- `iter_netcdf_files` walks a directory tree, which is I/O. The path helpers take the sequence of paths as input.
- `nc_copy_atts`, `nc_copy_dim` and `nc_copy_var` are not modelled: they copy NetCDF structure between files, all of it I/O.
- `get_output_file_path_from_base`, `get_output_netcdf_from_base` and the `outfp` property are not modelled. They use the external `cfmeta` codec (its `update` and `datanode_fp`) and write NetCDF files. `cfmeta` is not part of this model.
- The numeric body of each `__call__` (array arithmetic in floating point, writing the output file) is not modelled. `Variables.DerivedVariable.Call` stops at which files are opened. The base class's `__call__` is not modelled either: its `raise NotImplemented` raises `TypeError` in Python 3, because `NotImplemented` is not an exception.
- `warnings.warn` in `has_required_vars` and all logging are not modelled.
- `num2date` is not modelled: `NcHelpers.TimeVariable` carries the month of each step.
- The 365-day and standard-calendar slice tests depend on fixtures (`days_365`, `days_leap`) that are not part of this model. So do the filter-count tests of `tests/test_path.py`, which need `cmip5_file_list`.
- NcHelpers.Year360 and NcHelpers.Year360From15: these assume that the `tests/conftest.py` fixtures hold 360 daily steps, counted from the start of the year or from day 15 of it. The fixtures are not part of this model.
- `setup.py` and the `scripts/` directory are not modelled.
- Paths.Yield: the generator's laziness is not modelled. The value is everything the loop yields when it is driven to the end; a consumer that stops early is not represented.
- Paths.GroupFilesByModelSet: `path.py` decodes with the external `cfmeta.Cmip5File`. The model uses the local codec in its place, with its attribute names: `institute` is `inst`, `frequency` is `freq`, `modeling_realm` is `realm`, `mip_table` is `mip`, `ensemble_member` is `run`, `version_number` is `version`, `temporal_subset` is `trange` and `variable_name` is `variable`. Any difference in how `cfmeta` parses a path is not captured.
- Paths.ModelRunFilter: the values of `valid_model_runs` are modelled as sequences of runs, so `in` is membership. A plain string value would make `in` a substring test, which the model does not cover.
- Variables.DerivableBase.New: the `KeyError` message text is not modelled; the error carries the missing attribute's name.
- Variables.DerivableBase.DeriveVariable: in Python the derived variable shares the group's `variables` dict by reference. The model hands over a snapshot, so it does not show that a later `add_base_variable` on the group is seen by a variable already derived.
- Variables.DerivableBase.New: attributes are modelled as a string-to-string map. Python's `setattr` could also overwrite a method such as `add_base_variable` with a keyword of that name; the model does not capture this.
- Paths.Groups: `model_sets` is a `defaultdict(dict)`, so in Python reading a missing key afterwards gives (and inserts) an empty `dict`. The model's map simply has no such key.
- Filters.AttributeNames: it lists the record's data attributes and properties only. Python's `hasattr` is also true for dunder and method attributes, and the model treats all of those names as missing. For most of them, such as `__class__`, `__dict__`, `__doc__` (which is `None`) or `__str__`, a string value in the pair makes `in` raise `TypeError`, while a list value just fails. `__module__` is the string `'pyclimate.cmip5'`, so it is compared normally: `{'__module__': 'pyclimate.cmip5'}` holds in Python, but the model does not accept it.
