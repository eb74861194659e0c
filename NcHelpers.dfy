/** `get_monthly_time_slices`: cutting a time axis into the maximal runs
    of consecutive steps that fall in the same calendar month. The
    conversion of each time value to a date under the variable's units and
    calendar is taken as given: the model receives the month of each
    step. */
module NcHelpers {
  import opened Wrappers

  /** A time variable as the slicing sees it: the names of its attributes,
      its number of dimensions, and the month of each of its steps. */
  datatype TimeVariable = TimeVariable(ncattrs: set<string>, dimensions: nat, months: seq<int>)

  /** The assertions that reject a time variable, and the `IndexError` of
      reading the first step of an empty axis. */
  datatype SliceError = NoCalendar | NoUnits | NotOneDimensional | EmptyAxis

  /** `slice(start, stop)`: the steps `start` up to, not including, `stop`. */
  datatype Slice = Slice(start: nat, stop: nat)

  /** The monthly slices of a non-empty axis, built one step at a time: a
      step in the month of the one before extends the last slice, any
      other step opens a new one. */
  function MonthlySlices(months: seq<int>): (s: seq<Slice>)
    requires |months| >= 1
    ensures |s| >= 1 && s[|s| - 1].stop == |months|
    decreases |months|
  {
    if |months| == 1 then [Slice(0, 1)]
    else
      var n := |months| - 1;
      var s := MonthlySlices(months[..n]);
      if months[n] == months[n - 1] then s[..|s| - 1] + [Slice(s[|s| - 1].start, n + 1)]
      else s + [Slice(n, n + 1)]
  }

  /** The slices tile `0..n`: the first starts at 0, each starts where the
      one before stops, the last stops at `n`, and none is empty. */
  predicate Tiles(s: seq<Slice>, n: nat)
  {
    && |s| >= 1 && s[0].start == 0 && s[|s| - 1].stop == n
    && (forall k :: 0 <= k < |s| ==> s[k].start < s[k].stop <= n)
    && (forall k :: 0 <= k < |s| - 1 ==> s[k].stop == s[k + 1].start)
  }

  /** All steps of a slice share the month of its first step. */
  predicate Uniform(months: seq<int>, s: seq<Slice>)
    requires forall k :: 0 <= k < |s| ==> s[k].start < s[k].stop <= |months|
  {
    forall k, j :: 0 <= k < |s| && s[k].start <= j < s[k].stop ==> months[j] == months[s[k].start]
  }

  /** Every slice but the first starts at a change of month. */
  predicate Maximal(months: seq<int>, s: seq<Slice>)
    requires forall k :: 0 <= k < |s| ==> s[k].start < s[k].stop <= |months|
  {
    forall k :: 1 <= k < |s| ==> 0 < s[k].start && months[s[k].start] != months[s[k].start - 1]
  }

  /** The slices are the maximal runs of equal month. */
  predicate IsMonthlyPartition(months: seq<int>, s: seq<Slice>)
  {
    Tiles(s, |months|) && Uniform(months, s) && Maximal(months, s)
  }

  /** The number of steps whose month differs from the step before. */
  function Changes(months: seq<int>): nat
    decreases |months|
  {
    if |months| <= 1 then 0
    else
      var n := |months| - 1;
      Changes(months[..n]) + (if months[n] != months[n - 1] then 1 else 0)
  }

  /** The first of the checks, in order, that the variable fails. */
  function FirstFailure(t: TimeVariable): (e: SliceError)
    ensures e == NoCalendar <==> "calendar" !in t.ncattrs
    ensures e == NoUnits <==> "calendar" in t.ncattrs && "units" !in t.ncattrs
    ensures e == NotOneDimensional <==> "calendar" in t.ncattrs && "units" in t.ncattrs && t.dimensions != 1
  {
    if "calendar" !in t.ncattrs then NoCalendar
    else if "units" !in t.ncattrs then NoUnits
    else if t.dimensions != 1 then NotOneDimensional
    else EmptyAxis
  }

  /** `get_monthly_time_slices`: the checks in order, then one pass over
      the steps with the start and month of the current slice; the last
      slice is closed after the loop. */
  method GetMonthlyTimeSlices(t: TimeVariable) returns (r: Result<seq<Slice>, SliceError>)
    ensures r.Err? <==> "calendar" !in t.ncattrs || "units" !in t.ncattrs || t.dimensions != 1 || t.months == []
    ensures r.Err? ==> r.error == FirstFailure(t)
    ensures r.Ok? ==> r.value == MonthlySlices(t.months)
  {
    if "calendar" !in t.ncattrs {
      return Err(NoCalendar);
    }
    if "units" !in t.ncattrs {
      return Err(NoUnits);
    }
    if t.dimensions != 1 {
      return Err(NotOneDimensional);
    }
    if |t.months| == 0 {
      return Err(EmptyAxis);
    }
    var months := t.months;
    var slices: seq<Slice> := [];
    var currentMonth := months[0];
    var tStart := 0;
    for i := 0 to |months|
      invariant i == 0 ==> slices == [] && tStart == 0 && currentMonth == months[0]
      invariant i >= 1 ==> tStart < i && currentMonth == months[i - 1]
      invariant i >= 1 ==> slices + [Slice(tStart, i)] == MonthlySlices(months[..i])
    {
      if i >= 1 {
        assert months[..i + 1][..i] == months[..i];
      }
      if months[i] != currentMonth {
        slices := slices + [Slice(tStart, i)];
        tStart := i;
        currentMonth := months[i];
      }
    }
    var last := |months| - 1;
    slices := slices + [Slice(tStart, last + 1)];
    assert months[..|months|] == months;
    return Ok(slices);
  }

  /** The slices the loop builds are the maximal runs of equal month. */
  lemma {:induction false} MonthlySlicesPartition(months: seq<int>)
    requires |months| >= 1
    ensures IsMonthlyPartition(months, MonthlySlices(months))
    decreases |months|
  {
    var n := |months| - 1;
    if n > 0 {
      MonthlySlicesPartition(months[..n]);
      if months[n] == months[n - 1] {
        ExtendLast(months, MonthlySlices(months[..n]));
      } else {
        AppendStep(months, MonthlySlices(months[..n]));
      }
    }
  }

  /** Extending the last slice of a tiling by one step tiles one step more. */
  lemma TilesExtend(s: seq<Slice>, n: nat)
    requires Tiles(s, n)
    ensures Tiles(s[..|s| - 1] + [Slice(s[|s| - 1].start, n + 1)], n + 1)
  {
    var t := s[..|s| - 1] + [Slice(s[|s| - 1].start, n + 1)];
    forall k | 0 <= k < |t| - 1
      ensures t[k] == s[k]
    {
    }
  }

  /** Appending a one-step slice to a tiling tiles one step more. */
  lemma TilesAppend(s: seq<Slice>, n: nat)
    requires Tiles(s, n)
    ensures Tiles(s + [Slice(n, n + 1)], n + 1)
  {
    var t := s + [Slice(n, n + 1)];
    forall k | 0 <= k < |s|
      ensures t[k] == s[k]
    {
    }
  }

  /** Without its last slice, a tiling of several slices tiles the steps
      before that slice. */
  lemma TilesDrop(s: seq<Slice>, n: nat)
    requires Tiles(s, n) && |s| >= 2
    ensures Tiles(s[..|s| - 1], s[|s| - 1].start)
  {
    var t := s[..|s| - 1];
    assert t[|t| - 1].stop == s[|s| - 1].start;
    forall k | 0 <= k < |t|
      ensures t[k].stop <= s[|s| - 1].start
    {
      StopsBelow(s, n, k, |s| - 1);
    }
  }

  /** Cutting the last step off a last slice of several steps tiles one
      step less. */
  lemma TilesShorten(s: seq<Slice>, n: nat)
    requires Tiles(s, n) && s[|s| - 1].start < n - 1
    ensures Tiles(s[..|s| - 1] + [Slice(s[|s| - 1].start, n - 1)], n - 1)
  {
    var t := s[..|s| - 1] + [Slice(s[|s| - 1].start, n - 1)];
    forall k | 0 <= k < |t| - 1
      ensures t[k] == s[k] && s[k].stop <= s[|s| - 1].start
    {
      StopsBelow(s, n, k, |s| - 1);
    }
  }

  /** In a tiling, a slice stops no later than any later slice starts. */
  lemma {:induction false} StopsBelow(s: seq<Slice>, n: nat, k: nat, m: nat)
    requires Tiles(s, n) && k < m < |s|
    ensures s[k].stop <= s[m].start
    decreases m - k
  {
    if k + 1 < m {
      StopsBelow(s, n, k + 1, m);
    }
  }

  /** A step in the month of the one before extends the last run. */
  lemma ExtendLast(months: seq<int>, s: seq<Slice>)
    requires |months| >= 2 && months[|months| - 1] == months[|months| - 2]
    requires IsMonthlyPartition(months[..|months| - 1], s)
    ensures IsMonthlyPartition(months, s[..|s| - 1] + [Slice(s[|s| - 1].start, |months|)])
  {
    var n := |months| - 1;
    var pre := months[..n];
    var t := s[..|s| - 1] + [Slice(s[|s| - 1].start, |months|)];
    TilesExtend(s, n);
    forall k, j | 0 <= k < |t| && t[k].start <= j < t[k].stop
      ensures months[j] == months[t[k].start]
    {
      if j < n {
        assert t[k].start == s[k].start && s[k].start <= j < s[k].stop;
        assert pre[j] == pre[s[k].start];
      } else {
        assert pre[n - 1] == pre[s[k].start];
      }
    }
    forall k | 1 <= k < |t|
      ensures 0 < t[k].start && months[t[k].start] != months[t[k].start - 1]
    {
      assert t[k].start == s[k].start && pre[s[k].start] != pre[s[k].start - 1];
    }
  }

  /** A step in another month than the one before opens a new run. */
  lemma AppendStep(months: seq<int>, s: seq<Slice>)
    requires |months| >= 2 && months[|months| - 1] != months[|months| - 2]
    requires IsMonthlyPartition(months[..|months| - 1], s)
    ensures IsMonthlyPartition(months, s + [Slice(|months| - 1, |months|)])
  {
    var n := |months| - 1;
    var pre := months[..n];
    var t := s + [Slice(n, |months|)];
    TilesAppend(s, n);
    forall k, j | 0 <= k < |t| && t[k].start <= j < t[k].stop
      ensures months[j] == months[t[k].start]
    {
      if k < |s| {
        assert t[k] == s[k] && pre[j] == pre[s[k].start];
      }
    }
    forall k | 1 <= k < |t|
      ensures 0 < t[k].start && months[t[k].start] != months[t[k].start - 1]
    {
      if k < |s| {
        assert t[k] == s[k] && pre[s[k].start] != pre[s[k].start - 1];
      }
    }
  }

  /** The maximal runs of equal month are unique: any partition with the
      properties above is the one the loop builds. */
  lemma {:induction false} MonthlySlicesUnique(months: seq<int>, s: seq<Slice>)
    requires |months| >= 1 && IsMonthlyPartition(months, s)
    ensures s == MonthlySlices(months)
    decreases |months|
  {
    var n := |months| - 1;
    var last := s[|s| - 1];
    if n == 0 {
    } else if last.start == n {
      DropLast(months, s);
      MonthlySlicesUnique(months[..n], s[..|s| - 1]);
      assert s == s[..|s| - 1] + [last];
    } else {
      ShortenLast(months, s);
      MonthlySlicesUnique(months[..n], s[..|s| - 1] + [Slice(last.start, n)]);
      assert s == s[..|s| - 1] + [last];
    }
  }

  /** Without a one-step last run, the other runs partition the steps
      before it, and that step is a change of month. */
  lemma DropLast(months: seq<int>, s: seq<Slice>)
    requires |months| >= 2 && IsMonthlyPartition(months, s)
    requires s[|s| - 1].start == |months| - 1
    ensures |s| >= 2 && months[|months| - 1] != months[|months| - 2]
    ensures IsMonthlyPartition(months[..|months| - 1], s[..|s| - 1])
  {
    var n := |months| - 1;
    var pre := months[..n];
    var t := s[..|s| - 1];
    assert |s| >= 2;
    assert months[s[|s| - 1].start] != months[s[|s| - 1].start - 1];
    TilesDrop(s, |months|);
    forall k, j | 0 <= k < |t| && t[k].start <= j < t[k].stop
      ensures pre[j] == pre[t[k].start]
    {
      assert t[k] == s[k] && months[j] == months[s[k].start];
    }
    forall k | 1 <= k < |t|
      ensures 0 < t[k].start && pre[t[k].start] != pre[t[k].start - 1]
    {
      assert t[k] == s[k] && months[s[k].start] != months[s[k].start - 1];
    }
  }

  /** With a longer last run, its last step is in the month of the step
      before, and cutting that step off leaves a partition of the steps
      before it. */
  lemma ShortenLast(months: seq<int>, s: seq<Slice>)
    requires |months| >= 2 && IsMonthlyPartition(months, s)
    requires s[|s| - 1].start < |months| - 1
    ensures months[|months| - 1] == months[|months| - 2]
    ensures IsMonthlyPartition(months[..|months| - 1], s[..|s| - 1] + [Slice(s[|s| - 1].start, |months| - 1)])
  {
    var n := |months| - 1;
    var last := s[|s| - 1];
    assert months[n] == months[last.start] && months[n - 1] == months[last.start];
    ShortenUniform(months, s);
    ShortenMaximal(months, s);
  }

  /** Cutting the last step off a longer last run keeps the runs uniform. */
  lemma ShortenUniform(months: seq<int>, s: seq<Slice>)
    requires |months| >= 2 && Tiles(s, |months|) && Uniform(months, s)
    requires s[|s| - 1].start < |months| - 1
    ensures var t := s[..|s| - 1] + [Slice(s[|s| - 1].start, |months| - 1)];
      Tiles(t, |months| - 1) && Uniform(months[..|months| - 1], t)
  {
    var n := |months| - 1;
    var pre := months[..n];
    var t := s[..|s| - 1] + [Slice(s[|s| - 1].start, n)];
    TilesShorten(s, |months|);
    forall k, j | 0 <= k < |t| && t[k].start <= j < t[k].stop
      ensures pre[j] == pre[t[k].start]
    {
      assert t[k].start == s[k].start && months[j] == months[s[k].start];
    }
  }

  /** Cutting the last step off a longer last run keeps the runs maximal. */
  lemma ShortenMaximal(months: seq<int>, s: seq<Slice>)
    requires |months| >= 2 && Tiles(s, |months|) && Maximal(months, s)
    requires s[|s| - 1].start < |months| - 1
    ensures var t := s[..|s| - 1] + [Slice(s[|s| - 1].start, |months| - 1)];
      Tiles(t, |months| - 1) && Maximal(months[..|months| - 1], t)
  {
    var n := |months| - 1;
    var pre := months[..n];
    var t := s[..|s| - 1] + [Slice(s[|s| - 1].start, n)];
    TilesShorten(s, |months|);
    forall k | 1 <= k < |t|
      ensures 0 < t[k].start && pre[t[k].start] != pre[t[k].start - 1]
    {
      assert t[k].start == s[k].start && months[s[k].start] != months[s[k].start - 1];
    }
  }

  /** There is one slice more than there are changes of month. */
  lemma {:induction false} MonthlySlicesCount(months: seq<int>)
    requires |months| >= 1
    ensures |MonthlySlices(months)| == 1 + Changes(months)
    decreases |months|
  {
    if |months| > 1 {
      MonthlySlicesCount(months[..|months| - 1]);
    }
  }

  /** A slice starts at a step exactly when its month differs from the
      step before. */
  lemma StartsAreChanges(months: seq<int>, j: nat)
    requires 1 <= j < |months|
    ensures var s := MonthlySlices(months);
      months[j] != months[j - 1] <==> exists k :: 0 <= k < |s| && s[k].start == j
  {
    var s := MonthlySlices(months);
    MonthlySlicesPartition(months);
    var k := Covering(s, |months|, j);
    if s[k].start < j {
      assert months[j] == months[s[k].start] && months[j - 1] == months[s[k].start];
      forall k' | 0 <= k' < |s|
        ensures s[k'].start != j
      {
        if k < k' {
          StopsBelow(s, |months|, k, k');
        } else if k' < k {
          StopsBelow(s, |months|, k', k);
        }
      }
    } else {
      assert s[k].start == j && k != 0;
    }
  }

  /** Some slice of a tiling holds each step. */
  lemma {:induction false} Covering(s: seq<Slice>, n: nat, j: nat) returns (k: nat)
    requires Tiles(s, n) && j < n
    ensures k < |s| && s[k].start <= j < s[k].stop
    decreases |s|
  {
    if |s| == 1 {
      k := 0;
    } else if j < s[0].stop {
      k := 0;
    } else {
      var t := s[1..];
      assert forall i :: 0 <= i < |t| ==> t[i] == s[i + 1];
      var u := Covering(t[0 := Slice(0, t[0].stop)], n, j);
      k := u + 1;
    }
  }

  /** The month of step `i` of an axis of days on a 360-day calendar (twelve
      months of thirty days), starting `t0` days into a year. */
  function Calendar360(t0: nat, n: nat): (months: seq<int>)
    ensures |months| == n
  {
    seq(n, i requires 0 <= i < n => ((t0 + i) / 30) % 12 + 1)
  }

  /** A year of days from the start of a 360-day calendar gives twelve
      slices of thirty steps. */
  lemma Year360()
    ensures MonthlySlices(Calendar360(0, 360)) == seq(12, k requires 0 <= k < 12 => Slice(30 * k, 30 * k + 30))
  {
    var months := Calendar360(0, 360);
    var s := seq(12, k requires 0 <= k < 12 => Slice(30 * k, 30 * k + 30));
    assert Uniform(months, s) by {
      forall k, j | 0 <= k < 12 && 30 * k <= j < 30 * k + 30
        ensures months[j] == months[30 * k]
      {
        DivBlock(j, k);
        DivBlock(30 * k, k);
      }
    }
    assert Maximal(months, s) by {
      forall k | 1 <= k < 12
        ensures months[30 * k] != months[30 * k - 1]
      {
        DivBlock(30 * k, k);
        DivBlock(30 * k - 1, k - 1);
      }
    }
    MonthlySlicesUnique(months, s);
  }

  /** A year of days from day 15 of a 360-day calendar gives a slice of
      the fifteen days left in the first month, eleven slices of thirty,
      and the fifteen days of the next year's first month. */
  lemma Year360From15()
    ensures MonthlySlices(Calendar360(15, 360)) ==
      [Slice(0, 15)] + seq(11, k requires 0 <= k < 11 => Slice(30 * k + 15, 30 * k + 45)) + [Slice(345, 360)]
  {
    var months := Calendar360(15, 360);
    var s := [Slice(0, 15)] + seq(11, k requires 0 <= k < 11 => Slice(30 * k + 15, 30 * k + 45)) + [Slice(345, 360)];
    assert |s| == 13 && s[0] == Slice(0, 15) && s[12] == Slice(345, 360);
    assert forall k :: 1 <= k < 12 ==> s[k] == Slice(30 * k - 15, 30 * k + 15);
    assert Tiles(s, 360);
    forall k, j | 0 <= k < 13 && s[k].start <= j < s[k].stop
      ensures months[j] == months[s[k].start]
    {
      DivBlock(15 + j, k);
      DivBlock(15 + s[k].start, k);
    }
    forall k | 1 <= k < 13
      ensures months[s[k].start] != months[s[k].start - 1]
    {
      DivBlock(15 + s[k].start, k);
      DivBlock(15 + s[k].start - 1, k - 1);
    }
    MonthlySlicesUnique(months, s);
  }

  /** A day of the `k`-th block of thirty falls in month `k`. */
  lemma DivBlock(d: int, k: int)
    requires 30 * k <= d < 30 * k + 30
    ensures d / 30 == k
  {
  }
}
