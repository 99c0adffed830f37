/** Date labels for the x-axis of the time-series graphs, in the mode that prints the year on
    the first label and on each label whose week falls in a new year. The year of a label is
    that of the week's end date. `strftime` is not modelled: every date carries the texts its
    `%Y` and day-and-month formats produce, and the integer value of the former. */
module Dates {
  import opened Outcomes

  /** A date as the labels see it: its year as a number and as `%Y` text, and its day-and-month
      text (`mm/dd` or `Mon dd`). */
  datatype Stamp = Stamp(year: int, yearText: string, text: string)

  /** The years of the end dates, in order. */
  function Years(ends: seq<Stamp>): (years: seq<int>)
    ensures |years| == |ends|
    ensures forall i :: 0 <= i < |ends| ==> years[i] == ends[i].year
  {
    seq(|ends|, i requires 0 <= i < |ends| => ends[i].year)
  }

  /** Index `i` starts a year: it is the first index, or the year differs from the previous one. */
  predicate IsYearStart(years: seq<int>, i: int) {
    i == 0 || (1 <= i < |years| && years[i] != years[i - 1])
  }

  /** The year starts among the first `n` indices, in increasing order. */
  function StartsUpTo(years: seq<int>, n: nat): seq<nat>
    requires n <= |years|
  {
    if n == 0 then []
    else StartsUpTo(years, n - 1) + (if IsYearStart(years, n - 1) then [n - 1] else [])
  }


  /** A strictly increasing sequence of indices. */
  predicate Increasing(idx: seq<nat>) {
    forall a, b :: 0 <= a < b < |idx| ==> idx[a] < idx[b]
  }

  /** The year starts below `n` are exactly the indices below `n` that start a year. */
  lemma {:induction false} StartsUpToMembers(years: seq<int>, n: nat)
    requires n <= |years|
    ensures forall i :: i in StartsUpTo(years, n) <==> 0 <= i < n && IsYearStart(years, i)
  {
    if n > 0 {
      StartsUpToMembers(years, n - 1);
      var add: seq<nat> := if IsYearStart(years, n - 1) then [n - 1] else [];
      assert StartsUpTo(years, n) == StartsUpTo(years, n - 1) + add;
    }
  }

  /** The year starts are listed in increasing order. */
  lemma {:induction false} StartsUpToIncreasing(years: seq<int>, n: nat)
    requires n <= |years|
    ensures Increasing(StartsUpTo(years, n))
  {
    if n > 0 {
      StartsUpToIncreasing(years, n - 1);
      StartsUpToMembers(years, n - 1);
      var prev := StartsUpTo(years, n - 1);
      if IsYearStart(years, n - 1) {
        var cur := prev + [n - 1];
        assert StartsUpTo(years, n) == cur;
        forall a, b | 0 <= a < b < |cur| ensures cur[a] < cur[b] {
          if b < |prev| {
            assert cur[a] == prev[a] && cur[b] == prev[b];
          } else {
            assert prev[a] in prev;
            assert cur[a] == prev[a];
          }
        }
      }
    }
  }

  /** The indices that get a year: index 0 always does, even when there are no dates. They
      start with 0 and increase strictly. */
  function YearStarts(years: seq<int>): (idx: seq<nat>)
    ensures |idx| >= 1 && idx[0] == 0
    ensures Increasing(idx)
  {
    if years == [] then [0]
    else
      StartsUpToMembers(years, |years|);
      StartsUpToIncreasing(years, |years|);
      var idx := StartsUpTo(years, |years|);
      assert 0 in idx;
      assert forall m :: 0 < m < |idx| ==> idx[0] < idx[m];
      idx
  }

  /** An index gets a year exactly when it is 0 or its year differs from the one before. */
  lemma YearStartsMembers(years: seq<int>)
    ensures forall i :: i in YearStarts(years) <==> IsYearStart(years, i)
  {
    if years != [] {
      StartsUpToMembers(years, |years|);
    }
  }

  /** Between two consecutive year starts, and after the last one, every week has the year of
      the start before it; so the labels carrying a year are exactly the first week of each run. */
  lemma YearConstantBetween(years: seq<int>, k: nat, j: nat)
    requires years != [] && k < |YearStarts(years)|
    requires YearStarts(years)[k] <= j < |years|
    requires k + 1 < |YearStarts(years)| ==> j < YearStarts(years)[k + 1]
    ensures years[j] == years[YearStarts(years)[k]]
    decreases j
  {
    var idx := YearStarts(years);
    YearStartsMembers(years);
    if j > idx[k] {
      forall m | 0 <= m < |idx| ensures idx[m] != j {
        if m < k {
          assert idx[m] < idx[k];
        } else if m > k + 1 {
          assert idx[k + 1] < idx[m];
        }
      }
      assert !IsYearStart(years, j);
      YearConstantBetween(years, k, j - 1);
    }
  }

  /** The index loop of `dates_for_graph` with `year="first"`: the running `year_before` is
      compared with each end date's year after the first. */
  method YearChangeIndices(years: seq<int>) returns (idx: seq<nat>)
    ensures idx == YearStarts(years)
  {
    idx := [0];
    var yearBefore := 0;
    var i := 0;
    while i < |years|
      invariant 0 <= i <= |years|
      invariant i == 0 ==> idx == [0]
      invariant i >= 1 ==> idx == StartsUpTo(years, i) && yearBefore == years[i - 1]
    {
      if i == 0 {
        yearBefore := years[i];
      }
      if i >= 1 {
        var year := years[i];
        if year != yearBefore {
          idx := idx + [i];
        }
        yearBefore := year;
      }
      i := i + 1;
    }
  }

  // ---------------------------------------------------------------- the labels

  /** A label needs the end date of a week that has none. */
  datatype DateError = MissingEndDate(index: nat)

  /** The text of label `i` without its year: a range `start-end`, or the start alone. */
  function LabelBody(starts: seq<Stamp>, ends: seq<Stamp>, i: nat, dateRange: bool): string
    requires i < |starts| && (dateRange ==> i < |ends|)
  {
    if dateRange then starts[i].text + "-" + ends[i].text else starts[i].text
  }

  /** A week needs its end date when its label shows a range or a year. */
  predicate NeedsEnd(years: seq<int>, i: int, dateRange: bool) {
    dateRange || IsYearStart(years, i)
  }

  /** Label `i`: `"{year}: "` before the body when its week starts a year, the body alone otherwise. */
  function Label(starts: seq<Stamp>, ends: seq<Stamp>, i: nat, dateRange: bool): string
    requires i < |starts| && (NeedsEnd(Years(ends), i, dateRange) ==> i < |ends|)
  {
    if IsYearStart(Years(ends), i) then ends[i].yearText + ": " + LabelBody(starts, ends, i, dateRange)
    else LabelBody(starts, ends, i, dateRange)
  }

  /** None of the first `i` weeks needs an end date that is missing. */
  predicate EndsSuffice(ends: seq<Stamp>, dateRange: bool, i: nat) {
    forall j :: 0 <= j < i ==> (NeedsEnd(Years(ends), j, dateRange) ==> j < |ends|)
  }

  /** The labels of the first `i` weeks. */
  function LabelsUpTo(starts: seq<Stamp>, ends: seq<Stamp>, dateRange: bool, i: nat): (labels: seq<string>)
    requires i <= |starts| && EndsSuffice(ends, dateRange, i)
    ensures |labels| == i
  {
    if i == 0 then [] else LabelsUpTo(starts, ends, dateRange, i - 1) + [Label(starts, ends, i - 1, dateRange)]
  }

  /** The labels of all weeks; the year, where one is shown, is the end date's year. */
  function YearFirstLabels(starts: seq<Stamp>, ends: seq<Stamp>, dateRange: bool): (r: Result<seq<string>, DateError>)
    ensures r.Failure? <==>
      exists i :: 0 <= i < |starts| && NeedsEnd(Years(ends), i, dateRange) && i >= |ends|
    ensures r.Failure? ==> r.error == MissingEndDate(|ends|)
    ensures r.Success? ==> |r.value| == |starts|
  {
    if |starts| > |ends| && (dateRange || ends == []) then
      assert NeedsEnd(Years(ends), |ends|, dateRange);
      Failure(MissingEndDate(|ends|))
    else
      Success(LabelsUpTo(starts, ends, dateRange, |starts|))
  }

  /** Label `i` of a successful run is `Label(i)`: it carries the year of its end date exactly
      when its week starts a year. */
  lemma {:induction false} LabelsUpToAt(starts: seq<Stamp>, ends: seq<Stamp>, dateRange: bool, n: nat, i: nat)
    requires n <= |starts| && EndsSuffice(ends, dateRange, n) && i < n
    ensures LabelsUpTo(starts, ends, dateRange, n)[i] == Label(starts, ends, i, dateRange)
  {
    assert EndsSuffice(ends, dateRange, n - 1);
    var prev := LabelsUpTo(starts, ends, dateRange, n - 1);
    var last := Label(starts, ends, n - 1, dateRange);
    assert LabelsUpTo(starts, ends, dateRange, n) == prev + [last];
    if i < n - 1 {
      LabelsUpToAt(starts, ends, dateRange, n - 1, i);
      assert (prev + [last])[i] == prev[i];
    }
  }

  /** The label of one week, or `None` when it needs an end date that is missing. */
  method DateLabel(starts: seq<Stamp>, ends: seq<Stamp>, giveYear: seq<nat>, i: nat, dateRange: bool)
    returns (text: Option<string>)
    requires i < |starts| && giveYear == YearStarts(Years(ends))
    ensures text.None? <==> NeedsEnd(Years(ends), i, dateRange) && i >= |ends|
    ensures text.Some? ==> text.value == Label(starts, ends, i, dateRange)
  {
    YearStartsMembers(Years(ends));
    if i in giveYear {
      if i >= |ends| {
        return None;
      }
      var year := ends[i].yearText;
      if dateRange {
        return Some(year + ": " + starts[i].text + "-" + ends[i].text);
      } else {
        return Some(year + ": " + starts[i].text);
      }
    } else {
      if dateRange {
        if i >= |ends| {
          return None;
        }
        return Some(starts[i].text + "-" + ends[i].text);
      } else {
        return Some(starts[i].text);
      }
    }
  }

  /** `dates_for_graph(start_dates, end_dates, date_range, year="first")`: the index loop, then
      one label per start date; a label that needs a missing end date raises an error. */
  method DatesForGraphFirst(starts: seq<Stamp>, ends: seq<Stamp>, dateRange: bool)
    returns (r: Result<seq<string>, DateError>)
    ensures r == YearFirstLabels(starts, ends, dateRange)
  {
    var years := Years(ends);
    var giveYear := YearChangeIndices(years);
    var labels: seq<string> := [];
    var i := 0;
    while i < |starts|
      invariant i <= |starts| && EndsSuffice(ends, dateRange, i)
      invariant labels == LabelsUpTo(starts, ends, dateRange, i)
    {
      var next := DateLabel(starts, ends, giveYear, i, dateRange);
      if next.None? {
        assert NeedsEnd(years, i, dateRange) && i >= |ends|;
        return Failure(MissingEndDate(|ends|));
      }
      labels := labels + [next.value];
      i := i + 1;
    }
    if |starts| > |ends| {
      assert !NeedsEnd(years, |ends|, dateRange);
    }
    return Success(labels);
  }
}
