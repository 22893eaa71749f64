/** `multi_collapseYears` and the output names the workers write: the monthly
    dictionaries written by the XML workers are selected by name, sorted, and
    merged year by year into one dictionary per year. Reading a file and
    decoding its JSON is the `load` parameter; listing the directory is the
    `listing` parameter. */
module Collapse {
  import opened Results
  import opened Text
  import opened Patents
  import opened Splitter

  /** Python `s[i:j]` for non-negative bounds: both are clamped to the string,
      and a range that ends before it starts is empty. */
  function Slice(s: string, i: nat, j: nat): (r: string)
    ensures i <= j <= |s| ==> r == s[i..j]
    ensures i < |s| < j ==> r == s[i..]
    ensures j <= i || |s| <= i ==> r == []
  {
    if j <= i || |s| <= i then [] else if j <= |s| then s[i..j] else s[i..]
  }

  /** The name a 1976-2001 worker writes for a yearly data file (lines 149, 157). */
  function YearFileName(fileName: string): (r: string)
    ensures StartsWith(r, "patAbs") && |r| <= 15
    ensures |fileName| >= 4 ==> |r| == 15 && r[6..10] == fileName[..4]
  {
    "patAbs" + Slice(fileName, 0, 4) + ".json"
  }

  /** The name a 2002-2004 worker writes for a monthly file (lines 180, 187). */
  function MonthFileName0204(fileName: string): (r: string)
    ensures StartsWith(r, "patAbs")
    ensures |fileName| >= 11 ==> |r| == 19 && r[6..14] == fileName[3..11]
  {
    "patAbs" + Slice(fileName, 3, 11) + ".json"
  }

  /** The name a 2005-2014 worker writes for a monthly file (lines 209, 216). */
  function MonthFileName0514(fileName: string): (r: string)
    ensures StartsWith(r, "patAbs")
    ensures |fileName| >= 12 ==> |r| == 19 && r[6..14] == fileName[4..12]
  {
    "patAbs" + Slice(fileName, 4, 12) + ".json"
  }

  /** The name of a collapsed year (line 249). */
  function CollapsedName(yr: string): (r: string)
    ensures StartsWith(r, "patAbs") && |r| == |yr| + 11 && r[6..6 + |yr|] == yr
  {
    "patAbs" + yr + ".json"
  }

  /** The names line 229 keeps from the listing. */
  predicate IsMonthOutput(fileName: string)
  {
    StartsWith(fileName, "patAbs") && |fileName| > 15
  }

  /** The year a monthly name is filed under (line 238). */
  function YearToken(fileName: string): (r: string)
    ensures |r| <= 4
    ensures |fileName| >= 10 ==> r == fileName[6..10]
  {
    Slice(fileName, 6, 10)
  }

  /** A monthly output of either XML worker is selected, under the first four
      characters of its date. */
  lemma MonthOutputsSelected(fileName: string)
    requires |fileName| >= 12
    ensures IsMonthOutput(MonthFileName0204(fileName)) && YearToken(MonthFileName0204(fileName)) == fileName[3..7]
    ensures IsMonthOutput(MonthFileName0514(fileName)) && YearToken(MonthFileName0514(fileName)) == fileName[4..8]
  {
    var a, b := MonthFileName0204(fileName), MonthFileName0514(fileName);
    var da, db := Slice(fileName, 3, 11), Slice(fileName, 4, 12);
    assert a[..6] == "patAbs" && a[6..10] == da[..4] == fileName[3..7];
    assert b[..6] == "patAbs" && b[6..10] == db[..4] == fileName[4..8];
  }

  /** Yearly outputs, of the flat-file workers or of the collapse itself, are
      at most 15 characters long and are never taken for monthly ones. */
  lemma YearOutputsNotSelected(fileName: string, yr: string)
    requires |yr| <= 4
    ensures !IsMonthOutput(YearFileName(fileName))
    ensures !IsMonthOutput(CollapsedName(yr))
  {
  }

  /** Python's order on strings: lexicographic by character code, a proper
      prefix first. */
  predicate NameLe(a: string, b: string)
    decreases |a|
  {
    a == [] || (b != [] && (a[0] < b[0] || (a[0] == b[0] && NameLe(a[1..], b[1..]))))
  }

  lemma {:induction false} NameLeTotal(a: string, b: string)
    ensures NameLe(a, b) || NameLe(b, a)
    decreases |a|
  {
    if a != [] && b != [] && a[0] == b[0] {
      NameLeTotal(a[1..], b[1..]);
    }
  }

  lemma {:induction false} NameLeTrans(a: string, b: string, c: string)
    requires NameLe(a, b) && NameLe(b, c)
    ensures NameLe(a, c)
    decreases |a|
  {
    if a != [] && a[0] == b[0] && b[0] == c[0] {
      NameLeTrans(a[1..], b[1..], c[1..]);
    }
  }

  predicate SortedNames(s: seq<string>)
  {
    forall i, j :: 0 <= i < j < |s| ==> NameLe(s[i], s[j])
  }

  /** `x` placed before the first name of `s` it does not follow. */
  function InsertName(x: string, s: seq<string>): (r: seq<string>)
    ensures multiset(r) == multiset(s) + multiset{x}
  {
    if s == [] || NameLe(x, s[0]) then [x] + s
    else
      assert s == [s[0]] + s[1..];
      [s[0]] + InsertName(x, s[1..])
  }

  /** Inserting into a sorted list keeps it sorted. */
  lemma {:induction false} InsertSorted(x: string, s: seq<string>)
    requires SortedNames(s)
    ensures SortedNames(InsertName(x, s))
  {
    if s == [] {
    } else if NameLe(x, s[0]) {
      forall j | 0 < j < |s|
        ensures NameLe(x, s[j])
      {
        NameLeTrans(x, s[0], s[j]);
      }
    } else {
      NameLeTotal(x, s[0]);
      InsertSorted(x, s[1..]);
      var t := InsertName(x, s[1..]);
      forall j | 0 <= j < |t|
        ensures NameLe(s[0], t[j])
      {
        assert t[j] in multiset(t);
        assert t[j] == x || t[j] in multiset(s[1..]);
      }
    }
  }

  /** `sorted(names)`: the same names, in Python's order. */
  function SortNames(names: seq<string>): (r: seq<string>)
    ensures SortedNames(r) && multiset(r) == multiset(names)
  {
    if names == [] then []
    else
      var init, last := names[..|names| - 1], names[|names| - 1];
      assert names == init + [last];
      InsertSorted(last, SortNames(init));
      InsertName(last, SortNames(init))
  }

  /** The names of `names` that `keep` accepts, in their order. */
  function Filter(names: seq<string>, keep: string -> bool): (r: seq<string>)
    ensures |r| <= |names|
    ensures forall x :: x in r <==> x in names && keep(x)
  {
    if names == [] then []
    else
      var init, last := names[..|names| - 1], names[|names| - 1];
      assert forall x :: x in names <==> x in init || x == last;
      Filter(init, keep) + (if keep(last) then [last] else [])
  }

  /** Filtering keeps a sorted list sorted. */
  lemma {:induction false} FilterSorted(names: seq<string>, keep: string -> bool)
    requires SortedNames(names)
    ensures SortedNames(Filter(names, keep))
  {
    if names != [] {
      var init, last := names[..|names| - 1], names[|names| - 1];
      FilterSorted(init, keep);
      var f := Filter(init, keep);
      forall x | x in f
        ensures NameLe(x, last)
      {
        var i :| 0 <= i < |init| && init[i] == x;
      }
    }
  }

  /** Line 229: the monthly outputs of the listing, sorted. */
  function MonthFiles(listing: seq<string>): (r: seq<string>)
    ensures SortedNames(r)
    ensures forall x :: x in r <==> x in listing && IsMonthOutput(x)
  {
    var r := SortNames(Filter(listing, IsMonthOutput));
    assert forall x :: x in r <==> x in multiset(r);
    r
  }

  /** Line 238: the monthly files of year `yr`, in sorted order. */
  function FilesForYear(monthFiles: seq<string>, yr: string): (r: seq<string>)
    requires SortedNames(monthFiles)
    ensures SortedNames(r)
    ensures forall x :: x in r <==> x in monthFiles && YearToken(x) == yr
  {
    FilterSorted(monthFiles, x => YearToken(x) == yr);
    Filter(monthFiles, x => YearToken(x) == yr)
  }

  /** The dictionaries of `files`, in order. */
  function Loaded(files: seq<string>, load: string -> PatDict): (r: seq<PatDict>)
    ensures |r| == |files| && forall i :: 0 <= i < |files| ==> r[i] == load(files[i])
  {
    seq(|files|, i requires 0 <= i < |files| => load(files[i]))
  }

  /** `filesToCollapse[0]` on an empty list (`IndexError`), or the split used
      for progress reporting when the worker has fewer years than chunks. */
  datatype CollapseError = NoMonthFiles | TooFewYears

  /** The merged dictionary of one year: the left fold of `update` over its
      files in order, or the error of line 239 when there are none. */
  function YearMerge(files: seq<string>, load: string -> PatDict): (r: Result<PatDict, CollapseError>)
    ensures r.Failure? <==> files == []
    ensures r.Failure? ==> r.error == NoMonthFiles
    ensures files != [] ==> var last := load(files[|files| - 1]);
      forall k :: k in last ==> k in r.value && r.value[k] == last[k]
  {
    if files == [] then Failure(NoMonthFiles) else Success(Merge(map[], Loaded(files, load)))
  }

  /** Lines 239-247: start from the first file's dictionary, then update it
      with every file, the first one included. */
  method CollapseYear(files: seq<string>, load: string -> PatDict) returns (r: Result<PatDict, CollapseError>)
    ensures r == YearMerge(files, load)
  {
    if |files| == 0 {
      return Failure(NoMonthFiles);
    }
    var baseDict := load(files[0]);
    for k := 0 to |files|
      invariant baseDict == Merge(load(files[0]), Loaded(files[..k], load))
    {
      assert Loaded(files[..k + 1], load)[..k] == Loaded(files[..k], load);
      baseDict := baseDict + load(files[k]);
    }
    assert files[..|files|] == files;
    var ds := Loaded(files, load);
    assert ds == [ds[0]] + ds[1..];
    MergeFirstAgain(ds[0], ds[1..]);
    return Success(baseDict);
  }

  /** A key of the merged year comes from the last of its files that holds it. */
  lemma YearLastFileWins(files: seq<string>, load: string -> PatDict, i: nat, k: string)
    requires i < |files| && k in load(files[i])
    requires forall j :: i < j < |files| ==> k !in load(files[j])
    ensures YearMerge(files, load).Success?
    ensures k in YearMerge(files, load).value && YearMerge(files, load).value[k] == load(files[i])[k]
  {
    var ds := Loaded(files, load);
    MergeLookup(map[], ds, k);
  }

  /** A key that none of the year's files holds is not in the merge. */
  lemma YearNoOtherKeys(files: seq<string>, load: string -> PatDict, k: string)
    requires files != [] && forall j :: 0 <= j < |files| ==> k !in load(files[j])
    ensures k !in YearMerge(files, load).value
  {
    MergeLookup(map[], Loaded(files, load), k);
  }

  /** What a worker has written, and what it raised if it stopped. */
  datatype Outcome = Outcome(written: seq<(string, PatDict)>, error: Option<CollapseError>)

  /** The merge of each year's monthly files. */
  function YearResults(monthFiles: seq<string>, years: seq<string>, load: string -> PatDict): (rs: seq<Result<PatDict, CollapseError>>)
    requires SortedNames(monthFiles)
    ensures |rs| == |years|
  {
    if years == [] then []
    else YearResults(monthFiles, years[..|years| - 1], load) + [YearMerge(FilesForYear(monthFiles, years[|years| - 1]), load)]
  }

  lemma {:induction false} YearResultAt(monthFiles: seq<string>, years: seq<string>, load: string -> PatDict, i: nat)
    requires SortedNames(monthFiles) && i < |years|
    ensures YearResults(monthFiles, years, load)[i] == YearMerge(FilesForYear(monthFiles, years[i]), load)
  {
    if i < |years| - 1 {
      YearResultAt(monthFiles, years[..|years| - 1], load, i);
    }
  }

  /** The years loop over the first `n` years, given each year's merge: one
      output per year, stopping at the first year that raises. */
  function CollapseRun(years: seq<string>, rs: seq<Result<PatDict, CollapseError>>, n: nat): (r: Outcome)
    requires n <= |years| && n <= |rs|
    ensures |r.written| <= n
    ensures r.error.None? ==> |r.written| == n
  {
    if n == 0 then Outcome([], None)
    else
      var prev := CollapseRun(years, rs, n - 1);
      if prev.error.Some? then prev
      else match rs[n - 1]
        case Failure(e) => Outcome(prev.written, Some(e))
        case Success(d) => Outcome(prev.written + [(CollapsedName(years[n - 1]), d)], None)
  }

  /** What `multi_collapseYears(years)` writes and raises. */
  function CollapseAll(listing: seq<string>, years: seq<string>, load: string -> PatDict): (r: Outcome)
    ensures |r.written| <= |years|
    ensures |years| < 3 ==> r.written == [] && r.error == Some(TooFewYears)
  {
    if |years| < 3 then Outcome([], Some(TooFewYears))
    else CollapseRun(years, YearResults(MonthFiles(listing), years, load), |years|)
  }

  /** Lines 238-247 for year `n` of `years`: select its files, then merge them. */
  method CollapseOneYear(monthFiles: seq<string>, years: seq<string>, n: nat, load: string -> PatDict)
    returns (r: Result<PatDict, CollapseError>)
    requires SortedNames(monthFiles) && n < |years|
    ensures r == YearResults(monthFiles, years, load)[n]
  {
    var filesToCollapse := FilesForYear(monthFiles, years[n]);
    r := CollapseYear(filesToCollapse, load);
    YearResultAt(monthFiles, years, load, n);
  }

  /** Lines 232-251: the years loop. */
  method CollapseEachYear(monthFiles: seq<string>, years: seq<string>, load: string -> PatDict)
    returns (written: seq<(string, PatDict)>, err: Option<CollapseError>)
    requires SortedNames(monthFiles)
    ensures Outcome(written, err) == CollapseRun(years, YearResults(monthFiles, years, load), |years|)
  {
    ghost var rs := YearResults(monthFiles, years, load);
    written := [];
    for n := 0 to |years|
      invariant CollapseRun(years, rs, n) == Outcome(written, None)
    {
      var r := CollapseOneYear(monthFiles, years, n, load);
      if r.Failure? {
        StopsAfterError(years, rs, n + 1, |years|);
        return written, Some(r.error);
      }
      written := written + [(CollapsedName(years[n]), r.value)];
    }
    err := None;
  }

  /** `multi_collapseYears`: list the monthly outputs, split the years for
      progress reporting, then run the years loop. */
  method CollapseYears(listing: seq<string>, years: seq<string>, load: string -> PatDict)
    returns (written: seq<(string, PatDict)>, err: Option<CollapseError>)
    ensures Outcome(written, err) == CollapseAll(listing, years, load)
  {
    var monthFiles := MonthFiles(listing);
    var progSplit := Split(years, 3);
    if progSplit.Failure? {
      return [], Some(TooFewYears);
    }
    written, err := CollapseEachYear(monthFiles, years, load);
  }

  /** Once a year raises, nothing more is written. */
  lemma {:induction false} StopsAfterError(years: seq<string>, rs: seq<Result<PatDict, CollapseError>>, i: nat, n: nat)
    requires i <= n <= |years| && n <= |rs|
    requires CollapseRun(years, rs, i).error.Some?
    ensures CollapseRun(years, rs, n) == CollapseRun(years, rs, i)
  {
    if i < n {
      StopsAfterError(years, rs, i, n - 1);
    }
  }

  /** Output `i` is year `i`'s name and that year's merge; a worker that did
      not stop wrote one output per year. */
  lemma {:induction false} OutputsInYearOrder(years: seq<string>, rs: seq<Result<PatDict, CollapseError>>, n: nat)
    requires n <= |years| && n <= |rs|
    ensures var run := CollapseRun(years, rs, n);
      && |run.written| <= n
      && (run.error.None? ==> |run.written| == n)
      && forall i :: 0 <= i < |run.written| ==>
        run.written[i].0 == CollapsedName(years[i]) && rs[i] == Success(run.written[i].1)
  {
    if n > 0 {
      OutputsInYearOrder(years, rs, n - 1);
    }
  }

  /** So each file a worker writes holds the merge of that year's monthly files. */
  lemma CollapsedYears(listing: seq<string>, years: seq<string>, load: string -> PatDict, i: nat)
    requires i < |CollapseAll(listing, years, load).written|
    ensures var w := CollapseAll(listing, years, load).written[i];
      i < |years| && w.0 == CollapsedName(years[i]) &&
      YearMerge(FilesForYear(MonthFiles(listing), years[i]), load) == Success(w.1)
  {
    OutputsInYearOrder(years, YearResults(MonthFiles(listing), years, load), |years|);
    YearResultAt(MonthFiles(listing), years, load, i);
  }
}
