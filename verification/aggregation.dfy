/**
 * `GenerateReportsAsync`: the files whose service name passes the filter are
 * processed one by one, and their reports are grouped by service name and
 * merged into one report per service.
 *
 * The regular-expression filter is a predicate on the service name. The
 * directory is the list of its files.
 */
module Aggregation {
  import opened Wrappers
  import opened FileNames
  import opened Histogram
  import opened Span
  import opened LineParsing
  import opened FileParsing

  /* ------------------------------------------------------------ Grouping */

  /** Some report is about `service`. */
  ghost predicate HasService(rs: seq<Report>, service: string) {
    exists i :: 0 <= i < |rs| && rs[i].service == service
  }

  /** The service names of the reports, each once, in order of first appearance (the `GroupBy` keys). */
  function Services(rs: seq<Report>): (ss: seq<string>)
    ensures forall i, j :: 0 <= i < j < |ss| ==> ss[i] != ss[j]
    ensures forall s :: s in ss <==> HasService(rs, s)
    ensures |ss| <= |rs|
  {
    if |rs| == 0 then []
    else
      var n := |rs| - 1;
      var front := Services(rs[..n]);
      assert forall i :: 0 <= i < n ==> rs[..n][i] == rs[i];
      if rs[n].service in front then front else front + [rs[n].service]
  }

  /** The reports of one service, in their original order (one `GroupBy` group). */
  function Group(rs: seq<Report>, service: string): (g: seq<Report>)
    ensures |g| <= |rs|
    ensures forall i :: 0 <= i < |g| ==> g[i].service == service
    ensures forall r :: r in g <==> r in rs && r.service == service
    ensures forall r :: multiset(g)[r] == if r.service == service then multiset(rs)[r] else 0
  {
    if |rs| == 0 then []
    else
      var n := |rs| - 1;
      var front := Group(rs[..n], service);
      assert rs == rs[..n] + [rs[n]];
      if rs[n].service == service then front + [rs[n]] else front
  }

  /** A service that some report names has a non-empty group. */
  lemma GroupNonEmpty(rs: seq<Report>, service: string)
    requires service in Services(rs)
    ensures |Group(rs, service)| >= 1
  {
    var i :| 0 <= i < |rs| && rs[i].service == service;
    assert rs[i] in Group(rs, service);
  }

  /* ------------------------------------------------------------- Merging */

  /** The sum of the counts of `c` over the reports. */
  function CountIn(g: seq<Report>, c: string): nat {
    if |g| == 0 then 0 else CountIn(g[..|g| - 1], c) + Get(g[|g| - 1].counts, c)
  }

  /**
   * `Aggregate` of the union-sum over the group's histograms: the first
   * histogram, then each next one merged in.
   */
  function MergeCounts(g: seq<Report>): (m: Counts)
    requires |g| >= 1
    ensures forall c :: Get(m, c) == CountIn(g, c)
    ensures (forall i :: 0 <= i < |g| ==> Positive(g[i].counts)) ==> Positive(m)
  {
    if |g| == 1 then
      assert g[..0] == [];
      g[0].counts
    else
      var n := |g| - 1;
      assert forall i :: 0 <= i < n ==> g[..n][i] == g[i];
      UnionSum(MergeCounts(g[..n]), g[n].counts)
  }

  /** The last histogram of a group is merged in last. */
  lemma MergeCountsUnfold(g: seq<Report>)
    requires |g| >= 2
    ensures MergeCounts(g) == UnionSum(MergeCounts(g[..|g| - 1]), g[|g| - 1].counts)
  {
  }

  /** The sum of the totals of the group's histograms. */
  ghost function TotalIn(g: seq<Report>): nat {
    if |g| == 0 then 0 else TotalIn(g[..|g| - 1]) + Total(g[|g| - 1].counts)
  }

  /** The merged histogram counts exactly the lines counted by the group's reports. */
  lemma {:induction false} MergeCountsTotal(g: seq<Report>)
    requires |g| >= 1
    ensures Total(MergeCounts(g)) == TotalIn(g)
  {
    if |g| == 1 {
      assert g[..0] == [];
    } else {
      var n := |g| - 1;
      var front := g[..n];
      var m, c := MergeCounts(front), g[n].counts;
      MergeCountsTotal(front);
      UnionSumTotal(m, c);
      MergeCountsUnfold(g);
      assert TotalIn(g) == TotalIn(front) + Total(c);
    }
  }

  /** `group.Sum(NumberOfRotations)`. */
  function SumRotations(g: seq<Report>): nat {
    if |g| == 0 then 0 else SumRotations(g[..|g| - 1]) + g[|g| - 1].rotations
  }

  /** The sum is at least every summand, and zero exactly when every summand is. */
  lemma {:induction false} SumRotationsBounds(g: seq<Report>)
    ensures forall i :: 0 <= i < |g| ==> g[i].rotations <= SumRotations(g)
    ensures SumRotations(g) == 0 <==> forall i :: 0 <= i < |g| ==> g[i].rotations == 0
  {
    if |g| > 0 {
      var m := |g| - 1;
      assert forall i :: 0 <= i < m ==> g[..m][i] == g[i];
      SumRotationsBounds(g[..m]);
    }
  }

  /** `group.Select(EarliestEntry).Min()`: absent values are ignored. */
  function EarliestOf(g: seq<Report>): (e: Option<int>)
    ensures e.None? <==> forall i :: 0 <= i < |g| ==> g[i].earliest.None?
    ensures e.Some? ==> exists i :: 0 <= i < |g| && g[i].earliest == e
    ensures e.Some? ==> forall i :: 0 <= i < |g| && g[i].earliest.Some? ==> e.value <= g[i].earliest.value
  {
    if |g| == 0 then None
    else
      var n := |g| - 1;
      assert forall i :: 0 <= i < n ==> g[..n][i] == g[i];
      MinOpt(EarliestOf(g[..n]), g[n].earliest)
  }

  /** `group.Select(LatestEntry).Max()`: absent values are ignored. */
  function LatestOf(g: seq<Report>): (l: Option<int>)
    ensures l.None? <==> forall i :: 0 <= i < |g| ==> g[i].latest.None?
    ensures l.Some? ==> exists i :: 0 <= i < |g| && g[i].latest == l
    ensures l.Some? ==> forall i :: 0 <= i < |g| && g[i].latest.Some? ==> g[i].latest.value <= l.value
  {
    if |g| == 0 then None
    else
      var n := |g| - 1;
      assert forall i :: 0 <= i < n ==> g[..n][i] == g[i];
      MaxOpt(LatestOf(g[..n]), g[n].latest)
  }

  /** The one report of a service, built from its group. */
  function MergeGroup(service: string, g: seq<Report>): (r: Report)
    requires |g| >= 1
    ensures r.service == service
    ensures r.earliest.None? <==> forall i :: 0 <= i < |g| ==> g[i].earliest.None?
    ensures r.earliest.Some? ==> exists i :: 0 <= i < |g| && g[i].earliest == r.earliest
    ensures r.earliest.Some? ==> forall i :: 0 <= i < |g| && g[i].earliest.Some? ==> r.earliest.value <= g[i].earliest.value
    ensures r.latest.None? <==> forall i :: 0 <= i < |g| ==> g[i].latest.None?
    ensures r.latest.Some? ==> exists i :: 0 <= i < |g| && g[i].latest == r.latest
    ensures r.latest.Some? ==> forall i :: 0 <= i < |g| && g[i].latest.Some? ==> g[i].latest.value <= r.latest.value
    ensures forall c :: Get(r.counts, c) == CountIn(g, c)
    ensures forall i :: 0 <= i < |g| ==> g[i].rotations <= r.rotations
    ensures r.rotations == SumRotations(g)
  {
    SumRotationsBounds(g);
    Report(service, EarliestOf(g), LatestOf(g), MergeCounts(g), SumRotations(g))
  }

  /** Merging consistent reports gives a consistent report. */
  lemma MergeGroupConsistent(service: string, g: seq<Report>)
    requires |g| >= 1
    requires forall i :: 0 <= i < |g| ==> Consistent(g[i])
    ensures Consistent(MergeGroup(service, g))
  {
    var e, l := EarliestOf(g), LatestOf(g);
    if e.Some? {
      var i :| 0 <= i < |g| && g[i].earliest == e;
      var j :| 0 <= j < |g| && g[j].latest == l;
      assert g[i].latest.Some?;
    } else {
      forall c
        ensures Get(MergeCounts(g), c) == 0
      {
        CountInNone(g, c);
      }
    }
  }

  /** Reports without entries have empty histograms, so their counts sum to zero. */
  lemma {:induction false} CountInNone(g: seq<Report>, c: string)
    requires forall i :: 0 <= i < |g| ==> Consistent(g[i]) && g[i].earliest.None?
    ensures CountIn(g, c) == 0
  {
    if |g| > 0 {
      var n := |g| - 1;
      assert forall i :: 0 <= i < n ==> g[..n][i] == g[i];
      CountInNone(g[..n], c);
    }
  }

  /**
   * The rotation count of every file of a service is the count of the whole
   * directory, so summing it over the group multiplies it by the number of
   * files the service has.
   */
  lemma {:induction false} MergedRotationsOvercount(g: seq<Report>, k: nat)
    requires forall i :: 0 <= i < |g| ==> g[i].rotations == k
    ensures SumRotations(g) == |g| * k
  {
    if |g| > 0 {
      var n := |g| - 1;
      assert forall i :: 0 <= i < n ==> g[..n][i] == g[i];
      MergedRotationsOvercount(g[..n], k);
    }
  }

  /** Every service of the reports has a non-empty group. */
  lemma GroupsNonEmpty(rs: seq<Report>)
    ensures forall s :: s in Services(rs) ==> |Group(rs, s)| >= 1
  {
    forall s | s in Services(rs)
      ensures |Group(rs, s)| >= 1
    {
      GroupNonEmpty(rs, s);
    }
  }

  /** One merged report per service, in order of first appearance. */
  function Merge(rs: seq<Report>): (out: seq<Report>)
    ensures |out| == |Services(rs)|
    ensures forall i :: 0 <= i < |out| ==> out[i].service == Services(rs)[i]
    ensures forall i :: 0 <= i < |out| ==>
      |Group(rs, out[i].service)| >= 1 && out[i] == MergeGroup(out[i].service, Group(rs, out[i].service))
  {
    var ss := Services(rs);
    GroupsNonEmpty(rs);
    seq(|ss|, i requires 0 <= i < |ss| => MergeGroup(ss[i], Group(rs, ss[i])))
  }

  /** Every service of the input has exactly one report in the output, and no other service does. */
  lemma MergeOnePerService(rs: seq<Report>)
    ensures forall i, j :: 0 <= i < j < |Merge(rs)| ==> Merge(rs)[i].service != Merge(rs)[j].service
    ensures forall s :: HasService(rs, s) <==> HasService(Merge(rs), s)
  {
    var out, ss := Merge(rs), Services(rs);
    forall s | HasService(rs, s)
      ensures HasService(out, s)
    {
      var j :| 0 <= j < |ss| && ss[j] == s;
      assert out[j].service == s;
    }
    forall s | HasService(out, s)
      ensures HasService(rs, s)
    {
      var j :| 0 <= j < |out| && out[j].service == s;
      assert ss[j] in ss;
    }
  }

  /** Merging consistent reports gives consistent reports. */
  lemma MergeConsistent(rs: seq<Report>)
    requires forall i :: 0 <= i < |rs| ==> Consistent(rs[i])
    ensures forall j :: 0 <= j < |Merge(rs)| ==> Consistent(Merge(rs)[j])
  {
    var out := Merge(rs);
    forall j | 0 <= j < |out|
      ensures Consistent(out[j])
    {
      var g := Group(rs, out[j].service);
      forall i | 0 <= i < |g|
        ensures Consistent(g[i])
      {
        assert g[i] in rs;
      }
      MergeGroupConsistent(out[j].service, g);
    }
  }

  /* ---------------------------------------------------------- The job */

  /** `Directory.GetFiles(logDirectory)` as names. */
  function Names(dir: seq<LogFile>): (names: seq<string>)
    ensures |names| == |dir|
    ensures forall i :: 0 <= i < |dir| ==> names[i] == dir[i].name
  {
    seq(|dir|, i requires 0 <= i < |dir| => dir[i].name)
  }

  /** The files whose service name, read off the name without its extension, the filter accepts. */
  function Selected(dir: seq<LogFile>, accept: string -> bool): (fs: seq<LogFile>)
    ensures |fs| <= |dir|
    ensures forall f :: f in fs <==> f in dir && accept(FilterKey(f.name))
    ensures forall f :: multiset(fs)[f] == if accept(FilterKey(f.name)) then multiset(dir)[f] else 0
  {
    Keep(dir, (f: LogFile) => accept(FilterKey(f.name)))
  }

  /** The files `keep` holds for, in directory order. */
  function Keep(dir: seq<LogFile>, keep: LogFile -> bool): (fs: seq<LogFile>)
    ensures |fs| <= |dir|
    ensures forall f :: f in fs <==> f in dir && keep(f)
    ensures forall f :: multiset(fs)[f] == if keep(f) then multiset(dir)[f] else 0
  {
    if |dir| == 0 then []
    else
      var n := |dir| - 1;
      var front := Keep(dir[..n], keep);
      assert dir == dir[..n] + [dir[n]];
      if keep(dir[n]) then front + [dir[n]] else front
  }

  /** The first failure among the results, or all their values. */
  function Gather<T, E>(results: seq<Result<T, E>>): (r: Result<seq<T>, E>)
    ensures r.Success? <==> forall i :: 0 <= i < |results| ==> results[i].Success?
    ensures r.Success? ==> |r.value| == |results|
    ensures r.Success? ==> forall i :: 0 <= i < |results| ==> r.value[i] == results[i].value
    ensures r.Failure? ==> exists i :: 0 <= i < |results| && results[i] == Failure(r.error)
  {
    if |results| == 0 then Success([])
    else
      var rest := results[1..];
      assert forall i :: 1 <= i < |results| ==> results[i] == rest[i - 1];
      match results[0]
      case Failure(e) => Failure(e)
      case Success(first) =>
        match Gather(rest)
        case Failure(e) => Failure(e)
        case Success(others) => Success([first] + others)
  }

  /** `f` applied to each element, in order. */
  function Map<A, B>(xs: seq<A>, f: A -> B): (ys: seq<B>)
    ensures |ys| == |xs|
    ensures forall i :: 0 <= i < |xs| ==> ys[i] == f(xs[i])
  {
    seq(|xs|, i requires 0 <= i < |xs| => f(xs[i]))
  }

  /** Mapping a sequence maps its prefix and then its last element. */
  lemma MapSnoc<A, B>(xs: seq<A>, f: A -> B)
    requires |xs| >= 1
    ensures Map(xs, f) == Map(xs[..|xs| - 1], f) + [f(xs[|xs| - 1])]
  {
    var n := |xs| - 1;
    var ys, zs := Map(xs, f), Map(xs[..n], f) + [f(xs[n])];
    forall i | 0 <= i < |ys|
      ensures ys[i] == zs[i]
    {
      if i < n {
        assert xs[..n][i] == xs[i];
      }
    }
    SamePointwise(ys, zs);
  }

  /** Processing one file against the listing, as a function value. */
  function ProcessFile(parse: string -> Option<int>, listing: seq<string>): LogFile -> Result<Report, FileError> {
    f => FileReport(f, parse, listing)
  }

  /** What processing each file gives, in order. */
  function Results(fs: seq<LogFile>, parse: string -> Option<int>, listing: seq<string>): (rs: seq<Result<Report, FileError>>)
    ensures |rs| == |fs|
    ensures forall i :: 0 <= i < |fs| ==> rs[i] == FileReport(fs[i], parse, listing)
  {
    Map(fs, ProcessFile(parse, listing))
  }

  /**
   * The reports of the files in order, or the exception of the first file
   * that throws (the one `await Task.WhenAll` rethrows).
   */
  function FileReports(fs: seq<LogFile>, parse: string -> Option<int>, listing: seq<string>): (r: Result<seq<Report>, FileError>)
    ensures r.Success? <==> forall i :: 0 <= i < |fs| ==> FileReport(fs[i], parse, listing).Success?
    ensures r.Success? ==> |r.value| == |fs|
    ensures r.Success? ==> forall i :: 0 <= i < |fs| ==> r.value[i] == FileReport(fs[i], parse, listing).value
    ensures r.Failure? ==> exists i :: 0 <= i < |fs| && FileReport(fs[i], parse, listing) == Failure(r.error)
  {
    Gather(Results(fs, parse, listing))
  }

  /**
   * The job: select the files, process each against the directory listing,
   * and merge their reports per service; any file that throws fails the job.
   */
  function GenerateReports(dir: seq<LogFile>, accept: string -> bool, parse: string -> Option<int>): (r: Result<seq<Report>, FileError>)
    ensures r.Success? <==>
      forall f :: f in dir && accept(FilterKey(f.name)) ==> FileReport(f, parse, Names(dir)).Success?
    ensures r.Success? ==> forall j :: 0 <= j < |r.value| ==> Consistent(r.value[j])
    ensures r.Success? ==> forall i, j :: 0 <= i < j < |r.value| ==> r.value[i].service != r.value[j].service
    ensures r.Success? ==> forall s :: HasService(r.value, s) <==>
      exists f :: f in dir && accept(FilterKey(f.name)) && ServiceName(f.name) == Some(s)
  {
    var fs := Selected(dir, accept);
    SelectedReports(dir, accept, parse);
    match FileReports(fs, parse, Names(dir))
    case Failure(e) => Failure(e)
    case Success(rs) =>
      MergeConsistent(rs);
      MergeOnePerService(rs);
      ReportServices(dir, accept, parse);
      Success(Merge(rs))
  }

  /** The reports of the selected files name exactly the services of the accepted files. */
  lemma ReportServices(dir: seq<LogFile>, accept: string -> bool, parse: string -> Option<int>)
    requires FileReports(Selected(dir, accept), parse, Names(dir)).Success?
    ensures forall s :: HasService(FileReports(Selected(dir, accept), parse, Names(dir)).value, s) <==>
      exists f :: f in dir && accept(FilterKey(f.name)) && ServiceName(f.name) == Some(s)
  {
    var fs := Selected(dir, accept);
    var rs := FileReports(fs, parse, Names(dir)).value;
    forall s | HasService(rs, s)
      ensures exists f :: f in dir && accept(FilterKey(f.name)) && ServiceName(f.name) == Some(s)
    {
      var i :| 0 <= i < |rs| && rs[i].service == s;
      ReportService(fs, parse, Names(dir), i);
      assert fs[i] in fs;
    }
    forall s | exists f :: f in dir && accept(FilterKey(f.name)) && ServiceName(f.name) == Some(s)
      ensures HasService(rs, s)
    {
      var f :| f in dir && accept(FilterKey(f.name)) && ServiceName(f.name) == Some(s);
      assert f in fs;
      SelectedFileReported(fs, parse, Names(dir), f);
    }
  }

  /** A processed file's service has a report. */
  lemma SelectedFileReported(fs: seq<LogFile>, parse: string -> Option<int>, listing: seq<string>, f: LogFile)
    requires FileReports(fs, parse, listing).Success? && f in fs
    ensures ServiceName(f.name).Some? && HasService(FileReports(fs, parse, listing).value, ServiceName(f.name).value)
  {
    var i :| 0 <= i < |fs| && fs[i] == f;
    ReportService(fs, parse, listing, i);
  }

  /** The `i`-th report is reported under the `i`-th file's service name. */
  lemma ReportService(fs: seq<LogFile>, parse: string -> Option<int>, listing: seq<string>, i: nat)
    requires FileReports(fs, parse, listing).Success? && i < |fs|
    ensures i < |FileReports(fs, parse, listing).value|
    ensures ServiceName(fs[i].name) == Some(FileReports(fs, parse, listing).value[i].service)
  {
  }

  /** The files of `fs` that belong to `service`, in order. */
  function FilesOf(fs: seq<LogFile>, service: string): (g: seq<LogFile>)
    ensures |g| <= |fs|
    ensures forall f :: multiset(g)[f] == if ServiceName(f.name) == Some(service) then multiset(fs)[f] else 0
  {
    if |fs| == 0 then []
    else
      var n := |fs| - 1;
      assert fs == fs[..n] + [fs[n]];
      FilesOf(fs[..n], service) + if ServiceName(fs[n].name) == Some(service) then [fs[n]] else []
  }

  /** Gathering one more result appends its value. */
  lemma GatherSnoc<T, E>(xs: seq<Result<T, E>>)
    requires |xs| >= 1 && Gather(xs).Success?
    ensures Gather(xs[..|xs| - 1]).Success?
    ensures Gather(xs).value == Gather(xs[..|xs| - 1]).value + [xs[|xs| - 1].value]
  {
    var n := |xs| - 1;
    GatherPrefix(xs, n);
    var a, c := Gather(xs).value, Gather(xs[..n]).value + [xs[n].value];
    forall i | 0 <= i < |a|
      ensures a[i] == c[i]
    {
      GatherSnocAt(xs, i);
    }
    SamePointwise(a, c);
  }

  /** A prefix of results that all succeed also gathers. */
  lemma GatherPrefix<T, E>(xs: seq<Result<T, E>>, n: nat)
    requires n <= |xs| && Gather(xs).Success?
    ensures Gather(xs[..n]).Success?
  {
    forall i | 0 <= i < n
      ensures xs[..n][i].Success?
    {
      assert xs[..n][i] == xs[i];
    }
  }

  /** `GatherSnoc` at one index. */
  lemma GatherSnocAt<T, E>(xs: seq<Result<T, E>>, i: nat)
    requires |xs| >= 1 && Gather(xs).Success? && Gather(xs[..|xs| - 1]).Success?
    requires i < |xs|
    ensures i < |Gather(xs).value|
    ensures Gather(xs).value[i] == (Gather(xs[..|xs| - 1]).value + [xs[|xs| - 1].value])[i]
  {
    var n := |xs| - 1;
    if i < n {
      assert xs[..n][i] == xs[i];
    }
  }

  /** Sequences of one length that agree at every index are equal. */
  lemma SamePointwise<T>(a: seq<T>, b: seq<T>)
    requires |a| == |b|
    requires forall i :: 0 <= i < |a| ==> a[i] == b[i]
    ensures a == b
  {
  }

  /** Gathering after appending one successful result. */
  lemma GatherAppend<T, E>(xs: seq<Result<T, E>>, x: Result<T, E>)
    requires Gather(xs).Success? && x.Success?
    ensures Gather(xs + [x]) == Success(Gather(xs).value + [x.value])
  {
    var ys := xs + [x];
    assert ys[..|xs|] == xs;
    assert forall i :: 0 <= i < |ys| ==> ys[i].Success?;
    GatherSnoc(ys);
  }

  /** The results of a prefix of the files are a prefix of the results. */
  lemma ResultsSnoc(fs: seq<LogFile>, parse: string -> Option<int>, listing: seq<string>)
    requires |fs| >= 1
    ensures Results(fs, parse, listing) ==
      Results(fs[..|fs| - 1], parse, listing) + [FileReport(fs[|fs| - 1], parse, listing)]
  {
    MapSnoc(fs, ProcessFile(parse, listing));
  }

  /** Processing one more file appends its report. */
  lemma FileReportsSnoc(fs: seq<LogFile>, parse: string -> Option<int>, listing: seq<string>)
    requires |fs| >= 1 && FileReports(fs, parse, listing).Success?
    ensures var n := |fs| - 1;
      && FileReports(fs[..n], parse, listing).Success?
      && FileReports(fs, parse, listing).value ==
           FileReports(fs[..n], parse, listing).value + [FileReport(fs[n], parse, listing).value]
  {
    var n := |fs| - 1;
    var xs := Results(fs, parse, listing);
    ResultsSnoc(fs, parse, listing);
    assert xs[..n] == Results(fs[..n], parse, listing);
    GatherSnoc(xs);
  }

  /** When all the files are processed, so is every prefix of them. */
  lemma FileReportsPrefix(fs: seq<LogFile>, parse: string -> Option<int>, listing: seq<string>, n: nat)
    requires n <= |fs| && FileReports(fs, parse, listing).Success?
    ensures FileReports(fs[..n], parse, listing).Success?
  {
    forall i | 0 <= i < n
      ensures FileReport(fs[..n][i], parse, listing).Success?
    {
      assert fs[..n][i] == fs[i];
    }
  }

  /** Processing the files of one service, given as the files so far plus one more. */
  lemma FileReportsOfSnoc(front: seq<LogFile>, f: LogFile, parse: string -> Option<int>, listing: seq<string>)
    requires FileReports(front, parse, listing).Success? && FileReport(f, parse, listing).Success?
    ensures FileReports(front + [f], parse, listing) ==
      Success(FileReports(front, parse, listing).value + [FileReport(f, parse, listing).value])
  {
    var fs := front + [f];
    ResultsSnoc(fs, parse, listing);
    assert fs[..|front|] == front;
    GatherAppend(Results(front, parse, listing), FileReport(f, parse, listing));
  }

  /**
   * One `GroupBy` group is the reports of that service's files, in the
   * order of the files.
   */
  lemma {:induction false} GroupIsFilesOf(fs: seq<LogFile>, parse: string -> Option<int>, listing: seq<string>, service: string)
    requires FileReports(fs, parse, listing).Success?
    ensures FileReports(FilesOf(fs, service), parse, listing).Success?
    ensures Group(FileReports(fs, parse, listing).value, service) == FileReports(FilesOf(fs, service), parse, listing).value
  {
    GroupedAsFilesAll(fs, parse, listing, service);
  }

  /** When the files are all processed, the group of `service` is the reports of its files. */
  predicate GroupedAsFiles(fs: seq<LogFile>, parse: string -> Option<int>, listing: seq<string>, service: string) {
    FileReports(fs, parse, listing).Success? ==>
      && FileReports(FilesOf(fs, service), parse, listing).Success?
      && Group(FileReports(fs, parse, listing).value, service) == FileReports(FilesOf(fs, service), parse, listing).value
  }

  lemma {:induction false} GroupedAsFilesAll(fs: seq<LogFile>, parse: string -> Option<int>, listing: seq<string>, service: string)
    ensures GroupedAsFiles(fs, parse, listing, service)
  {
    if |fs| > 0 {
      GroupedAsFilesAll(fs[..|fs| - 1], parse, listing, service);
      GroupedAsFilesStep(fs, parse, listing, service);
    }
  }

  lemma GroupedAsFilesStep(fs: seq<LogFile>, parse: string -> Option<int>, listing: seq<string>, service: string)
    requires |fs| >= 1
    requires GroupedAsFiles(fs[..|fs| - 1], parse, listing, service)
    ensures GroupedAsFiles(fs, parse, listing, service)
  {
    if FileReports(fs, parse, listing).Success? {
      FileReportsPrefix(fs, parse, listing, |fs| - 1);
      GroupOfSnoc(fs, parse, listing, service);
    }
  }

  /** The step of `GroupIsFilesOf`: one more file joins its service's group. */
  lemma GroupOfSnoc(fs: seq<LogFile>, parse: string -> Option<int>, listing: seq<string>, service: string)
    requires |fs| >= 1 && FileReports(fs, parse, listing).Success?
    requires FileReports(fs[..|fs| - 1], parse, listing).Success?
    requires FileReports(FilesOf(fs[..|fs| - 1], service), parse, listing).Success?
    requires Group(FileReports(fs[..|fs| - 1], parse, listing).value, service) ==
      FileReports(FilesOf(fs[..|fs| - 1], service), parse, listing).value
    ensures FileReports(FilesOf(fs, service), parse, listing).Success?
    ensures Group(FileReports(fs, parse, listing).value, service) == FileReports(FilesOf(fs, service), parse, listing).value
  {
    var n := |fs| - 1;
    FileReportsSnoc(fs, parse, listing);
    var rs := FileReports(fs, parse, listing).value;
    var front := FileReports(fs[..n], parse, listing).value;
    var r := FileReport(fs[n], parse, listing).value;
    assert rs[..n] == front;
    assert rs[n] == r;
    var g := FilesOf(fs[..n], service);
    FilesOfLast(fs, service);
    if r.service == service {
      FileReportsOfSnoc(g, fs[n], parse, listing);
    }
  }

  /** The files of a service gain the last file exactly when it belongs to the service. */
  lemma FilesOfLast(fs: seq<LogFile>, service: string)
    requires |fs| >= 1
    ensures var n := |fs| - 1;
      FilesOf(fs, service) == if ServiceName(fs[n].name) == Some(service) then FilesOf(fs[..n], service) + [fs[n]] else FilesOf(fs[..n], service)
  {
    var n := |fs| - 1;
    assert FilesOf(fs[..n], service) + [] == FilesOf(fs[..n], service);
  }

  /**
   * Each report of the job is the merge of the reports of its service's
   * selected files.
   */
  lemma GenerateReportsMerged(dir: seq<LogFile>, accept: string -> bool, parse: string -> Option<int>)
    requires GenerateReports(dir, accept, parse).Success?
    ensures var fs := Selected(dir, accept);
      forall r :: r in GenerateReports(dir, accept, parse).value ==>
        && |FilesOf(fs, r.service)| >= 1
        && FileReports(FilesOf(fs, r.service), parse, Names(dir)).Success?
        && r == MergeGroup(r.service, FileReports(FilesOf(fs, r.service), parse, Names(dir)).value)
  {
    var fs := Selected(dir, accept);
    var rs := FileReports(fs, parse, Names(dir)).value;
    forall r | r in GenerateReports(dir, accept, parse).value
      ensures |FilesOf(fs, r.service)| >= 1
      ensures FileReports(FilesOf(fs, r.service), parse, Names(dir)).Success?
      ensures r == MergeGroup(r.service, FileReports(FilesOf(fs, r.service), parse, Names(dir)).value)
    {
      GroupIsFilesOf(fs, parse, Names(dir), r.service);
    }
  }

  /** The selected files all yield a report exactly when every accepted file of the directory does. */
  lemma SelectedReports(dir: seq<LogFile>, accept: string -> bool, parse: string -> Option<int>)
    ensures FileReports(Selected(dir, accept), parse, Names(dir)).Success? <==>
      forall f :: f in dir && accept(FilterKey(f.name)) ==> FileReport(f, parse, Names(dir)).Success?
  {
    FileReportsEach(Selected(dir, accept), parse, Names(dir));
  }

  /** The files all yield a report exactly when each file does. */
  lemma FileReportsEach(fs: seq<LogFile>, parse: string -> Option<int>, listing: seq<string>)
    ensures FileReports(fs, parse, listing).Success? <==> forall f :: f in fs ==> FileReport(f, parse, listing).Success?
  {
    if FileReports(fs, parse, listing).Success? {
      forall f | f in fs
        ensures FileReport(f, parse, listing).Success?
      {
        var i :| 0 <= i < |fs| && fs[i] == f;
      }
    }
  }

  /** Every file report carries the directory-wide rotation count of its service. */
  lemma FileReportsRotations(fs: seq<LogFile>, parse: string -> Option<int>, listing: seq<string>)
    requires FileReports(fs, parse, listing).Success?
    ensures forall r :: r in FileReports(fs, parse, listing).value ==> r.rotations == RotationsFor(listing, r.service)
  {
    var rs := FileReports(fs, parse, listing).value;
    forall r | r in rs
      ensures r.rotations == RotationsFor(listing, r.service)
    {
      var k :| 0 <= k < |rs| && rs[k] == r;
      assert r == FileReport(fs[k], parse, listing).value;
    }
  }

  /**
   * When every report carries the rotation count of its service, each merged
   * report carries that count times the size of the service's group.
   */
  lemma MergeRotations(rs: seq<Report>, listing: seq<string>)
    requires forall r :: r in rs ==> r.rotations == RotationsFor(listing, r.service)
    ensures forall r :: r in Merge(rs) ==> r.rotations == |Group(rs, r.service)| * RotationsFor(listing, r.service)
  {
    forall r | r in Merge(rs)
      ensures r.rotations == |Group(rs, r.service)| * RotationsFor(listing, r.service)
    {
      MergedRotations(rs, r);
      GroupRotations(rs, r.service, listing);
    }
  }

  /** A merged report sums the rotation counts of its group. */
  lemma MergedRotations(rs: seq<Report>, r: Report)
    requires r in Merge(rs)
    ensures r.rotations == SumRotations(Group(rs, r.service))
  {
    var k :| 0 <= k < |Merge(rs)| && Merge(rs)[k] == r;
  }

  /** The group of a service whose reports all carry its rotation count sums to that count times its size. */
  lemma GroupRotations(rs: seq<Report>, service: string, listing: seq<string>)
    requires forall r :: r in rs ==> r.rotations == RotationsFor(listing, r.service)
    ensures SumRotations(Group(rs, service)) == |Group(rs, service)| * RotationsFor(listing, service)
  {
    var g := Group(rs, service);
    forall i | 0 <= i < |g|
      ensures g[i].rotations == RotationsFor(listing, service)
    {
      assert g[i] in rs;
    }
    MergedRotationsOvercount(g, RotationsFor(listing, service));
  }

  /**
   * The merged rotation count of a service is its directory-wide count
   * times the number of its files the filter selected.
   */
  lemma GenerateReportsRotations(dir: seq<LogFile>, accept: string -> bool, parse: string -> Option<int>)
    requires GenerateReports(dir, accept, parse).Success?
    ensures var rs := FileReports(Selected(dir, accept), parse, Names(dir)).value;
      forall r :: r in GenerateReports(dir, accept, parse).value ==>
        r.rotations == |Group(rs, r.service)| * RotationsFor(Names(dir), r.service)
    ensures forall r :: r in GenerateReports(dir, accept, parse).value ==>
      r.rotations == |FilesOf(Selected(dir, accept), r.service)| * RotationsFor(Names(dir), r.service)
  {
    var fs := Selected(dir, accept);
    FileReportsRotations(fs, parse, Names(dir));
    MergeRotations(FileReports(fs, parse, Names(dir)).value, Names(dir));
    forall r | r in GenerateReports(dir, accept, parse).value
      ensures |Group(FileReports(fs, parse, Names(dir)).value, r.service)| == |FilesOf(fs, r.service)|
    {
      GroupIsFilesOf(fs, parse, Names(dir), r.service);
    }
  }

  /**
   * A directory with `auth.log` and `auth.1.log` holds one rotation file of
   * service `auth`.
   */
  lemma AuthRotations(listing: seq<string>)
    requires listing == ["auth.log", "auth.1.log"]
    ensures RotationsFor(listing, "auth") == 1
  {
    assert !MatchesServicePattern("auth.log", "auth");
    assert MatchesServicePattern("auth.1.log", "auth");
    assert listing[..1] == ["auth.log"];
    assert ServiceFiles(listing[..1], "auth") == [];
    var files := ServiceFiles(listing, "auth");
    assert files == ["auth.1.log"];
    assert IsRotationFile(files[0]);
  }

  /**
   * The reports of `auth.log` (two INFO lines) and `auth.1.log` (one ERROR
   * line), each carrying the directory's one rotation file, merge into one
   * `auth` report whose span covers both files, whose histogram adds up, and
   * whose rotation count is two.
   */
  lemma AuthScenario(a: Report, b: Report)
    requires a == Report("auth", Some(10), Some(20), map["INFO" := 2], 1)
    requires b == Report("auth", Some(30), Some(30), map["ERROR" := 1], 1)
    ensures Merge([a, b]) == [Report("auth", Some(10), Some(30), map["INFO" := 2, "ERROR" := 1], 2)]
  {
    var rs := [a, b];
    AuthGrouping(rs, a, b);
    MergeOneService(rs, "auth");
    AuthMergeGroup(Group(rs, "auth"), a, b);
  }

  /** Reports of a single service merge into the one report of their group. */
  lemma MergeOneService(rs: seq<Report>, service: string)
    requires Services(rs) == [service]
    ensures |Group(rs, service)| >= 1
    ensures Merge(rs) == [MergeGroup(service, Group(rs, service))]
  {
    var out := Merge(rs);
    assert out[0].service == service;
  }

  /** Both scenario reports fall into the one group of `auth`. */
  lemma AuthGrouping(rs: seq<Report>, a: Report, b: Report)
    requires a.service == "auth" && b.service == "auth" && rs == [a, b]
    ensures Services(rs) == ["auth"]
    ensures Group(rs, "auth") == [a, b]
  {
    assert rs[..1] == [a];
    assert Services(rs[..1]) == ["auth"];
    assert Group(rs[..1], "auth") == [a];
  }

  /** The merge of the scenario's group. */
  lemma AuthMergeGroup(g: seq<Report>, a: Report, b: Report)
    requires a == Report("auth", Some(10), Some(20), map["INFO" := 2], 1)
    requires b == Report("auth", Some(30), Some(30), map["ERROR" := 1], 1)
    requires g == [a, b]
    ensures MergeGroup("auth", g) == Report("auth", Some(10), Some(30), map["INFO" := 2, "ERROR" := 1], 2)
  {
    assert g[..1] == [a];
    assert EarliestOf(g) == Some(10);
    assert LatestOf(g) == Some(30);
    assert g[..0] == [];
    assert SumRotations(g[..1]) == 1;
    assert SumRotations(g) == 2;
    MergeCountsUnfold(g);
    AuthCounts(a.counts, b.counts);
  }

  /** Merging the two scenario histograms. */
  lemma AuthCounts(x: Counts, y: Counts)
    requires x == map["INFO" := 2] && y == map["ERROR" := 1]
    ensures UnionSum(x, y) == map["INFO" := 2, "ERROR" := 1]
  {
    var u := UnionSum(x, y);
    assert "INFO" != "ERROR" by {
      assert "INFO"[0] != "ERROR"[0];
    }
    assert u.Keys == {"INFO", "ERROR"};
    assert u["INFO"] == Get(u, "INFO") == 2;
    assert u["ERROR"] == Get(u, "ERROR") == 1;
  }
}
