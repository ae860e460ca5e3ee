/**
 * `ProcessLogFileAsync`: the report of one log file. The service name comes
 * from the file name, the lines are folded into a time span and a category
 * histogram, and the rotation files of the service are counted in the
 * directory listing.
 *
 * A file is its name and its lines. The directory listing that the rotation
 * search looks at is a list of file names.
 */
module FileParsing {
  import opened Wrappers
  import opened Text
  import opened FileNames
  import opened Histogram
  import opened Span
  import opened LineParsing

  /** The exceptions that end the processing of a file, and with it the whole job. */
  datatype FileError =
    | FileNameInvalid                         // no '.' in the file name
    | BadLine(index: nat, reason: LineError)  // the first line whose parsing threw

  /** A log file: its name within the directory and its lines. */
  datatype LogFile = LogFile(name: string, lines: seq<string>)

  /** `LogReport`: one service's time span, category histogram and rotation count. */
  datatype Report = Report(
    service: string,
    earliest: Option<int>,
    latest: Option<int>,
    counts: Counts,
    rotations: nat)

  /** The state of the per-line loop: `minDate`, `maxDate` and `categoryCounts`. */
  datatype Summary = Summary(earliest: Option<int>, latest: Option<int>, counts: Counts)

  /** A report whose span is ordered and whose histogram holds no empty category. */
  predicate Consistent(r: Report) {
    && Ordered(r.earliest, r.latest)
    && (r.earliest.None? ==> r.counts == map[])
    && Positive(r.counts)
  }

  /* ------------------------------------------------------------- Events */

  /** What one iteration of the loop makes of a line. */
  type Outcome = Result<Option<Event>, LineError>

  /** The outcome of every line, in order. */
  function Outcomes(lines: seq<string>, parse: string -> Option<int>): (os: seq<Outcome>)
    ensures |os| == |lines|
    ensures forall i :: 0 <= i < |lines| ==> os[i] == ParseLine(lines[i], parse)
  {
    seq(|lines|, i requires 0 <= i < |lines| => ParseLine(lines[i], parse))
  }

  /**
   * The loop over the outcomes: the events in order, the skipped lines
   * left out, and the first line that throws aborting the file.
   */
  function Collect(os: seq<Outcome>): (r: Result<seq<Event>, FileError>)
    ensures r.Success? <==> forall i :: 0 <= i < |os| ==> os[i].Success?
    ensures r.Success? ==> |r.value| <= |os|
    ensures r.Failure? ==>
      && r.error.BadLine?
      && r.error.index < |os|
      && os[r.error.index] == Failure(r.error.reason)
      && forall i :: 0 <= i < r.error.index ==> os[i].Success?
  {
    if |os| == 0 then Success([])
    else
      var n := |os| - 1;
      var front := os[..n];
      assert forall i :: 0 <= i < n ==> front[i] == os[i];
      match Collect(front)
      case Failure(e) => Failure(e)
      case Success(evs) =>
        match os[n]
        case Failure(why) => Failure(BadLine(n, why))
        case Success(None) => Success(evs)
        case Success(Some(ev)) => Success(evs + [ev])
  }

  /** The events of a file's lines, or the first line's exception. */
  function Events(lines: seq<string>, parse: string -> Option<int>): (r: Result<seq<Event>, FileError>)
    ensures r.Success? <==> forall i :: 0 <= i < |lines| ==> ParseLine(lines[i], parse).Success?
    ensures r.Failure? ==>
      && r.error.BadLine?
      && r.error.index < |lines|
      && ParseLine(lines[r.error.index], parse) == Failure(r.error.reason)
      && forall i :: 0 <= i < r.error.index ==> ParseLine(lines[i], parse).Success?
  {
    Collect(Outcomes(lines, parse))
  }

  /** A failure in a prefix of the outcomes is the failure of the whole file. */
  lemma {:induction false} CollectPrefixFailure(os: seq<Outcome>, j: nat)
    requires j <= |os|
    requires Collect(os[..j]).Failure?
    ensures Collect(os) == Collect(os[..j])
    decreases |os| - j
  {
    if j < |os| {
      var k := j + 1;
      assert os[..k][..j] == os[..j];
      CollectPrefixFailure(os, k);
    } else {
      assert os[..j] == os;
    }
  }

  /** Collecting one more outcome: skip it, add its event, or stop at its failure. */
  lemma CollectStep(os: seq<Outcome>, i: nat, evs: seq<Event>)
    requires i < |os| && Collect(os[..i]) == Success(evs)
    ensures os[i] == Success(None) ==> Collect(os[..i + 1]) == Success(evs)
    ensures os[i].Success? && os[i].value.Some? ==> Collect(os[..i + 1]) == Success(evs + [os[i].value.value])
    ensures os[i].Failure? ==> Collect(os[..i + 1]) == Failure(BadLine(i, os[i].error))
  {
    assert os[..i + 1][..i] == os[..i];
  }

  /** The events of the outcomes that yield one, in order, whether or not some line throws. */
  function Yielded(os: seq<Outcome>): seq<Event> {
    if |os| == 0 then []
    else
      var n := |os| - 1;
      Yielded(os[..n]) + if os[n].Success? && os[n].value.Some? then [os[n].value.value] else []
  }

  /** When no line throws, the events are exactly those the lines yield. */
  lemma {:induction false} CollectIsYielded(os: seq<Outcome>)
    requires Collect(os).Success?
    ensures Collect(os).value == Yielded(os)
  {
    if |os| > 0 {
      var n := |os| - 1;
      CollectIsYielded(os[..n]);
    }
  }

  /** Appending lines whose timestamp does not parse changes nothing. */
  lemma {:induction false} SkippedLinesChangeNothing(os: seq<Outcome>, skipped: seq<Outcome>)
    requires forall i :: 0 <= i < |skipped| ==> skipped[i] == Success(None)
    ensures Collect(os + skipped) == Collect(os)
    decreases |skipped|
  {
    if |skipped| == 0 {
      assert os + skipped == os;
    } else {
      var n := |skipped| - 1;
      assert (os + skipped)[..|os| + n] == os + skipped[..n];
      SkippedLinesChangeNothing(os, skipped[..n]);
    }
  }

  /** The events of two runs of lines are those of the first, then those of the second. */
  lemma {:induction false} YieldedAppend(x: seq<Outcome>, y: seq<Outcome>)
    ensures Yielded(x + y) == Yielded(x) + Yielded(y)
    decreases |y|
  {
    if |y| == 0 {
      assert x + y == x;
    } else {
      var n := |y| - 1;
      assert (x + y)[..|x| + n] == x + y[..n];
      YieldedAppend(x, y[..n]);
    }
  }

  /** Skipped lines yield no events. */
  lemma {:induction false} YieldedSkipped(skipped: seq<Outcome>)
    requires forall i :: 0 <= i < |skipped| ==> skipped[i] == Success(None)
    ensures Yielded(skipped) == []
  {
    if |skipped| > 0 {
      var n := |skipped| - 1;
      assert forall i :: 0 <= i < n ==> skipped[..n][i] == skipped[i];
      YieldedSkipped(skipped[..n]);
    }
  }

  /**
   * Where the lines of `a + b` stand once skipped lines are put between
   * `a` and `b`: the lines of `a` keep their place, those of `b` move by
   * `|skipped|`, and the positions in between are skipped.
   */
  lemma SkippedLayout(a: seq<Outcome>, skipped: seq<Outcome>, b: seq<Outcome>)
    requires forall i :: 0 <= i < |skipped| ==> skipped[i] == Success(None)
    ensures var long, short := a + skipped + b, a + b;
      && |long| == |short| + |skipped|
      && (forall j :: 0 <= j < |a| ==> long[j] == short[j])
      && (forall j :: |a| <= j < |short| ==> long[j + |skipped|] == short[j])
      && (forall k :: |a| <= k < |a| + |skipped| ==> long[k] == Success(None))
  {
  }

  /**
   * Lines whose timestamp does not parse change nothing, wherever they
   * stand: the file fails exactly when it fails without them, at the same
   * line (moved by the skipped lines when it comes after them) and for the
   * same reason, and otherwise yields the same events.
   */
  lemma SkippedLinesAnywhere(a: seq<Outcome>, skipped: seq<Outcome>, b: seq<Outcome>)
    requires forall i :: 0 <= i < |skipped| ==> skipped[i] == Success(None)
    ensures Collect(a + skipped + b).Success? <==> Collect(a + b).Success?
    ensures Collect(a + skipped + b).Success? ==> Collect(a + skipped + b).value == Collect(a + b).value
    ensures Collect(a + skipped + b).Failure? ==>
      && Collect(a + skipped + b).error.reason == Collect(a + b).error.reason
      && Collect(a + skipped + b).error.index ==
           if Collect(a + b).error.index < |a| then Collect(a + b).error.index
           else Collect(a + b).error.index + |skipped|
  {
    if Collect(a + b).Success? {
      SkippedSuccess(a, skipped, b);
    } else {
      SkippedFailure(a, skipped, b);
    }
  }

  /** The success half of `SkippedLinesAnywhere`. */
  lemma SkippedSuccess(a: seq<Outcome>, skipped: seq<Outcome>, b: seq<Outcome>)
    requires forall i :: 0 <= i < |skipped| ==> skipped[i] == Success(None)
    requires Collect(a + b).Success?
    ensures Collect(a + skipped + b) == Collect(a + b)
  {
    var long, short := a + skipped + b, a + b;
    SkippedLayout(a, skipped, b);
    forall k | 0 <= k < |long|
      ensures long[k].Success?
    {
      if |a| + |skipped| <= k {
        assert long[k - |skipped| + |skipped|] == short[k - |skipped|];
      }
    }
    assert Yielded(a + skipped) == Yielded(a) by {
      YieldedAppend(a, skipped);
      YieldedSkipped(skipped);
    }
    YieldedAppend(a + skipped, b);
    YieldedAppend(a, b);
    assert Yielded(long) == Yielded(short);
    CollectIsYielded(long);
    CollectIsYielded(short);
  }

  /** The failure half of `SkippedLinesAnywhere`. */
  lemma SkippedFailure(a: seq<Outcome>, skipped: seq<Outcome>, b: seq<Outcome>)
    requires forall i :: 0 <= i < |skipped| ==> skipped[i] == Success(None)
    requires Collect(a + b).Failure?
    ensures Collect(a + skipped + b).Failure?
    ensures Collect(a + skipped + b).error.reason == Collect(a + b).error.reason
    ensures Collect(a + skipped + b).error.index ==
      if Collect(a + b).error.index < |a| then Collect(a + b).error.index
      else Collect(a + b).error.index + |skipped|
  {
    var long, short := a + skipped + b, a + b;
    SkippedLayout(a, skipped, b);
    var i := Collect(short).error.index;
    var k := if i < |a| then i else i + |skipped|;
    assert long[k] == short[i];
    forall j | 0 <= j < k
      ensures long[j].Success?
    {
      if |a| + |skipped| <= j {
        assert long[j - |skipped| + |skipped|] == short[j - |skipped|];
      }
    }
  }

  /* ------------------------------------------------------------- Summary */

  /** How many events have category `c`. */
  function Occurrences(evs: seq<Event>, c: string): (n: nat)
    ensures n <= |evs|
    ensures n == 0 <==> forall i :: 0 <= i < |evs| ==> evs[i].category != c
  {
    if |evs| == 0 then 0
    else
      var n := |evs| - 1;
      assert forall i :: 0 <= i < n ==> evs[..n][i] == evs[i];
      Occurrences(evs[..n], c) + if evs[n].category == c then 1 else 0
  }

  /**
   * `s` is what the loop ends with after the events `evs`: the span is
   * absent exactly when there are none and is otherwise their smallest and
   * largest time, and every category is counted as often as it occurs.
   */
  ghost predicate Describes(s: Summary, evs: seq<Event>) {
    && (s.earliest.None? <==> |evs| == 0)
    && (s.latest.None? <==> |evs| == 0)
    && (s.earliest.Some? ==>
          && (exists i :: 0 <= i < |evs| && evs[i].time == s.earliest.value)
          && (forall i :: 0 <= i < |evs| ==> s.earliest.value <= evs[i].time))
    && (s.latest.Some? ==>
          && (exists i :: 0 <= i < |evs| && evs[i].time == s.latest.value)
          && (forall i :: 0 <= i < |evs| ==> evs[i].time <= s.latest.value))
    && (forall c :: Get(s.counts, c) == Occurrences(evs, c))
    && Positive(s.counts)
    && Total(s.counts) == |evs|
  }

  /** One parsed line: widen the span and count the category. */
  function Record(s: Summary, ev: Event): Summary {
    Summary(MinOpt(s.earliest, Some(ev.time)), MaxOpt(s.latest, Some(ev.time)), Increment(s.counts, ev.category))
  }

  /** Recording one more event keeps the earliest entry the minimum of the times. */
  lemma RecordEarliest(s: Summary, evs: seq<Event>, ev: Event)
    requires s.earliest.None? <==> |evs| == 0
    requires s.earliest.Some? ==>
      && (exists i :: 0 <= i < |evs| && evs[i].time == s.earliest.value)
      && (forall i :: 0 <= i < |evs| ==> s.earliest.value <= evs[i].time)
    ensures var e := Record(s, ev).earliest; var evs' := evs + [ev];
      && e.Some?
      && (exists i :: 0 <= i < |evs'| && evs'[i].time == e.value)
      && (forall i :: 0 <= i < |evs'| ==> e.value <= evs'[i].time)
  {
    var evs' := evs + [ev];
    assert evs'[|evs|] == ev;
    if s.earliest.Some? {
      var i :| 0 <= i < |evs| && evs[i].time == s.earliest.value;
      assert evs'[i] == evs[i];
    }
  }

  /** Recording one more event keeps the latest entry the maximum of the times. */
  lemma RecordLatest(s: Summary, evs: seq<Event>, ev: Event)
    requires s.latest.None? <==> |evs| == 0
    requires s.latest.Some? ==>
      && (exists i :: 0 <= i < |evs| && evs[i].time == s.latest.value)
      && (forall i :: 0 <= i < |evs| ==> evs[i].time <= s.latest.value)
    ensures var l := Record(s, ev).latest; var evs' := evs + [ev];
      && l.Some?
      && (exists i :: 0 <= i < |evs'| && evs'[i].time == l.value)
      && (forall i :: 0 <= i < |evs'| ==> evs'[i].time <= l.value)
  {
    var evs' := evs + [ev];
    assert evs'[|evs|] == ev;
    if s.latest.Some? {
      var i :| 0 <= i < |evs| && evs[i].time == s.latest.value;
      assert evs'[i] == evs[i];
    }
  }

  /** Recording one more event counts its category once more. */
  lemma RecordCounts(s: Summary, evs: seq<Event>, ev: Event)
    requires forall c :: Get(s.counts, c) == Occurrences(evs, c)
    ensures forall c :: Get(Record(s, ev).counts, c) == Occurrences(evs + [ev], c)
  {
    var evs' := evs + [ev];
    assert evs'[..|evs|] == evs;
  }

  /** Recording an event extends a description of `evs` to one of `evs + [ev]`. */
  lemma RecordDescribes(s: Summary, evs: seq<Event>, ev: Event)
    requires Describes(s, evs)
    ensures Describes(Record(s, ev), evs + [ev])
  {
    RecordEarliest(s, evs, ev);
    RecordLatest(s, evs, ev);
    RecordCounts(s, evs, ev);
    IncrementTotal(s.counts, ev.category);
  }

  /**
   * The loop's final state after the events, from the empty state: it
   * describes the events it has seen.
   */
  function Summarize(evs: seq<Event>): (s: Summary)
    ensures Describes(s, evs)
  {
    if |evs| == 0 then Summary(None, None, map[])
    else
      var n := |evs| - 1;
      var front := evs[..n];
      assert front + [evs[n]] == evs;
      RecordDescribes(Summarize(front), front, evs[n]);
      Record(Summarize(front), evs[n])
  }

  /** One more event is one more step of the loop. */
  lemma SummarizeStep(evs: seq<Event>, ev: Event)
    ensures Summarize(evs + [ev]) == Record(Summarize(evs), ev)
  {
    assert (evs + [ev])[..|evs|] == evs;
  }

  /** A description has an ordered span and no category without events. */
  lemma DescribedIsConsistent(s: Summary, evs: seq<Event>, service: string, rotations: nat)
    requires Describes(s, evs)
    ensures Consistent(Report(service, s.earliest, s.latest, s.counts, rotations))
  {
    if s.earliest.Some? {
      var i :| 0 <= i < |evs| && evs[i].time == s.earliest.value;
    }
  }

  /* -------------------------------------------------------------- Report */

  /** The loop's final state for the lines, or the exception of the first line that throws. */
  function FoldLines(lines: seq<string>, parse: string -> Option<int>): Result<Summary, FileError> {
    match Events(lines, parse)
    case Failure(e) => Failure(e)
    case Success(evs) => Success(Summarize(evs))
  }

  /**
   * The report of one file, or the exception that aborts it. `listing` is the
   * directory the file lives in, searched for the service's rotation files.
   */
  function FileReport(file: LogFile, parse: string -> Option<int>, listing: seq<string>): (r: Result<Report, FileError>)
    ensures r == Failure(FileNameInvalid) <==> '.' !in file.name
    ensures r.Failure? && r.error.BadLine? ==>
      Events(file.lines, parse).Failure? && r == Failure(Events(file.lines, parse).error)
    ensures '.' in file.name && Events(file.lines, parse).Failure? ==> r == Failure(Events(file.lines, parse).error)
    ensures r.Success? ==>
      && ServiceName(file.name) == Some(r.value.service)
      && Events(file.lines, parse).Success?
      && r.value.rotations == RotationsFor(listing, r.value.service)
      && Consistent(r.value)
  {
    match ServiceName(file.name)
    case None => Failure(FileNameInvalid)
    case Some(service) =>
      match FoldLines(file.lines, parse)
      case Failure(e) => Failure(e)
      case Success(s) =>
        DescribedIsConsistent(s, Events(file.lines, parse).value, service, RotationsFor(listing, service));
        Success(Report(service, s.earliest, s.latest, s.counts, RotationsFor(listing, service)))
  }

  /**
   * A report's span and histogram describe the events of the file's lines:
   * earliest and latest are the smallest and largest parsed time, and each
   * category is counted once per parsed line that carries it.
   */
  lemma FileReportDescribes(file: LogFile, parse: string -> Option<int>, listing: seq<string>)
    requires FileReport(file, parse, listing).Success?
    ensures var r := FileReport(file, parse, listing).value;
      Describes(Summary(r.earliest, r.latest, r.counts), Events(file.lines, parse).value)
  {
  }

  /**
   * The per-line loop as the controller writes it: running `minDate` and
   * `maxDate`, a mutable histogram, and an early exit on the first line that
   * throws.
   */
  method ProcessLines(lines: seq<string>, parse: string -> Option<int>) returns (r: Result<Summary, FileError>)
    ensures r == FoldLines(lines, parse)
  {
    ghost var os := Outcomes(lines, parse);
    var minDate: Option<int> := None;
    var maxDate: Option<int> := None;
    var counts: Counts := map[];
    ghost var evs: seq<Event> := [];
    for i := 0 to |lines|
      invariant Collect(os[..i]) == Success(evs)
      invariant Summarize(evs) == Summary(minDate, maxDate, counts)
    {
      var parsed := OutcomeAt(lines, parse, i);
      CollectStep(os, i, evs);
      match parsed {
        case Failure(why) =>
          FoldLinesOfFailure(lines, parse, i + 1);
          return Failure(BadLine(i, why));
        case Success(None) =>
        case Success(Some(ev)) =>
          SummarizeStep(evs, ev);
          minDate, maxDate := Widen(minDate, maxDate, ev.time);
          counts := Increment(counts, ev.category);
          evs := evs + [ev];
      }
    }
    FoldLinesOfPrefix(lines, parse, evs);
    r := Success(Summary(minDate, maxDate, counts));
  }

  /** The parse of line `i`, as the loop sees it. */
  method OutcomeAt(lines: seq<string>, parse: string -> Option<int>, i: nat) returns (o: Outcome)
    requires i < |lines|
    ensures o == Outcomes(lines, parse)[i]
  {
    o := ParseLine(lines[i], parse);
  }

  /** The loop's `minDate`/`maxDate` updates for one more parsed time. */
  method Widen(minDate: Option<int>, maxDate: Option<int>, time: int) returns (lo: Option<int>, hi: Option<int>)
    ensures lo == MinOpt(minDate, Some(time)) && hi == MaxOpt(maxDate, Some(time))
  {
    lo, hi := minDate, maxDate;
    if lo.None? || time < lo.value {
      lo := Some(time);
    }
    if hi.None? || time > hi.value {
      hi := Some(time);
    }
  }

  /** Once a prefix of the lines throws, so does the whole fold, with the same exception. */
  lemma FoldLinesOfFailure(lines: seq<string>, parse: string -> Option<int>, j: nat)
    requires j <= |lines| && Collect(Outcomes(lines, parse)[..j]).Failure?
    ensures FoldLines(lines, parse) == Failure(Collect(Outcomes(lines, parse)[..j]).error)
  {
    CollectPrefixFailure(Outcomes(lines, parse), j);
  }

  /** Once the loop has collected every line's outcome, its state is the fold's. */
  lemma FoldLinesOfPrefix(lines: seq<string>, parse: string -> Option<int>, evs: seq<Event>)
    requires Collect(Outcomes(lines, parse)[..|lines|]) == Success(evs)
    ensures FoldLines(lines, parse) == Success(Summarize(evs))
  {
    var os := Outcomes(lines, parse);
    assert os[..|lines|] == os;
  }

  /**
   * `ProcessLogFileAsync`: reject a file name without '.', fold the lines,
   * and count the service's rotation files.
   */
  method ProcessLogFile(file: LogFile, parse: string -> Option<int>, listing: seq<string>)
    returns (r: Result<Report, FileError>)
    ensures r == FileReport(file, parse, listing)
  {
    var service;
    match ServiceName(file.name) {
      case None => return Failure(FileNameInvalid);
      case Some(s) => service := s;
    }
    var folded := ProcessLines(file.lines, parse);
    match folded {
      case Failure(e) => r := Failure(e);
      case Success(s) => r := Success(Report(service, s.earliest, s.latest, s.counts, RotationsFor(listing, service)));
    }
  }
}
