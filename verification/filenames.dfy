/**
 * What the controller reads off file names: the service name (the text
 * before the first '.'), the key the service filter is matched against,
 * and the rotation count of a service.
 */
module FileNames {
  import opened Wrappers
  import opened Text

  /* -------------------------------------------------------- Service name */

  /**
   * `fileName.Split('.')[0]`, or `None` where the controller throws
   * because the split gives fewer than two parts.
   */
  function ServiceName(fileName: string): (r: Option<string>)
    ensures r.None? <==> '.' !in fileName
    ensures r.Some? ==> '.' !in r.value
    ensures r.Some? ==> |r.value| < |fileName| && fileName[..|r.value|] == r.value
    ensures r.Some? ==> fileName[|r.value|] == '.'
  {
    var parts := Split(fileName, '.');
    if |parts| < 2 then None
    else
      assert fileName == parts[0] + ['.'] + Join(parts[1..], '.');
      Some(parts[0])
  }

  /** The service name is exactly the text before the first '.'. */
  lemma ServiceNameIsFirstSegment(fileName: string, k: nat)
    requires k < |fileName| && fileName[k] == '.' && '.' !in fileName[..k]
    ensures ServiceName(fileName) == Some(fileName[..k])
  {
    IndexOfUnique(fileName, '.', k);
    SplitHead(fileName, '.');
  }

  /** `Path.GetFileNameWithoutExtension`: the name up to its last '.'. */
  function FileNameWithoutExtension(fileName: string): (r: string)
    ensures '.' !in fileName ==> r == fileName
    ensures '.' in fileName ==> |r| < |fileName| && r == fileName[..|r|] && fileName[|r|] == '.'
    ensures '.' in fileName ==> '.' !in fileName[|r| + 1..]
  {
    match LastIndexOf(fileName, '.')
    case None => fileName
    case Some(i) => fileName[..i]
  }

  /**
   * What the service filter is matched against:
   * `GetFileNameWithoutExtension(file).Split('.')[0]`, which is the text
   * before the first '.' of the name, or the whole name when it has none.
   */
  function FilterKey(fileName: string): (key: string)
    ensures '.' !in key
    ensures |key| <= |fileName| && fileName[..|key|] == key
    ensures |key| < |fileName| ==> fileName[|key|] == '.'
  {
    var stem := FileNameWithoutExtension(fileName);
    SplitHead(fileName, '.');
    match IndexOf(fileName, '.')
    case None =>
      SplitHead(stem, '.');
      Split(stem, '.')[0]
    case Some(k) =>
      StemKeepsFirstSegment(fileName, k);
      Split(stem, '.')[0]
  }

  /**
   * Dropping the extension first does not change the first segment, so the
   * filter sees the same service name that the file will be reported under.
   */
  lemma FilterKeyIsServiceName(fileName: string)
    ensures FilterKey(fileName) == Split(fileName, '.')[0]
    ensures ServiceName(fileName).Some? ==> FilterKey(fileName) == ServiceName(fileName).value
  {
    SplitHead(fileName, '.');
    match IndexOf(fileName, '.')
    case None =>
    case Some(k) =>
      StemKeepsFirstSegment(fileName, k);
  }

  /** The name without its extension still has the same text before its first '.'. */
  lemma StemKeepsFirstSegment(fileName: string, k: nat)
    requires IndexOf(fileName, '.') == Some(k)
    ensures Split(FileNameWithoutExtension(fileName), '.')[0] == fileName[..k]
  {
    var stem := FileNameWithoutExtension(fileName);
    var last := |stem|;
    assert stem[..k] == fileName[..k];
    SplitHead(stem, '.');
    if k < last {
      assert stem[k] == '.';
      IndexOfUnique(stem, '.', k);
    } else {
      assert stem == fileName[..k];
    }
  }

  /* ------------------------------------------------------------ Rotation */

  /** The regex `\d+\.log$`: a digit right before a final ".log". */
  predicate IsRotationFile(name: string) {
    |name| >= 5 && name[|name| - 4..] == ".log" && IsDigit(name[|name| - 5])
  }

  /** Every character is a digit. */
  predicate AllDigits(s: string) {
    forall k :: 0 <= k < |s| ==> IsDigit(s[k])
  }

  /**
   * What `\d+\.log$` finds somewhere in the name: a non-empty run of
   * digits that ".log" follows to the end.
   */
  ghost predicate DigitsThenLog(name: string) {
    exists i: nat :: DigitsFrom(name, i)
  }

  /** From `i` on, the name is digits and then a final ".log". */
  predicate DigitsFrom(name: string, i: nat) {
    i < |name| - 4 && AllDigits(name[i..|name| - 4]) && name[|name| - 4..] == ".log"
  }

  /** Checking the one digit before ".log" decides the regex. */
  lemma RotationRegex(name: string)
    ensures IsRotationFile(name) <==> DigitsThenLog(name)
  {
    if IsRotationFile(name) {
      var i := |name| - 5;
      assert name[i..|name| - 4] == [name[i]];
      assert DigitsFrom(name, i);
    }
    if DigitsThenLog(name) {
      var i: nat :| DigitsFrom(name, i);
      assert name[i..|name| - 4][|name| - 5 - i] == name[|name| - 5];
    }
  }

  /** The search pattern `{service}.*.log` of `Directory.GetFiles`. */
  predicate MatchesServicePattern(name: string, service: string) {
    && |name| >= |service| + 5
    && name[..|service| + 1] == service + "."
    && name[|name| - 4..] == ".log"
  }

  /** Whatever stands for the `*`, `{service}.{anything}.log` matches the search pattern. */
  lemma ServicePatternOf(service: string, mid: string)
    ensures MatchesServicePattern(service + "." + mid + ".log", service)
  {
    var name := service + "." + mid + ".log";
    assert name[..|service| + 1] == service + ".";
    assert name[|name| - 4..] == ".log";
  }

  /** Every name the search pattern matches is `{service}.{something}.log`. */
  lemma ServicePatternShape(name: string, service: string)
    requires MatchesServicePattern(name, service)
    ensures name == service + "." + name[|service| + 1..|name| - 4] + ".log"
  {
    var mid := name[|service| + 1..|name| - 4];
    assert name == name[..|service| + 1] + mid + name[|name| - 4..];
  }

  /** The directory entries a service's rotation search returns, in listing order. */
  function ServiceFiles(listing: seq<string>, service: string): (r: seq<string>)
    ensures |r| <= |listing|
    ensures forall n :: n in r <==> n in listing && MatchesServicePattern(n, service)
    ensures forall n :: multiset(r)[n] == if MatchesServicePattern(n, service) then multiset(listing)[n] else 0
  {
    if |listing| == 0 then []
    else
      var rest := ServiceFiles(listing[..|listing| - 1], service);
      var last := listing[|listing| - 1];
      assert listing == listing[..|listing| - 1] + [last];
      if MatchesServicePattern(last, service) then rest + [last] else rest
  }

  /** `files.Count(file => rotationRegex.IsMatch(file))`. */
  function CountRotations(files: seq<string>): (n: nat)
    ensures n <= |files|
    ensures n == 0 <==> forall k :: 0 <= k < |files| ==> !IsRotationFile(files[k])
    ensures n == |files| <==> forall k :: 0 <= k < |files| ==> IsRotationFile(files[k])
  {
    if |files| == 0 then 0
    else
      var n := CountRotations(files[..|files| - 1]);
      assert forall k :: 0 <= k < |files| - 1 ==> files[..|files| - 1][k] == files[k];
      n + if IsRotationFile(files[|files| - 1]) then 1 else 0
  }

  /** Counting over a concatenation adds up. */
  lemma {:induction false} CountRotationsAppend(a: seq<string>, b: seq<string>)
    ensures CountRotations(a + b) == CountRotations(a) + CountRotations(b)
    decreases |b|
  {
    if |b| > 0 {
      var b' := b[..|b| - 1];
      assert (a + b)[..|a + b| - 1] == a + b';
      CountRotationsAppend(a, b');
    } else {
      assert a + b == a;
    }
  }

  /**
   * The number of rotation files of `service` in a directory listing: the
   * entries that the search pattern returns and the rotation regex accepts.
   */
  function RotationsFor(listing: seq<string>, service: string): (n: nat)
    ensures n <= |listing|
  {
    CountRotations(ServiceFiles(listing, service))
  }

  /** The rotation count is the number of entries that are rotation files of the service. */
  lemma RotationsForEntries(listing: seq<string>, service: string)
    ensures RotationsFor(listing, service) == RotationEntries(listing, service)
  {
    CountOfServiceFiles(listing, service);
  }

  /** The entries of the listing that are rotation files of `service`, counted one by one. */
  function RotationEntries(listing: seq<string>, service: string): (n: nat)
    ensures n <= |listing|
    ensures n == 0 <==>
      forall k :: 0 <= k < |listing| ==> !(MatchesServicePattern(listing[k], service) && IsRotationFile(listing[k]))
  {
    if |listing| == 0 then 0
    else
      var m := |listing| - 1;
      assert forall k :: 0 <= k < m ==> listing[..m][k] == listing[k];
      RotationEntries(listing[..m], service) +
        if MatchesServicePattern(listing[m], service) && IsRotationFile(listing[m]) then 1 else 0
  }

  /** Searching first and counting rotations after counts the same entries. */
  lemma {:induction false} CountOfServiceFiles(listing: seq<string>, service: string)
    ensures CountRotations(ServiceFiles(listing, service)) == RotationEntries(listing, service)
  {
    if |listing| > 0 {
      var front := listing[..|listing| - 1];
      CountOfServiceFiles(front, service);
      CountOfServiceFilesStep(listing, service);
    }
  }

  lemma CountOfServiceFilesStep(listing: seq<string>, service: string)
    requires |listing| > 0
    requires var front := listing[..|listing| - 1];
      CountRotations(ServiceFiles(front, service)) == RotationEntries(front, service)
    ensures CountRotations(ServiceFiles(listing, service)) == RotationEntries(listing, service)
  {
    var front := listing[..|listing| - 1];
    var last := listing[|listing| - 1];
    var found := ServiceFiles(front, service);
    if MatchesServicePattern(last, service) {
      assert ServiceFiles(listing, service) == found + [last];
      CountRotationsAppend(found, [last]);
      assert CountRotations([last]) == if IsRotationFile(last) then 1 else 0 by {
        assert [last][..0] == [];
      }
    } else {
      assert ServiceFiles(listing, service) == found;
    }
  }



  /**
   * Rotation files `svc.1.log`, `svc.2.log`, `svc.10.log` and the
   * non-rotation `svc.log` count as three.
   */
  lemma RotationExample(listing: seq<string>)
    requires listing == ["svc.1.log", "svc.2.log", "svc.10.log", "svc.log"]
    ensures RotationsFor(listing, "svc") == 3
  {
    RotationsForEntries(listing, "svc");
    ExampleEntries(listing);
  }

  /** The example's entries, counted one by one. */
  lemma ExampleEntries(listing: seq<string>)
    requires listing == ["svc.1.log", "svc.2.log", "svc.10.log", "svc.log"]
    ensures RotationEntries(listing, "svc") == 3
  {
    ExampleNames(listing[0], listing[1], listing[2], listing[3]);
    var l1, l2, l3 := listing[..1], listing[..2], listing[..3];
    assert l1[..0] == [] && l2[..1] == l1 && l3[..2] == l2 && listing[..3] == l3;
    assert RotationEntries(l1, "svc") == 1;
    assert RotationEntries(l2, "svc") == 2;
    assert RotationEntries(l3, "svc") == 3;
  }

  /** Which of the example's names the search returns and which are rotations. */
  lemma ExampleNames(a: string, b: string, c: string, d: string)
    requires a == "svc.1.log" && b == "svc.2.log" && c == "svc.10.log" && d == "svc.log"
    ensures MatchesServicePattern(a, "svc") && IsRotationFile(a)
    ensures MatchesServicePattern(b, "svc") && IsRotationFile(b)
    ensures MatchesServicePattern(c, "svc") && IsRotationFile(c)
    ensures !MatchesServicePattern(d, "svc")
  {
  }
}
