/**
 * Redaction of e-mail addresses in a log line: every match of
 * `(?<name>\w+)@(?<domain>\w+\.\w{2,})` has every second character of its
 * name replaced by '*', and the masked text is substituted back into the
 * line with an ordinal `String.Replace`.
 */
module Masking {
  import opened Wrappers
  import opened Text

  /* ---------------------------------------------------- MaskEverySecondCharacter */

  /** Characters at even positions kept, those at odd positions turned into '*'. */
  function Mask(s: string): (r: string)
    ensures |r| == |s|
    ensures forall i :: 0 <= i < |s| ==> r[i] == if i % 2 == 0 then s[i] else '*'
    decreases |s|
  {
    if |s| <= 1 then s else [s[0], '*'] + Mask(s[2..])
  }

  /** The character loop of the controller, building the masked copy position by position. */
  method MaskEverySecondCharacter(input: string) returns (masked: string)
    ensures masked == Mask(input)
  {
    masked := [];
    for i := 0 to |input|
      invariant |masked| == i
      invariant forall j :: 0 <= j < i ==> masked[j] == if j % 2 == 0 then input[j] else '*'
    {
      masked := masked + [if i % 2 == 0 then input[i] else '*'];
    }
  }

  lemma MaskIdempotent(s: string)
    ensures Mask(Mask(s)) == Mask(s)
  {
  }

  lemma MaskExample()
    ensures Mask("doe") == "d*e"
    ensures Mask("john") == "j*h*"
  {
  }

  lemma MaskShortUnchanged(s: string)
    requires |s| <= 1
    ensures Mask(s) == s
  {
  }

  /* ------------------------------------------------------------ Redaction */

  /**
   * `b` is `a` with some word characters replaced by '*' and nothing else
   * changed. Since '*' is not a word character, this relation is transitive.
   */
  predicate Redacts(a: string, b: string) {
    |a| == |b| && forall i :: 0 <= i < |a| && a[i] != b[i] ==> IsWordChar(a[i]) && b[i] == '*'
  }

  lemma RedactsTransitive(a: string, b: string, c: string)
    requires Redacts(a, b) && Redacts(b, c)
    ensures Redacts(a, c)
  {
  }

  lemma RedactsConcat(a1: string, b1: string, a2: string, b2: string)
    requires Redacts(a1, b1) && Redacts(a2, b2)
    ensures Redacts(a1 + a2, b1 + b2)
  {
    forall i | 0 <= i < |a1 + a2| && (a1 + a2)[i] != (b1 + b2)[i]
      ensures IsWordChar((a1 + a2)[i]) && (b1 + b2)[i] == '*'
    {
      if i >= |a1| {
        assert (a1 + a2)[i] == a2[i - |a1|] && (b1 + b2)[i] == b2[i - |a1|];
      }
    }
  }

  /** A redaction never alters a character outside the word class: '@', '.', brackets, blanks. */
  lemma RedactsKeepsNonWordChars(a: string, b: string, i: nat)
    requires Redacts(a, b) && i < |a| && !IsWordChar(a[i])
    ensures b[i] == a[i]
  {
  }

  predicate AllWordChars(s: string) {
    forall i :: 0 <= i < |s| ==> IsWordChar(s[i])
  }

  lemma MaskRedacts(s: string)
    requires AllWordChars(s)
    ensures Redacts(s, Mask(s))
  {
  }

  /** Replacing every occurrence of `p` by a redaction of `p` redacts the whole string. */
  lemma {:induction false} ReplaceAllRedacts(s: string, p: string, r: string)
    requires |p| > 0 && Redacts(p, r)
    ensures Redacts(s, ReplaceAll(s, p, r))
    decreases |s|
  {
    if |s| < |p| {
    } else if s[..|p|] == p {
      ReplaceAllRedacts(s[|p|..], p, r);
      RedactsConcat(p, r, s[|p|..], ReplaceAll(s[|p|..], p, r));
      assert s == p + s[|p|..];
    } else {
      ReplaceAllRedacts(s[1..], p, r);
      RedactsConcat([s[0]], [s[0]], s[1..], ReplaceAll(s[1..], p, r));
      assert s == [s[0]] + s[1..];
    }
  }

  /* -------------------------------------------------------- E-mail matches */

  /** One match of the e-mail pattern: `name@host.tld`, found at index `start` of the line. */
  datatype EmailMatch = EmailMatch(start: nat, name: string, host: string, tld: string) {
    function Domain(): string { host + "." + tld }
    function Value(): string { name + "@" + Domain() }
    function MaskedValue(): string { Mask(name) + "@" + Domain() }
    function End(): nat { start + |Value()| }
  }

  /** The shape `\w+@\w+\.\w{2,}` of a match. */
  predicate WellFormed(m: EmailMatch) {
    && |m.name| >= 1 && AllWordChars(m.name)
    && |m.host| >= 1 && AllWordChars(m.host)
    && |m.tld| >= 2 && AllWordChars(m.tld)
  }

  /** `m` is a greedy match of the pattern in `s` at `m.start`: its last run stops at a non-word character. */
  predicate MatchesIn(s: string, m: EmailMatch) {
    && WellFormed(m)
    && OccursAt(s, m.Value(), m.start)
    && (m.End() == |s| || !IsWordChar(s[m.End()]))
  }

  /** The masked form differs from the match only in the name: the '@' and the domain are copied. */
  lemma MaskedValueKeepsDomain(m: EmailMatch)
    requires WellFormed(m)
    ensures |m.MaskedValue()| == |m.Value()|
    ensures m.MaskedValue()[..|m.name|] == Mask(m.name)
    ensures m.MaskedValue()[|m.name|..] == m.Value()[|m.name|..] == "@" + m.Domain()
    ensures Redacts(m.Value(), m.MaskedValue())
  {
    MaskRedacts(m.name);
    RedactsConcat(m.name, Mask(m.name), "@" + m.Domain(), "@" + m.Domain());
    assert m.Value() == m.name + ("@" + m.Domain());
    assert m.MaskedValue() == Mask(m.name) + ("@" + m.Domain());
  }

  /* ------------------------------------------------------------ Scanning */

  /** The end of the run of word characters that starts at `i`. */
  function WordRunEnd(s: string, i: nat): (e: nat)
    requires i <= |s|
    ensures i <= e <= |s|
    ensures forall k :: i <= k < e ==> IsWordChar(s[k])
    ensures e == |s| || !IsWordChar(s[e])
    decreases |s| - i
  {
    if i < |s| && IsWordChar(s[i]) then WordRunEnd(s, i + 1) else i
  }

  lemma WordRunEndUnique(s: string, i: nat, e: nat)
    requires i <= e <= |s|
    requires forall k :: i <= k < e ==> IsWordChar(s[k])
    requires e == |s| || !IsWordChar(s[e])
    ensures WordRunEnd(s, i) == e
  {
  }

  /**
   * The regex engine's attempt at position `i`: each `\w` run is greedy and
   * cannot give characters back usefully, because the literal that follows
   * it ('@' or '.') is not a word character.
   */
  function MatchAt(s: string, i: nat): (m: Option<EmailMatch>)
    requires i <= |s|
    ensures m.Some? ==> m.value.start == i && MatchesIn(s, m.value)
  {
    var at := WordRunEnd(s, i);
    if at == i || at == |s| || s[at] != '@' then None
    else
      var dot := WordRunEnd(s, at + 1);
      if dot == at + 1 || dot == |s| || s[dot] != '.' then None
      else
        var end := WordRunEnd(s, dot + 1);
        if end - (dot + 1) < 2 then None
        else
          RunsMatch(s, i, at, dot, end);
          Some(EmailMatch(i, s[i..at], s[at + 1..dot], s[dot + 1..end]))
  }

  /** Three word runs separated by '@' and '.', the last one ending the run, form a match. */
  lemma RunsMatch(s: string, i: nat, at: nat, dot: nat, end: nat)
    requires i < at && at + 1 < dot && dot + 2 < end <= |s|
    requires s[at] == '@' && s[dot] == '.'
    requires forall k :: i <= k < at ==> IsWordChar(s[k])
    requires forall k :: at + 1 <= k < dot ==> IsWordChar(s[k])
    requires forall k :: dot + 1 <= k < end ==> IsWordChar(s[k])
    requires end == |s| || !IsWordChar(s[end])
    ensures MatchesIn(s, EmailMatch(i, s[i..at], s[at + 1..dot], s[dot + 1..end]))
  {
    var m := EmailMatch(i, s[i..at], s[at + 1..dot], s[dot + 1..end]);
    assert m.Domain() == s[at + 1..end];
    assert m.Value() == s[i..end];
  }

  /** A slice equal to a run of word characters consists of word characters. */
  lemma WordCharsOfSlice(s: string, i: nat, e: nat, w: string)
    requires i <= e <= |s| && s[i..e] == w && AllWordChars(w)
    ensures forall k :: i <= k < e ==> IsWordChar(s[k])
  {
    forall k | i <= k < e
      ensures IsWordChar(s[k])
    {
      assert s[k] == w[k - i];
    }
  }

  /** Wherever the pattern occurs, the attempt at that position succeeds, with the same name and host. */
  lemma MatchAtFinds(s: string, m: EmailMatch)
    requires WellFormed(m) && OccursAt(s, m.Value(), m.start)
    ensures MatchAt(s, m.start).Some?
    ensures MatchAt(s, m.start).value.name == m.name
    ensures MatchAt(s, m.start).value.host == m.host
    ensures |MatchAt(s, m.start).value.tld| >= |m.tld|
  {
    var at := m.start + |m.name|;
    var dot := at + 1 + |m.host|;
    OccurrenceRuns(s, m, at, dot);
    FoundByRuns(s, m, at, dot);
  }

  /**
   * The word runs of `s` at an occurrence of `m`: the name and the host are
   * whole runs ending at the '@' and the '.', and the run after the '.'
   * reaches at least to the end of the top-level domain.
   */
  predicate RunsLaidOut(s: string, m: EmailMatch, at: nat, dot: nat) {
    && at == m.start + |m.name| && dot == at + 1 + |m.host|
    && m.start < at < |s| && at + 1 < dot < |s| && |m.tld| >= 2
    && s[m.start..at] == m.name && s[at + 1..dot] == m.host
    && WordRunEnd(s, m.start) == at && s[at] == '@'
    && WordRunEnd(s, at + 1) == dot && s[dot] == '.'
    && WordRunEnd(s, dot + 1) >= dot + 1 + |m.tld|
  }

  /** An occurrence of a well-formed match lays the runs out as its parts. */
  lemma OccurrenceRuns(s: string, m: EmailMatch, at: nat, dot: nat)
    requires WellFormed(m) && OccursAt(s, m.Value(), m.start)
    requires at == m.start + |m.name| && dot == at + 1 + |m.host|
    ensures RunsLaidOut(s, m, at, dot)
  {
    OccurrenceLayout(s, m);
    RunsOfParts(s, m, at, dot);
  }

  /** Parts of word characters, separated by '@' and '.', are whole runs but for the last. */
  lemma RunsOfParts(s: string, m: EmailMatch, at: nat, dot: nat)
    requires WellFormed(m)
    requires at == m.start + |m.name| && dot == at + 1 + |m.host|
    requires dot + 1 + |m.tld| <= |s|
    requires OccursAt(s, m.name, m.start) && s[at] == '@'
    requires OccursAt(s, m.host, at + 1) && s[dot] == '.'
    requires OccursAt(s, m.tld, dot + 1)
    ensures RunsLaidOut(s, m, at, dot)
  {
    WordRunOfPart(s, m.start, m.name);
    WordRunOfPart(s, at + 1, m.host);
    WordRunCovers(s, dot + 1, m.tld);
  }

  /** Runs laid out as `m`'s parts make the attempt at `m.start` find `m`'s name and host. */
  lemma FoundByRuns(s: string, m: EmailMatch, at: nat, dot: nat)
    requires RunsLaidOut(s, m, at, dot)
    ensures MatchAt(s, m.start).Some?
    ensures MatchAt(s, m.start).value.name == m.name
    ensures MatchAt(s, m.start).value.host == m.host
    ensures |MatchAt(s, m.start).value.tld| >= |m.tld|
  {
    MatchAtOfRuns(s, m.start, at, dot);
  }

  /** A greedy match of the pattern is exactly what the attempt at its start finds. */
  lemma MatchAtExact(s: string, m: EmailMatch)
    requires MatchesIn(s, m)
    ensures MatchAt(s, m.start) == Some(m)
  {
    var at := m.start + |m.name|;
    var dot := at + 1 + |m.host|;
    OccurrenceRuns(s, m, at, dot);
    TldRun(s, m, dot);
    ExactByRuns(s, m, at, dot);
  }

  /** The top-level domain of a greedy match is a whole word run. */
  lemma TldRun(s: string, m: EmailMatch, dot: nat)
    requires MatchesIn(s, m) && dot == m.start + |m.name| + 1 + |m.host|
    ensures dot + 1 <= m.End() <= |s|
    ensures WordRunEnd(s, dot + 1) == m.End() && s[dot + 1..m.End()] == m.tld
  {
    OccurrenceLayout(s, m);
    WordRunOfPart(s, dot + 1, m.tld);
  }

  /** Runs laid out as `m`'s parts, the last one ending where `m` does, make the attempt find `m`. */
  lemma ExactByRuns(s: string, m: EmailMatch, at: nat, dot: nat)
    requires RunsLaidOut(s, m, at, dot)
    requires dot + 1 <= m.End() <= |s|
    requires WordRunEnd(s, dot + 1) == m.End() && s[dot + 1..m.End()] == m.tld
    ensures MatchAt(s, m.start) == Some(m)
  {
    MatchAtOfRuns(s, m.start, at, dot);
  }

  /** The attempt at `i` when the runs end at the given '@' and '.'. */
  lemma MatchAtOfRuns(s: string, i: nat, at: nat, dot: nat)
    requires i < at < |s| && at + 1 < dot < |s|
    requires WordRunEnd(s, i) == at && s[at] == '@'
    requires WordRunEnd(s, at + 1) == dot && s[dot] == '.'
    requires WordRunEnd(s, dot + 1) >= dot + 3
    ensures MatchAt(s, i) == Some(EmailMatch(i, s[i..at], s[at + 1..dot], s[dot + 1..WordRunEnd(s, dot + 1)]))
  {
  }

  /** A part made of word characters and followed by a non-word character is a whole word run. */
  lemma WordRunOfPart(s: string, i: nat, w: string)
    requires OccursAt(s, w, i) && AllWordChars(w)
    requires i + |w| == |s| || !IsWordChar(s[i + |w|])
    ensures WordRunEnd(s, i) == i + |w|
  {
    WordCharsOfSlice(s, i, i + |w|, w);
    WordRunEndUnique(s, i, i + |w|);
  }

  /** A part made of word characters lies inside the word run starting where it does. */
  lemma WordRunCovers(s: string, i: nat, w: string)
    requires OccursAt(s, w, i) && AllWordChars(w)
    ensures WordRunEnd(s, i) >= i + |w|
  {
    WordCharsOfSlice(s, i, i + |w|, w);
    WordRunEndBeyond(s, i, i + |w|);
  }

  /** Where the parts of an occurring match sit in the line. */
  lemma OccurrenceLayout(s: string, m: EmailMatch)
    requires OccursAt(s, m.Value(), m.start)
    ensures var at := m.start + |m.name|; var dot := at + 1 + |m.host|;
      && dot + 1 + |m.tld| == m.End()
      && OccursAt(s, m.name, m.start) && s[at] == '@'
      && OccursAt(s, m.host, at + 1) && s[dot] == '.'
      && OccursAt(s, m.tld, dot + 1)
  {
    var at := m.start + |m.name|;
    var dot := at + 1 + |m.host|;
    OccursAtConcat(s, m.name + "@", m.Domain(), m.start);
    OccursAtConcat(s, m.name, "@", m.start);
    OccursAtConcat(s, m.host + ".", m.tld, at + 1);
    OccursAtConcat(s, m.host, ".", at + 1);
    OccursAtChar(s, '@', at);
    OccursAtChar(s, '.', dot);
  }

  /** An occurrence of a concatenation is an occurrence of each part, one after the other. */
  lemma OccursAtConcat(s: string, x: string, y: string, i: nat)
    requires OccursAt(s, x + y, i)
    ensures OccursAt(s, x, i) && OccursAt(s, y, i + |x|)
  {
    var w := s[i..i + |x + y|];
    assert w == x + y;
    assert s[i..i + |x|] == w[..|x|];
    assert s[i + |x|..i + |x| + |y|] == w[|x|..];
  }

  /** An occurrence of a one-character string is that character. */
  lemma OccursAtChar(s: string, c: char, i: nat)
    requires OccursAt(s, [c], i)
    ensures i < |s| && s[i] == c
  {
    assert s[i..i + 1][0] == s[i];
  }

  /** A run of word characters reaching `e` makes the run from `i` end at `e` or later. */
  lemma {:induction false} WordRunEndBeyond(s: string, i: nat, e: nat)
    requires i <= e <= |s|
    requires forall k :: i <= k < e ==> IsWordChar(s[k])
    ensures WordRunEnd(s, i) >= e
    decreases e - i
  {
    if i < e {
      WordRunEndBeyond(s, i + 1, e);
    }
  }

  /** Position `j` lies inside one of the matches. */
  ghost predicate Covered(ms: seq<EmailMatch>, j: nat) {
    exists k :: 0 <= k < |ms| && ms[k].start <= j < ms[k].End()
  }

  /**
   * `Regex.Matches` from position `i`: try each position in turn; after a
   * match, resume at its end.
   */
  function Scan(s: string, i: nat): seq<EmailMatch>
    requires i <= |s|
    decreases |s| - i
  {
    if i == |s| then []
    else
      match MatchAt(s, i)
      case None => Scan(s, i + 1)
      case Some(m) => [m] + Scan(s, m.End())
  }

  /** `ms` are matches of the pattern in `s`, from position `i` on, in order and without overlap. */
  predicate ReportsMatches(s: string, i: nat, ms: seq<EmailMatch>) {
    && (forall k :: 0 <= k < |ms| ==> i <= ms[k].start && MatchesIn(s, ms[k]))
    && (forall k :: 0 <= k < |ms| - 1 ==> ms[k].End() <= ms[k + 1].start)
  }

  /** A match followed by matches that start after it. */
  lemma ReportsMatchesCons(s: string, m: EmailMatch, rest: seq<EmailMatch>)
    requires MatchesIn(s, m) && ReportsMatches(s, m.End(), rest)
    ensures ReportsMatches(s, m.start, [m] + rest)
  {
    var ms := [m] + rest;
    assert forall k :: 0 < k < |ms| ==> ms[k] == rest[k - 1];
  }

  /** The scan reports matches of the pattern, in order and without overlap, from `i` on. */
  lemma {:induction false} ScanSound(s: string, i: nat)
    requires i <= |s|
    ensures ReportsMatches(s, i, Scan(s, i))
    decreases |s| - i
  {
    if i < |s| {
      match MatchAt(s, i)
      case None =>
        ScanSound(s, i + 1);
        ScanSoundSkip(s, i);
      case Some(m) =>
        ScanSound(s, m.End());
        ScanSoundFound(s, i, m);
    }
  }

  /** The step of the proof above where no match starts at `i`. */
  lemma ScanSoundSkip(s: string, i: nat)
    requires i < |s| && MatchAt(s, i).None?
    requires ReportsMatches(s, i + 1, Scan(s, i + 1))
    ensures ReportsMatches(s, i, Scan(s, i))
  {
    ReportsMatchesLater(s, i, Scan(s, i + 1));
  }

  /** The step of the proof above where the match `m` starts at `i`. */
  lemma ScanSoundFound(s: string, i: nat, m: EmailMatch)
    requires i < |s| && MatchAt(s, i) == Some(m)
    requires m.End() <= |s| && ReportsMatches(s, m.End(), Scan(s, m.End()))
    ensures ReportsMatches(s, i, Scan(s, i))
  {
    ReportsMatchesCons(s, m, Scan(s, m.End()));
  }

  /** Matches from position `i + 1` on are matches from `i` on. */
  lemma ReportsMatchesLater(s: string, i: nat, ms: seq<EmailMatch>)
    requires ReportsMatches(s, i + 1, ms)
    ensures ReportsMatches(s, i, ms)
  {
  }

  /** No match is missed: a position where an attempt succeeds lies inside a reported match. */
  lemma {:induction false} ScanCovers(s: string, i: nat, j: nat)
    requires i <= j < |s| && MatchAt(s, j).Some?
    ensures Covered(Scan(s, i), j)
    decreases |s| - i
  {
    match MatchAt(s, i)
    case None =>
      ScanCovers(s, i + 1, j);
      assert Scan(s, i) == Scan(s, i + 1);
    case Some(m) =>
      MatchAdvances(s, i);
      if j >= m.End() {
        ScanCovers(s, m.End(), j);
      }
      ScanCoversFound(s, i, m, j);
  }

  /** A match found at `i` ends after `i` and within the line. */
  lemma MatchAdvances(s: string, i: nat)
    requires i <= |s| && MatchAt(s, i).Some?
    ensures i < MatchAt(s, i).value.End() <= |s|
  {
  }

  /** The step of the proof above where the match `m` starts at `i`, at or before `j`. */
  lemma ScanCoversFound(s: string, i: nat, m: EmailMatch, j: nat)
    requires i <= j < |s| && MatchAt(s, i) == Some(m)
    requires j < m.End() || Covered(Scan(s, m.End()), j)
    ensures Covered(Scan(s, i), j)
  {
    if j < m.End() {
      CoveredByHead(m, Scan(s, m.End()), j);
    } else {
      CoveredByTail(m, Scan(s, m.End()), j);
    }
  }

  lemma CoveredByHead(m: EmailMatch, rest: seq<EmailMatch>, j: nat)
    requires m.start <= j < m.End()
    ensures Covered([m] + rest, j)
  {
    assert ([m] + rest)[0] == m;
  }

  lemma CoveredByTail(m: EmailMatch, rest: seq<EmailMatch>, j: nat)
    requires Covered(rest, j)
    ensures Covered([m] + rest, j)
  {
    var k :| 0 <= k < |rest| && rest[k].start <= j < rest[k].End();
    assert ([m] + rest)[k + 1] == rest[k];
  }

  /** All e-mail matches of a line, in order. */
  function EmailMatches(line: string): (ms: seq<EmailMatch>)
    ensures forall k :: 0 <= k < |ms| ==> MatchesIn(line, ms[k])
    ensures forall k :: 0 <= k < |ms| - 1 ==> ms[k].End() <= ms[k + 1].start
    ensures forall j :: 0 <= j < |line| && MatchAt(line, j).Some? ==> Covered(ms, j)
  {
    ScanSound(line, 0);
    assert ReportsMatches(line, 0, Scan(line, 0));
    forall j | 0 <= j < |line| && MatchAt(line, j).Some?
      ensures Covered(Scan(line, 0), j)
    {
      ScanCovers(line, 0, j);
    }
    Scan(line, 0)
  }

  /* ------------------------------------------------------------- Masking */

  /** The replacement loop: each match, in order, replaced everywhere in the evolving line. */
  function ApplyMasks(line: string, ms: seq<EmailMatch>): (r: string)
    requires forall k :: 0 <= k < |ms| ==> WellFormed(ms[k])
    ensures Redacts(line, r)
    decreases |ms|
  {
    if |ms| == 0 then line
    else
      var m := ms[0];
      MaskedValueKeepsDomain(m);
      var next := ReplaceAll(line, m.Value(), m.MaskedValue());
      ReplaceAllRedacts(line, m.Value(), m.MaskedValue());
      var r := ApplyMasks(next, ms[1..]);
      RedactsTransitive(line, next, r);
      r
  }

  /**
   * A line with its e-mail names masked. The matches are those of the
   * line as read; the replacements are applied one after another.
   */
  function MaskEmails(line: string): (r: string)
    ensures Redacts(line, r)
  {
    ApplyMasks(line, EmailMatches(line))
  }

  /** Of ordered, non-overlapping matches, the first starts no later than any other. */
  lemma {:induction false} FirstStartsFirst(ms: seq<EmailMatch>, k: nat)
    requires forall i :: 0 <= i < |ms| - 1 ==> ms[i].End() <= ms[i + 1].start
    requires k < |ms|
    ensures ms[0].start <= ms[k].start
  {
    if k > 0 {
      FirstStartsFirst(ms, k - 1);
    }
  }

  /** The text of a line's first match occurs nowhere before it. */
  lemma NoEarlierAddress(line: string, j: nat)
    requires |EmailMatches(line)| >= 1
    requires j < EmailMatches(line)[0].start
    ensures !OccursAt(line, EmailMatches(line)[0].Value(), j)
  {
    var ms := EmailMatches(line);
    var m := ms[0];
    if OccursAt(line, m.Value(), j) {
      var e := EmailMatch(j, m.name, m.host, m.tld);
      MatchAtFinds(line, e);
      var k :| 0 <= k < |ms| && ms[k].start <= j < ms[k].End();
      FirstStartsFirst(ms, k);
    }
  }

  /**
   * The first replacement of the loop masks the line's first address in
   * place: the text before it is kept, the address becomes its masked form,
   * and its later occurrences are replaced too; the remaining matches are
   * then applied to that line.
   */
  lemma MaskEmailsFirst(line: string)
    requires |EmailMatches(line)| >= 1
    ensures var ms := EmailMatches(line); var m := ms[0];
      && m.End() <= |line|
      && MaskEmails(line) ==
           ApplyMasks(line[..m.start] + m.MaskedValue() + ReplaceAll(line[m.End()..], m.Value(), m.MaskedValue()), ms[1..])
  {
    var ms := EmailMatches(line);
    var m := ms[0];
    forall j | 0 <= j < m.start
      ensures !OccursAt(line, m.Value(), j)
    {
      NoEarlierAddress(line, j);
    }
    ReplaceAllFirstOccurrence(line, m.Value(), m.MaskedValue(), m.start);
  }

  /**
   * A line with a single address: the address is masked in place, and any
   * later occurrence of the same address text is masked as well.
   */
  lemma MaskEmailsSingle(line: string)
    requires |EmailMatches(line)| == 1
    ensures var m := EmailMatches(line)[0];
      && m.End() <= |line|
      && MaskEmails(line) == line[..m.start] + m.MaskedValue() + ReplaceAll(line[m.End()..], m.Value(), m.MaskedValue())
  {
    MaskEmailsFirst(line);
    var ms := EmailMatches(line);
    assert ms[1..] == [];
  }

  /** In "john.doe@example.com" no attempt succeeds before position 5. */
  lemma ExampleNoEarlyAttempt(s: string)
    requires s == "john.doe@example.com"
    ensures forall k :: 0 <= k < 5 ==> MatchAt(s, k).None?
  {
    forall k | 0 <= k < 4
      ensures MatchAt(s, k).None?
    {
      WordRunEndUnique(s, k, 4);
    }
    WordRunEndUnique(s, 4, 4);
  }

  /** In "john.doe@example.com" the attempt at position 5 finds `doe@example.com`. */
  lemma ExampleAttemptAtFive(s: string)
    requires s == "john.doe@example.com"
    ensures MatchAt(s, 5) == Some(EmailMatch(5, "doe", "example", "com"))
  {
    var m := EmailMatch(5, "doe", "example", "com");
    ExampleMatchesIn(s, m);
    MatchAtExact(s, m);
  }

  /** `doe@example.com` at position 5 is a greedy match in "john.doe@example.com". */
  lemma ExampleMatchesIn(s: string, m: EmailMatch)
    requires s == "john.doe@example.com" && m == EmailMatch(5, "doe", "example", "com")
    ensures MatchesIn(s, m)
  {
    ExampleMatchText(m);
    ExampleSlice(s);
  }

  /** The address text sits at positions 5 to 20 of the example line. */
  lemma ExampleSlice(s: string)
    requires s == "john.doe@example.com"
    ensures |s| == 20 && s[5..20] == "doe@example.com"
  {
  }

  /** The address in "john.doe@example.com" is found at position 5 with the name "doe". */
  lemma ExampleMatches(s: string)
    requires s == "john.doe@example.com"
    ensures EmailMatches(s) == [EmailMatch(5, "doe", "example", "com")]
  {
    var m := EmailMatch(5, "doe", "example", "com");
    ExampleNoEarlyAttempt(s);
    ExampleAttemptAtFive(s);
    assert Scan(s, 5) == [m];
    assert Scan(s, 4) == Scan(s, 5);
    assert Scan(s, 3) == Scan(s, 4);
    assert Scan(s, 2) == Scan(s, 3);
    assert Scan(s, 1) == Scan(s, 2);
    assert Scan(s, 0) == Scan(s, 1);
  }

  /** The replacement of that match: the text before it is kept and the name is masked. */
  lemma ExampleReplacement(s: string, v: string, r: string)
    requires s == "john.doe@example.com" && v == "doe@example.com" && r == "d*e@example.com"
    ensures ReplaceAll(s, v, r) == "john.d*e@example.com"
  {
    ExampleFirstOccurrence(s, v);
    ReplaceAllFirstOccurrence(s, v, r, 5);
    assert s[20..] == [];
    assert s[..5] + r == "john.d*e@example.com";
  }

  /** The address first occurs in "john.doe@example.com" at position 5. */
  lemma ExampleFirstOccurrence(s: string, v: string)
    requires s == "john.doe@example.com" && v == "doe@example.com"
    ensures OccursAt(s, v, 5)
    ensures forall k :: 0 <= k < 5 ==> !OccursAt(s, v, k)
  {
    assert v[3] == '@';
    forall k | 0 <= k < 5
      ensures !OccursAt(s, v, k)
    {
      assert s[k..k + 15][3] == s[k + 3] != '@';
    }
    assert s[5..20] == v;
  }

  /** The example of a dotted local part: only the run right before '@' is masked. */
  lemma MaskEmailsExample(line: string)
    requires line == "john.doe@example.com"
    ensures MaskEmails(line) == "john.d*e@example.com"
  {
    var m := EmailMatch(5, "doe", "example", "com");
    ExampleMatches(line);
    ExampleMatchText(m);
    ApplyOneMask(line, m);
    ExampleReplacement(line, m.Value(), m.MaskedValue());
  }

  /** Applying a single match replaces its text by its masked text throughout. */
  lemma ApplyOneMask(line: string, m: EmailMatch)
    requires WellFormed(m)
    ensures ApplyMasks(line, [m]) == ReplaceAll(line, m.Value(), m.MaskedValue())
  {
    var t := ReplaceAll(line, m.Value(), m.MaskedValue());
    assert [m][1..] == [];
    assert ApplyMasks(t, []) == t;
  }

  /** The text and masked text of the example's match. */
  lemma ExampleMatchText(m: EmailMatch)
    requires m == EmailMatch(5, "doe", "example", "com")
    ensures m.Value() == "doe@example.com" && m.MaskedValue() == "d*e@example.com"
  {
    assert Mask("doe") == "d*e";
  }
}
