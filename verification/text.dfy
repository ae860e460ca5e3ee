/**
 * The string primitives the log controller leans on: the character classes
 * of its regular expressions, `String.Trim`, `String.Split(char)`,
 * `String.IndexOf`/`LastIndexOf` and `String.Replace(string, string)`.
 */
module Text {
  import opened Wrappers

  /** Characters removed by `String.Trim` (ASCII subset of `Char.IsWhiteSpace`). */
  predicate IsWhiteSpace(c: char) {
    c == ' ' || c == '\t' || c == '\n' || c == '\r' || c == '\U{B}' || c == '\U{C}'
  }

  /** The regex class `\d` (ASCII subset). */
  predicate IsDigit(c: char) {
    '0' <= c <= '9'
  }

  /** The regex class `\w` (ASCII subset). */
  predicate IsWordChar(c: char) {
    'a' <= c <= 'z' || 'A' <= c <= 'Z' || IsDigit(c) || c == '_'
  }

  /* ---------------------------------------------------------------- Trim */

  function TrimStart(s: string): (r: string)
    ensures |r| <= |s| && r == s[|s| - |r|..]
    ensures forall i :: 0 <= i < |s| - |r| ==> IsWhiteSpace(s[i])
    ensures |r| > 0 ==> !IsWhiteSpace(r[0])
    decreases |s|
  {
    if |s| > 0 && IsWhiteSpace(s[0]) then
      var r := TrimStart(s[1..]);
      assert s[1..][|s| - 1 - |r|..] == s[|s| - |r|..];
      r
    else s
  }

  function TrimEnd(s: string): (r: string)
    ensures |r| <= |s| && r == s[..|r|]
    ensures forall i :: |r| <= i < |s| ==> IsWhiteSpace(s[i])
    ensures |r| > 0 ==> !IsWhiteSpace(r[|r| - 1])
    decreases |s|
  {
    if |s| > 0 && IsWhiteSpace(s[|s| - 1]) then TrimEnd(s[..|s| - 1]) else s
  }

  /** `String.Trim()`: whitespace removed from both ends, nothing else. */
  function Trim(s: string): (r: string)
    ensures |r| <= |s|
    ensures |r| > 0 ==> !IsWhiteSpace(r[0]) && !IsWhiteSpace(r[|r| - 1])
  {
    var t := TrimStart(s);
    TrimEdges(t);
    TrimEnd(t)
  }

  /** Trimming the end keeps the first character. */
  lemma TrimEdges(t: string)
    ensures |TrimEnd(t)| > 0 ==> TrimEnd(t)[0] == t[0]
  {
  }

  /**
   * `Trim` removes whitespace at the two ends and nothing else: its result
   * is a slice of the input with only whitespace before and after it.
   */
  lemma TrimSlice(s: string)
    ensures var i := |s| - |TrimStart(s)|;
      && i + |Trim(s)| <= |s|
      && Trim(s) == s[i..i + |Trim(s)|]
      && (forall k :: 0 <= k < i ==> IsWhiteSpace(s[k]))
      && (forall k :: i + |Trim(s)| <= k < |s| ==> IsWhiteSpace(s[k]))
  {
    var t := TrimStart(s);
    var i := |s| - |t|;
    var u := TrimEnd(t);
    SliceOfSuffix(s, i, |u|);
    TrailingBlanks(s, t, u);
  }

  /** A prefix of a suffix is a slice. */
  lemma SliceOfSuffix(s: string, i: nat, n: nat)
    requires i + n <= |s|
    ensures s[i..][..n] == s[i..i + n]
  {
  }

  /** What `TrimEnd` drops from the suffix `TrimStart` keeps is whitespace of the whole. */
  lemma TrailingBlanks(s: string, t: string, u: string)
    requires |t| <= |s| && t == s[|s| - |t|..]
    requires |u| <= |t| && forall k :: |u| <= k < |t| ==> IsWhiteSpace(t[k])
    ensures forall k :: |s| - |t| + |u| <= k < |s| ==> IsWhiteSpace(s[k])
  {
    var i := |s| - |t|;
    forall k | i + |u| <= k < |s|
      ensures IsWhiteSpace(s[k])
    {
      assert s[k] == t[k - i];
    }
  }

  /** A string with non-white ends is its own trim. */
  lemma TrimUntrimmed(s: string)
    requires |s| > 0 && !IsWhiteSpace(s[0]) && !IsWhiteSpace(s[|s| - 1])
    ensures Trim(s) == s
  {
    assert TrimStart(s) == s;
  }

  /** Trimming leaves nothing exactly when every character is whitespace. */
  lemma TrimEmpty(s: string)
    ensures |Trim(s)| == 0 <==> forall i :: 0 <= i < |s| ==> IsWhiteSpace(s[i])
  {
    var t := TrimStart(s);
    if |t| > 0 {
      assert !IsWhiteSpace(s[|s| - |t|]);
    }
  }

  /** Leading whitespace before an untrimmed string is dropped. */
  lemma TrimLeadingBlank(c: char, t: string)
    requires IsWhiteSpace(c) && |t| > 0 && !IsWhiteSpace(t[0]) && !IsWhiteSpace(t[|t| - 1])
    ensures Trim([c] + t) == t
  {
    var s := [c] + t;
    assert s[1..] == t;
    assert TrimStart(t) == t;
    assert TrimStart(s) == t;
  }

  /** Every character left by `Trim` comes from the input. */
  lemma TrimKeepsCharacters(s: string)
    ensures forall k :: 0 <= k < |Trim(s)| ==> Trim(s)[k] in s
  {
    var t := TrimStart(s);
    var u := TrimEnd(t);
    forall k | 0 <= k < |u|
      ensures u[k] in s
    {
      assert u[k] == t[k];
      assert t[k] == s[|s| - |t| + k];
    }
  }

  lemma TrimIdempotent(s: string)
    ensures Trim(Trim(s)) == Trim(s)
  {
    var t := Trim(s);
    if |t| > 0 {
      TrimUntrimmed(t);
    } else {
      TrimNothing(t);
    }
  }

  /** The empty string trims to itself. */
  lemma TrimNothing(s: string)
    requires |s| == 0
    ensures Trim(s) == s
  {
  }

  /* ------------------------------------------------------- IndexOf / Split */

  /** `String.IndexOf(char)`: the first position of `c`, if any. */
  function IndexOf(s: string, c: char): (r: Option<nat>)
    ensures r.None? <==> c !in s
    ensures r.Some? ==> r.value < |s| && s[r.value] == c && c !in s[..r.value]
    decreases |s|
  {
    if |s| == 0 then None
    else if s[0] == c then Some(0)
    else match IndexOf(s[1..], c)
      case None => None
      case Some(i) =>
        assert s[..i + 1] == [s[0]] + s[1..][..i];
        Some(i + 1)
  }

  /** Any position holding the first `c` is the one `IndexOf` reports. */
  lemma IndexOfUnique(s: string, c: char, k: nat)
    requires k < |s| && s[k] == c && c !in s[..k]
    ensures IndexOf(s, c) == Some(k)
  {
  }

  /** `String.LastIndexOf(char)`: the last position of `c`, if any. */
  function LastIndexOf(s: string, c: char): (r: Option<nat>)
    ensures r.None? <==> c !in s
    ensures r.Some? ==> r.value < |s| && s[r.value] == c && c !in s[r.value + 1..]
    decreases |s|
  {
    if |s| == 0 then None
    else if s[|s| - 1] == c then Some(|s| - 1)
    else
      var r := LastIndexOf(s[..|s| - 1], c);
      assert r.None? ==> s == s[..|s| - 1] + [s[|s| - 1]];
      assert r.Some? ==> s[r.value + 1..] == s[..|s| - 1][r.value + 1..] + [s[|s| - 1]];
      r
  }

  /** The inverse of `Split`: the parts glued back with the separator between them. */
  function Join(parts: seq<string>, sep: char): string
    requires |parts| >= 1
    decreases |parts|
  {
    if |parts| == 1 then parts[0] else parts[0] + [sep] + Join(parts[1..], sep)
  }

  /**
   * `String.Split(char)`: the maximal separator-free pieces, empty ones
   * included, so that joining them back gives the input.
   */
  function Split(s: string, sep: char): (parts: seq<string>)
    ensures |parts| >= 1
    ensures |parts| == 1 <==> sep !in s
    ensures forall i :: 0 <= i < |parts| ==> sep !in parts[i]
    ensures Join(parts, sep) == s
    decreases |s|
  {
    match IndexOf(s, sep)
    case None => [s]
    case Some(i) =>
      var rest := Split(s[i + 1..], sep);
      var parts := [s[..i]] + rest;
      assert parts[1..] == rest;
      assert s == s[..i] + [sep] + s[i + 1..];
      parts
  }

  /** The first part of a split is the text before the first separator. */
  lemma SplitHead(s: string, sep: char)
    ensures IndexOf(s, sep).None? ==> Split(s, sep)[0] == s
    ensures IndexOf(s, sep).Some? ==> Split(s, sep)[0] == s[..IndexOf(s, sep).value]
  {
  }

  /** The second part of a split is the text between the first and the second separator. */
  lemma SplitSecondPart(s: string, sep: char, head: string, field: string, rest: string)
    requires sep !in head && sep !in field
    requires rest == [] || rest[0] == sep
    requires s == head + [sep] + field + rest
    ensures |Split(s, sep)| >= 2 && Split(s, sep)[1] == field
  {
    var tail := field + rest;
    assert s[..|head|] == head;
    IndexOfUnique(s, sep, |head|);
    assert s[|head| + 1..] == tail;
    SplitHead(tail, sep);
    if rest == [] {
      assert tail == field;
    } else {
      assert tail[..|field|] == field;
      IndexOfUnique(tail, sep, |field|);
    }
  }

  /** Splitting a join of separator-free parts gives the parts back. */
  lemma {:induction false} SplitOfJoin(parts: seq<string>, sep: char)
    requires |parts| >= 1
    requires forall i :: 0 <= i < |parts| ==> sep !in parts[i]
    ensures Split(Join(parts, sep), sep) == parts
    decreases |parts|
  {
    if |parts| > 1 {
      assert forall i :: 0 <= i < |parts[1..]| ==> parts[1..][i] == parts[i + 1];
      SplitOfJoin(parts[1..], sep);
      SplitOfJoinStep(parts, sep);
    }
  }

  /** The step of the proof above: the first part is split off, the rest splits as before. */
  lemma SplitOfJoinStep(parts: seq<string>, sep: char)
    requires |parts| > 1 && sep !in parts[0]
    requires Split(Join(parts[1..], sep), sep) == parts[1..]
    ensures Split(Join(parts, sep), sep) == parts
  {
    SplitCons(parts[0], sep, Join(parts[1..], sep));
    assert parts == [parts[0]] + parts[1..];
  }

  /** A separator-free head followed by the separator is split off as the first part. */
  lemma SplitCons(head: string, sep: char, tail: string)
    requires sep !in head
    ensures Split(head + [sep] + tail, sep) == [head] + Split(tail, sep)
  {
    var s := head + [sep] + tail;
    assert s[..|head|] == head;
    IndexOfUnique(s, sep, |head|);
    assert s[|head| + 1..] == tail;
  }

  /* ------------------------------------------------------------- Replace */

  /** `p` occurs in `s` starting at position `i`. */
  predicate OccursAt(s: string, p: string, i: nat) {
    i + |p| <= |s| && s[i..i + |p|] == p
  }

  /**
   * `String.Replace(p, r)` (ordinal): scanning left to right, every
   * occurrence of `p` that does not overlap an earlier replaced one is
   * replaced by `r`.
   */
  function ReplaceAll(s: string, p: string, r: string): (t: string)
    requires |p| > 0
    ensures |r| == |p| ==> |t| == |s|
    decreases |s|
  {
    if |s| < |p| then s
    else if s[..|p|] == p then r + ReplaceAll(s[|p|..], p, r)
    else [s[0]] + ReplaceAll(s[1..], p, r)
  }

  /** Occurrences in the tail of a string are the occurrences one position further on. */
  lemma OccursInTail(s: string, p: string, i: nat)
    requires |s| > 0
    ensures OccursAt(s[1..], p, i) <==> OccursAt(s, p, i + 1)
  {
    if i + |p| <= |s[1..]| {
      assert s[1..][i..i + |p|] == s[i + 1..i + 1 + |p|];
    }
  }

  /** A string without occurrences of `p` is left unchanged. */
  lemma {:induction false} ReplaceAllNoOccurrence(s: string, p: string, r: string)
    requires |p| > 0
    requires forall i :: 0 <= i <= |s| ==> !OccursAt(s, p, i)
    ensures ReplaceAll(s, p, r) == s
    decreases |s|
  {
    if |s| >= |p| {
      assert !OccursAt(s, p, 0);
      forall i | 0 <= i <= |s[1..]|
        ensures !OccursAt(s[1..], p, i)
      {
        OccursInTail(s, p, i);
      }
      ReplaceAllNoOccurrence(s[1..], p, r);
      assert s == [s[0]] + s[1..];
    }
  }

  /**
   * Replacing in `s` keeps the text before position `j`, puts `r` in place
   * of the occurrence of `p` at `j`, and resumes the scan right after it.
   */
  ghost predicate ReplacedAt(s: string, p: string, r: string, j: nat)
    requires |p| > 0 && j + |p| <= |s|
  {
    ReplaceAll(s, p, r) == s[..j] + r + ReplaceAll(s[j + |p|..], p, r)
  }

  /** The first occurrence of `p` is the one replaced first. */
  lemma {:induction false} ReplaceAllFirstOccurrence(s: string, p: string, r: string, j: nat)
    requires |p| > 0
    requires OccursAt(s, p, j)
    requires forall i :: 0 <= i < j ==> !OccursAt(s, p, i)
    ensures j + |p| <= |s| && ReplacedAt(s, p, r, j)
    decreases j
  {
    if j == 0 {
      ReplaceAllAtStart(s, p, r);
    } else {
      var t := s[1..];
      NoEarlierInTail(s, p, j);
      ReplaceAllFirstOccurrence(t, p, r, j - 1);
      ReplaceAllFirstStep(s, t, p, r, j);
    }
  }

  /** Where `p` occurs at the start, it is replaced and the scan resumes after it. */
  lemma ReplaceAllAtStart(s: string, p: string, r: string)
    requires |p| > 0 && OccursAt(s, p, 0)
    ensures ReplaceAll(s, p, r) == s[..0] + r + ReplaceAll(s[|p|..], p, r)
  {
    assert s[..|p|] == s[0..|p|] == p;
    assert s[..0] + r == r;
  }

  /** No occurrence before `j` means none before `j - 1` in the tail, and the one at `j` moves to `j - 1`. */
  lemma NoEarlierInTail(s: string, p: string, j: nat)
    requires 0 < j && OccursAt(s, p, j)
    requires forall i :: 0 <= i < j ==> !OccursAt(s, p, i)
    ensures j + |p| <= |s| && !OccursAt(s, p, 0)
    ensures OccursAt(s[1..], p, j - 1)
    ensures forall i :: 0 <= i < j - 1 ==> !OccursAt(s[1..], p, i)
  {
    OccursInTail(s, p, j - 1);
    forall i | 0 <= i < j - 1
      ensures !OccursAt(s[1..], p, i)
    {
      OccursInTail(s, p, i);
    }
  }

  /** The step of the proof above: from the tail's replacement to the whole string's. */
  lemma ReplaceAllFirstStep(s: string, t: string, p: string, r: string, j: nat)
    requires |p| > 0 && 0 < j && j + |p| <= |s| && !OccursAt(s, p, 0) && t == s[1..]
    requires ReplacedAt(t, p, r, j - 1)
    ensures ReplacedAt(s, p, r, j)
  {
    ReplaceAllSkip(s, p, r);
    TailSlice(s, j + |p|);
    Reassemble(s, j, ReplaceAll(s, p, r), ReplaceAll(t, p, r), r, ReplaceAll(s[j + |p|..], p, r));
  }

  /** A slice of the tail from `e - 1` on is the slice of the whole from `e` on. */
  lemma TailSlice(s: string, e: nat)
    requires 1 <= e <= |s|
    ensures s[1..][e - 1..] == s[e..]
  {
  }

  /** Putting the first character back in front of a prefix of the tail. */
  lemma Reassemble(s: string, j: nat, whole: string, tail: string, r: string, rest: string)
    requires 0 < j <= |s|
    requires whole == [s[0]] + tail
    requires tail == s[1..][..j - 1] + r + rest
    ensures whole == s[..j] + r + rest
  {
    assert s[..j] == [s[0]] + s[1..][..j - 1];
  }

  /** Where `p` does not occur at the start, the first character is kept. */
  lemma ReplaceAllSkip(s: string, p: string, r: string)
    requires |p| > 0 && |p| <= |s| && !OccursAt(s, p, 0)
    ensures ReplaceAll(s, p, r) == [s[0]] + ReplaceAll(s[1..], p, r)
  {
    assert s[..|p|] == s[0..|p|];
  }
}
