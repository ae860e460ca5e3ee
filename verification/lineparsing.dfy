/**
 * One log line as the per-file loop sees it: trimmed, emails masked, a
 * timestamp read from the 19 characters after the opening delimiter and a
 * category read from the second `]`-separated field.
 *
 * The expected shape is `[YYYY-MM-DD HH:MM:SS] [CATEGORY] message`.
 * `DateTime.TryParse` is not modelled: the caller supplies `parse`, which
 * maps the 19-character timestamp text to a point in time or to `None`.
 */
module LineParsing {
  import opened Wrappers
  import opened Text
  import opened Masking

  /** A parsed line: when it was written and what category it belongs to. */
  datatype Event = Event(time: int, category: string)

  /** The exceptions a single line can raise inside the loop. */
  datatype LineError =
    | LineTooShort          // `Substring(1, 19)` on a line shorter than 20 characters
    | MissingCategoryField  // `Split(']')[1]` on a line without `]`
    | EmptyCategoryField    // `Substring(1)` on an empty trimmed field

  /** Where the timestamp starts and how long it is: `Substring(1, 19)`. */
  const TimestampStart: nat := 1
  const TimestampLength: nat := 19

  /**
   * The line after `Trim()` and email masking: as long as the trimmed line,
   * differing from it only in word characters turned into the mask
   * character, and so still without whitespace at either end.
   */
  function CleanLine(raw: string): (line: string)
    ensures |line| == |Trim(raw)|
    ensures Redacts(Trim(raw), line)
    ensures |line| > 0 ==> !IsWhiteSpace(line[0]) && !IsWhiteSpace(line[|line| - 1])
  {
    MaskEmails(Trim(raw))
  }

  /** The line has a second `]`-separated field, and it is all whitespace. */
  predicate HasEmptyCategoryField(line: string)
  {
    ']' in line && Trim(Split(line, ']')[1]) == []
  }

  /** `line.Split(']')[1].Trim().Substring(1)`, with its two ways to throw. */
  function Category(line: string): (r: Result<string, LineError>)
    ensures r == Failure(MissingCategoryField) <==> ']' !in line
    ensures r == Failure(EmptyCategoryField) <==> HasEmptyCategoryField(line)
    ensures r.Success? ==> ']' !in r.value
  {
    var parts := Split(line, ']');
    if |parts| < 2 then Failure(MissingCategoryField)
    else
      var field := Trim(parts[1]);
      if |field| == 0 then Failure(EmptyCategoryField)
      else
        assert ']' !in parts[1];
        TrimKeepsCharacters(parts[1]);
        Success(field[1..])
  }

  /**
   * The category of a line laid out as `head ] field rest`, where `head` and
   * `field` hold no `]` and `rest` is empty or starts the next field: the
   * trimmed `field` without its first character.
   */
  lemma CategoryOfLayout(line: string, head: string, field: string, rest: string)
    requires ']' !in head && ']' !in field
    requires rest == [] || rest[0] == ']'
    requires line == head + "]" + field + rest
    requires Trim(field) != []
    ensures Category(line) == Success(Trim(field)[1..])
  {
    SplitSecondPart(line, ']', head, field, rest);
  }

  /**
   * A line laid out as `head ] field rest` whose `field` is all whitespace
   * throws: `Substring(1)` of the empty trimmed field.
   */
  lemma CategoryOfEmptyField(line: string, head: string, field: string, rest: string)
    requires ']' !in head && ']' !in field
    requires rest == [] || rest[0] == ']'
    requires line == head + "]" + field + rest
    requires Trim(field) == []
    ensures Category(line) == Failure(EmptyCategoryField)
  {
    SplitSecondPart(line, ']', head, field, rest);
  }

  /**
   * `[2023-01-01 12:00:00] [INFO] ok` has category `INFO`.
   */
  lemma CategoryExample(line: string)
    requires line == "[2023-01-01 12:00:00] [INFO] ok"
    ensures Category(line) == Success("INFO")
  {
    var head, field, rest, t := "[2023-01-01 12:00:00", " [INFO", "] ok", "[INFO";
    ExampleLayout(line, head, field, rest);
    TrimExample(field, t);
    CategoryOfLayout(line, head, field, rest);
    assert t[1..] == "INFO";
  }

  /** The example line, cut at its first two `]`. */
  lemma ExampleLayout(line: string, head: string, field: string, rest: string)
    requires line == "[2023-01-01 12:00:00] [INFO] ok"
    requires head == "[2023-01-01 12:00:00" && field == " [INFO" && rest == "] ok"
    ensures line == head + "]" + field + rest
    ensures ']' !in head && ']' !in field && rest[0] == ']'
  {
  }

  /** Trimming the example's category field drops its leading space. */
  lemma TrimExample(field: string, t: string)
    requires field == " [INFO" && t == "[INFO"
    ensures Trim(field) == t
  {
    assert field == [' '] + t;
    TrimLeadingBlank(' ', t);
  }

  /**
   * One iteration of the loop body: the line's event, no event for a line to
   * skip, or the exception the line raises. A line too short for the
   * timestamp throws; a line whose timestamp does not parse is skipped; any
   * other line yields its timestamp and category, or throws while extracting
   * the category.
   */
  function ParseLine(raw: string, parse: string -> Option<int>): (r: Result<Option<Event>, LineError>)
    ensures r == Failure(LineTooShort) <==> |Trim(raw)| < TimestampStart + TimestampLength
    ensures r == Success(None) <==>
      |Trim(raw)| >= TimestampStart + TimestampLength &&
      parse(CleanLine(raw)[TimestampStart..TimestampStart + TimestampLength]).None?
    ensures r.Success? && r.value.Some? ==>
      && parse(CleanLine(raw)[TimestampStart..TimestampStart + TimestampLength]) == Some(r.value.value.time)
      && Category(CleanLine(raw)) == Success(r.value.value.category)
    ensures r.Failure? && r.error != LineTooShort ==> Category(CleanLine(raw)).Failure?
  {
    var line := CleanLine(raw);
    if |line| < TimestampStart + TimestampLength then Failure(LineTooShort)
    else match parse(line[TimestampStart..TimestampStart + TimestampLength])
      case None => Success(None)
      case Some(t) =>
        match Category(line)
        case Failure(e) => Failure(e)
        case Success(c) => Success(Some(Event(t, c)))
  }
}
