# Log report aggregation, modelled in Dafny

This project models the report-generating core of the `LogReportController`
of the log-reporter service. A job scans a directory of per-service log
files and keeps the files whose service name passes a filter. It processes
each file into a report, then merges the reports into one per service. Its
status and result are then read back through `GetOne` and `GetAll`.

For one file, the model covers:

- the service name, which is the text before the first `.` of the file name;
- the per-line loop: trim the line and, in each e-mail address, mask every
  second character of the word run right before the `@` (in
  `john.doe@example.com` only `doe` changes);
- reading a timestamp from characters 1 to 19;
- reading a category from the second `]`-separated field;
- keeping a running minimum and maximum time and a category histogram;
- counting the service's rotation files (`{service}.*.log` whose name ends
  in digits followed by `.log`).

For the job, the model covers:

- selecting the files by the key `GetFileNameWithoutExtension(file).Split('.')[0]`;
- processing every file, where the first file to throw fails the job;
- grouping by service name and merging each group: the minimum earliest
  entry, the maximum latest entry, the key-wise sum of the histograms and
  the sum of the rotation counts.

Modules, one per concern of the controller:

| module | models |
|---|---|
| `Wrappers` | `Option` and `Result` |
| `Text` | `Trim`, `IndexOf`/`LastIndexOf`, `Split(char)` with its inverse `Join`, ordinal `Replace` (`ReplaceAll`), the ASCII classes `\w`, `\d` and whitespace |
| `Masking` | `MaskEverySecondCharacter`; the e-mail regex as a scanner (`MatchAt`, `Scan`, `EmailMatches`); the replacement loop (`ApplyMasks`, `MaskEmails`) |
| `LineParsing` | one iteration of the line loop (`ParseLine`), with the exceptions `Substring` and `Split(']')[1]` raise |
| `Histogram` | `Dictionary<string, int>` as `map<string, nat>`; `counts[c]++` (`Increment`); the merge `Concat/GroupBy/Sum` (`UnionSum`) |
| `Span` | the nullable earliest/latest entries (`MinOpt`, `MaxOpt`) |
| `FileNames` | the service name, the filter key, the rotation search and count |
| `FileParsing` | `ProcessLogFileAsync` as a fold (`FileReport`) and as the controller's loop (`ProcessLines`, `ProcessLogFile`) |
| `Aggregation` | `GenerateReportsAsync`: selection, `Task.WhenAll`, `GroupBy`, merge |
| `TaskStatus` | `GetOne` and `GetAll` over the stored jobs |

`DateTime.TryParse` is a parameter `parse: string -> Option<int>`; times
are integers. A directory is a list of `LogFile(name, lines)`. The listing
that the rotation search sees is the list of its names.

In two places the code does something other than what a reader of the
service would expect; the model follows the code.

- One would expect one rotation count per service, computed once after
  grouping. The code stores the directory-wide count of the service in
  every file's report (lines 263-264) and sums it over the group
  (line 176). So a service with `n` selected files reports `n` times its
  rotation count. `Aggregation.MergeRotations` and
  `Aggregation.GenerateReportsRotations` state this. `Aggregation.AuthScenario`
  shows it for `auth.log` and `auth.1.log`: the merged count is 2, where one
  count per service would give 1.
- One would expect the category to be the field trimmed of surrounding
  whitespace and bracket characters. The code trims whitespace and then
  drops exactly one leading character (`Substring(1)`, line 246). A
  trailing `]` cannot occur because the field is cut at `]`, and further
  leading brackets are kept. An empty field throws
  (`LineParsing.CategoryOfEmptyField`).

## Model

All paths are in `LogReporter/Controllers/LogReportController.cs`.

| member | source | states |
|---|---|---|
| Text.TrimEmpty | LogReporter/Controllers/LogReportController.cs:219 | `Trim` leaves nothing exactly when every character of the line is whitespace |
| Text.Trim | LogReporter/Controllers/LogReportController.cs:219 | the trimmed line is no longer than the input and has no whitespace at either end |
| Text.TrimSlice | LogReporter/Controllers/LogReportController.cs:219 | the trimmed line is a contiguous part of the input, and everything cut off before and after it is whitespace |
| Text.TrimUntrimmed | LogReporter/Controllers/LogReportController.cs:219 | a line whose first and last characters are not whitespace is its own trim |
| Text.TrimIdempotent | LogReporter/Controllers/LogReportController.cs:219 | trimming twice is trimming once |
| Text.TrimKeepsCharacters | LogReporter/Controllers/LogReportController.cs:219 | every character of the trimmed line comes from the raw line |
| Text.IndexOf | LogReporter/Controllers/LogReportController.cs:203-207 | the reported position holds the character and no earlier position does; `None` exactly when it is absent |
| Text.LastIndexOf | LogReporter/Controllers/LogReportController.cs:164 | the reported position holds the character and no later position does; `None` exactly when it is absent |
| Text.Split | LogReporter/Controllers/LogReportController.cs:203-207 | the parts hold no separator, there is one part exactly when the separator is absent, and joining the parts with the separator gives the input back |
| Text.SplitOfJoin | LogReporter/Controllers/LogReportController.cs:203-207 | splitting a join of separator-free parts gives the parts back (the other half of the round trip) |
| Text.SplitHead | LogReporter/Controllers/LogReportController.cs:207 | the first part of a split is the text before the first separator, or the whole input |
| Text.SplitSecondPart | LogReporter/Controllers/LogReportController.cs:246 | in `head ] field rest`, the second part is `field` |
| Text.ReplaceAllFirstOccurrence | LogReporter/Controllers/LogReportController.cs:229 | ordinal `Replace` keeps the text before the first occurrence, puts the replacement in its place and continues after it |
| Text.ReplaceAllNoOccurrence | LogReporter/Controllers/LogReportController.cs:229 | a line without the searched text is unchanged by `Replace` |
| Text.ReplaceAll | LogReporter/Controllers/LogReportController.cs:229 | replacing a text by one of the same length keeps the line's length |
| Masking.Mask | LogReporter/Controllers/LogReportController.cs:184-192 | same length; each character at an even index is kept and each one at an odd index becomes `*` |
| Masking.MaskEverySecondCharacter | LogReporter/Controllers/LogReportController.cs:184-192 | the controller's index loop computes `Mask` |
| Masking.MaskIdempotent | LogReporter/Controllers/LogReportController.cs:184-192 | masking a masked name changes nothing |
| Masking.MaskRedacts | LogReporter/Controllers/LogReportController.cs:184-192 | masking a name of word characters only turns word characters into `*` |
| Masking.MaskedValueKeepsDomain | LogReporter/Controllers/LogReportController.cs:224-227 | the masked address has the original's length, the masked name, and the original `@` and domain |
| Masking.ReplaceAllRedacts | LogReporter/Controllers/LogReportController.cs:229 | replacing every occurrence of a text by a redaction of it redacts the whole line |
| Masking.RedactsTransitive | LogReporter/Controllers/LogReportController.cs:222-230 | redactions compose, so the chained replacements of the loop still redact |
| Masking.RedactsKeepsNonWordChars | LogReporter/Controllers/LogReportController.cs:222-230 | no redaction changes a character outside `\w`: delimiters, blanks, `@` and `.` stay put |
| Masking.WordRunEnd | LogReporter/Controllers/LogReportController.cs:274 | a greedy `\w+` run: word characters up to the end, then a non-word character or the end of the line |
| Masking.MatchAt | LogReporter/Controllers/LogReportController.cs:274-275 | what the regex finds at a position is a greedy match of `\w+@\w+\.\w{2,}` starting there |
| Masking.MatchAtFinds | LogReporter/Controllers/LogReportController.cs:274-275 | wherever an address occurs, the attempt at its start succeeds with the same name and host and a top-level domain at least as long |
| Masking.MatchAtExact | LogReporter/Controllers/LogReportController.cs:274-275 | a greedy match is exactly what the attempt at its start finds |
| Masking.ScanSound | LogReporter/Controllers/LogReportController.cs:221 | `Matches` reports only greedy matches, in order and without overlap |
| Masking.ScanCovers | LogReporter/Controllers/LogReportController.cs:221 | every position where an attempt would succeed lies inside a reported match |
| Masking.EmailMatches | LogReporter/Controllers/LogReportController.cs:221 | the matches of a line are matches of the pattern, ordered, non-overlapping and missing none |
| Masking.ApplyMasks | LogReporter/Controllers/LogReportController.cs:222-230 | the replacement loop only turns word characters into `*` |
| Masking.MaskEmails | LogReporter/Controllers/LogReportController.cs:219-230 | the masked line has the length of its input and differs from it only in word characters turned into `*` |
| Masking.ApplyOneMask | LogReporter/Controllers/LogReportController.cs:222-230 | for one match, the loop is a single `Replace` of the address by its masked form |
| Masking.MaskEmailsFirst | LogReporter/Controllers/LogReportController.cs:219-230 | the first address of a line is masked in place: the text before it is kept, the address becomes its masked form, and the rest of the loop works on that line |
| Masking.MaskEmailsSingle | LogReporter/Controllers/LogReportController.cs:219-230 | a line with one address becomes the text before it, the masked address, and the rest with any repeat of the address masked too |
| Masking.ExampleMatches | LogReporter/Controllers/LogReportController.cs:221 | in `john.doe@example.com` the one match is `doe@example.com` at index 5, the `\w+` before `@` |
| Masking.MaskEmailsExample | LogReporter/Controllers/LogReportController.cs:217-230 | `john.doe@example.com` is masked to `john.d*e@example.com` |
| LineParsing.CleanLine | LogReporter/Controllers/LogReportController.cs:219-230 | the cleaned line keeps the trimmed line's length, changes only word characters, and has no whitespace at either end |
| LineParsing.Category | LogReporter/Controllers/LogReportController.cs:246 | it throws the missing-field exception exactly when the line has no `]`, and the empty-field exception exactly when the trimmed second field is empty; a category never contains `]` |
| LineParsing.CategoryOfLayout | LogReporter/Controllers/LogReportController.cs:246 | the category of `head ] field rest` is the trimmed `field` without its first character |
| LineParsing.CategoryOfEmptyField | LogReporter/Controllers/LogReportController.cs:246 | in `head ] field rest` with an all-whitespace `field`, `Substring(1)` of the empty trimmed field throws |
| LineParsing.CategoryExample | LogReporter/Controllers/LogReportController.cs:246 | `[2023-01-01 12:00:00] [INFO] ok` has category `INFO` |
| LineParsing.ParseLine | LogReporter/Controllers/LogReportController.cs:219-246 | a line shorter than 20 characters throws; an unparsable timestamp skips the line; otherwise the event has the parsed time and the extracted category, or the category extraction throws |
| Histogram.Increment | LogReporter/Controllers/LogReportController.cs:247-252 | `counts[c]++`: the key is present afterwards, its count grows by one, every other count is unchanged, and no present key has count zero |
| Histogram.IncrementTotal | LogReporter/Controllers/LogReportController.cs:247-252 | one increment adds one line to the total |
| Histogram.UnionSum | LogReporter/Controllers/LogReportController.cs:173-175 | the merged histogram has the union of the keys and the sum of the two counts for each key |
| Histogram.UnionSumCommutative | LogReporter/Controllers/LogReportController.cs:173-175 | the order of two merged histograms does not matter |
| Histogram.UnionSumAssociative | LogReporter/Controllers/LogReportController.cs:172-175 | the grouping of `Aggregate`'s pairwise merges does not matter |
| Histogram.UnionSumIdentity | LogReporter/Controllers/LogReportController.cs:172-175 | a file without parsed lines adds nothing to a merge |
| Histogram.UnionSumPositive | LogReporter/Controllers/LogReportController.cs:173-175 | merging never creates a key with count zero |
| Histogram.UnionSumTotal | LogReporter/Controllers/LogReportController.cs:173-175 | merging loses and invents no lines: the totals add up |
| Span.MinOpt | LogReporter/Controllers/LogReportController.cs:177 | the smaller of two optional times, one of them, absent only when both are |
| Span.MaxOpt | LogReporter/Controllers/LogReportController.cs:178 | the larger of two optional times, one of them, absent only when both are |
| Span.MinOptCommutative | LogReporter/Controllers/LogReportController.cs:177 | `Min` over a group does not depend on the order of its files |
| Span.MinOptAssociative | LogReporter/Controllers/LogReportController.cs:177 | `Min` over a group does not depend on how it is bracketed |
| Span.MaxOptCommutative | LogReporter/Controllers/LogReportController.cs:178 | `Max` over a group does not depend on the order of its files |
| Span.MaxOptAssociative | LogReporter/Controllers/LogReportController.cs:178 | `Max` over a group does not depend on how it is bracketed |
| Span.OrderedWiden | LogReporter/Controllers/LogReportController.cs:177-178 | merging two ordered spans gives an ordered span |
| FileNames.ServiceName | LogReporter/Controllers/LogReportController.cs:203-207 | `None` (the invalid-name exception) exactly when the name has no `.`; otherwise a `.`-free proper prefix followed by `.` |
| FileNames.ServiceNameIsFirstSegment | LogReporter/Controllers/LogReportController.cs:207 | the service name is the text before the first `.` |
| FileNames.FileNameWithoutExtension | LogReporter/Controllers/LogReportController.cs:164 | the name up to its last `.`, or the whole name when it has none |
| FileNames.FilterKeyIsServiceName | LogReporter/Controllers/LogReportController.cs:164 | the filter key is the file's first `.`-segment, which is its service name when it has one |
| FileNames.FilterKey | LogReporter/Controllers/LogReportController.cs:164 | the filter key is a `.`-free prefix of the file name, followed by a `.` or the end of the name |
| FileNames.ServiceFiles | LogReporter/Controllers/LogReportController.cs:263 | the search returns the listed names that match `{service}.*.log`, each as often as listed, and nothing else |
| FileNames.ServicePatternOf | LogReporter/Controllers/LogReportController.cs:263 | every name `{service}.{anything}.log` matches the search pattern |
| FileNames.ServicePatternShape | LogReporter/Controllers/LogReportController.cs:263 | every name the search pattern matches has the form `{service}.{something}.log` |
| FileNames.RotationRegex | LogReporter/Controllers/LogReportController.cs:271-272 | a name is a rotation file exactly when it ends in one or more digits followed by `.log` |
| FileNames.CountRotations | LogReporter/Controllers/LogReportController.cs:264 | zero exactly when no file is a rotation file, all exactly when every file is |
| FileNames.CountRotationsAppend | LogReporter/Controllers/LogReportController.cs:264 | counting over two lists adds up |
| FileNames.RotationEntries | LogReporter/Controllers/LogReportController.cs:263-264 | at most the number of entries, and zero exactly when no entry is both a match of the search and a rotation file |
| FileNames.RotationsFor | LogReporter/Controllers/LogReportController.cs:263-264 | the rotation count is at most the number of entries in the directory |
| FileNames.RotationsForEntries | LogReporter/Controllers/LogReportController.cs:263-264 | searching and then counting rotation files gives the number of listed entries that match the search and are rotation files |
| FileNames.CountOfServiceFiles | LogReporter/Controllers/LogReportController.cs:263-264 | counting rotation files among the search results counts the entries that are matching rotation files |
| FileNames.RotationExample | LogReporter/Controllers/LogReportController.cs:263-264 | `svc.1.log`, `svc.2.log`, `svc.10.log` and `svc.log` give three rotations of `svc` |
| FileParsing.Collect | LogReporter/Controllers/LogReportController.cs:217-253 | the loop succeeds exactly when no line throws; otherwise it fails with the first line that throws, and every earlier line succeeded |
| FileParsing.Events | LogReporter/Controllers/LogReportController.cs:217-253 | the same, for the lines of a file |
| FileParsing.CollectPrefixFailure | LogReporter/Controllers/LogReportController.cs:217-253 | once a prefix of the lines throws, the later lines do not matter |
| FileParsing.CollectIsYielded | LogReporter/Controllers/LogReportController.cs:217-253 | when no line throws, the events are exactly those of the parsed lines, in order |
| FileParsing.SkippedLinesChangeNothing | LogReporter/Controllers/LogReportController.cs:231-234 | lines whose timestamp does not parse change nothing |
| FileParsing.SkippedLinesAnywhere | LogReporter/Controllers/LogReportController.cs:231-234 | lines whose timestamp does not parse, inserted anywhere, change neither success nor the events; a failure keeps its reason and its line index shifts past them |
| FileParsing.RecordDescribes | LogReporter/Controllers/LogReportController.cs:236-252 | one loop step keeps the state describing the events seen: min and max time, count per category, total |
| FileParsing.Summarize | LogReporter/Controllers/LogReportController.cs:212-257 | the final state has earliest and latest entries that are the smallest and largest time (absent when no line parsed) and a histogram counting each category per parsed line |
| FileParsing.DescribedIsConsistent | LogReporter/Controllers/LogReportController.cs:255-257 | the resulting report has earliest no later than latest, both or neither present, and no empty category |
| FileParsing.FileReport | LogReporter/Controllers/LogReportController.cs:194-266 | it throws the invalid-name exception exactly for a name without `.`; for a valid name it throws exactly the exception of the first throwing line; a report carries the file's service name and its directory-wide rotation count and is consistent |
| FileParsing.FileReportDescribes | LogReporter/Controllers/LogReportController.cs:212-257 | a file report's span and histogram describe the parsed lines of the file |
| FileParsing.ProcessLines | LogReporter/Controllers/LogReportController.cs:212-256 | the controller's loop, with its running `minDate`/`maxDate`, its mutable histogram and its early exit, computes the fold |
| FileParsing.OutcomeAt | LogReporter/Controllers/LogReportController.cs:217-246 | the loop body parses line `i` of the file to the same outcome as the line-by-line parse `Outcomes` |
| FileParsing.Widen | LogReporter/Controllers/LogReportController.cs:236-244 | the two `if`s update `minDate`/`maxDate` to the minimum/maximum with the new time |
| FileParsing.ProcessLogFile | LogReporter/Controllers/LogReportController.cs:194-266 | the controller's method computes the file report |
| Aggregation.Services | LogReporter/Controllers/LogReportController.cs:168 | the group keys are distinct and are exactly the service names of the reports |
| Aggregation.Group | LogReporter/Controllers/LogReportController.cs:168 | a group holds the reports of its service, each as often as in the input, and nothing else |
| Aggregation.MergeCounts | LogReporter/Controllers/LogReportController.cs:172-175 | the merged histogram counts each category as the sum over the group, with no empty category |
| Aggregation.MergeCountsTotal | LogReporter/Controllers/LogReportController.cs:172-175 | the merged histogram counts the sum of the group's lines |
| Aggregation.EarliestOf | LogReporter/Controllers/LogReportController.cs:177 | absent exactly when no report has an earliest entry; otherwise one of them and no later than any |
| Aggregation.LatestOf | LogReporter/Controllers/LogReportController.cs:178 | absent exactly when no report has a latest entry; otherwise one of them and no earlier than any |
| Aggregation.MergeGroupConsistent | LogReporter/Controllers/LogReportController.cs:169-178 | merging consistent reports gives a consistent report |
| Aggregation.MergeGroup | LogReporter/Controllers/LogReportController.cs:169-178 | the merged report has the group's service, the earliest of the earliest entries and the latest of the latest entries (absent exactly when absent from every report), each category's sum over the group, and a rotation count no smaller than any file's |
| Aggregation.MergedRotationsOvercount | LogReporter/Controllers/LogReportController.cs:176 | summing one count `k` over `n` files gives `n * k` |
| Aggregation.SumRotationsBounds | LogReporter/Controllers/LogReportController.cs:176 | the sum is at least every file's rotation count, and zero exactly when every count is |
| Aggregation.Merge | LogReporter/Controllers/LogReportController.cs:168-179 | one report per group key, in key order, each the merge of its group |
| Aggregation.MergeOneService | LogReporter/Controllers/LogReportController.cs:168-179 | reports of a single service merge into one report, the merge of their group |
| Aggregation.MergeOnePerService | LogReporter/Controllers/LogReportController.cs:168-179 | each service appears once in the output, and the output has exactly the input's services |
| Aggregation.MergeConsistent | LogReporter/Controllers/LogReportController.cs:168-179 | merging keeps every report consistent |
| Aggregation.Selected | LogReporter/Controllers/LogReportController.cs:163-164 | the selected files are the directory's files whose filter key the filter accepts, each as often as in the directory, and nothing else |
| Aggregation.FileReports | LogReporter/Controllers/LogReportController.cs:165-167 | all reports in file order when no file throws; otherwise the exception of some file that throws |
| Aggregation.SelectedReports | LogReporter/Controllers/LogReportController.cs:163-166 | the job's files all yield a report exactly when every accepted file of the directory does |
| Aggregation.GenerateReports | LogReporter/Controllers/LogReportController.cs:159-182 | the job succeeds exactly when every accepted file yields a report; its reports are consistent, name each service once, and name exactly the services of the accepted files |
| Aggregation.ReportServices | LogReporter/Controllers/LogReportController.cs:163-168 | the reports of the selected files name exactly the services of the files the filter accepts |
| Aggregation.FilesOf | LogReporter/Controllers/LogReportController.cs:168 | the files of a service are its files in the input, each as often as there, and nothing else |
| Aggregation.GroupIsFilesOf | LogReporter/Controllers/LogReportController.cs:165-168 | the group of a service is the reports of that service's files, in file order |
| Aggregation.GenerateReportsMerged | LogReporter/Controllers/LogReportController.cs:159-182 | each report of the job is the merge of the reports of its service's selected files, of which there is at least one |
| Aggregation.FileReportsEach | LogReporter/Controllers/LogReportController.cs:165-166 | the files all yield a report exactly when each of them does |
| Aggregation.FileReportsRotations | LogReporter/Controllers/LogReportController.cs:263-264 | every file report carries the directory-wide rotation count of its service |
| Aggregation.MergeRotations | LogReporter/Controllers/LogReportController.cs:176 | a merged report's rotation count is the group size times the service's rotation count |
| Aggregation.GenerateReportsRotations | LogReporter/Controllers/LogReportController.cs:159-182 | for the whole job: each service's rotation count is its directory-wide count times the number of its selected files |
| Aggregation.AuthRotations | LogReporter/Controllers/LogReportController.cs:263-264 | `auth.log` and `auth.1.log` hold one rotation file of `auth` |
| Aggregation.AuthScenario | LogReporter/Controllers/LogReportController.cs:168-179 | the reports of `auth.log` and `auth.1.log` merge into one `auth` report spanning both, with `INFO` 2, `ERROR` 1 and rotation count 2 |
| TaskStatus.StatusOf | LogReporter/Controllers/LogReportController.cs:150 | completed when the completion flag is set; faulted when only the fault flag is; in progress otherwise |
| TaskStatus.LabelInjective | LogReporter/Controllers/LogReportController.cs:150-155 | the three status texts are distinct, so counting texts counts states |
| TaskStatus.Info | LogReporter/Controllers/LogReportController.cs:123-140 | the info carries the id and status text, and a result exactly when the job completed: its stored reports |
| TaskStatus.WithId | LogReporter/Controllers/LogReportController.cs:115-117 | exactly the stored jobs with the id |
| TaskStatus.GetOne | LogReporter/Controllers/LogReportController.cs:111-141 | not found exactly when no job has the id; a success is the info of a job with that id, with a result exactly when it completed |
| TaskStatus.GetOneFinds | LogReporter/Controllers/LogReportController.cs:115-141 | with unique ids, a stored job's id returns that job's info |
| TaskStatus.WithIdDistinct | LogReporter/Controllers/LogReportController.cs:117 | with unique ids, the lookup finds at most one job |
| TaskStatus.GetAll | LogReporter/Controllers/LogReportController.cs:143-152 | one brief info per stored job, in table order, and the job count |
| TaskStatus.GetAllCounters | LogReporter/Controllers/LogReportController.cs:152-155 | each counter counts the jobs in its state, and the three counters add up to the number of jobs |
| TaskStatus.CountStatusPartition | LogReporter/Controllers/LogReportController.cs:153-155 | every job is in exactly one of the three states |

## Left out

- `Post` and the job registry (lines 33-109): the database, the `ConcurrentDictionary`, `Guid`, `ContinueWith` and the saving of results are I/O and concurrency. The stored jobs are a list of `ReportTask` values whose two flags `GetOne`/`GetAll` read as stored. The continuation sets both flags on the tracked entity (lines 69-70), but for a faulted job it returns at lines 71-75, before `SaveChangesAsync` (line 92). So a faulted job keeps the flags it was created with (`IsCompleted` and `IsFaulted` both false, lines 48-49) and is reported "In progress"; `IsFaulted` is never stored as true. The model takes the flags as given and does not model these writes.
- File I/O: `Directory.GetFiles`, `ReadAllLinesAsync` and `Directory.Exists`. A directory is a list of files with their lines, and an unreadable file is not modelled.
- The concurrency of `Task.WhenAll`: files are processed one after another. The job fails with the exception of the first failing file in directory order.
- `DateTime.TryParse` and the `DateTime` type: a parameter maps the 19 timestamp characters to an integer time or to no time.
- FileParsing.Summarize: the model writes "no entry yet" as `None`, where the code starts from the markers `DateTime.MaxValue`/`MinValue` and maps them back to `null` (lines 212-213, 255-256), so a time equal to a marker is treated like any other. In the code a file whose only parsed times are `0001-01-01 00:00:00` (`MinValue`) sets `minDate` but leaves `maxDate` at `MinValue`, so its report has an earliest entry, no latest entry and a non-empty histogram; the model gives both entries, and `FileParsing.DescribedIsConsistent` does not hold for the code in that case. `MaxValue` has sub-second ticks, so a 19-character timestamp never parses to it.
- The null checks of `Path.GetFileName` (line 199) and `Path.GetDirectoryName` (line 259): a file in the model always has a name and a directory.
- Aggregation.Selected: the service filter is a predicate on the filter key. The .NET regular-expression engine behind it is not modelled, and neither is an invalid pattern that throws in `new Regex`.
- FileNames.MatchesServicePattern: the search pattern `{service}.*.log` is modelled as "starts with the service and a `.`, ends with `.log`", with the service compared literally. The service name is pasted into the pattern unescaped, so a `*` or `?` in it acts as a wildcard: for the file `a?b.log` the service is `a?b`, and the search also returns `axb.1.log`, which the model does not. Windows-specific wildcard rules (8.3 names, extension prefix matching) and case-insensitive file systems are not modelled either.
- LineParsing.ParseLine: lengths and indices count characters (Unicode scalar values), not the UTF-16 code units of .NET strings. A character outside the Basic Multilingual Plane is one character here and two code units in .NET, so such lines can differ at the 20-unit length check and in the slice `Substring(1, 19)` (line 231). For example, `\U{1F600}` followed by 18 letters is too short here and fails the file, while the code reads its timestamp, fails to parse it and skips the line. `Trim`, `Split` and `Replace` are affected the same way.
- Text.IsWordChar, Text.IsDigit, Text.IsWhiteSpace: the regex classes `\w` and `\d` and the whitespace of `Trim` are their ASCII subsets, not the Unicode categories .NET uses.
- FileNames.IsRotationFile: the `$` of `\d+\.log$` also matches before a final newline in .NET; names never end in a newline here.
- Histogram.Increment: counts are unbounded naturals; the `int` counter of the code (32-bit, would overflow past 2^31 - 1 lines) is not modelled.
- Aggregation.Services: the report order is the order in which services first appear among the selected files, which is the order `GroupBy` and `ToDictionary(...).Values` give in practice. .NET does not document `Dictionary` enumeration order.
- The HTTP layer (`ActionResult`, `NotFound`, `BadRequest`) and the DTO/entity conversions (lines 77-88, 125-132): a job's result is its list of reports as stored.
