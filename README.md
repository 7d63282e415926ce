# Inner Orchard data scripts, modelled in Dafny

Inner Orchard is a personal dashboard fed by a handful of Python scripts. This
project models the logic of seven of them and proves properties of that logic:

- the calendar fetchers (`fetch_calendar.py` and `fetch_calendar_week_icalbuddy.py`)
  turn icalBuddy's output lines into one JSON week file per ISO week;
- the yearly archive builder (`build_calendar_archive.py`) merges the week files of
  a year into one deduplicated, start-sorted event list, cut into at most nine
  size-bounded chunks, and writes a plain-text report of the repeats it met;
- the week normalizers (`read_calendar_week.py`, `build_weekly.py`) turn the events
  of a week file into display rows with clamped minute durations, field defaults,
  a sort order and per-calendar minute totals;
- the Bear exporter (`export_bear_notes.py`) joins the rows of Bear's note, tag,
  backlink and attachment tables, resolves `[[wiki links]]`, selects notes by ids
  or tag and writes each note as Markdown with a front-matter header;
- the mood logger (`log_mood.py`) clamps a score into [1, 10] and splits a
  comma-separated tag list.

Files:

| file | module | models |
|---|---|---|
| `wrappers.dfy` | `Wrappers` | `Option` and `Result` (an uncaught exception is an `Err`) |
| `json.dfy` | `Json` | JSON values, Python truthiness and `dict.get` with `or` defaults |
| `text.dfy` | `Text` | `str.split`, `join`, `strip`, `replace`, `lower`, `int()`, `str()` of integers |
| `dates.dfy` | `Dates` | the proleptic Gregorian calendar, `isocalendar`/`fromisocalendar`, ISO text forms, date-time differences |
| `sorting.dfy` | `Sorting` | Python's string ordering and its stable `list.sort` by a tuple key, ascending or `reverse=True` |
| `steps.dfy` | `Steps` | a row loop whose body skips (`continue`), appends, or raises |
| `archive.dfy` | `Archive` | `scripts/build_calendar_archive.py` |
| `fetch_calendar.dfy` | `FetchCalendar` | `scripts/fetch_calendar.py` |
| `icalbuddy_week.dfy` | `IcalbuddyWeek` | `scripts/fetch_calendar_week_icalbuddy.py` |
| `read_calendar_week.dfy` | `ReadCalendarWeek` | `scripts/read_calendar_week.py` |
| `build_weekly.dfy` | `BuildWeekly` | `scripts/build_weekly.py` |
| `export_bear.dfy` | `ExportBear` | `scripts/export_bear_notes.py` |
| `log_mood.dfy` | `LogMood` | `scripts/log_mood.py` |

Loops that append to lists, fill dictionaries or count are Dafny methods with
loop invariants. Each is proved equal to a recursive specification function,
and the lemmas beside it state what that function means. The models follow the
code where it differs from the repository's prose. There is no `today` or
`yesterday` token. A short attributed line is skipped, not padded. The fallback
line shape does no label cleaning. Python's `"\u0001f9e8"` is the five-character
text U+0001 followed by `f9e8`, and `clean_line` removes exactly that.
`build_weekly.py` sorts the whole `(date, start)` key in reverse, so times within
a day are descending, although the comment at line 66 says otherwise. An
exception the scripts do not catch is an error result, never a skip.

The clock, today's date and the local UTC offset are parameters. The size of a
serialised chunk is an abstract function `size`. Directory listings, database
queries and icalBuddy's output are input sequences.

## Model

| member | source | states |
|---|---|---|
| Archive.ParseWeekLabel | scripts/build_calendar_archive.py:84-91 | a parsed label is a year of at most four digits and a week of at most two |
| Archive.ParseWeekLabelReads | scripts/build_calendar_archive.py:84-91 | `DDDD-WDD` followed by any text, with or without one leading `week-`, reads as exactly those two numbers |
| Archive.ParseWeekLabelStripsOnce | scripts/build_calendar_archive.py:86-88 | only one `week-` is removed: `week-week-…` does not parse |
| Archive.WeeksAreAdjacentBasics | scripts/build_calendar_archive.py:94-107 | adjacency is symmetric, never holds between a label and itself, and is false when either label does not parse |
| Archive.WeeksAreAdjacentCases | scripts/build_calendar_archive.py:99-107 | same year: adjacent iff the weeks differ by one; consecutive years: iff the earlier is week 52 or 53 and the later week 1, in either argument order; otherwise never |
| Archive.IsoWeekLabelParses | scripts/build_calendar_archive.py:84-91 | the label `YYYY-Www` of a four-digit ISO year, with or without `week-`, parses back to (year, week) |
| Archive.ConsecutiveIsoWeeksAdjacent | scripts/build_calendar_archive.py:94-107 | the label of every ISO week is adjacent to the label of the week after it, across year ends included |
| Archive.FetchedWeeksAdjacent | scripts/build_calendar_archive.py:94-107 | the labels the fetch scripts write for two start days seven days apart parse to their ISO weeks and are adjacent |
| Archive.AdjacencyAcrossWeek53 | scripts/build_calendar_archive.py:103-106 | week 52 of a 53-week year counts as adjacent to week 1 of the next year, although their Mondays are fourteen days apart |
| Archive.ParseField | scripts/build_calendar_archive.py:46-63 | a start or end is parsed only from a truthy field whose text parses, and the result is a valid date-time |
| Archive.DedupKey | scripts/build_calendar_archive.py:66-76 | the key is (title or "", the `isoformat` of a parsed start or else the raw start text or "", the same for the end) |
| Archive.KeyTimeDeterminesTime | scripts/build_calendar_archive.py:70-75 | equal key texts for a parsed field mean equal parsed date-times |
| Archive.DedupKeyNormalises | scripts/build_calendar_archive.py:66-76 | events with the same title and the same parsed start and end have the same key, however their times were written |
| Archive.ParseExcludeList | scripts/build_calendar_archive.py:220 | every exclude name is stripped and non-empty |
| Archive.ParseExcludeListRoundTrip | scripts/build_calendar_archive.py:220 | names joined by commas read back as the same names in order; no option gives no names |
| Archive.SuffixStart | scripts/build_calendar_archive.py:189 | the suffix of a file name starts at its last dot, which is neither the first nor the last character |
| Archive.StemSuffix | scripts/build_calendar_archive.py:189 | a file name is its stem followed by its suffix |
| Archive.FileOccs | scripts/build_calendar_archive.py:118-131 | a week file whose name matches `week-DDDD-WDD.json` and that does not raise contributes every entry of its `events` list in order, each an object, with the file's path and label; any other file contributes none |
| Archive.OccsOf | scripts/build_calendar_archive.py:129 | the events met in a list of object entries are those entries in order, each with the file's path and label |
| Archive.FirstsAreFirst | scripts/build_calendar_archive.py:134-156 | each kept element is eligible and is the first eligible element with its key |
| Archive.FirstsSummary | scripts/build_calendar_archive.py:134-156 | the kept elements come from the input, have pairwise distinct keys, and cover the key of every eligible element |
| Archive.RepeatIsSameDay | scripts/build_calendar_archive.py:135-140 | a repeat of a key always starts on the first occurrence's day, so it goes unreported exactly when the two week labels are adjacent |
| Archive.MergeEvent | scripts/build_calendar_archive.py:129-156 | one pass of the inner loop keeps the merge state: `seen` holds the first occurrence of every key met, `events` the annotated first occurrences, `duplicates` the reported repeats |
| Archive.MergeWeek | scripts/build_calendar_archive.py:127-156 | `load_week` and the inner loop over one matching file raise exactly when the file is not an object, its `events` is `true`, or one iterated entry is not an object (a non-empty string's characters included); otherwise the merge state is extended by that file's events |
| Archive.AnyRaisesExists | scripts/build_calendar_archive.py:118-128 | the files raise as a whole exactly when one of them raises |
| Archive.MergeFiles | scripts/build_calendar_archive.py:118-156 | the outer loop raises exactly when some file raises; otherwise it ends with the annotated first occurrences of each key and the reported repeats of all files |
| Archive.BuildArchive | scripts/build_calendar_archive.py:110-160 | the build fails exactly when some matching week file raises; otherwise the events are the annotated first occurrences of each key among eligible events, stably sorted by start text, a permutation of them; the duplicates are the reported repeats in encounter order |
| Archive.KeptIsFirstOfEachKey | scripts/build_calendar_archive.py:129-156 | every kept event has a start in the target year and no excluded calendar, no two kept events share a key, and every eligible event's key is kept |
| Archive.NoRepeatsNoReport | scripts/build_calendar_archive.py:134-150 | when no two eligible events share a key, nothing is reported |
| Archive.AnnotateKeepsFields | scripts/build_calendar_archive.py:153-156 | a kept record is the event with `source_week` and `source_file` set and every other field unchanged |
| Archive.ArchiveOrderStable | scripts/build_calendar_archive.py:159 | the sort keeps the encounter order of events with the same start text |
| Archive.SplitEvents | scripts/build_calendar_archive.py:163-177 | no events give one empty chunk; otherwise 1 to 9 non-empty chunks concatenate to the input, every chunk but the last reached the size limit first at its last event, and with fewer than 9 chunks the last never reached it |
| Archive.ChunkPath | scripts/build_calendar_archive.py:189 | a chunk file stays in the output's directory |
| Archive.ChunkPathsDistinct | scripts/build_calendar_archive.py:188-189 | chunks with different numbers get different paths |
| Archive.ChunkPathIsNotOutput | scripts/build_calendar_archive.py:183-191 | a numbered chunk path never equals the single-file output path |
| Archive.ReportHeader | scripts/build_calendar_archive.py:194-201 | the report header has six lines, from the title to a blank line |
| Archive.ReportListsDuplicates | scripts/build_calendar_archive.py:202-209 | with duplicates, the header is followed by the heading, one line per duplicate in order, a blank line and the review request |
| Archive.ReportWithoutDuplicates | scripts/build_calendar_archive.py:210-212 | without duplicates, the header is followed by the no-duplicates heading and the nothing-to-do line |
| Archive.ReportSplitsIntoLines | scripts/build_calendar_archive.py:213 | when no line holds a newline, the report text splits back into its lines |
| Archive.ReportText | scripts/build_calendar_archive.py:202-213 | the loop that appends the report lines produces the report's lines joined by newlines |
| Archive.NameChunks | scripts/build_calendar_archive.py:187-191 | chunk i (from 1) is written to `stem-i.suffix`, in order |
| Archive.WriteOutputs | scripts/build_calendar_archive.py:180-213 | the files hold exactly the chunks `split_events` cuts the events into (`Chunking`), in order; their paths are `OutputPaths`: the output path for one chunk, else `<stem>-<i><suffix>` for i = 1..n, all distinct; no events write one empty file at the output path; the report names the written paths; only an empty output file name (whose `with_name` raises) fails |
| FetchCalendar.ToObject | scripts/fetch_calendar.py:133-143 | an event is written as exactly its seven fields, with the date-times in `isoformat` text |
| FetchCalendar.ToObjectReadsBack | scripts/fetch_calendar.py:137-138 | the written start and end parse back to the event's own date-times |
| FetchCalendar.CleanLine | scripts/fetch_calendar.py:69-70 | a cleaned line neither starts nor ends with whitespace |
| FetchCalendar.CleanLineJoinsPieces | scripts/fetch_calendar.py:69-70 | cleaning removes every non-overlapping occurrence of U+0001 `f9e8`, left to right, then strips |
| FetchCalendar.CleanLineWithoutMarker | scripts/fetch_calendar.py:69-70 | without U+0001 cleaning is `strip`, and cleaning twice is cleaning once |
| FetchCalendar.ParseLocal | scripts/fetch_calendar.py:123-127 | a date-time text parses iff `Dates.ParseIso` accepts it (the subset of `fromisoformat` listed under Left out), and the result is that date-time with the local offset attached |
| FetchCalendar.ParseBoth | scripts/fetch_calendar.py:123-124 | both bounds parse iff each text parses, and each gets the local offset |
| FetchCalendar.SpanTimes | scripts/fetch_calendar.py:120-124 | a parsed span keeps the caller's all-day flag |
| FetchCalendar.DayTimes | scripts/fetch_calendar.py:125-128 | a parsed single day is all-day |
| FetchCalendar.FieldTimes | scripts/fetch_calendar.py:118-128 | both bounds are valid and in the local offset, and all-day is the flag or the absence of " - " |
| FetchCalendar.SpanOnOneDay | scripts/fetch_calendar.py:120-124 | both ends of a span fall on the day written before the first space |
| FetchCalendar.DayField | scripts/fetch_calendar.py:125-127 | a single day D gives D 00:00:00 to D 23:59:59 in the local offset |
| FetchCalendar.AttributedOutcome | scripts/fetch_calendar.py:111-143 | an emitted event is in the local offset and, given a sample day, starts on it |
| FetchCalendar.AttributedFields | scripts/fetch_calendar.py:111-128 | fewer than six fields are skipped; an event takes title, calendar, location and notes from fields 1, 2, 5 and 6, and is all-day iff the flag is `yes`/`true` in any case or the datetime field lacks " - " |
| FetchCalendar.MatchAt | scripts/fetch_calendar.py:85 | a match of the inline pattern starts with `@` and a `DDDD-DD-DD` date |
| FetchCalendar.SearchFrom | scripts/fetch_calendar.py:85 | the search finds the leftmost match, and none means no position matches |
| FetchCalendar.FallbackFields | scripts/fetch_calendar.py:92-94 | the title part is the text before the first `@`; the location is the text after the second `@`, or "" |
| FetchCalendar.FallbackEvent | scripts/fetch_calendar.py:89-109 | a fallback event has the stripped text before the first `@` as title, the text after the second `@` as location, empty calendar and notes, and is not all-day |
| FetchCalendar.FallbackOutcome | scripts/fetch_calendar.py:83-110 | a fallback event is in the local offset and, given a sample day, starts on it |
| FetchCalendar.FallbackEventFields | scripts/fetch_calendar.py:83-110 | a line without the inline pattern is skipped; an emitted line has an `@` and the fallback fields |
| FetchCalendar.FallbackOnMatchedDate | scripts/fetch_calendar.py:89-96 | both ends of a fallback event fall on the matched date |
| FetchCalendar.LineOutcome | scripts/fetch_calendar.py:79-143 | a line empty after cleaning emits nothing; an emitted event is in the local offset and, given a sample day, starts on it |
| FetchCalendar.ParseAllEvents | scripts/fetch_calendar.py:73-146 | at most one event per line, all in the local offset, all on the sample day when one is given |
| FetchCalendar.ParseLines | scripts/fetch_calendar.py:73-146 | the loop collects the outcome of each line in order, and the first uncaught error ends it |
| FetchCalendar.Matching | scripts/fetch_calendar.py:177 | the matching events are those whose calendar contains an allowed name, each as many times as it occurs in the input, and there are some iff some event matches |
| FetchCalendar.MatchingConcat | scripts/fetch_calendar.py:177 | the filter keeps input order: the matches of a concatenation are the matches of each part, concatenated |
| FetchCalendar.FilterFailsOpen | scripts/fetch_calendar.py:176-181 | if some event matches, exactly the matching events remain, as `Matching` gives them; otherwise the list is unchanged, so a non-empty week never becomes empty |
| FetchCalendar.AllowList | scripts/fetch_calendar.py:163 | no or empty `--cals` gives no filter; otherwise each comma-separated part, stripped, in order |
| FetchCalendar.StartDay | scripts/fetch_calendar.py:161 | without `--start` the week starts on the Monday of today's week; a given `--start` is accepted iff it is a ten-character ISO day, which is then the start |
| FetchCalendar.StartDayGiven | scripts/fetch_calendar.py:161 | a `--start` written as a day's ISO text starts the week on that very day |
| FetchCalendar.EndDay | scripts/fetch_calendar.py:162 | the end is seven days after the start, and fails only past the last representable day |
| FetchCalendar.BuildPayload | scripts/fetch_calendar.py:183-191 | the payload holds the start's ISO week label, UTC-midnight bounds, the events with their count, source `icalbuddy` and the allowed names or "all" |
| FetchCalendar.PayloadWindow | scripts/fetch_calendar.py:184-186 | the bounds parse back to UTC midnight of the start and of the day seven days later |
| IcalbuddyWeek.BaseCommand | scripts/fetch_calendar_week_icalbuddy.py:35-49 | the command without calendars has thirteen arguments |
| IcalbuddyWeek.Command | scripts/fetch_calendar_week_icalbuddy.py:50-51 | with calendars, `-ic` and the comma-joined names sit at positions 1 and 2 and every other argument shifts by two unchanged; without, the command is unchanged |
| IcalbuddyWeek.CommandWindow | scripts/fetch_calendar_week_icalbuddy.py:35-51 | the command ends with the property list, the separator and the two ISO days of the window, which read back as those days |
| IcalbuddyWeek.PropertiesInOrder | scripts/fetch_calendar_week_icalbuddy.py:33-34 | the property list names the six fields in the order the parser reads them |
| IcalbuddyWeek.CalendarFilterReadsBack | scripts/fetch_calendar_week_icalbuddy.py:50-51 | calendar names without commas split back from the `-ic` argument |
| IcalbuddyWeek.ParseDatetime | scripts/fetch_calendar_week_icalbuddy.py:76-91 | both bounds are valid and in the local offset, and all-day is the flag or the absence of " - " |
| IcalbuddyWeek.ParseDatetimeSpan | scripts/fetch_calendar_week_icalbuddy.py:81-86 | a span puts both ends on the date part and passes the flag through unchanged |
| IcalbuddyWeek.ParseDatetimeDay | scripts/fetch_calendar_week_icalbuddy.py:87-91 | a single day, stripped first, gives an all-day event from 00:00:00 to 23:59:59 of that day |
| IcalbuddyWeek.AgreesWithMainFetch | scripts/fetch_calendar_week_icalbuddy.py:76-91 | on a field without surrounding blanks, this parser and the main fetch's give the same result |
| IcalbuddyWeek.IcalLine | scripts/fetch_calendar_week_icalbuddy.py:57-72 | an emitted event is in the local offset |
| IcalbuddyWeek.IcalLineCases | scripts/fetch_calendar_week_icalbuddy.py:57-72 | fewer than six fields are skipped, a datetime field that fails to parse raises, and an event takes its fields in order and is all-day iff the flag is `yes` in any case or there is no span |
| IcalbuddyWeek.ReadOutputEvents | scripts/fetch_calendar_week_icalbuddy.py:54-73 | at most one event per stripped output line, each emitted by one of those lines, all in the local offset |
| IcalbuddyWeek.RunIcalbuddy | scripts/fetch_calendar_week_icalbuddy.py:29-73 | without icalBuddy installed the run fails; a non-zero exit status of the command fails; otherwise the loop yields the events of the output lines in order, and an output line that raises fails the run |
| IcalbuddyWeek.IcalPayload | scripts/fetch_calendar_week_icalbuddy.py:106-114 | the payload holds the ISO week label, the events with their count, source `icalBuddy` and the calendars or "all" |
| IcalbuddyWeek.IcalPayloadWindow | scripts/fetch_calendar_week_icalbuddy.py:100-109 | the bounds are plain ISO days, seven days apart, that read back as the start and end |
| IcalbuddyWeek.ArchiveSkipsIcalFiles | scripts/fetch_calendar_week_icalbuddy.py:117 | the archive builder's name pattern accepts the main fetch's `week-YYYY-Www.json` and rejects this script's `week-YYYY-Www-icalbuddy.json` |
| ReadCalendarWeek.WeekStartFromLabel | scripts/read_calendar_week.py:35-37 | a label's week start is a valid Monday |
| ReadCalendarWeek.ParseWeek | scripts/read_calendar_week.py:25-32 | an accepted week label is returned unchanged |
| ReadCalendarWeek.ParseWeekAccepts | scripts/read_calendar_week.py:25-37 | a label is accepted iff it splits on `-W` into two integers naming an existing ISO week, iff its week start exists, and that start is weekday 1 of that week |
| ReadCalendarWeek.IsoWeekStrRoundTrip | scripts/read_calendar_week.py:20-37 | the label of any day is accepted, and its week start is that day's Monday |
| ReadCalendarWeek.DefaultWeekRoundTrip | scripts/read_calendar_week.py:119-120 | the default label, of this week's Monday, is accepted and starts on that Monday |
| ReadCalendarWeek.DefaultWeek | scripts/read_calendar_week.py:120 | the default week label is accepted and its week start is the Monday of today's week |
| ReadCalendarWeek.SameWeekLabel | scripts/read_calendar_week.py:120 | a day and its week's Monday have the same ISO week label |
| ReadCalendarWeek.LoadEvents | scripts/read_calendar_week.py:57-60 | raises iff the file is not an object or its `events` is `true`; otherwise the object entries of the list, and none for any other single value |
| ReadCalendarWeek.ObjectsCount | scripts/read_calendar_week.py:60 | the kept entries are exactly the object entries, each as many times as it occurs |
| ReadCalendarWeek.ObjectsConcat | scripts/read_calendar_week.py:60 | the comprehension keeps entry order: the objects of a concatenation are the objects of each part, concatenated |
| ReadCalendarWeek.NoObjects | scripts/read_calendar_week.py:60 | entries none of which is an object, such as a string's characters, keep nothing |
| ReadCalendarWeek.RowOf | scripts/read_calendar_week.py:75-86 | a row has the start's date and clock, the end's clock, the floored non-negative minutes between them, and title, calendar and notes defaulting to ""; category is category, else calendar, else "" |
| ReadCalendarWeek.NormalizeEvent | scripts/read_calendar_week.py:65-87 | an event is skipped iff its start or end is missing, falsy or unparseable; mixing a naive and an aware bound raises; otherwise it gives its row |
| ReadCalendarWeek.NormalizeEvents | scripts/read_calendar_week.py:63-89 | fails exactly when the loop raises or two rows with the same date and start have a `True` title and a string title (the sort's `TypeError`); otherwise the rows of the events, sorted by (date, start, title), a permutation of them, never more than the events |
| ReadCalendarWeek.StringTitlesNeverMix | scripts/read_calendar_week.py:83-88 | events whose titles are strings or falsy give only string titles, so the sort never raises |
| ReadCalendarWeek.RowsFromEvents | scripts/read_calendar_week.py:63-89 | every row comes from an event whose bounds parse, and rows with equal sort keys keep event order |
| ReadCalendarWeek.RowsOn | scripts/read_calendar_week.py:94 | the rows of a day are exactly the rows with that date, each as many times as it occurs |
| ReadCalendarWeek.RowsOnConcat | scripts/read_calendar_week.py:94 | the comprehension keeps row order: a day's rows in a concatenation are its rows in each part, concatenated |
| ReadCalendarWeek.BuildPayload | scripts/read_calendar_week.py:92-105 | the selected day is the given day, else the week's Monday when there are rows, else none; the day view is `RowsOn` of the rows for that day, so exactly its rows in order; the count is the number of rows; an unreadable label with rows and no day raises |
| BuildWeekly.RowFrom | scripts/build_weekly.py:49-65 | a row has the floored non-negative minutes, calendar and category both the calendar or `未分类`, title and notes as given or "" |
| BuildWeekly.CalendarRow | scripts/build_weekly.py:43-65 | an entry is skipped iff it is not an object with both bounds parseable; mixing naive and aware bounds raises; otherwise it gives its row |
| BuildWeekly.AddMinutes | scripts/build_weekly.py:53 | adding minutes to a category adds them to it alone, listing a new category last |
| BuildWeekly.AddMinutesWellFormed | scripts/build_weekly.py:53 | adding minutes keeps every category listed once |
| BuildWeekly.TotalsPerCategory | scripts/build_weekly.py:50-53 | the totals list each category once, their keys are exactly the rows' categories, and each holds the minutes of its rows |
| BuildWeekly.TotalsSum | scripts/build_weekly.py:53 | the totals add up to the minutes of all rows |
| BuildWeekly.TotalsEmptyIffNoRows | scripts/build_weekly.py:100-108 | the totals are empty iff there are no rows |
| BuildWeekly.NotesCountCountsEvents | scripts/build_weekly.py:51-52 | `notes_count` counts the emitted events whose notes are truthy |
| BuildWeekly.NormalizeCalendar | scripts/build_weekly.py:38-74 | raises iff `Rows` does (a file that is not an object, `events` of `true`, or a naive/aware mix); otherwise the week rows are the entries' rows sorted by (date, start) in reverse, a permutation of them; month and year are empty; totals and notes count are those of the rows |
| BuildWeekly.NormalizeEntries | scripts/build_weekly.py:42-74 | over the iterated entries: raises iff a readable entry mixes naive and aware bounds; otherwise the week rows are the entries' rows sorted by (date, start) in reverse, a permutation of them, with the totals and notes count of the rows |
| BuildWeekly.EventsOf | scripts/build_weekly.py:39-43 | the loop cannot start iff the file is not an object or its `events` is `true`; a list gives its entries |
| BuildWeekly.ScalarEventsNoRows | scripts/build_weekly.py:39-45 | a falsy `events` or a string in its place gives no rows and does not raise |
| BuildWeekly.RowsFromEvents | scripts/build_weekly.py:43-67 | every row comes from a readable entry, and rows with equal keys keep entry order |
| BuildWeekly.NewestFirst | scripts/build_weekly.py:66-67 | the sorted rows have descending dates, and within a date descending start times |
| BuildWeekly.CalendarCards | scripts/build_weekly.py:90-99 | one card per category in insertion order, with its minutes, baseline 0 and no change |
| BuildWeekly.CardsSummariseRows | scripts/build_weekly.py:90-99 | the cards name each category of the rows once, with the minutes of its rows |
| BuildWeekly.BuildPayload | scripts/build_weekly.py:77-120 | raises iff `Rows` does; otherwise the activity cards replace the loaded aggregate in all four periods iff there is a row; the calendar part is the normalized calendar; the meta holds the source or "mock" and the notes count |
| ExportBear.BearLink | scripts/export_bear_notes.py:76-78 | a link exists iff the identifier is truthy, and is the open-note URL ending in that identifier |
| ExportBear.SetDefaultAppend | scripts/export_bear_notes.py:50 | `setdefault(k, []).append(v)` appends to k's list alone, creating it when absent |
| ExportBear.SetDefaultAppendValid | scripts/export_bear_notes.py:50 | appending keeps every key listed once |
| ExportBear.GroupAllSpec | scripts/export_bear_notes.py:58-63 | grouping pairs gives exactly their keys, each with its values in pair order |
| ExportBear.GroupAllOrder | scripts/export_bear_notes.py:58-63 | the keys of a grouping are in first-appearance order |
| ExportBear.LastWinsSpec | scripts/export_bear_notes.py:54-55 | a dict built pair by pair holds every key with the value of its last pair |
| ExportBear.FetchNoteLookup | scripts/export_bear_notes.py:41-51 | the loop builds the lookup by primary key and the title index of truthy titles |
| ExportBear.NoteLookupLastWins | scripts/export_bear_notes.py:44-48 | every note row's key is looked up, with the title and identifier of its last row |
| ExportBear.TitleIndexSpec | scripts/export_bear_notes.py:44-51 | exactly the truthy titles are indexed, each with its notes in row order |
| ExportBear.FetchTagsSpec | scripts/export_bear_notes.py:54-55 | every tag key is present with the title of its last row |
| ExportBear.FetchNoteTags | scripts/export_bear_notes.py:58-63 | the loop groups the known tags' titles by note in row order |
| ExportBear.NoteTagsKnown | scripts/export_bear_notes.py:58-63 | a note is listed iff it has a link to a known tag, and each listed title comes from such a link |
| ExportBear.BacklinkOf | scripts/export_bear_notes.py:71-79 | a backlink carries the linker's title and identifier, and a link iff the identifier is truthy |
| ExportBear.FetchBacklinks | scripts/export_bear_notes.py:66-81 | the loop groups the backlinks by target in row order |
| ExportBear.BacklinksKnown | scripts/export_bear_notes.py:68-80 | a note has backlinks iff some row links two known notes to it, and each backlink is such a row's linker |
| ExportBear.PathJoin | scripts/export_bear_notes.py:90 | `os.path.join` of two parts: an absolute second part wins, otherwise one slash separates them |
| ExportBear.AttachmentOf | scripts/export_bear_notes.py:90-92 | the path joins base, uid and file name, and the file link is `file://` and the path |
| ExportBear.FetchAttachments | scripts/export_bear_notes.py:84-94 | the loop groups the attachments by note in row order |
| ExportBear.AttachmentNotes | scripts/export_bear_notes.py:86-91 | a note has attachments iff some row for it has no missing field |
| ExportBear.AttachmentsFromRows | scripts/export_bear_notes.py:86-93 | each attachment comes from a complete row for its note |
| ExportBear.AttachmentPathPlain | scripts/export_bear_notes.py:90-92 | with plain parts the path is base/uid/fname |
| ExportBear.LinksFound | scripts/export_bear_notes.py:99 | every link found is non-empty, holds no newline and stands between `[[` and `]]` in the text |
| ExportBear.LinkThenRest | scripts/export_bear_notes.py:99 | a text starting with `[[t]]` for a plain title t yields t and then the links of the rest |
| ExportBear.NoBracketNoLinks | scripts/export_bear_notes.py:99 | a text without `[` has no links |
| ExportBear.ForwardOf | scripts/export_bear_notes.py:100-108 | a link's record has its title, the identifier of the title's first indexed note or none, and the Bear link of that identifier |
| ExportBear.ResolveForwardLinks | scripts/export_bear_notes.py:97-110 | one record per link found, in order, repeats kept |
| ExportBear.ForwardNamesFirstNote | scripts/export_bear_notes.py:100-107 | through the title index, a link names the first note row with its title, and has no identifier or link when no note has it |
| ExportBear.BranchOf | scripts/export_bear_notes.py:137-156 | non-empty ids come first, then a truthy tag, then a day count, then all notes |
| ExportBear.Tagged | scripts/export_bear_notes.py:141-145 | a note is selected iff one of its tags is `t`, `#t` or `/t` |
| ExportBear.SelectNotePks | scripts/export_bear_notes.py:128-156 | the branch taken gives the id rows, the tagged notes in key order, the recent rows or all rows |
| ExportBear.TaggedNotesSpec | scripts/export_bear_notes.py:141-145 | on the note-tag map, each selected note appears once, and a note is selected iff one of its links is to a known tag spelled `t`, `#t` or `/t` |
| ExportBear.FrontMatter | scripts/export_bear_notes.py:162-172 | `---`, one `key: value` line per meta entry in order, `---` |
| ExportBear.WriteNote | scripts/export_bear_notes.py:159-175 | the file is `note-<identifier or pk>.md` and holds the front matter joined by newlines, a blank line and the text or "" |
| ExportBear.NoteReadsBack | scripts/export_bear_notes.py:162-173 | without newlines in the meta, the header splits back into its lines, the body follows after one blank line, and the file starts with `---` |
| LogMood.EnsureRange | scripts/log_mood.py:27-28 | the score lies in [1, 10], is unchanged inside it, and is raised to 1 or lowered to 10 outside |
| LogMood.EnsureRangeIdempotent | scripts/log_mood.py:28 | clamping twice is clamping once |
| LogMood.EnsureRangeMonotone | scripts/log_mood.py:28 | a higher score never clamps lower |
| LogMood.ParseTags | scripts/log_mood.py:37 | tags are non-empty, stripped and comma-free; empty `--tags` gives none |
| LogMood.ParseTagsRoundTrip | scripts/log_mood.py:37 | stripped comma-free tags joined by commas read back in order |
| LogMood.MakeRecord | scripts/log_mood.py:33-39 | the record holds the given day or today's ISO date (which reads back as today), the slot, the score clamped by `EnsureRange`, the tags split by `ParseTags` and the notes |
| Dates.IsoWeekStr | scripts/fetch_calendar.py:32-34 | the label is the ISO year, `-W` and the two-digit ISO week, which lies in 1..53 |
| Dates.FromIsoCalendar | scripts/read_calendar_week.py:29 | `fromisocalendar` succeeds iff the week exists in that year and the weekday is 1..7, and gives the day with that ordinal |
| Dates.FromIsoCalendarMonday | scripts/read_calendar_week.py:37 | weekday 1 of an existing ISO week is a Monday whose `isocalendar` is that week |
| Dates.IsoCalendarRoundTrip | scripts/read_calendar_week.py:20-37 | the ISO week of a day exists, and its weekday 1 is that day's Monday |
| Dates.WeekAfter | scripts/fetch_calendar.py:161-162 | seven days on is the next ISO week, across year ends included |
| Dates.WeeksInYearFacts | scripts/build_calendar_archive.py:103-106 | an ISO year has 52 or 53 weeks |
| Dates.ParseIsoRoundTrip | scripts/build_calendar_archive.py:74-75 | `isoformat` text parses back to the same date-time |
| Dates.ParseDateTextRoundTrip | scripts/read_calendar_week.py:78 | a day's ISO text parses back to the day |
| Dates.ClampedMinutes | scripts/read_calendar_week.py:75 | the duration is the whole minutes between the bounds, floored, and 0 when the end is earlier |
| Sorting.SortBySorted | scripts/build_calendar_archive.py:159 | the sort orders its result by the key |
| Sorting.SortByPermutes | scripts/build_calendar_archive.py:159 | the sort permutes its input |
| Sorting.SortByStable | scripts/build_calendar_archive.py:159 | the sort keeps the input order of equal keys |
| Sorting.PrecedesOrder | scripts/read_calendar_week.py:88 | tuple order on string keys, ascending or reversed, is a strict total order |
| Json.Iterated | scripts/read_calendar_week.py:59-60 | iterating `data.get("events") or []` fails exactly for `true`; a list gives its entries, a falsy value nothing, and a string its characters, none of them an object |
| Text.StripAll | scripts/build_calendar_archive.py:220 | every result is non-empty and already stripped, and there are no more results than parts |
| Text.StripAllMembers | scripts/build_calendar_archive.py:220 | every result is the strip of some part, and every part that strips to non-empty text is among the results |
| Text.StripAllConcat | scripts/build_calendar_archive.py:220 | the parts are kept in their order: the result for a concatenation is the concatenation of the results |
| Steps.CollectEvents | scripts/fetch_calendar.py:79-143 | a row loop yields at most one result per row, each from a row of its own |
| Steps.CollectStopped | scripts/fetch_calendar.py:73-146 | once a row raises, later rows change nothing |

## Left out

- Process and file I/O are not modelled. This covers running icalBuddy and checking that it is installed, which is an input flag. It covers the log file and its reset, and reading and writing files. It covers `mkdir`, `unlink`, `glob` and `mtime` selection, `find_source_path` and `find_calendar`, argparse, and `print`. Their inputs and results are parameters.
- The bytes of `json.dumps` are not modelled. The chunk size is an abstract `size` function. In `write_note` a list value arrives already rendered as text.
- The internals of `datetime` are not modelled. Date-times are records with a fixed offset in minutes, and the local offset, today's date and the clock are parameters.
- FetchCalendar.StartDay: a `--start` in week-date form (`2025-W02-1`) or compact form (`20250106`), which `date.fromisoformat` accepts from Python 3.11, is rejected by the model; only `YYYY-MM-DD` is accepted.
- Dates.ParseIso: accepts only `YYYY-MM-DD`, optionally followed by `T` or a space, `HH:MM`, optional `:SS`, and an optional `Z` or `±HH:MM`. The rest of what `fromisoformat` accepts is not modelled: fractions, week dates, compact forms and offsets with seconds.
- Text.ParseInt: reads surrounding whitespace, one sign and ASCII digits. Underscores between digits and non-ASCII digits, which `int()` also accepts, are not modelled.
- Text.AsciiLower: lowers only A to Z. It is only compared with `yes` and `true`, which a non-ASCII letter cannot produce under `str.lower` either.
- A week file that is not valid JSON raises in `load_week` and ends the archive build. The model takes each week file already parsed.
- The SQL queries, the `since_days` cut-off and `apple_to_iso` in `export_bear_notes.py` are not modelled. The rows each query returns are inputs, and dates in the front matter arrive as text.
- `ensure_range` on NaN and infinities is not modelled: the score is a real number.
- The `-ic` insertion is modelled on values, not as an in-place slice assignment on the list.
- `fetch_aw.py`, `build_weekly_mock.py` and `inject_html` are not part of this model. They are an HTTP client, float sums and template replacement over files.
- Json.Value: a field value is null, a boolean or a string. Numbers, lists and nested objects as field values are not modelled, so for example a numeric `week` or `title`, or an object or number in place of the `events` list, and the crashes they can cause, are outside the model. A week file that is not an object, an `events` value of `true` or a string, and an entry that is not an object are modelled in the archive build, the week reader and the weekly build alike (`Json.Iterated`).
- Archive.ParseWeekLabel: reads ASCII digits only, where Python's `\d` also matches other decimal digits, such as full-width ones.
- Archive.NameMatches: matches ASCII digits only, so a week file named with full-width digits is skipped by the model where the script would read it.
- FetchCalendar.DateShape: matches ASCII digits only, where `\d` also matches other decimal digits.
- FetchCalendar.ClockEnd: matches ASCII digits only, where `\d` also matches other decimal digits; FetchCalendar.MatchAt inherits this.
- ExportBear.Tagged: states which notes are selected and that none is repeated, not their order. The order is the note-tag dict's insertion order, which the function follows.
