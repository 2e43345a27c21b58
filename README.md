# CSV-to-ICS converter, modelled in Dafny

The converter reads a CSV file of appointments and writes an iCalendar
(`.ics`) file with one event per row. Each row is cleaned: column names are
trimmed and lower-cased, values are trimmed. Its subject comes from the
subject column, or from the default subject when that column is missing or
empty. Its date comes from the date column, read as `DD/MM/YYYY` or as
`YYYY-MM-DD`; a row without a readable date is skipped. Every accepted row
becomes a VEVENT from 09:00 to 09:30 local time (America/Sao_Paulo) on its
date, with a reminder 15 minutes before the start. The events are wrapped in
a VCALENDAR with a fixed VTIMEZONE, and the lines are joined with CRLF.

The model follows the program's functions, one module each:

- `Text`: the string operations of Python's `str` that the program relies on: `strip`, `lower`, splitting and joining.
- `Calendar`: naive `datetime` values, the calendar's validity rules, and `+ timedelta`.
- `DateParser`: `parse_date`, which is `strptime` with its two formats.
- `IcsDate`: `format_ics_date`, together with a reader of its output.
- `Components`: BEGIN/END components, plus a checker that they nest properly.
- `Event`: `generate_event_block`, together with a reader that takes a block back apart.
- `Document`: `generate_ics_structure`.
- `RowProcessor`: the row loop of `process_csv`, as a method with loop invariants, specified by the function `Scan`.
- `Converter`: the whole of `process_csv` once the file is open: the encoding probe, the loop, the wrapping and the CRLF join.

Several things in the program cannot be seen by the model, so they become parameters:

- `uuid.uuid4()` becomes `uidOf(k)`, the identifier of the k-th event.
- `datetime.now()` becomes `clockAt(k)`, the clock reading taken for the k-th event.
- The encoding that opens the file (UTF-8, or cp1252 when the first chunk does not decode) becomes `Decoding`.
- The rows arrive as `csv.DictReader` yields them: name/value items, `None` for the cells a short row lacks, and one extra item for the surplus cells of a long row.

The column names given on the command line (`col_subject`, `col_date`) are
lower-cased but not trimmed (main.py:86-87), while the header's column names
are both trimmed and lower-cased (main.py:90). So a column option with
surrounding spaces matches no column, and the row falls back to the default
subject or is skipped for want of a date.

## Model

| member | source | states |
|---|---|---|
| Text.Strip | main.py:90 | `strip` never lengthens the text, and what it leaves neither starts nor ends with whitespace |
| Text.TrimStartCuts | main.py:90 | `lstrip` leaves a suffix of the text; everything cut is whitespace, and what remains does not start with whitespace |
| Text.TrimEndCuts | main.py:90 | `rstrip` leaves a prefix of the text; everything cut is whitespace, and what remains does not end with whitespace |
| Text.TrimBoth | main.py:90 | cutting leading and then trailing whitespace leaves a slice framed by whitespace |
| Text.StripFramed | main.py:90 | `strip` leaves the slice of the text with only whitespace on either side, and that slice neither starts nor ends with whitespace |
| Text.StripKeepsOut | main.py:90 | stripping adds no character: a character absent from the text is absent from the stripped text |
| Text.LowerChar | main.py:90 | a lowered character is never a capital letter; a capital letter moves to its small letter, and every other character is kept |
| Text.Lower | main.py:86-87 | `lower` keeps the length of the text |
| Text.LowerChars | main.py:86-87 | position by position, `lower` leaves no capital letter, lowers every capital letter and keeps every other character |
| Text.LowerIdempotent | main.py:90 | lowering an already lowered text changes nothing, so a cleaned column name is its own lower-case form |
| Text.DigitValue | main.py:15 | a decimal digit reads as a number below 10 |
| Text.Split | main.py:15 | splitting gives at least one field, and no field holds the separator |
| Text.JoinThree | main.py:15 | joining three fields puts one separator between each pair |
| Text.SplitWithoutSeparator | main.py:15 | a text without the separator splits into itself alone |
| Text.SplitFirstField | main.py:15 | a first field followed by the separator splits off as the first field |
| Text.SplitJoin | main.py:15 | splitting a join gives back the fields, provided no field holds the separator |
| Text.JoinSplit | main.py:15 | joining the fields of a split gives back the text |
| Text.JoinCrlf | main.py:121 | `'\r\n'.join` of no lines is empty, and otherwise the text opens with the first line |
| Text.JoinCrlfLast | main.py:121 | the joined text closes with the last line, with no CRLF after it |
| Text.SplitCrlf | main.py:121 | cutting a text at CRLFs always gives at least one line |
| Text.SplitCrlfWithout | main.py:121 | a text without a CRLF is a single line |
| Text.SplitCrlfFirstLine | main.py:121 | a line without a CRLF, followed by a CRLF, is cut off as the first line |
| Text.SplitJoinCrlf | main.py:121 | cutting the CRLF join at its CRLFs gives back the lines, as long as none of them holds a CRLF |
| Text.NoCarriageReturnAppend | main.py:115 | two runs of lines together are free of carriage returns exactly when each run is |
| Text.SplitJoinLines | main.py:121 | lines without carriage returns come back unchanged from their CRLF join |
| Calendar.DaysInMonth | main.py:15 | every month has 28 to 31 days, and February has 29 exactly in leap years |
| Calendar.SecondOfDay | main.py:27 | the time of day is below 86400 seconds |
| Calendar.AtSecondOfDay | main.py:27 | `replace` with a time of day keeps the date and sets the time to exactly that second of the day |
| Calendar.DaysBeforeNextMonth | main.py:28 | each month adds exactly its own length to the day count |
| Calendar.DaysBeforeMonthBound | main.py:28 | the months of a year fit within the year's length |
| Calendar.DaysBeforeNextYear | main.py:28 | a year adds 366 days in a leap year and 365 otherwise |
| Calendar.DaysBeforeYearMonotone | main.py:28 | an earlier year ends no later than a later year begins |
| Calendar.DaysBeforeMonthMonotone | main.py:28 | an earlier month ends no later than a later month begins |
| Calendar.NextDayOrdinal | main.py:28 | the next day is one day further along the ordinal count, at midnight |
| Calendar.AddSeconds | main.py:28 | adding seconds that stay within the day keeps the date and never overflows, and the year never goes back |
| Calendar.AddSecondsTimestamp | main.py:28 | adding a timedelta of `s` seconds moves exactly `s` seconds along the time line, day, month and year changes included |
| Calendar.BeforeIsEarlier | main.py:28 | Python's field-by-field `<` on datetimes agrees with the order of the time line, in both directions |
| DateParser.DayValue | main.py:13-15 | a `%d` text reads as a day from 1 to 31 |
| DateParser.MonthValue | main.py:13-15 | a `%m` text reads as a month from 1 to 12 |
| DateParser.DateOf | main.py:15 | a date built by strptime is at midnight |
| DateParser.ParseWith | main.py:15 | one strptime attempt gives a date at midnight, or fails |
| DateParser.ParseFirst | main.py:13-18 | the loop succeeds exactly when some format parses, and the first format that parses wins: every format before it fails |
| DateParser.ParseDate | main.py:11-18 | `parse_date` never raises; it returns a date at midnight, or None |
| DateParser.ParseDateUnfolded | main.py:13-18 | `parse_date` gives the `%d/%m/%Y` parse when that parse succeeds, and the `%Y-%m-%d` parse otherwise |
| DateParser.TokensLackSeparators | main.py:13 | the texts the three directives match hold neither `/` nor `-` |
| DateParser.ParseRendered | main.py:15 | directive texts joined by a format's separator are read back by that format as the same three texts |
| DateParser.ParseWithMatches | main.py:15 | one format parses a text to a date exactly when the whole text is in that format's grammar for that date and the calendar has the date; both directions |
| DateParser.LayoutsExclusive | main.py:13 | no text parses under both formats, so the order in which they are tried never matters |
| DateParser.ParseDateMatches | main.py:11-18 | `parse_date` gives a date exactly when the text is in the grammar of one of the two formats for that date; both directions |
| DateParser.ValueOfYear | main.py:15 | a `%Y` text reads as its four digits in base 10 |
| DateParser.ParsedShape | main.py:11-18 | any accepted text ends in `/` and four digits, or starts with four digits and `-` |
| DateParser.ParseDayFirst | main.py:13-15 | a text in the `%d/%m/%Y` grammar is read by the first format, whether or not the date exists |
| DateParser.ParseYearFirst | main.py:13-15 | a text in the `%Y-%m-%d` grammar fails the first format and is read by the second |
| DateParser.ParseDateDayFirstExample | main.py:11-18 | `15/03/2024` gives 15 March 2024 at midnight |
| DateParser.ParseDateYearFirstExample | main.py:11-18 | `2024-03-15` gives 15 March 2024 at midnight |
| DateParser.ParseDateSingleDigits | main.py:11-18 | `5/3/2024` is accepted: `%d` and `%m` take a single digit |
| DateParser.ParseDateSpacedDay | main.py:11-18 | `2024-03- 5` is accepted: `%d` takes a space before a single digit |
| DateParser.ParseDateLeapDay | main.py:11-18 | `29/02/2024` is accepted, since 2024 is a leap year |
| DateParser.ParseDateNoLeapDay | main.py:11-18 | `29/02/2023` is rejected, since 2023 is not a leap year |
| DateParser.ParseDateMissingDay | main.py:11-18 | `31/02/2024` is rejected |
| DateParser.ParseDateYearZero | main.py:11-18 | `01/01/0000` is rejected, although its day, month and year texts are all in the grammar |
| DateParser.ParseDateShortYear | main.py:11-18 | `15/03/24` is rejected: its day and month are in the grammar, but `%Y` needs four digits |
| DateParser.ParseDateNotADate | main.py:11-18 | `not-a-date` is rejected |
| IcsDate.DigitChar | main.py:21 | the digit written for a number below 10 reads back as that number |
| IcsDate.Pad | main.py:21 | zero padding writes exactly `w` digits, which read back as the number whenever it fits |
| IcsDate.PadValue | main.py:21 | padding the value of a digit string back to its width gives the string |
| IcsDate.Pieces | main.py:21 | the seven digit groups glued with `T` have the ICS date-time shape |
| IcsDate.Glued | main.py:21 | a text of the ICS date-time shape is its seven pieces glued |
| IcsDate.FormatIcsDate | main.py:20-21 | `format_ics_date` writes eight date digits, a `T` and six time digits |
| IcsDate.FormattedHasNoCr | main.py:20-21 | a formatted date holds no carriage return |
| IcsDate.FormatThenParse | main.py:20-21 | reading the written form back gives the datetime it was written from |
| IcsDate.ParseThenFormat | main.py:20-21 | every value the reader accepts is exactly the text written for the datetime it reads |
| Components.Component | main.py:30-45 | a component is its body plus its BEGIN and END lines |
| Components.NestAppend | main.py:64 | checking two runs of lines is checking the second from where the first left off |
| Components.NestProperties | main.py:36-42 | property lines leave the open components as they are |
| Components.NestBegin | main.py:31 | a BEGIN line opens its component |
| Components.NestEnd | main.py:44 | an END line closes the innermost component of its name |
| Components.NestWrap | main.py:30-45 | a component around a balanced body is balanced |
| Components.NestLeaf | main.py:39-43 | a component holding only property lines is balanced |
| Components.BeginDistinct | main.py:31 | two BEGIN lines are equal exactly for the same name, and no BEGIN line is an END line |
| Components.PropertiesBeginNothing | main.py:32-38 | property lines begin no component |
| Components.ComponentBegins | main.py:30-45 | the BEGIN lines of a component are its own and those of its body |
| Components.ComponentNoCr | main.py:30-45 | a component holds a carriage return only where its name or its body does |
| Event.StartOf | main.py:27 | the start keeps the row's date and is at 09:00:00 |
| Event.EndOf | main.py:28 | the end keeps the row's date and is at 09:30:00 |
| Event.EventWindow | main.py:27-28 | the event keeps its date and runs from 09:00:00 to 09:30:00; adding thirty minutes never overflows, moves 1800 seconds along the time line, and ends after the start |
| Event.EventLines | main.py:30-45 | a block has fourteen lines |
| Event.EventBlock | main.py:23-45 | `generate_event_block` gives fourteen lines |
| Event.EventLinesLayout | main.py:30-45 | each part of a block sits on its own line: BEGIN, UID, DTSTAMP, DTSTART, DTEND, SUMMARY, and so on to END |
| Event.EventPropertiesAreProperties | main.py:32-38 | every line of a block other than BEGIN and END lines is a property line, whatever the identifier and subject are |
| Event.EventLinesShape | main.py:30-45 | a block is one VEVENT, opened on its first line and closed on its last and nowhere else, and holds one VALARM with the 15-minute trigger |
| Event.EventLinesBegins | main.py:30-45 | a block begins one VEVENT and one VALARM, and no other component |
| Event.NestEventLines | main.py:30-45 | a block closes every component it opens |
| Event.PropertiesNoCr | main.py:32-38 | the event's properties hold a carriage return only where one of their texts does |
| Event.AlarmPropertiesNoCr | main.py:40-42 | the alarm's properties hold no carriage return |
| Event.AlarmNoCr | main.py:39-43 | the alarm holds no carriage return |
| Event.EventLinesNoCr | main.py:30-45 | a block holds a carriage return only where one of the texts it is given does |
| Event.EventBlockNoCr | main.py:23-45 | a generated block holds a carriage return only where its identifier or subject does |
| Event.LookupAt | main.py:30-45 | looking a property up finds the first line that carries its name |
| Event.LookupUid | main.py:32 | the UID line gives back the identifier, whatever the subject is |
| Event.LookupStamp | main.py:33 | the DTSTAMP line gives back the stamp |
| Event.LookupStart | main.py:34 | the DTSTART line gives back the start |
| Event.LookupEnd | main.py:35 | the DTEND line gives back the end |
| Event.LookupSummary | main.py:36 | the SUMMARY line gives back the subject |
| Event.ReadEventLines | main.py:30-45 | reading a block back gives each of its five values, when its date-times are readable |
| Event.ReadEventBlock | main.py:23-45 | reading a generated block back gives the identifier, the stamp, the 09:00 start and the 09:30 end on the given date, and the subject |
| Event.ConcatAt | main.py:115 | when every block has fourteen lines, the k-th group of fourteen lines is the k-th block |
| Event.Blocks | main.py:115 | the event lines are fourteen lines per entry |
| Event.BlockAt | main.py:115 | the event lines hold fourteen lines per entry, and the k-th group of fourteen is the k-th entry's block |
| Event.BlocksAppend | main.py:115 | one more entry appends its block, which takes the next identifier and clock reading |
| Document.IcsStructure | main.py:47-64 | the document has fifteen lines more than the events |
| Document.IcsStructureIsCalendar | main.py:47-64 | the document is one VCALENDAR holding the calendar properties, the time zone, and then the events unchanged |
| Document.HeaderLinesAreProperties | main.py:49-61 | the calendar's and the time zone's fixed lines are property lines |
| Document.NestTimeZone | main.py:54-62 | the time zone closes everything it opens |
| Document.NestBlocks | main.py:115 | any number of blocks closes everything it opens |
| Document.NestStructure | main.py:64 | around balanced event lines the document is balanced |
| Document.DocumentNests | main.py:47-64 | the whole document is balanced: every BEGIN has its END, in the right order, and nothing stays open |
| Document.BlocksBegins | main.py:115 | the event lines begin each component name `entries` times as often as one block does |
| Document.TimeZoneBegins | main.py:54-62 | the time zone begins itself and its standard time, once each |
| Document.HeaderBegins | main.py:48-63 | the header begins the calendar, its time zone and the standard time, once each |
| Document.DocumentBegins | main.py:47-64 | the document begins one calendar, one time zone, one standard time, and one event and one alarm per entry; nothing else |
| Document.DocumentEvents | main.py:47-64 | the document begins one VEVENT per entry |
| Document.HeaderLength | main.py:48-63 | the header has fourteen lines |
| Document.StructureSlice | main.py:64 | any slice of the event lines sits unchanged in the document, fourteen lines further on |
| Document.CalendarPropertiesNoCr | main.py:50-53 | the calendar properties hold no carriage return |
| Document.StandardPropertiesNoCr | main.py:57-60 | the standard-time properties hold no carriage return |
| Document.TimeZoneNoCr | main.py:54-62 | the time zone holds no carriage return |
| Document.StructureNoCr | main.py:47-64 | around event lines without carriage returns, the document has none either |
| Document.BlocksNoCr | main.py:115 | the event lines hold a carriage return only where an identifier or a subject does |
| RowProcessor.Normalize | main.py:90 | a cleaned column name is never longer than the name and is already lower-case, so the lowered option can match it |
| RowProcessor.CleanRow | main.py:90 | cleaning a row raises exactly when a kept column (one with a non-empty name) has no value |
| RowProcessor.CleanRowLast | main.py:90 | under a cleaned key, the row holds the trimmed value of the last column whose name cleans to that key |
| RowProcessor.CleanRowKeys | main.py:90 | every key of the cleaned row comes from a kept column and holds that column's trimmed value |
| RowProcessor.Get | main.py:96 | `dict.get` finds a value exactly for a present key, and the value is the one stored |
| RowProcessor.Subject | main.py:96-100 | the subject is empty only when the default is, and any subject other than the default is what the row holds under the subject column |
| RowProcessor.Classify | main.py:90-113 | a row aborts the run exactly when cleaning it fails |
| RowProcessor.AbortedExactly | main.py:90 | a row aborts the run exactly when one of its kept columns has no value |
| RowProcessor.SubjectFromColumn | main.py:96-101 | a non-empty subject column gives the subject: the last column naming it, trimmed |
| RowProcessor.SubjectDefault | main.py:96-101 | when no column names the subject, or the last column naming it is empty once trimmed, the subject is the default |
| RowProcessor.DateColumnEmpty | main.py:104-108 | an empty date column skips the row |
| RowProcessor.DateColumnInvalid | main.py:110-113 | a date column that neither format reads skips the row, reporting that text |
| RowProcessor.DateColumnParsed | main.py:104-115 | a date column that parses makes the row an event on that date |
| RowProcessor.NoDateColumn | main.py:104-108 | a row without a date column is skipped |
| RowProcessor.Collect | main.py:89-116 | collecting succeeds exactly when no outcome aborts, and yields no more entries than outcomes |
| RowProcessor.CollectAppend | main.py:89-116 | collecting two runs of outcomes is collecting each and putting the entries together |
| RowProcessor.CollectFrom | main.py:115-116 | every collected entry is the entry of an accepted outcome |
| RowProcessor.AcceptedBeforeStep | main.py:115-116 | counting one more row adds one exactly when that row is accepted |
| RowProcessor.CollectCount | main.py:115-116 | as many entries are collected as there are accepted outcomes |
| RowProcessor.CollectOrder | main.py:115 | an accepted outcome's entry is collected right after the entries of the accepted outcomes before it |
| RowProcessor.Outcomes | main.py:89 | there is one outcome per row, and it is that row's outcome |
| RowProcessor.Scan | main.py:89-116 | the loop completes exactly when no row aborts, with no more events than rows |
| RowProcessor.ScanCount | main.py:89-116 | the loop makes exactly one event per accepted row |
| RowProcessor.ScanOrder | main.py:89-116 | the events keep the rows' order: the entry of an accepted row comes right after those of the accepted rows before it |
| RowProcessor.ScanStep | main.py:89-116 | one more row extends the scan by that row's outcome: an abort ends the run, an accepted row adds its entry, and a skipped row adds nothing |
| RowProcessor.ProcessRow | main.py:90-113 | the loop body computes the row's outcome as the specification does |
| RowProcessor.ExtendWithBlock | main.py:115 | extending the event lines appends the new entry's block |
| RowProcessor.ProcessRows | main.py:89-116 | the loop raises exactly when the scan aborts; otherwise it leaves one block per accepted row, in order, fourteen lines each, and its count is the number of accepted rows |
| Converter.CalendarText | main.py:118-121 | the written text opens with `BEGIN:VCALENDAR` and ends with `END:VCALENDAR`, with no CRLF after it |
| Converter.RunAsWritten | main.py:72-128 | the program as written writes a file exactly when the input was read as cp1252 or has a data row, and no row aborts |
| Converter.Run | main.py:118-121 | a run writes exactly when no row aborts, and counts no more events than rows |
| Converter.ProcessCsv | main.py:72-128 | `process_csv`, once the file is open, writes what the as-written run specifies, UTF-8 probe included |
| Converter.ProbeDropsEmptyInput | main.py:74-81 | a UTF-8 input without data rows writes nothing, while the same input read as cp1252 writes an empty calendar |
| Converter.ProbeOnlyDropsEmptyInput | main.py:74-81 | for every other input, the probe makes no difference |
| Converter.RunEmptyInput | main.py:118-121 | without data rows the run writes the calendar with no event: the header and the closing line |
| Converter.CalendarTextLines | main.py:118-121 | the written text, cut at its CRLFs, is the document line by line, as long as no identifier and no subject holds a carriage return |
| Converter.SubjectWithoutCr | main.py:96-101 | a row's subject holds a carriage return only if one of its cells or the default does |
| Converter.EntriesWithoutCr | main.py:89-116 | the subjects of a run hold no carriage return when the cells and the default hold none |
| Converter.RunOutput | main.py:118-123 | the written text, cut at its CRLFs, is the document; it is balanced, and it begins one VEVENT per event counted |
| Converter.ReadBlockWithin | main.py:115 | a block read back from any run of lines that holds it gives the block's event |
| Converter.StructureEventAt | main.py:115-118 | reading the k-th VEVENT of the document back gives the k-th entry's event |
| Converter.CalendarTextEventAt | main.py:118-121 | reading the k-th VEVENT of the written text back gives the k-th entry's event |
| Converter.RunEventAt | main.py:89-121 | reading the k-th VEVENT of the written text back gives the k-th identifier and clock reading, the subject of the k-th accepted row, and 09:00 and 09:30 on its date |

## Left out

- IcsDate.FormatIcsDate: years below 1000 are written zero-padded to four digits. CPython's `%Y` for such years depends on the platform's C library.
- Text.Lower: only ASCII and Latin-1 capital letters are lowered. The rest of Unicode's case mappings, including those that change a string's length, are not modelled.
- DateParser.ParseDate: `%d`, `%m` and `%Y` accept only ASCII digits. Python's `\d` also matches other Unicode decimal digits.
- Converter.RunOutput: the line structure is stated only when no cell, default subject or identifier holds a carriage return. A quoted CSV field can hold one, and the program writes it as is.
- Converter.Run: the text has no CRLF after the closing line, as in the program. Section 3.1 of RFC 5545 asks for one; the model does not add it.
- No line folding (section 3.1 of RFC 5545) and no TEXT escaping (section 3.3.11 of RFC 5545): the program does neither.
- `uuid.uuid4()` and `datetime.now()` are parameters (`uidOf`, `clockAt`); randomness and the clock are not modelled. DTSTAMP is written in local time, as the program does.
- Choosing the encoding is a parameter (`Decoding`). Decoding errors after the first chunk and the bytes cp1252 leaves undefined are not modelled, and neither is the byte-level decoding itself.
- The CSV tokenizer (quoting, delimiters, line endings) and the construction of `csv.DictReader` rows are not modelled. The rows arrive already split into name/value items.
- The list of normalised field names (main.py:85) is computed but never used, so it is not modelled.
- Opening and writing files, `FileNotFoundError` (main.py:125-126), and the logging calls are not modelled. A raised error appears only as "nothing written".
- The command-line parsing (main.py:130-150) is not modelled. Its defaults are ordinary values of `Options`.

## Findings

| source | as written | input that shows it | evidently intended | confidence | as-written member | corrected member |
|---|---|---|---|---|---|---|
| main.py:77 | the UTF-8 path reads one row to test decoding; with no data row, `next(reader)` raises StopIteration, which the general handler at main.py:127-128 logs, so no file is written | a UTF-8 CSV file holding only a header line | write an empty calendar, as the cp1252 path does for the same rows | medium, not executed | Converter.ProbeDropsEmptyInput | Converter.RunEmptyInput |
