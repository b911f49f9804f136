# textual-calendar-app: event parser and iCalendar serializer

A Dafny model of the text-to-event engine of textual-calendar-app and of its
calendar export.

`EventParser.parse` turns a typed text block into a list of events:

- A non-blank line containing `|` is a header. It holds the grade, title,
  artist and description of one performance.
- The line after a header is its detail line, and the parser always steps
  over it. The detail line holds either a duration token (`30m`, `1h30m`)
  or a date in one of six formats, tried in a fixed order.
- Events that got no date are then given start times from a running clock.
  The clock starts at "now", rounded to five minutes, and advances by each
  event's duration plus a configured gap.

`generateICS` writes the events as an iCalendar document:

- It follows section 3.4 of RFC 5545 and writes one VEVENT (section 3.6.1)
  per event.
- Content lines are joined by CRLF (section 3.1).
- Date-times are written in the floating local form `YYYYMMDDTHHMMSS`
  (section 3.3.5).

The modules follow the source:

| module | what it holds |
|---|---|
| `Types` | The records of `utils/types.ts`. Also `Host`, which bundles what the parser asks of its run-time environment: the current time, the current year, the month-name lookup and the general date parser. |
| `Text` | The JavaScript string operations the core relies on: `trim` (with JavaScript's whitespace set), `split`, `join`, `parseInt` on digit runs, and `toString` of integers. |
| `Calendar` | JavaScript `Date` arithmetic on local time values in milliseconds. `new Date(y, m, d, h, mi, s)` with its month overflow and two-digit years, the field getters, and `setMinutes(getMinutes() + n)`. It is built on a days-from-civil conversion that is proved to be a bijection. |
| `Recognizers` | `parseTimeLine`: the duration token, `parseDuration`, the five fixed date formats, the host fallback and the first-match chain. Each regular expression is a scanner over maximal character runs. |
| `Formats` | The text shape each fixed date format accepts. For each format, the date it builds from a text of its shape, and the converse that it accepts nothing else. The start an indented detail line of each shape gives, and the date lines of the parser tests. |
| `Parser` | `parse` (a loop over the lines, with the event-building body in its own method), `parseEventLine`, and `calculateEventTimes` (an in-place update of an array). Each is proved against a specification function. |
| `Ical` | `pad`, `formatDate`, and `generateICS` (a loop that pushes lines), proved against the document the specification functions describe. |

Times are integers: milliseconds of local wall-clock time. Time zones and
daylight saving do not exist in this model.

Four details of the code that the model keeps:

- A detail line whose duration is zero (`0m`) gets the default duration,
  because the code computes `timeInfo.duration || defaultDuration` and zero
  falls through to the default.
- The first running clock rounds the minute field up to a multiple of five
  and then clears seconds and milliseconds. It is therefore not always at
  or after "now": at 10:05:30 it is 10:05:00. `InitialClock` states the
  actual bound.
- No duration is checked to be positive. The configured default is used
  as given.
- The warning record's position field is named `line`, as in
  `utils/types.ts`.

## Model

| member | source | states |
|---|---|---|
| Text.Trim | utils/parser.ts:16 | The trimmed line is the slice of the line between a whitespace-only prefix and a whitespace-only suffix, and it neither starts nor ends with whitespace. |
| Text.TrimKeepsNonWhitespace | utils/parser.ts:16-20 | A character that is not whitespace (such as the pipe) is in the trimmed line exactly when it is in the line. |
| Text.TrimEmptyIffBlank | utils/parser.ts:16-17 | A line trims to empty exactly when it is all whitespace. |
| Text.TrimUnchanged | utils/parser.ts:86 | A string with no whitespace at either end is its own trim. |
| Text.TrimPadded | utils/parser.ts:49 | Whitespace around a text with no whitespace at either end is exactly what `trim` removes. |
| Text.Split | utils/parser.ts:11 | `split('\n')` gives one more piece than there are separators, and no piece contains the separator. |
| Text.JoinSplit | utils/parser.ts:11 | Re-joining the pieces of a split with the separator gives back the text. |
| Text.SplitJoin | utils/parser.ts:11 | Splitting a join of separator-free pieces gives back the pieces, so `split('\n')` is the inverse of joining lines. |
| Text.SplitPiecesFrom | utils/parser.ts:11 | Every character of a piece comes from the split text. |
| Text.NatToString | utils/ical.ts:31 | `toString` of a non-negative number is a non-empty run of digits, of length one exactly below ten and at most two below a hundred. |
| Text.NatToStringRoundTrip | utils/ical.ts:31 | Reading back a printed number gives the number, and the text starts with `0` only for zero. |
| Calendar.CivilFromDays | utils/ical.ts:33-35 | Every day number is a real proleptic Gregorian date: month 1 to 12, day within the month. |
| Calendar.CivilRoundTrip | utils/parser.ts:106-107 | Every real date comes back from its day number. |
| Calendar.DaysRoundTrip | utils/ical.ts:33-35 | Every day number comes back from its date. |
| Calendar.Fields | utils/ical.ts:33-38 | The fields that the getters report for any time value form a valid date-time. |
| Calendar.FieldsOfTime | utils/ical.ts:33-38 | A valid date-time comes back from its time value. |
| Calendar.TimeOfFields | utils/ical.ts:33-38 | Every time value comes back from its fields. |
| Calendar.NewDateFields | utils/parser.ts:106-107 | `NewDate`: `new Date(year, month - 1, day, h, mi, s)` with in-range fields has exactly those fields, with years 0 to 99 moved into the 1900s. |
| Calendar.AddMinutesWithinHour | utils/ical.ts:17-18 | `AddMinutes`: adding minutes that stay within the hour changes only the minute field. |
| Recognizers.RunEnd | utils/parser.ts:92 | The end of a run is the end of the maximal run of one character class from the given start. |
| Recognizers.FirstCountOfRun | utils/parser.ts:177-178 | `/(\d+)<unit>/` on a digit run followed by the unit captures that whole run. |
| Recognizers.FirstCountSkipRun | utils/parser.ts:177-178 | A digit run followed by another non-digit is skipped, and the search goes on after that character. |
| Recognizers.FirstCountNone | utils/parser.ts:177-178 | Without the unit character there is no match. |
| Recognizers.DurationShape | utils/parser.ts:92 | `IsDurationToken`: digits, `m` or `h`, then optionally digits and `m`, always form a duration token. |
| Recognizers.HoursValue | utils/parser.ts:175-188 | `ParseDuration`: an hour token is worth sixty times its hours plus its trailing minutes. |
| Recognizers.MinutesValue | utils/parser.ts:175-188 | `ParseDuration`: A minute token is worth its count. |
| Recognizers.DurationValue | utils/parser.ts:92-97 | `IsDurationToken` and `ParseDuration`: every digits-unit-digits text is a duration token, and `parseDuration` gives 60 × hours + minutes for it. |
| Recognizers.DurationTokenParts | utils/parser.ts:92 | `IsDurationToken`: conversely, every duration token splits into exactly those parts. |
| Recognizers.DurationExample90 | utils/parser_test.ts:113 | `1h30m` is a duration token worth 90 minutes. |
| Recognizers.DurationExample135 | utils/parser_test.ts:114 | `2h15m` is a duration token worth 135 minutes. |
| Recognizers.DurationExample60 | utils/parser_test.ts:112 | `1h` is a duration token worth 60 minutes. |
| Recognizers.DurationExample45 | utils/parser_test.ts:116 | `45m` is a duration token worth 45 minutes. |
| Recognizers.To24HourClock | utils/parser.ts:128-130 | `To24Hour`: for a 12-hour reading from 1 to 12 the conversion gives `hour % 12`, plus twelve for `pm`. `12am` is 0, `12pm` is 12, and the result is afternoon exactly for `pm`. |
| Recognizers.FirstMatchSome | utils/parser.ts:162-170 | `FirstMatch`: the chain yields `t` exactly when some attempt yields `t` and every earlier attempt yields nothing. |
| Recognizers.FirstMatchNone | utils/parser.ts:162-172 | `FirstMatch`: the chain yields nothing exactly when every attempt yields nothing. |
| Recognizers.DurationIsNoFixedDate | utils/parser.ts:92-154 | A duration token matches none of the five fixed date formats. |
| Recognizers.ParseTimeLine | utils/parser.ts:82-173 | A detail line never gives both a start and a duration. A blank line gives neither. A duration token gives its `parseDuration` value and no start. |
| Recognizers.ParseTimeLineDate | utils/parser.ts:99-170 | A line that is neither blank nor a duration token starts at the result of the first date format, in the fixed order, that accepts it. |
| Recognizers.ParseTimeLineNone | utils/parser.ts:162-172 | A line that is neither blank nor a duration token, and that no format of the chain accepts, gives neither a start nor a duration. |
| Formats.IsoTValue | utils/parser.ts:102-110 | `TryIsoT`: a text `YYYY-MM-DDTHH:MM:SS` (four digits, then two digits per field) gives `new Date(year, month - 1, day, hours, minutes, seconds)`. |
| Formats.IsoTShape | utils/parser.ts:103 | `TryIsoT`: conversely, only a text of that shape is accepted. |
| Formats.DateSpaceValue | utils/parser.ts:112-120 | `TryDateSpace`: a text `YYYY-MM-DD`, a run of whitespace, then `HH:MM` gives `new Date(year, month - 1, day, hours, minutes)`. |
| Formats.DateSpaceShape | utils/parser.ts:113 | `TryDateSpace`: conversely, only a text of that shape is accepted. |
| Formats.MonthNameValue | utils/parser.ts:122-134 | `TryMonthName`: letters, whitespace, digits, whitespace, digits, `:`, digits and `am` or `pm` in either case. A name the host cannot look up gives nothing. Otherwise it gives `new Date(<current year>, monthIndex, day, To24Hour(hour), minutes)`. |
| Formats.MonthNameShape | utils/parser.ts:123 | `TryMonthName`: conversely, only a text of that shape is accepted. |
| Formats.NumericValue | utils/parser.ts:137-147 | `MatchNumericDate`: one or two digits, the separator, one or two digits, the separator, four digits, whitespace, one or two digits, `:` and two digits give those five numbers in order. |
| Formats.NumericShape | utils/parser.ts:137-147 | `MatchNumericDate`: conversely, only a text of that shape matches. |
| Formats.SlashValue | utils/parser.ts:136-144 | `TrySlash`: `M/D/YYYY H:MM` gives `new Date(year, month - 1, day, hours, minutes)`, month first. |
| Formats.SlashOn | utils/parser.ts:139-141 | `TrySlash`: the first number matched is the month and the second the day. |
| Formats.SlashShape | utils/parser.ts:137 | `TrySlash`: conversely, only a text of that shape is accepted. |
| Formats.DotValue | utils/parser.ts:146-154 | `TryDot`: `D.M.YYYY H:MM` gives `new Date(year, month - 1, day, hours, minutes)`, day first. |
| Formats.DotOn | utils/parser.ts:149-151 | `TryDot`: the first number matched is the day and the second the month. |
| Formats.DotShape | utils/parser.ts:147 | `TryDot`: conversely, only a text of that shape is accepted. |
| Formats.IsoTLineOf | utils/parser.ts:86-110 | A detail line of the `T` shape, indented by any whitespace, starts at its date and has no duration. |
| Formats.DateSpaceLineOf | utils/parser.ts:86-120 | A detail line of the date-and-space shape, indented by any whitespace, starts at its date and has no duration. No earlier format takes it. |
| Formats.MonthNameLineOf | utils/parser.ts:86-134 | A detail line of the month-name shape whose name the host looks up, indented by any whitespace, starts at its date and has no duration. |
| Formats.SlashLineAt | utils/parser.ts:86-144 | A detail line of the `M/D/YYYY H:MM` shape, indented by any whitespace, starts at its date and has no duration. |
| Formats.DotLineAt | utils/parser.ts:86-154 | A detail line of the `D.M.YYYY H:MM` shape, indented by any whitespace, starts at its date and has no duration. |
| Formats.IsoTParts | utils/parser_test.ts:63 | `2024-10-30T05:00:00` is read by the `T` form as `new Date(2024, 9, 30, 5, 0, 0)`. |
| Formats.IsoTTestLine | utils/parser_test.ts:59-83 | The detail line `    2024-10-30T05:00:00` starts at 05:00 on 30 October 2024. |
| Formats.DateSpaceParts1 | utils/parser_test.ts:65 | `2024-10-30 05:00` is read by the date-and-space form as `new Date(2024, 9, 30, 5, 0)`. |
| Formats.DateSpaceTestLine | utils/parser_test.ts:85-97 | The detail line `    2024-10-30 05:00` starts at 05:00 on 30 October 2024. |
| Formats.MonthNameParts | utils/parser_test.ts:67-69 | With a host that reads the name as month 9 (`Oct` and `October` in the test), `<name> 30 05:00am` is read as 05:00 on 30 October of the current year. |
| Formats.MonthNameTestLine | utils/parser_test.ts:59-83 | With such a host, the detail line `    <name> 30 05:00am` starts at 05:00 on 30 October of the current year. |
| Formats.SlashParts | utils/parser_test.ts:71 | `10/30/2024 05:00` is read by the slash form as `new Date(2024, 9, 30, 5, 0)`. |
| Formats.SlashTestLine | utils/parser_test.ts:59-83 | The detail line `    10/30/2024 05:00` starts at 05:00 on 30 October 2024. |
| Formats.DotParts | utils/parser_test.ts:73 | `30.10.2024 05:00` is read by the dot form as `new Date(2024, 9, 30, 5, 0)`. |
| Formats.DotTestLine | utils/parser_test.ts:59-83 | The detail line `    30.10.2024 05:00` starts at 05:00 on 30 October 2024. |
| Parser.ParseEventLine | utils/parser.ts:48-61 | A header with fewer than three pipe-separated parts has all four text fields empty. |
| Parser.HeaderOfThreeParts | utils/parser.ts:63-69 | With exactly two pipes, the fields are the three trimmed parts and the description is empty. |
| Parser.HeaderOfMoreParts | utils/parser.ts:63-69 | With a third pipe, the fields are the three trimmed parts and the description is the trimmed rest, with later pipes kept. |
| Parser.IsHeaderIffPipe | utils/parser.ts:16-20 | The parser's test, that the trimmed line is non-empty and contains a pipe, holds exactly for lines containing a pipe. |
| Parser.WalkBounds | utils/parser.ts:15-38 | `Walk`: every line the loop takes as a header lies at or after the start of the walk and inside the text. |
| Parser.HeaderLines | utils/parser.ts:15-38 | The header positions lie inside the text. |
| Parser.HeaderLinesSpec | utils/parser.ts:15-38 | Header positions are strictly increasing, and a position is listed exactly when its line is read as a header. |
| Parser.WalkIsHeaderLines | utils/parser.ts:15-38 | `Walk`: the loop's walk visits exactly the header lines, in order. Blank lines, lines without a pipe and consumed detail lines give no event. |
| Parser.HeaderLinesAtHeader | utils/parser.ts:37 | A header consumes the line after it, even a line containing a pipe. |
| Parser.SwallowedHeader | utils/parser.ts:20-37 | A line with a pipe that is not read as a header is the detail line of the header just before it. |
| Parser.SeparatedHeaders | utils/parser.ts:15-38 | When no two adjacent lines contain a pipe, every line with a pipe is a header. |
| Parser.EventsAtSpec | utils/parser.ts:27-36 | `MakeEvent`: the k-th event collected is the one built from the k-th header and the line after it. |
| Parser.EventDuration | utils/parser.ts:34 | `MakeEvent`: an event's duration is the detail line's duration when non-zero, and the configured default otherwise. |
| Parser.DurationGivesNoStart | utils/parser.ts:92-97 | A detail line holding a duration token gives the event no start of its own. |
| Parser.InitialClock | utils/parser.ts:191-195 | The first clock is a whole multiple of five minutes, within five minutes after "now" with its seconds cleared. |
| Parser.Resolve | utils/parser.ts:197-205 | Resolving keeps the number of events. |
| Parser.ResolveStarts | utils/parser.ts:197-205 | After resolving, every event has a start. An explicit start is kept, and no other field of any event changes. |
| Parser.ResolveFirst | utils/parser.ts:198-200 | A first event without a start starts at the initial clock. |
| Parser.ResolveNext | utils/parser.ts:198-204 | A later event without a start starts `duration + gap` minutes after the resolved start of the event before it. |
| Parser.ResolveCons | utils/parser.ts:197-205 | Resolving takes the first event, then the rest from a clock advanced by that event's duration and the gap. |
| Parser.CalculateEventTimes | utils/parser.ts:190-206 | The array update leaves in the array exactly the resolved events, starting from the initial clock. |
| Parser.ExtractHeader | utils/parser.ts:20-37 | A header line yields one event, then the walk resumes two lines on. |
| Parser.ExtractSkip | utils/parser.ts:16-20 | A blank line, or a line without a pipe, yields nothing. |
| Parser.ReadEvent | utils/parser.ts:21-37 | The event built for a header is the first event extracted from that header on. |
| Parser.CollectEvents | utils/parser.ts:15-40 | The loop collects exactly the events of the header lines, in input order. |
| Parser.Parse | utils/parser.ts:10-46 | `parse` returns no warnings, and the collected events with their start times resolved. |
| Parser.ParsedEventsAreHeaders | utils/parser.ts:10-46 | There is one event per header line, in input order, each with a start. Each has the fields and duration of its header and detail line. |
| Parser.NoPipeNoEvents | utils/parser_test.ts:130-133 | A text without a pipe (empty, blank lines, plain text) gives no events. |
| Parser.HeaderWithStart | utils/parser.ts:10-46 | A header line over a detail line that gives a start yields exactly one event: the header's fields, that start, the default duration, and the header and detail line as raw text. |
| Parser.HeaderPartsWithStart | utils/parser.ts:15-69 | For a header of four pipe-separated parts over such a detail line, that event holds the four trimmed parts. |
| Parser.ExplicitDateTest | utils/parser_test.ts:11-36 | With a host that reads `Oct` as month 9, the test's header line over `    Oct 30 05:00am` gives one event. Its fields are `A`, `Test Performance`, `Artist` and `Info`. It starts at 05:00 on 30 October of the current year and has the default duration. |
| Parser.OneHeaderLineOneEvent | utils/parser_test.ts:132-134 | A single line with a pipe (three fields, or five bare pipes alike) gives exactly one event. |
| Ical.PadTwoDigits | utils/ical.ts:31 | `Pad`: for 0 to 99, `pad` gives two digits that read back as the value, with a leading `0` exactly below ten. |
| Ical.PadWide | utils/ical.ts:31 | `Pad`: values of two or more digits are not padded. |
| Ical.FormatDateLayout | utils/ical.ts:30-41 | `FormatDate`: `formatDate` gives the year, then exactly eleven characters. These are month, day, `T`, hour, minute and second, each two digits reading back as the field, and no `Z` follows. |
| Ical.ClockTextLayout | utils/ical.ts:34-40 | `FormatDate`: the eleven characters after the year have the `MMDDTHHMMSS` layout. |
| Ical.ExampleEventTimes | utils/ical_test.ts:28-31 | A start at 05:00 on 30 October 2024 formats as `20241030T050000`, and thirty minutes later as `20241030T053000`. |
| Ical.DescriptionIsArtistIffNoDescription | utils/ical.ts:22 | `DescriptionText`: the DESCRIPTION value is the bare artist exactly when the description is empty. |
| Ical.BlockLines | utils/ical.ts:11-23 | An event's block is eight lines from `BEGIN:VEVENT` to `END:VEVENT`. |
| Ical.VEventLines | utils/ical.ts:11-23 | Each event renders as an eight-line VEVENT block. |
| Ical.VEventIsBlock | utils/ical.ts:11-23 | Within an event's block, only the first line is `BEGIN:VEVENT`. |
| Ical.Blocks | utils/ical.ts:10-24 | There is one block per event. |
| Ical.EventLines | utils/ical.ts:11-23 | The lines pushed for one event are its VEVENT block, with the date-times rendered by `formatDate`. |
| Ical.GenerateIcs | utils/ical.ts:3-28 | The document is the header lines, every event's block in order, and the end line, joined by CRLF. |
| Ical.BlocksGrow | utils/ical.ts:10-24 | Each loop step appends exactly the next event's block. |
| Ical.BlockOfEvent | utils/ical.ts:10-24 | Event `k` fills lines `8k` to `8k+7` of the blocks. |
| Ical.IcsLineCount | utils/ical.ts:4-27 | The document has 4 + 8n lines: the three header lines first and `END:VCALENDAR` last. |
| Ical.IcsEventBlock | utils/ical.ts:10-24 | In input order, event `k` occupies lines `3+8k` to `3+8k+7`. They hold its UID, DTSTART, DTEND at start plus duration minutes, SUMMARY grade, pipe, title and DESCRIPTION. |
| Ical.HeaderJoin | utils/ical.ts:4-8 | The three header lines joined by CRLF are the expected header text. |
| Ical.IcsEnvelope | utils/ical.ts:4-27 | The text starts with the header lines, each followed by CRLF, and ends with `END:VCALENDAR` with no trailing CRLF. |
| Ical.OneBeginPerEvent | utils/ical_test.ts:59-62 | Exactly one line per event is `BEGIN:VEVENT`. |

## Left out

- The user interface (`islands/EventEditor.tsx`), the routes and the framework bootstrapping: they are not part of the engine.
- The host's general date parser `new Date(line)` and the month lookup `new Date("<name> 1, 2000").getMonth()`: host behaviour with no fixed definition. They are the uninterpreted `Host.parseDate` and `Host.monthIndex`, with `None` standing for an invalid date.
- The wall-clock reads `new Date()`: "now" and the current year are the `Host.now` and `Host.year` inputs. The DTSTAMP clock is the `stamps` input of `GenerateIcs`.
- `crypto.randomUUID()`: randomness. The ids are the `uids` input of `GenerateIcs`.
- `downloadICS` and its `Blob`: an I/O wrapper.
- Time zones, daylight saving and the `timezone` setting: local time is a plain count of milliseconds, and `setMinutes` adds minutes to it.
- The `Date` range limit, beyond which the host gives an invalid date: `NewDate` never fails in this model. Huge day or hour numbers in the month-name format therefore give a date rather than falling through to the next attempt.
- Floating-point numbers: durations and parsed digit runs are exact integers. Fractional or inexactly large values do not occur.
- UTF-16: strings are sequences of code points.
- Escaping and line folding of RFC 5545 (sections 3.3.11 and 3.1): the code does neither.
- The unused `lineNumber` arguments of `parseEventLine` and `parseTimeLine`.
- Parser.ParseEventLine: returns the four text fields only. The source returns a whole event whose start, duration and raw text `parse` ignores.
- Ical.GenerateIcs: requires every event to have a start. The source asserts this with `!`, and `formatDate` on a missing start throws.
