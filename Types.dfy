/** The records the parser and the calendar serializer share. Times are local
    wall-clock time values in milliseconds (see module Calendar). */
module Types {

  datatype Option<T> = None | Some(value: T)

  /** Parser configuration: default duration and gap in minutes, and a time
      zone label that nothing in the parser reads. */
  datatype AppConfig = AppConfig(defaultDuration: int, gapTime: int, timezone: string)

  datatype Severity = Error | Warning

  datatype ParserWarning = ParserWarning(line: int, message: string, severity: Severity)

  /** One performance: the text fields of its header line, its start (absent
      until known), its duration in minutes and the two source lines it came
      from. */
  datatype Event = Event(grade: string, title: string, artist: string, description: string,
                         startTime: Option<int>, duration: int, rawText: string)

  datatype ParseResult = ParseResult(events: seq<Event>, warnings: seq<ParserWarning>)

  /** What the parser asks of its host at run time: the current time value,
      the current year, the month lookup `new Date("<name> 1, 2000").getMonth()`
      (None where the host answers NaN) and the general date parser
      `new Date(text)` (None where the host answers an invalid date). */
  datatype Host = Host(now: int, year: int,
                       monthIndex: string -> Option<int>,
                       parseDate: string -> Option<int>)
}
