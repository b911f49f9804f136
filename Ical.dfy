/** `generateICS`: an iCalendar document (section 3.4 of RFC 5545) holding one
    VEVENT component (section 3.6.1) per event, its content lines joined by
    CRLF (section 3.1). Date-times use the floating local form
    `YYYYMMDDTHHMMSS` of section 3.3.5, with no `Z` suffix. The unique id and
    the time stamp of each event, which the serializer draws from the host's
    random generator and clock, are inputs here. */
module Ical {
  import opened Text
  import opened Calendar
  import opened Types

  // ---------------------------------------------------------------- date-times

  /** `pad`: `n.toString().padStart(2, '0')`. */
  function Pad(n: nat): string {
    var digits := NatToString(n);
    if |digits| < 2 then "0" + digits else digits
  }

  /** For 0 to 99 the padded text is two digits that read back as `n`, with a
      leading `'0'` exactly for the single-digit values. */
  lemma PadTwoDigits(n: nat)
    requires n < 100
    ensures |Pad(n)| == 2 && AllDigits(Pad(n)) && DigitsValue(Pad(n)) == n
    ensures Pad(n)[0] == '0' <==> n < 10
  {
    NatToStringRoundTrip(n);
    var digits := NatToString(n);
    if n < 10 {
      var p := "0" + digits;
      assert p[..1] == "0" && p[1] == digits[0];
      assert DigitsValue(p[..1][..0]) == 0;
      assert DigitsValue(digits) == DigitsValue(digits[..0]) * 10 + DigitValue(digits[0]);
    }
  }

  /** Larger values are left as they are. */
  lemma PadWide(n: nat)
    requires n >= 10
    ensures Pad(n) == NatToString(n)
  {
  }

  /** `formatDate`: the full year, then month (1-based), day, `T`, hours,
      minutes and seconds of the local date-time, each padded to two
      digits. */
  function FormatDate(t: int): string {
    FormatFields(Fields(t))
  }

  function FormatFields(f: DateTime): string
    requires ValidDateTime(f)
  {
    IntToString(f.year) + ClockText(f.month, f.day, f.hour, f.minute, f.second)
  }

  /** The eleven characters after the year. */
  function ClockText(month: nat, day: nat, hour: nat, minute: nat, second: nat): string {
    Pad(month) + Pad(day) + "T" + Pad(hour) + Pad(minute) + Pad(second)
  }

  /** The formatted text is the year followed by eleven characters in fixed
      positions: the month, the day, `T`, the hour, the minute and the
      second, each as two digits that read back as the field. Nothing
      follows, so there is no `Z`. */
  lemma FormatDateLayout(t: int)
    ensures var f := Fields(t);
            var y := IntToString(f.year);
            var s := FormatDate(t);
            && |s| == |y| + 11 && s[..|y|] == y
            && ClockLayout(s[|y|..], f.month, f.day, f.hour, f.minute, f.second)
  {
    var f := Fields(t);
    ClockTextLayout(f.month, f.day, f.hour, f.minute, f.second);
    var y := IntToString(f.year);
    var s := FormatDate(t);
    assert s == y + ClockText(f.month, f.day, f.hour, f.minute, f.second);
    assert s[|y|..] == ClockText(f.month, f.day, f.hour, f.minute, f.second);
  }

  /** `c` spells `MMDDTHHMMSS` for the given fields. */
  predicate ClockLayout(c: string, month: nat, day: nat, hour: nat, minute: nat, second: nat) {
    && |c| == 11 && c[4] == 'T'
    && AllDigits(c[0..2]) && DigitsValue(c[0..2]) == month
    && AllDigits(c[2..4]) && DigitsValue(c[2..4]) == day
    && AllDigits(c[5..7]) && DigitsValue(c[5..7]) == hour
    && AllDigits(c[7..9]) && DigitsValue(c[7..9]) == minute
    && AllDigits(c[9..11]) && DigitsValue(c[9..11]) == second
  }

  lemma ClockTextLayout(month: nat, day: nat, hour: nat, minute: nat, second: nat)
    requires month < 100 && day < 100 && hour < 100 && minute < 100 && second < 100
    ensures ClockLayout(ClockText(month, day, hour, minute, second), month, day, hour, minute, second)
  {
    PadTwoDigits(month);
    PadTwoDigits(day);
    PadTwoDigits(hour);
    PadTwoDigits(minute);
    PadTwoDigits(second);
    ClockSlices(Pad(month), Pad(day), Pad(hour), Pad(minute), Pad(second));
  }

  /** Five two-character pieces around a `T` sit at fixed positions. */
  lemma ClockSlices(mo: string, d: string, h: string, mi: string, s: string)
    requires |mo| == 2 && |d| == 2 && |h| == 2 && |mi| == 2 && |s| == 2
    ensures var c := mo + d + "T" + h + mi + s;
            && |c| == 11 && c[4] == 'T'
            && c[0..2] == mo && c[2..4] == d && c[5..7] == h && c[7..9] == mi && c[9..11] == s
  {
  }

  /** The serializer's test event starts at 05:00 on 30 October 2024 and
      lasts thirty minutes: DTSTART renders as `20241030T050000` and DTEND as
      `20241030T053000`. */
  lemma ExampleEventTimes(start: int)
    requires start == NewDate(2024, 9, 30, 5, 0, 0, 0)
    ensures FormatDate(start) == "20241030T050000"
    ensures FormatDate(AddMinutes(start, 30)) == "20241030T053000"
  {
    NewDateFields(2024, 10, 30, 5, 0, 0, 0);
    AddMinutesWithinHour(start, 30);
    ExampleTexts();
  }

  lemma ExampleTexts()
    ensures FormatFields(DateTime(2024, 10, 30, 5, 0, 0, 0)) == "20241030T050000"
    ensures FormatFields(DateTime(2024, 10, 30, 5, 30, 0, 0)) == "20241030T053000"
  {
    ExampleYear();
    ExamplePads();
  }

  lemma ExampleYear()
    ensures IntToString(2024) == "2024"
  {
    assert NatToString(2) == "2";
    assert NatToString(20) == "20";
    assert NatToString(202) == "202";
  }

  lemma ExamplePads()
    ensures Pad(10) == "10" && Pad(30) == "30" && Pad(5) == "05" && Pad(0) == "00"
  {
    assert NatToString(1) == "1" && NatToString(3) == "3";
  }

  // ---------------------------------------------------------------- the document

  const CalendarHeader: seq<string> := ["BEGIN:VCALENDAR", "VERSION:2.0", "PRODID:-//Calendar Event Generator//EN"]

  const CalendarEnd: string := "END:VCALENDAR"

  const Crlf: string := "\r\n"

  predicate AllStarted(events: seq<Event>) {
    forall k :: 0 <= k < |events| ==> events[k].startTime.Some?
  }

  /** `artist`, then ` - ` and the description only when there is one. */
  function DescriptionText(e: Event): string {
    e.artist + (if e.description != "" then " - " + e.description else "")
  }

  /** The DESCRIPTION value is the bare artist exactly when the description
      is empty. */
  lemma DescriptionIsArtistIffNoDescription(e: Event)
    ensures DescriptionText(e) == e.artist <==> e.description == ""
  {
    if e.description != "" {
      assert |DescriptionText(e)| > |e.artist|;
    }
  }

  /** The eight content lines of one event, given its three rendered
      date-times. */
  function BlockLines(e: Event, uid: string, stampText: string, startText: string, endText: string): (lines: seq<string>)
    ensures |lines| == 8 && lines[0] == "BEGIN:VEVENT" && lines[7] == "END:VEVENT"
  {
    [ "BEGIN:VEVENT",
      "UID:" + uid,
      "DTSTAMP:" + stampText,
      "DTSTART:" + startText,
      "DTEND:" + endText,
      "SUMMARY:" + e.grade + " | " + e.title,
      "DESCRIPTION:" + DescriptionText(e),
      "END:VEVENT" ]
  }

  /** The block of one event, its date-times rendered by `format`. DTEND is
      the start moved on by the event's duration in minutes. */
  function VEventLines(e: Event, uid: string, stamp: int, format: int -> string): (lines: seq<string>)
    requires e.startTime.Some?
    ensures |lines| == 8 && lines[0] == "BEGIN:VEVENT" && lines[7] == "END:VEVENT"
  {
    var start := e.startTime.value;
    BlockLines(e, uid, format(stamp), format(start), format(AddMinutes(start, e.duration)))
  }

  /** One block per event, in order. */
  function Blocks(events: seq<Event>, uids: seq<string>, stamps: seq<int>, format: int -> string): (bs: seq<seq<string>>)
    requires AllStarted(events) && |uids| == |events| && |stamps| == |events|
    ensures |bs| == |events|
  {
    seq(|events|, k requires 0 <= k < |events| => VEventLines(events[k], uids[k], stamps[k], format))
  }

  /** The concatenation of `bs`. */
  function Flatten(bs: seq<seq<string>>): seq<string> {
    if bs == [] then [] else Flatten(bs[..|bs| - 1]) + bs[|bs| - 1]
  }

  /** When every piece has eight elements, piece `k` sits at `8 * k`. */
  lemma {:induction false} FlattenUniform(bs: seq<seq<string>>, k: nat)
    requires forall j :: 0 <= j < |bs| ==> |bs[j]| == 8
    requires k < |bs|
    ensures |Flatten(bs)| == 8 * |bs|
    ensures Flatten(bs)[8 * k..8 * k + 8] == bs[k]
    decreases |bs|
  {
    var n := |bs| - 1;
    FlattenLength(bs[..n]);
    if k < n {
      FlattenUniform(bs[..n], k);
    }
  }

  lemma {:induction false} FlattenLength(bs: seq<seq<string>>)
    requires forall j :: 0 <= j < |bs| ==> |bs[j]| == 8
    ensures |Flatten(bs)| == 8 * |bs|
    decreases |bs|
  {
    if bs != [] { FlattenLength(bs[..|bs| - 1]); }
  }

  /** The VEVENT blocks of all events, in order. */
  function EventBlocks(events: seq<Event>, uids: seq<string>, stamps: seq<int>, format: int -> string): seq<string>
    requires AllStarted(events) && |uids| == |events| && |stamps| == |events|
  {
    Flatten(Blocks(events, uids, stamps, format))
  }

  /** All content lines of the document. */
  function IcsLines(events: seq<Event>, uids: seq<string>, stamps: seq<int>, format: int -> string): seq<string>
    requires AllStarted(events) && |uids| == |events| && |stamps| == |events|
  {
    CalendarHeader + EventBlocks(events, uids, stamps, format) + [CalendarEnd]
  }

  lemma StartedPrefix(events: seq<Event>, n: nat)
    requires AllStarted(events) && n <= |events|
    ensures AllStarted(events[..n])
  {
  }

  /** The body of the per-event callback of `generateICS`: the eight lines
      it pushes for one event. The method is the callback as the program
      runs it; `VEventLines` is its specification. */
  method EventLines(e: Event, uid: string, stamp: int) returns (block: seq<string>)
    requires e.startTime.Some?
    ensures block == VEventLines(e, uid, stamp, FormatDate)
  {
    var start := e.startTime.value;
    var stampText := FormatDate(stamp);
    var startText := FormatDate(start);
    var endText := FormatDate(AddMinutes(start, e.duration));
    block := [ "BEGIN:VEVENT",
               "UID:" + uid,
               "DTSTAMP:" + stampText,
               "DTSTART:" + startText,
               "DTEND:" + endText,
               "SUMMARY:" + e.grade + " | " + e.title,
               "DESCRIPTION:" + DescriptionText(e),
               "END:VEVENT" ];
  }

  /** `generateICS`: pushes the header lines, one block per event and the end
      line, then joins them with CRLF. Every event must have a start time. */
  method GenerateIcs(events: seq<Event>, uids: seq<string>, stamps: seq<int>) returns (ics: string)
    requires AllStarted(events) && |uids| == |events| && |stamps| == |events|
    ensures ics == Join(IcsLines(events, uids, stamps, FormatDate), Crlf)
  {
    var lines := CalendarHeader;
    var i := 0;
    while i < |events|
      invariant 0 <= i <= |events|
      invariant lines == CalendarHeader + EventBlocks(events[..i], uids[..i], stamps[..i], FormatDate)
    {
      StartedPrefix(events, i);
      StartedPrefix(events, i + 1);
      var block := EventLines(events[i], uids[i], stamps[i]);
      assert lines + block == CalendarHeader + EventBlocks(events[..i + 1], uids[..i + 1], stamps[..i + 1], FormatDate) by {
        BlocksGrow(CalendarHeader, events, uids, stamps, FormatDate, i);
      }
      lines := lines + block;
      i := i + 1;
    }
    assert lines + [CalendarEnd] == IcsLines(events, uids, stamps, FormatDate) by {
      assert events[..i] == events && uids[..i] == uids && stamps[..i] == stamps;
    }
    lines := lines + [CalendarEnd];
    ics := Join(lines, Crlf);
  }

  lemma BlocksGrow(head: seq<string>, events: seq<Event>, uids: seq<string>, stamps: seq<int>, format: int -> string, i: nat)
    requires AllStarted(events) && |uids| == |events| && |stamps| == |events| && i < |events|
    ensures head + EventBlocks(events[..i + 1], uids[..i + 1], stamps[..i + 1], format)
            == head + EventBlocks(events[..i], uids[..i], stamps[..i], format) + VEventLines(events[i], uids[i], stamps[i], format)
  {
    var bs := Blocks(events[..i + 1], uids[..i + 1], stamps[..i + 1], format);
    assert bs[..i] == Blocks(events[..i], uids[..i], stamps[..i], format);
    assert bs[i] == VEventLines(events[i], uids[i], stamps[i], format);
  }

  /** Event `k` fills lines `8k` to `8k + 7` of the blocks. */
  lemma BlockOfEvent(events: seq<Event>, uids: seq<string>, stamps: seq<int>, format: int -> string, k: nat)
    requires AllStarted(events) && |uids| == |events| && |stamps| == |events|
    requires k < |events|
    ensures |EventBlocks(events, uids, stamps, format)| == 8 * |events|
    ensures EventBlocks(events, uids, stamps, format)[8 * k..8 * k + 8] == VEventLines(events[k], uids[k], stamps[k], format)
  {
    var bs := Blocks(events, uids, stamps, format);
    assert forall j :: 0 <= j < |bs| ==> |bs[j]| == 8;
    FlattenUniform(bs, k);
  }

  /** The document has the three header lines, eight lines per event and the
      end line. */
  lemma IcsLineCount(events: seq<Event>, uids: seq<string>, stamps: seq<int>, format: int -> string)
    requires AllStarted(events) && |uids| == |events| && |stamps| == |events|
    ensures |IcsLines(events, uids, stamps, format)| == 4 + 8 * |events|
    ensures IcsLines(events, uids, stamps, format)[..3] == CalendarHeader
    ensures IcsLines(events, uids, stamps, format)[3 + 8 * |events|] == CalendarEnd
  {
    var bs := Blocks(events, uids, stamps, format);
    assert forall j :: 0 <= j < |bs| ==> |bs[j]| == 8;
    FlattenLength(bs);
  }

  /** In the document, in input order, event `k` is the block starting at
      line `3 + 8k`: its id, its start, its end `duration` minutes later, its
      SUMMARY `grade | title` and its DESCRIPTION. */
  lemma IcsEventBlock(events: seq<Event>, uids: seq<string>, stamps: seq<int>, format: int -> string, k: nat)
    requires AllStarted(events) && |uids| == |events| && |stamps| == |events|
    requires k < |events|
    ensures var lines := IcsLines(events, uids, stamps, format);
            var e := events[k];
            && 3 + 8 * k + 8 <= |lines|
            && lines[3 + 8 * k..3 + 8 * k + 8] == VEventLines(e, uids[k], stamps[k], format)
            && lines[3 + 8 * k] == "BEGIN:VEVENT"
            && lines[3 + 8 * k + 1] == "UID:" + uids[k]
            && lines[3 + 8 * k + 3] == "DTSTART:" + format(e.startTime.value)
            && lines[3 + 8 * k + 4] == "DTEND:" + format(AddMinutes(e.startTime.value, e.duration))
            && lines[3 + 8 * k + 5] == "SUMMARY:" + e.grade + " | " + e.title
            && lines[3 + 8 * k + 6] == "DESCRIPTION:" + DescriptionText(e)
            && lines[3 + 8 * k + 7] == "END:VEVENT"
  {
    BlockOfEvent(events, uids, stamps, format, k);
    var blocks := EventBlocks(events, uids, stamps, format);
    var lines := IcsLines(events, uids, stamps, format);
    assert lines[3..3 + |blocks|] == blocks;
    assert lines[3 + 8 * k..3 + 8 * k + 8] == blocks[8 * k..8 * k + 8];
  }

  /** The header lines joined by CRLF. */
  const HeaderText: string := "BEGIN:VCALENDAR" + Crlf + "VERSION:2.0" + Crlf + "PRODID:-//Calendar Event Generator//EN"

  lemma HeaderJoin()
    ensures Join(CalendarHeader, Crlf) == HeaderText
  {
    var a, b, c := "BEGIN:VCALENDAR", "VERSION:2.0", "PRODID:-//Calendar Event Generator//EN";
    assert CalendarHeader == [a, b, c];
    assert Join([c], Crlf) == c;
    assert [b, c][1..] == [c];
    assert Join([b, c], Crlf) == b + Crlf + c;
    assert [a, b, c][1..] == [b, c];
    assert Join([a, b, c], Crlf) == a + Crlf + (b + Crlf + c);
    assert a + Crlf + (b + Crlf + c) == a + Crlf + b + Crlf + c;
  }

  /** The document text begins with the header lines, each followed by CRLF,
      and ends with the end line and no trailing CRLF. */
  lemma IcsEnvelope(events: seq<Event>, uids: seq<string>, stamps: seq<int>, format: int -> string)
    requires AllStarted(events) && |uids| == |events| && |stamps| == |events|
    ensures var text := Join(IcsLines(events, uids, stamps, format), Crlf);
            && |text| >= |HeaderText + Crlf| + |CalendarEnd|
            && text[..|HeaderText + Crlf|] == HeaderText + Crlf
            && text[|text| - |CalendarEnd|..] == CalendarEnd
  {
    var blocks := EventBlocks(events, uids, stamps, format);
    var rest := blocks + [CalendarEnd];
    var lines := IcsLines(events, uids, stamps, format);
    assert lines == CalendarHeader + rest;
    JoinAppend(CalendarHeader, rest, Crlf);
    HeaderJoin();
    var tail := Join(rest, Crlf);
    if blocks == [] {
      assert rest == [CalendarEnd];
    } else {
      JoinAppend(blocks, [CalendarEnd], Crlf);
    }
    assert tail[|tail| - |CalendarEnd|..] == CalendarEnd;
    assert Join(lines, Crlf) == (HeaderText + Crlf) + tail;
  }

  /** Count of the lines equal to `line`. */
  function Occurrences(lines: seq<string>, line: string): nat {
    if lines == [] then 0 else (if lines[0] == line then 1 else 0) + Occurrences(lines[1..], line)
  }

  lemma {:induction false} OccurrencesAppend(a: seq<string>, b: seq<string>, line: string)
    ensures Occurrences(a + b, line) == Occurrences(a, line) + Occurrences(b, line)
    decreases |a|
  {
    if a == [] {
      assert a + b == b;
    } else {
      assert (a + b)[0] == a[0];
      assert (a + b)[1..] == a[1..] + b;
      OccurrencesAppend(a[1..], b, line);
    }
  }

  lemma {:induction false} NoOccurrence(lines: seq<string>, line: string)
    requires forall j :: 0 <= j < |lines| ==> lines[j] != line
    ensures Occurrences(lines, line) == 0
    decreases |lines|
  {
    if lines != [] { NoOccurrence(lines[1..], line); }
  }

  /** Exactly one line of the document opens a VEVENT per event. */
  lemma OneBeginPerEvent(events: seq<Event>, uids: seq<string>, stamps: seq<int>, format: int -> string)
    requires AllStarted(events) && |uids| == |events| && |stamps| == |events|
    ensures Occurrences(IcsLines(events, uids, stamps, format), "BEGIN:VEVENT") == |events|
  {
    var blocks := EventBlocks(events, uids, stamps, format);
    var bs := Blocks(events, uids, stamps, format);
    forall k | 0 <= k < |bs| ensures IsBlock(bs[k]) {
      VEventIsBlock(events[k], uids[k], stamps[k], format);
    }
    FlattenBegins(bs);
    OccurrencesAppend(CalendarHeader, blocks, "BEGIN:VEVENT");
    OccurrencesAppend(CalendarHeader + blocks, [CalendarEnd], "BEGIN:VEVENT");
    NoOccurrence(CalendarHeader, "BEGIN:VEVENT");
    NoOccurrence([CalendarEnd], "BEGIN:VEVENT");
  }

  /** A VEVENT block: eight lines, of which only the first is `BEGIN:VEVENT`. */
  predicate IsBlock(b: seq<string>) {
    |b| == 8 && b[0] == "BEGIN:VEVENT" && forall j :: 1 <= j < 8 ==> b[j] != "BEGIN:VEVENT"
  }

  lemma {:induction false} FlattenBegins(bs: seq<seq<string>>)
    requires forall k :: 0 <= k < |bs| ==> IsBlock(bs[k])
    ensures Occurrences(Flatten(bs), "BEGIN:VEVENT") == |bs|
    decreases |bs|
  {
    if bs != [] {
      var n := |bs| - 1;
      FlattenBegins(bs[..n]);
      OccurrencesAppend(Flatten(bs[..n]), bs[n], "BEGIN:VEVENT");
      var b := bs[n];
      assert b == [b[0]] + b[1..];
      OccurrencesAppend([b[0]], b[1..], "BEGIN:VEVENT");
      NoOccurrence(b[1..], "BEGIN:VEVENT");
    }
  }

  /** Every event's lines form a block: each line after the first starts with
      its own property name. */
  lemma VEventIsBlock(e: Event, uid: string, stamp: int, format: int -> string)
    requires e.startTime.Some?
    ensures IsBlock(VEventLines(e, uid, stamp, format))
  {
    var b := VEventLines(e, uid, stamp, format);
    assert b[1][0] == 'U' && b[5][0] == 'S' && b[7][0] == 'E';
    assert b[2][1] == 'T' && b[3][1] == 'T' && b[4][1] == 'T' && b[6][1] == 'E' && b[6][2] == 'S';
    assert "BEGIN:VEVENT"[1] == 'E' && "BEGIN:VEVENT"[2] == 'G';
  }
}
