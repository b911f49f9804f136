/** `EventParser`: turns the editor text into events. A line that, trimmed,
    contains `|` is a header; the line after a header is its detail line (a
    duration or a start time) and is consumed with it. Missing start times are
    then filled in from a running clock. */
module Parser {
  import opened Text
  import opened Calendar
  import opened Types
  import opened Recognizers
  import opened Formats

  // ---------------------------------------------------------------- header line

  /** The four text fields `parseEventLine` reads off a header line. */
  datatype HeaderFields = HeaderFields(grade: string, title: string, artist: string, description: string)

  /** `parseEventLine`: with fewer than three `|`-parts every field is empty;
      otherwise grade, title and artist are the first three parts, trimmed,
      and the description is the trimmed rest of the line after the third
      `|` (found as the length of the first three parts re-joined). */
  function ParseEventLine(line: string): (h: HeaderFields)
    ensures Count(line, '|') < 2 ==> h == HeaderFields("", "", "", "")
  {
    var parts := Split(line, '|');
    if |parts| < 3 then HeaderFields("", "", "", "")
    else
      var thirdPipe := |Join(parts[..3], "|")|;
      var description := if thirdPipe < |line| then Trim(line[thirdPipe + 1..]) else "";
      HeaderFields(Trim(parts[0]), Trim(parts[1]), Trim(parts[2]), description)
  }

  /** A header with exactly two `|`: three trimmed fields and no description. */
  lemma HeaderOfThreeParts(g: string, t: string, a: string)
    requires '|' !in g && '|' !in t && '|' !in a
    ensures ParseEventLine(g + "|" + t + "|" + a) == HeaderFields(Trim(g), Trim(t), Trim(a), "")
  {
    SplitThree(g, t, a);
    JoinThree(g, t, a);
    assert [g, t, a][..3] == [g, t, a];
  }

  /** A header with a third `|`: three trimmed fields, and the description is
      everything after the third `|`, trimmed, with any further `|` kept. */
  lemma HeaderOfMoreParts(g: string, t: string, a: string, rest: string)
    requires '|' !in g && '|' !in t && '|' !in a
    ensures ParseEventLine(g + "|" + t + "|" + a + "|" + rest)
            == HeaderFields(Trim(g), Trim(t), Trim(a), Trim(rest))
  {
    var line := g + "|" + t + "|" + a + "|" + rest;
    var prefix := g + "|" + t + "|" + a;
    var parts := Split(line, '|');
    assert |parts| >= 3 && parts[0] == g && parts[1] == t && parts[2] == a && parts[..3] == [g, t, a] by {
      SplitFirstThree(g, t, a, rest);
    }
    assert |Join(parts[..3], "|")| == |prefix| by {
      JoinThree(g, t, a);
    }
    assert |prefix| < |line| && line[|prefix| + 1..] == rest by {
      assert line == prefix + "|" + rest;
    }
  }

  /** Three pieces without `|`, joined by `|`, split back into those pieces ... */
  lemma SplitThree(g: string, t: string, a: string)
    requires '|' !in g && '|' !in t && '|' !in a
    ensures Split(g + "|" + t + "|" + a, '|') == [g, t, a]
  {
    var s2 := t + "|" + a;
    var s1 := g + "|" + s2;
    SplitNoSeparator(a, '|');
    SplitPrefix(t, '|', a);
    assert s2 == t + ['|'] + a;
    SplitPrefix(g, '|', s2);
    assert s1 == g + ['|'] + s2;
    assert g + "|" + t + "|" + a == s1;
  }

  /** ... and with a fourth piece after them, the split starts with them ... */
  lemma SplitFirstThree(g: string, t: string, a: string, rest: string)
    requires '|' !in g && '|' !in t && '|' !in a
    ensures Split(g + "|" + t + "|" + a + "|" + rest, '|') == [g, t, a] + Split(rest, '|')
  {
    var s3 := a + "|" + rest;
    var s2 := t + "|" + s3;
    var s1 := g + "|" + s2;
    SplitPrefix(a, '|', rest);
    assert s3 == a + ['|'] + rest;
    SplitPrefix(t, '|', s3);
    assert s2 == t + ['|'] + s3;
    SplitPrefix(g, '|', s2);
    assert s1 == g + ['|'] + s2;
    assert g + "|" + t + "|" + a + "|" + rest == s1;
  }

  /** ... and joining three pieces with `|` writes them out. */
  lemma JoinThree(g: string, t: string, a: string)
    ensures Join([g, t, a], "|") == g + "|" + t + "|" + a
  {
    assert Join([t, a], "|") == t + "|" + a by { assert [t, a][1..] == [a]; }
    assert Join([g, t, a], "|") == g + "|" + (t + "|" + a) by { assert [g, t, a][1..] == [t, a]; }
  }

  // ---------------------------------------------------------------- events from lines

  /** A line read as a header: one that contains `|`. */
  predicate IsHeader(line: string) {
    '|' in line
  }

  /** The test `parse` applies, that the trimmed line is not empty and
      contains `|`, holds exactly for the lines that contain `|`: trimming
      only removes whitespace. */
  lemma IsHeaderIffPipe(line: string)
    ensures (Trim(line) != [] && '|' in Trim(line)) <==> IsHeader(line)
  {
    TrimKeepsNonWhitespace(line, '|');
  }

  /** The event built from the header at `lines[j]` and the line after it. */
  function MakeEvent(lines: seq<string>, j: nat, config: AppConfig, host: Host): Event
    requires j < |lines|
  {
    var header := Trim(lines[j]);
    var detail := if j + 1 < |lines| then lines[j + 1] else "";
    var fields := ParseEventLine(header);
    var info := ParseTimeLine(detail, host);
    Event(fields.grade, fields.title, fields.artist, fields.description, info.startTime,
          if info.duration.Some? && info.duration.value != 0 then info.duration.value else config.defaultDuration,
          header + "\n" + detail)
  }

  /** The positions, from `i` on, that the loop of `parse` takes as headers:
      a line containing `|` is a header, and the line after it is its detail
      line, which the loop steps over. */
  function Walk(lines: seq<string>, i: nat): seq<nat>
    decreases |lines| + 2 - i
  {
    if i >= |lines| then []
    else if IsHeader(lines[i]) then [i] + Walk(lines, i + 2)
    else Walk(lines, i + 1)
  }

  /** Every position the loop visits is a line from `i` on. */
  lemma {:induction false} WalkBounds(lines: seq<string>, i: nat)
    ensures forall k :: 0 <= k < |Walk(lines, i)| ==> i <= Walk(lines, i)[k] < |lines|
    decreases |lines| + 2 - i
  {
    if i < |lines| {
      if IsHeader(lines[i]) {
        WalkBounds(lines, i + 2);
        var rest := Walk(lines, i + 2);
        assert forall k :: 0 < k < |rest| + 1 ==> ([i] + rest)[k] == rest[k - 1];
      } else {
        WalkBounds(lines, i + 1);
      }
    }
  }

  /** The events the loop of `parse` collects from `lines[i..]`, before start
      times are resolved. */
  function Extract(lines: seq<string>, i: nat, config: AppConfig, host: Host): seq<Event> {
    WalkBounds(lines, i);
    EventsAt(lines, Walk(lines, i), config, host)
  }

  /** The line at `j` is read as a header: it contains `|` and was not
      consumed as the detail line of a header just before it. */
  predicate HeaderAt(lines: seq<string>, j: nat)
    requires j < |lines|
  {
    IsHeader(lines[j]) && (j == 0 || !HeaderAt(lines, j - 1))
  }

  /** The positions of the lines read as headers, from `i` on, in order. */
  function HeaderLines(lines: seq<string>, i: nat): (js: seq<nat>)
    ensures forall k :: 0 <= k < |js| ==> i <= js[k] < |lines|
    decreases |lines| - i
  {
    if i >= |lines| then []
    else if HeaderAt(lines, i) then [i] + HeaderLines(lines, i + 1)
    else HeaderLines(lines, i + 1)
  }

  /** The header positions are increasing, and a position from `i` on is
      listed exactly when the line there is read as a header. */
  lemma {:induction false} HeaderLinesSpec(lines: seq<string>, i: nat)
    ensures var js := HeaderLines(lines, i);
            && (forall k, l :: 0 <= k < l < |js| ==> js[k] < js[l])
            && (forall j :: j in js <==> i <= j < |lines| && HeaderAt(lines, j))
    decreases |lines| - i
  {
    if i < |lines| {
      HeaderLinesSpec(lines, i + 1);
      var rest := HeaderLines(lines, i + 1);
      if HeaderAt(lines, i) {
        var js := [i] + rest;
        assert HeaderLines(lines, i) == js;
        assert forall k, l :: 0 <= k < l < |js| ==> js[k] < js[l] by {
          forall k, l | 0 <= k < l < |js| ensures js[k] < js[l] {
            assert js[l] == rest[l - 1];
            if k > 0 { assert js[k] == rest[k - 1]; }
          }
        }
        assert forall j :: j in js <==> i <= j < |lines| && HeaderAt(lines, j) by {
          forall j ensures j in js <==> i <= j < |lines| && HeaderAt(lines, j) {
            if j != i { assert j in js <==> j in rest; }
          }
        }
      } else {
        assert HeaderLines(lines, i) == rest;
      }
    }
  }

  /** The events read from the headers at positions `js`, in that order. */
  function EventsAt(lines: seq<string>, js: seq<nat>, config: AppConfig, host: Host): (es: seq<Event>)
    requires forall k :: 0 <= k < |js| ==> js[k] < |lines|
    ensures |es| == |js|
  {
    if js == [] then [] else [MakeEvent(lines, js[0], config, host)] + EventsAt(lines, js[1..], config, host)
  }

  lemma {:induction false} EventsAtSpec(lines: seq<string>, js: seq<nat>, config: AppConfig, host: Host, k: nat)
    requires forall k :: 0 <= k < |js| ==> js[k] < |lines|
    requires k < |js|
    ensures EventsAt(lines, js, config, host)[k] == MakeEvent(lines, js[k], config, host)
    decreases k
  {
    if k > 0 {
      EventsAtSpec(lines, js[1..], config, host, k - 1);
      assert js[1..][k - 1] == js[k];
      assert EventsAt(lines, js, config, host)[k] == EventsAt(lines, js[1..], config, host)[k - 1];
    }
  }

  /** The loop takes as headers exactly the lines read as headers, in input
      order; blank lines, lines without `|` and consumed detail lines give no
      event. */
  lemma {:induction false} WalkIsHeaderLines(lines: seq<string>, i: nat)
    requires i == 0 || i >= |lines| || !HeaderAt(lines, i - 1)
    ensures Walk(lines, i) == HeaderLines(lines, i)
    decreases |lines| + 2 - i
  {
    if i < |lines| {
      if IsHeader(lines[i]) {
        HeaderLinesAtHeader(lines, i);
        WalkIsHeaderLines(lines, i + 2);
      } else {
        assert HeaderLines(lines, i) == HeaderLines(lines, i + 1);
        WalkIsHeaderLines(lines, i + 1);
      }
    }
  }

  /** A header consumes the line after it. */
  lemma HeaderLinesAtHeader(lines: seq<string>, i: nat)
    requires i < |lines| && HeaderAt(lines, i)
    ensures i + 1 < |lines| ==> !HeaderAt(lines, i + 1)
    ensures HeaderLines(lines, i) == [i] + HeaderLines(lines, i + 2)
  {
    if i + 1 < |lines| {
      assert HeaderLines(lines, i + 1) == HeaderLines(lines, i + 2);
    }
  }

  lemma EventsAtCons(lines: seq<string>, j: nat, js: seq<nat>, config: AppConfig, host: Host)
    requires j < |lines| && forall k :: 0 <= k < |js| ==> js[k] < |lines|
    ensures EventsAt(lines, [j] + js, config, host) == [MakeEvent(lines, j, config, host)] + EventsAt(lines, js, config, host)
  {
    assert ([j] + js)[1..] == js;
  }

  /** A line containing `|` that is not read as a header is the detail line
      of the header right before it. */
  lemma SwallowedHeader(lines: seq<string>, j: nat)
    requires j < |lines| && IsHeader(lines[j]) && !HeaderAt(lines, j)
    ensures j > 0 && HeaderAt(lines, j - 1)
  {
  }

  /** When no two adjacent lines contain `|`, every line containing `|` is
      read as a header. */
  lemma {:induction false} SeparatedHeaders(lines: seq<string>, j: nat)
    requires forall k :: 0 < k < |lines| && IsHeader(lines[k]) ==> !IsHeader(lines[k - 1])
    requires j < |lines| && IsHeader(lines[j])
    ensures HeaderAt(lines, j)
  {
  }

  /** The duration of an event is the detail line's duration token when that
      is not zero, and the configured default otherwise. */
  lemma EventDuration(lines: seq<string>, j: nat, config: AppConfig, host: Host)
    requires j < |lines|
    ensures var detail := Trim(if j + 1 < |lines| then lines[j + 1] else "");
            MakeEvent(lines, j, config, host).duration
            == if IsDurationToken(detail) && ParseDuration(detail) != 0 then ParseDuration(detail)
               else config.defaultDuration
  {
  }

  /** A detail line holding a duration token gives no start time of its own. */
  lemma DurationGivesNoStart(lines: seq<string>, j: nat, config: AppConfig, host: Host)
    requires j + 1 < |lines| && IsDurationToken(Trim(lines[j + 1]))
    ensures MakeEvent(lines, j, config, host).startTime.None?
  {
  }

  // ---------------------------------------------------------------- start times

  const FiveMinutes: int := 300000

  /** The clock `calculateEventTimes` starts from: `now` with the minute
      field rounded up to a multiple of five and seconds and milliseconds
      cleared (`setMinutes(Math.ceil(m / 5) * 5)`, which carries 60 into the
      next hour). */
  function InitialClock(now: int): (c: int)
    ensures c % FiveMinutes == 0
    ensures now - now % MsPerMinute <= c < now - now % MsPerMinute + FiveMinutes
  {
    var hourStart := now - now % MsPerHour;
    var minute := now % MsPerHour / MsPerMinute;
    MinuteOfHour(now, now / MsPerHour, now % MsPerHour, minute, now % MsPerHour % MsPerMinute);
    hourStart + (minute + 4) / 5 * FiveMinutes
  }

  lemma MinuteOfHour(now: int, q: int, r: int, m: int, s: int)
    requires now == q * MsPerHour + r && 0 <= r < MsPerHour
    requires r == m * MsPerMinute + s && 0 <= s < MsPerMinute
    ensures 0 <= m < 60
    ensures now % MsPerMinute == s
    ensures (q * MsPerHour) % FiveMinutes == 0
    ensures now - now % MsPerMinute + FiveMinutes > q * MsPerHour + (m + 4) / 5 * FiveMinutes
    ensures q * MsPerHour + (m + 4) / 5 * FiveMinutes >= now - now % MsPerMinute
  {
    assert now == (60 * q + m) * MsPerMinute + s;
  }

  /** What `calculateEventTimes` leaves in the array: each event keeps its
      start, or takes the running clock; the clock then moves to that start
      plus the event's duration and the gap. */
  function Resolve(es: seq<Event>, clock: int, gap: int): (r: seq<Event>)
    ensures |r| == |es|
    decreases |es|
  {
    if es == [] then []
    else
      var start := if es[0].startTime.Some? then es[0].startTime.value else clock;
      [es[0].(startTime := Some(start))] + Resolve(es[1..], AddMinutes(start, es[0].duration + gap), gap)
  }

  /** After resolving, every event has a start; an event that had one keeps
      it, and no other field of any event changes. */
  lemma {:induction false} ResolveStarts(es: seq<Event>, clock: int, gap: int, k: nat)
    requires k < |es|
    ensures var r := Resolve(es, clock, gap);
            && r[k].startTime.Some?
            && r[k] == es[k].(startTime := r[k].startTime)
            && (es[k].startTime.Some? ==> r[k] == es[k])
    decreases k
  {
    if k > 0 {
      var start := if es[0].startTime.Some? then es[0].startTime.value else clock;
      ResolveCons(es, clock, gap);
      ResolveStarts(es[1..], AddMinutes(start, es[0].duration + gap), gap, k - 1);
    }
  }

  /** The first event without a start of its own starts at the initial clock ... */
  lemma ResolveFirst(es: seq<Event>, clock: int, gap: int)
    requires es != [] && es[0].startTime.None?
    ensures Resolve(es, clock, gap)[0].startTime == Some(clock)
  {
  }

  /** ... and every later one starts `duration + gap` minutes after the
      resolved start of the event before it. */
  lemma {:induction false} ResolveNext(es: seq<Event>, clock: int, gap: int, k: nat)
    requires 0 < k < |es| && es[k].startTime.None?
    ensures var r := Resolve(es, clock, gap);
            && r[k - 1].startTime.Some?
            && r[k].startTime == Some(AddMinutes(r[k - 1].startTime.value, es[k - 1].duration + gap))
    decreases k
  {
    var start := if es[0].startTime.Some? then es[0].startTime.value else clock;
    var next := AddMinutes(start, es[0].duration + gap);
    var r := Resolve(es, clock, gap);
    assert r[1..] == Resolve(es[1..], next, gap);
    if k > 1 {
      ResolveNext(es[1..], next, gap, k - 1);
    }
  }

  /** `calculateEventTimes`: resolves the start times of the events in place. */
  method CalculateEventTimes(events: array<Event>, config: AppConfig, now: int)
    modifies events
    ensures events[..] == Resolve(old(events[..]), InitialClock(now), config.gapTime)
  {
    ghost var all := Resolve(events[..], InitialClock(now), config.gapTime);
    var clock := InitialClock(now);
    var i := 0;
    while i < events.Length
      invariant 0 <= i <= events.Length
      invariant events[i..] == old(events[i..])
      invariant events[..i] + Resolve(events[i..], clock, config.gapTime) == all
    {
      ghost var prefix := events[..i];
      ghost var rest := events[i..];
      if events[i].startTime.None? {
        events[i] := events[i].(startTime := Some(clock));
      }
      var next := AddMinutes(events[i].startTime.value, events[i].duration + config.gapTime);
      assert events[..i + 1] + Resolve(rest[1..], next, config.gapTime) == all by {
        assert events[i] == rest[0].(startTime := Some(events[i].startTime.value));
        assert events[..i + 1] == prefix + [events[i]];
        ResolveStep(prefix, rest, clock, config.gapTime, all);
      }
      clock := next;
      assert events[i + 1..] == rest[1..];
      i := i + 1;
    }
  }

  /** One step of `calculateEventTimes`: the resolved prefix grows by the
      first remaining event, timed. */
  lemma ResolveStep(prefix: seq<Event>, rest: seq<Event>, clock: int, gap: int, all: seq<Event>)
    requires rest != [] && prefix + Resolve(rest, clock, gap) == all
    ensures var start := if rest[0].startTime.Some? then rest[0].startTime.value else clock;
            (prefix + [rest[0].(startTime := Some(start))])
            + Resolve(rest[1..], AddMinutes(start, rest[0].duration + gap), gap) == all
  {
    ResolveCons(rest, clock, gap);
  }

  lemma ResolveCons(es: seq<Event>, clock: int, gap: int)
    requires es != []
    ensures var start := if es[0].startTime.Some? then es[0].startTime.value else clock;
            Resolve(es, clock, gap)
            == [es[0].(startTime := Some(start))] + Resolve(es[1..], AddMinutes(start, es[0].duration + gap), gap)
  {
  }

  // ---------------------------------------------------------------- parse

  /** A header line starts the events extracted from it; its detail line
      is stepped over. */
  lemma ExtractHeader(lines: seq<string>, i: nat, config: AppConfig, host: Host)
    requires i < |lines| && Trim(lines[i]) != [] && '|' in Trim(lines[i])
    ensures Extract(lines, i, config, host) == [MakeEvent(lines, i, config, host)] + Extract(lines, i + 2, config, host)
  {
    IsHeaderIffPipe(lines[i]);
    assert Walk(lines, i) == [i] + Walk(lines, i + 2);
    WalkBounds(lines, i + 2);
    EventsAtCons(lines, i, Walk(lines, i + 2), config, host);
  }

  /** A blank line or a line without `|` gives no event. */
  lemma ExtractSkip(lines: seq<string>, i: nat, config: AppConfig, host: Host)
    requires i < |lines| && !(Trim(lines[i]) != [] && '|' in Trim(lines[i]))
    ensures Extract(lines, i, config, host) == Extract(lines, i + 1, config, host)
  {
    IsHeaderIffPipe(lines[i]);
    assert Walk(lines, i) == Walk(lines, i + 1);
  }

  /** The body of the loop of `parse` for a header line: reads the header's
      fields and the line after it, and builds the event, which is the first
      of those extracted from the header on. The method is the loop body as
      the program runs it; `Extract` is its specification. */
  method ReadEvent(lines: seq<string>, i: nat, config: AppConfig, host: Host) returns (event: Event)
    requires i < |lines| && Trim(lines[i]) != [] && '|' in Trim(lines[i])
    ensures Extract(lines, i, config, host) == [event] + Extract(lines, i + 2, config, host)
  {
    var line := Trim(lines[i]);
    var detail := if i + 1 < |lines| then lines[i + 1] else "";
    var fields := ParseEventLine(line);
    var info := ParseTimeLine(detail, host);
    var duration := if info.duration.Some? && info.duration.value != 0 then info.duration.value
                    else config.defaultDuration;
    event := Event(fields.grade, fields.title, fields.artist, fields.description,
                   info.startTime, duration, line + "\n" + detail);
    ExtractHeader(lines, i, config, host);
  }

  /** What `parse` returns as events for `text`. */
  function ParsedEvents(text: string, config: AppConfig, host: Host): seq<Event> {
    Resolve(Extract(Split(text, '\n'), 0, config, host), InitialClock(host.now), config.gapTime)
  }

  /** The loop of `parse`: walks the lines, turning each header and the line
      after it into an event; the events come out in input order. */
  method CollectEvents(lines: seq<string>, config: AppConfig, host: Host) returns (events: seq<Event>)
    ensures events == Extract(lines, 0, config, host)
  {
    events := [];
    var i := 0;
    while i < |lines|
      invariant 0 <= i <= |lines| + 1
      invariant events + Extract(lines, i, config, host) == Extract(lines, 0, config, host)
      decreases |lines| + 1 - i
    {
      var line := Trim(lines[i]);
      if line != [] && '|' in line {
        var event := ReadEvent(lines, i, config, host);
        CollectStep(events, event, Extract(lines, i, config, host), Extract(lines, i + 2, config, host),
                    Extract(lines, 0, config, host));
        events := events + [event];
        i := i + 1;
      } else {
        ExtractSkip(lines, i, config, host);
        assert events + Extract(lines, i + 1, config, host) == Extract(lines, 0, config, host);
      }
      i := i + 1;
    }
    assert Extract(lines, i, config, host) == [];
  }

  /** Appending the event read at a header keeps what the loop has collected
      a prefix of all the events. */
  lemma CollectStep(events: seq<Event>, event: Event, here: seq<Event>, after: seq<Event>, all: seq<Event>)
    requires events + here == all && here == [event] + after
    ensures (events + [event]) + after == all
  {
    assert events + ([event] + after) == (events + [event]) + after;
  }

  /** `parse`: splits the text into lines, collects the events, then resolves
      their start times in place. It never reports a warning. */
  method Parse(text: string, config: AppConfig, host: Host) returns (result: ParseResult)
    ensures result.warnings == []
    ensures result.events == ParsedEvents(text, config, host)
  {
    var lines := Split(text, '\n');
    var events := CollectEvents(lines, config, host);
    var buffer := new Event[|events|](k requires 0 <= k < |events| => events[k]);
    assert buffer[..] == events;
    CalculateEventTimes(buffer, config, host.now);
    result := ParseResult(buffer[..], []);
  }

  /** Every event `parse` returns has a start time, and its text fields and
      duration are those of the header it came from, in input order. */
  lemma ParsedEventsAreHeaders(text: string, config: AppConfig, host: Host)
    ensures var lines := Split(text, '\n');
            var js := HeaderLines(lines, 0);
            var es := ParsedEvents(text, config, host);
            && |es| == |js|
            && forall k :: 0 <= k < |es| ==>
                 es[k].startTime.Some?
                 && es[k] == MakeEvent(lines, js[k], config, host).(startTime := es[k].startTime)
  {
    var lines := Split(text, '\n');
    WalkIsHeaderLines(lines, 0);
    var es := Extract(lines, 0, config, host);
    var js := HeaderLines(lines, 0);
    forall k | 0 <= k < |es| ensures var r := Resolve(es, InitialClock(host.now), config.gapTime);
                                     r[k].startTime.Some? && r[k] == es[k].(startTime := r[k].startTime)
                                     && es[k] == MakeEvent(lines, js[k], config, host) {
      ResolveStarts(es, InitialClock(host.now), config.gapTime, k);
      EventsAtSpec(lines, js, config, host, k);
    }
  }

  /** A text without `|` gives no events: the empty text, blank lines and
      plain lines alike. */
  lemma NoPipeNoEvents(text: string, config: AppConfig, host: Host)
    requires '|' !in text
    ensures ParsedEvents(text, config, host) == []
  {
    var lines := Split(text, '\n');
    forall j | 0 <= j < |lines| ensures !IsHeader(lines[j]) {
      if '|' in lines[j] { SplitPiecesFrom(text, '\n', j, '|'); }
    }
    NoHeaderEmptyWalk(lines, 0);
  }

  lemma {:induction false} NoHeaderEmptyWalk(lines: seq<string>, i: nat)
    requires forall j :: 0 <= j < |lines| ==> !IsHeader(lines[j])
    ensures Walk(lines, i) == []
    decreases |lines| + 2 - i
  {
    if i < |lines| { NoHeaderEmptyWalk(lines, i + 1); }
  }

  /** A single line containing `|` gives exactly one event, whatever else it
      holds (`A | B | C` and `|||||` alike). */
  lemma OneHeaderLineOneEvent(text: string, config: AppConfig, host: Host)
    requires '|' in text && '\n' !in text
    ensures |ParsedEvents(text, config, host)| == 1
  {
    var lines := Split(text, '\n');
    SplitNoSeparator(text, '\n');
    assert lines == [text] && IsHeader(lines[0]);
    assert Walk(lines, 0) == [0];
  }

  /** A header line followed by a detail line that names a start gives one
      event: the header's fields, that start, and the configured default
      duration, since the detail line holds no duration token. */
  lemma HeaderWithStart(header: string, detail: string, config: AppConfig, host: Host, date: int)
    requires '|' in header && '\n' !in header && '\n' !in detail
    requires ParseTimeLine(detail, host) == TimeInfo(Some(date), None)
    ensures var f := ParseEventLine(Trim(header));
            ParsedEvents(header + "\n" + detail, config, host)
            == [Event(f.grade, f.title, f.artist, f.description, Some(date), config.defaultDuration,
                      Trim(header) + "\n" + detail)]
  {
    var lines := Split(header + "\n" + detail, '\n');
    SplitNoSeparator(detail, '\n');
    SplitPrefix(header, '\n', detail);
    assert header + "\n" + detail == header + ['\n'] + detail;
    assert lines == [header, detail];
    IsHeaderIffPipe(header);
    ExtractHeader(lines, 0, config, host);
    assert Walk(lines, 2) == [];
  }

  /** A header line of four `|`-separated parts. */
  function HeaderText(g: string, t: string, a: string, rest: string): string {
    g + "|" + t + "|" + a + "|" + rest
  }

  /** A header of four parts over a detail line that names a start: the
      one event holds the trimmed parts, that start and the default duration. */
  lemma HeaderPartsWithStart(g: string, t: string, a: string, rest: string, detail: string,
                             config: AppConfig, host: Host, date: int)
    requires '|' !in g && '|' !in t && '|' !in a
    requires '\n' !in g && '\n' !in t && '\n' !in a && '\n' !in rest && '\n' !in detail
    requires g != [] && !IsWhitespace(g[0]) && rest != [] && !IsWhitespace(rest[|rest| - 1])
    requires ParseTimeLine(detail, host) == TimeInfo(Some(date), None)
    ensures ParsedEvents(HeaderText(g, t, a, rest) + "\n" + detail, config, host)
            == [Event(Trim(g), Trim(t), Trim(a), Trim(rest), Some(date), config.defaultDuration,
                      HeaderText(g, t, a, rest) + "\n" + detail)]
  {
    HeaderTextEnds(g, t, a, rest);
    HeaderOfMoreParts(g, t, a, rest);
    HeaderFieldsWithStart(HeaderText(g, t, a, rest), HeaderFields(Trim(g), Trim(t), Trim(a), Trim(rest)),
                          detail, config, host, date);
  }

  /** A four-part header that starts and ends with its parts' non-blank
      ends is its own trim, and it is one line holding `|`. */
  lemma HeaderTextEnds(g: string, t: string, a: string, rest: string)
    requires '\n' !in g && '\n' !in t && '\n' !in a && '\n' !in rest
    requires g != [] && !IsWhitespace(g[0]) && rest != [] && !IsWhitespace(rest[|rest| - 1])
    ensures var header := HeaderText(g, t, a, rest);
            '|' in header && '\n' !in header && Trim(header) == header
  {
    var header := HeaderText(g, t, a, rest);
    assert header[0] == g[0] && header[|header| - 1] == rest[|rest| - 1] && header[|g|] == '|';
    TrimUnchanged(header);
  }

  lemma HeaderFieldsWithStart(header: string, fields: HeaderFields, detail: string,
                              config: AppConfig, host: Host, date: int)
    requires '|' in header && '\n' !in header && '\n' !in detail && Trim(header) == header
    requires ParseEventLine(header) == fields
    requires ParseTimeLine(detail, host) == TimeInfo(Some(date), None)
    ensures ParsedEvents(header + "\n" + detail, config, host)
            == [Event(fields.grade, fields.title, fields.artist, fields.description, Some(date),
                      config.defaultDuration, header + "\n" + detail)]
  {
    HeaderWithStart(header, detail, config, host, date);
  }

  // The explicit-date test: `A | Test Performance | Artist | Info` over
  // `    Oct 30 05:00am`, the header written as its four parts.

  /** The test's header parts hold no `|` and no line break; the header
      starts and ends with a non-blank character. */
  lemma TestHeaderChars()
    ensures '|' !in "A " && '|' !in " Test Performance " && '|' !in " Artist "
    ensures '\n' !in "A " && '\n' !in " Test Performance " && '\n' !in " Artist " && '\n' !in " Info"
    ensures "A " != [] && !IsWhitespace("A "[0]) && " Info" != [] && !IsWhitespace(" Info"[|" Info"| - 1])
  {
  }

  lemma TestHeaderTextIs()
    ensures HeaderText("A ", " Test Performance ", " Artist ", " Info") == "A | Test Performance | Artist | Info"
  {
  }

  /** The trimmed parts are the test's fields. */
  lemma TrimTestGrade()
    ensures Trim("A ") == "A"
  {
    assert AllWhitespace("") && AllWhitespace(" ");
    TrimPadded("", "A", " ");
    assert "" + "A" + " " == "A ";
  }

  lemma TrimTestTitle()
    ensures Trim(" Test Performance ") == "Test Performance"
  {
    assert AllWhitespace(" ");
    TrimPadded(" ", "Test Performance", " ");
    assert " " + "Test Performance" + " " == " Test Performance ";
  }

  lemma TrimTestArtist()
    ensures Trim(" Artist ") == "Artist"
  {
    assert AllWhitespace(" ");
    TrimPadded(" ", "Artist", " ");
    assert " " + "Artist" + " " == " Artist ";
  }

  lemma TrimTestInfo()
    ensures Trim(" Info") == "Info"
  {
    assert AllWhitespace(" ") && AllWhitespace("");
    TrimPadded(" ", "Info", "");
    assert " " + "Info" + "" == " Info";
  }

  /** The detail line is one line. */
  lemma TestDetailChars()
    ensures '\n' !in "    " + MonthText("Oct", " ", "30", " ", "05", "00", "am")
  {
    MonthTextIs();
  }

  /** The test's text gives one event with the header's fields, starting at
      05:00 on 30 October of the current year when the host reads `Oct` as
      the tenth month, with the default duration. */
  lemma ExplicitDateTest(config: AppConfig, host: Host)
    requires host.monthIndex("Oct") == Some(9)
    ensures ParsedEvents(HeaderText("A ", " Test Performance ", " Artist ", " Info") + "\n"
                         + ("    " + MonthText("Oct", " ", "30", " ", "05", "00", "am")), config, host)
            == [Event("A", "Test Performance", "Artist", "Info", Some(NewDate(host.year, 9, 30, 5, 0, 0, 0)),
                      config.defaultDuration,
                      HeaderText("A ", " Test Performance ", " Artist ", " Info") + "\n"
                      + ("    " + MonthText("Oct", " ", "30", " ", "05", "00", "am")))]
  {
    assert Word("Oct");
    MonthNameTestLine("Oct", host);
    TrimTestGrade();
    TrimTestTitle();
    TrimTestArtist();
    TrimTestInfo();
    TestHeaderChars();
    TestDetailChars();
    HeaderPartsWithStart("A ", " Test Performance ", " Artist ", " Info",
                         "    " + MonthText("Oct", " ", "30", " ", "05", "00", "am"),
                         config, host, NewDate(host.year, 9, 30, 5, 0, 0, 0));
  }
}
