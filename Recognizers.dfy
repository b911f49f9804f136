/** The detail-line recognizers of `EventParser`: a bare duration token, then
    an ordered chain of date and time formats of which the first that yields a
    valid time wins.

    Each regular expression of the source is written as a scan over maximal
    runs of one character class. This is exact for these expressions: in each
    of them a repeated class (`\d+`, `\s+`, `[A-Za-z]+`, `\d{1,2}`) is followed
    by a character outside that class, so the only way to match is to take the
    whole run. */
module Recognizers {
  import opened Text
  import opened Calendar
  import opened Types

  datatype CharClass = DigitClass | LetterClass | SpaceClass

  predicate InClass(c: char, k: CharClass) {
    match k
    case DigitClass => IsDigit(c)
    case LetterClass => IsAsciiLetter(c)
    case SpaceClass => IsWhitespace(c)
  }

  /** End of the maximal run of characters of class `k` that starts at `i`. */
  function RunEnd(s: string, i: nat, k: CharClass): (e: nat)
    requires i <= |s|
    ensures i <= e <= |s|
    ensures forall j :: i <= j < e ==> InClass(s[j], k)
    ensures e == |s| || !InClass(s[e], k)
    decreases |s| - i
  {
    if i < |s| && InClass(s[i], k) then RunEnd(s, i + 1, k) else i
  }

  /** `s[i..i + n]` exists and is made of digits. */
  predicate DigitsAt(s: string, i: nat, n: nat) {
    i + n <= |s| && AllDigits(s[i..i + n])
  }

  /** `parseInt` of the digit run `s[i..j]`. */
  function RunValue(s: string, i: nat, j: nat): nat
    requires i <= j <= |s|
    requires forall x :: i <= x < j ==> IsDigit(s[x])
  {
    assert AllDigits(s[i..j]) by {
      forall x | 0 <= x < j - i ensures IsDigit(s[i..j][x]) { assert s[i..j][x] == s[i + x]; }
    }
    DigitsValue(s[i..j])
  }

  /** The maximal run of class `k` at the start of `s`, and the rest of `s`
      after it. */
  function Span(s: string, k: CharClass): (r: (string, string))
    ensures k == DigitClass ==> AllDigits(r.0)
  {
    var n := RunEnd(s, 0, k);
    (s[..n], s[n..])
  }

  /** The scanned run has the class and the rest does not continue it; the
      two together are the text. */
  lemma SpanSplits(s: string, k: CharClass)
    ensures Span(s, k).0 + Span(s, k).1 == s
    ensures forall x :: 0 <= x < |Span(s, k).0| ==> InClass(Span(s, k).0[x], k)
    ensures Span(s, k).1 == [] || !InClass(Span(s, k).1[0], k)
  {
    var n := RunEnd(s, 0, k);
    assert s[..n] + s[n..] == s;
  }

  // ---------------------------------------------------------------- durations

  /** The regular expression `^\d+[mh](\d+m)?$`. */
  predicate IsDurationToken(s: string) {
    var n := RunEnd(s, 0, DigitClass);
    && 1 <= n < |s| && (s[n] == 'm' || s[n] == 'h')
    && (n + 1 == |s|
        || (var k := RunEnd(s, n + 1, DigitClass);
            k > n + 1 && k + 1 == |s| && s[k] == 'm'))
  }

  /** The number captured by the first match of the regular expression
      `(\d+)<unit>` in `s`, if any. The leftmost match starts at the first
      digit run that ends right before `unit`, and it captures the whole run. */
  function FirstCount(s: string, unit: char): Option<nat>
    requires !IsDigit(unit)
    decreases |s|
  {
    if s == [] then None
    else if IsDigit(s[0]) then
      var n := RunEnd(s, 0, DigitClass);
      if n < |s| && s[n] == unit then Some(RunValue(s, 0, n))
      else FirstCount(s[n..], unit)
    else FirstCount(s[1..], unit)
  }

  /** `parseDuration`: sixty times the count before the first `h` plus the
      count before the first `m`, each zero when absent. */
  function ParseDuration(s: string): nat {
    var hours := FirstCount(s, 'h');
    var minutes := FirstCount(s, 'm');
    (if hours.Some? then hours.value * 60 else 0) + (if minutes.Some? then minutes.value else 0)
  }

  /** The text of a duration token: digits `a`, the unit `u`, and, when `b`
      is not empty, a second count `b` of minutes. */
  function DurationText(a: string, u: char, b: string): string {
    a + [u] + (if b == [] then [] else b + "m")
  }

  lemma RunEndAllDigits(s: string, i: nat)
    requires i <= |s| && AllDigits(s[i..])
    ensures RunEnd(s, i, DigitClass) == |s|
    decreases |s| - i
  {
    if i < |s| {
      assert s[i..][0] == s[i];
      assert s[i + 1..] == s[i..][1..];
      RunEndAllDigits(s, i + 1);
    }
  }

  lemma RunEndStopsAt(s: string, i: nat, j: nat, k: CharClass)
    requires i <= j < |s|
    requires forall x :: i <= x < j ==> InClass(s[x], k)
    requires !InClass(s[j], k)
    ensures RunEnd(s, i, k) == j
    decreases j - i
  {
    if i < j { RunEndStopsAt(s, i + 1, j, k); }
  }

  lemma RunValueOf(s: string, i: nat, j: nat, t: string)
    requires i <= j <= |s| && s[i..j] == t
    requires forall x :: i <= x < j ==> IsDigit(s[x])
    ensures AllDigits(t) && RunValue(s, i, j) == DigitsValue(t)
  {
    forall x | 0 <= x < |t| ensures IsDigit(t[x]) { assert t[x] == s[i + x]; }
  }

  lemma FirstCountOfRun(a: string, rest: string, unit: char)
    requires |a| >= 1 && AllDigits(a) && !IsDigit(unit)
    requires rest != [] && rest[0] == unit
    ensures FirstCount(a + rest, unit) == Some(DigitsValue(a))
  {
    var s := a + rest;
    RunEndStopsAt(s, 0, |a|, DigitClass);
    RunValueOf(s, 0, |a|, a);
  }

  lemma FirstCountSkipRun(a: string, rest: string, unit: char)
    requires |a| >= 1 && AllDigits(a) && !IsDigit(unit)
    requires rest != [] && !IsDigit(rest[0]) && rest[0] != unit
    ensures FirstCount(a + rest, unit) == FirstCount(rest[1..], unit)
  {
    var s := a + rest;
    RunEndStopsAt(s, 0, |a|, DigitClass);
    assert s[|a|..] == rest;
  }

  lemma FirstCountNone(s: string, unit: char)
    requires !IsDigit(unit) && unit !in s
    ensures FirstCount(s, unit) == None
    decreases |s|
  {
    if s != [] {
      if IsDigit(s[0]) {
        var n := RunEnd(s, 0, DigitClass);
        assert n < |s| ==> s[n] != unit;
        assert unit !in s[n..] by { assert forall x :: 0 <= x < |s| - n ==> s[n..][x] == s[n + x]; }
        FirstCountNone(s[n..], unit);
      } else {
        assert unit !in s[1..] by { assert forall x :: 0 <= x < |s| - 1 ==> s[1..][x] == s[1 + x]; }
        FirstCountNone(s[1..], unit);
      }
    }
  }

  /** Every duration token has that shape, and its value is sixty times the
      hours plus the minutes after them, or just the minutes. */
  lemma DurationValue(a: string, u: char, b: string)
    requires |a| >= 1 && AllDigits(a) && AllDigits(b) && (u == 'm' || u == 'h')
    ensures IsDurationToken(DurationText(a, u, b))
    ensures ParseDuration(DurationText(a, u, b))
            == if u == 'h' then 60 * DigitsValue(a) + (if b == [] then 0 else DigitsValue(b))
               else DigitsValue(a)
  {
    DurationShape(a, u, b);
    if u == 'h' { HoursValue(a, b); } else { MinutesValue(a, b); }
  }

  lemma HoursValue(a: string, b: string)
    requires |a| >= 1 && AllDigits(a) && AllDigits(b)
    ensures ParseDuration(DurationText(a, 'h', b)) == 60 * DigitsValue(a) + (if b == [] then 0 else DigitsValue(b))
  {
    var tail := if b == [] then [] else b + "m";
    assert DurationText(a, 'h', b) == a + (['h'] + tail);
    FirstCountOfRun(a, ['h'] + tail, 'h');
    FirstCountSkipRun(a, ['h'] + tail, 'm');
    assert (['h'] + tail)[1..] == tail;
    if b != [] { FirstCountOfRun(b, "m", 'm'); } else { FirstCountNone(tail, 'm'); }
  }

  lemma MinutesValue(a: string, b: string)
    requires |a| >= 1 && AllDigits(a) && AllDigits(b)
    ensures ParseDuration(DurationText(a, 'm', b)) == DigitsValue(a)
  {
    var tail := if b == [] then [] else b + "m";
    assert DurationText(a, 'm', b) == a + (['m'] + tail);
    FirstCountOfRun(a, ['m'] + tail, 'm');
    FirstCountSkipRun(a, ['m'] + tail, 'h');
    assert (['m'] + tail)[1..] == tail;
    assert 'h' !in tail;
    FirstCountNone(tail, 'h');
  }

  lemma DurationShape(a: string, u: char, b: string)
    requires |a| >= 1 && AllDigits(a) && AllDigits(b) && (u == 'm' || u == 'h')
    ensures IsDurationToken(DurationText(a, u, b))
  {
    var s := DurationText(a, u, b);
    var n := |a|;
    assert s[..n] == a && s[n] == u;
    RunEndStopsAt(s, 0, n, DigitClass);
    if b == [] {
      assert n + 1 == |s|;
    } else {
      var k := |s| - 1;
      assert s[n + 1..k] == b && s[k] == 'm';
      forall x | n + 1 <= x < k ensures InClass(s[x], DigitClass) {
        assert s[x] == b[x - n - 1];
      }
      RunEndStopsAt(s, n + 1, k, DigitClass);
    }
  }

  /** ... and conversely a duration token splits into exactly those parts. */
  lemma DurationTokenParts(s: string)
    requires IsDurationToken(s)
    ensures var n := RunEnd(s, 0, DigitClass);
            && AllDigits(s[..n])
            && (n + 1 < |s| ==> AllDigits(s[n + 1..|s| - 1]) && |s| - 1 > n + 1)
            && s == DurationText(s[..n], s[n], if n + 1 == |s| then [] else s[n + 1..|s| - 1])
  {
    var n := RunEnd(s, 0, DigitClass);
    RunIsDigits(s, 0, n);
    var b := if n + 1 == |s| then [] else s[n + 1..|s| - 1];
    if n + 1 < |s| {
      LongTokenParts(s, n);
      assert s == DurationText(s[..n], s[n], b);
    } else {
      assert n + 1 == |s| && b == [];
      ShortDurationText(s, n);
    }
  }

  /** A token with a second count: its minutes are the digits between the
      unit and the closing `m`. */
  lemma LongTokenParts(s: string, n: nat)
    requires IsDurationToken(s) && n == RunEnd(s, 0, DigitClass) && n + 1 < |s|
    ensures AllDigits(s[n + 1..|s| - 1]) && |s| - 1 > n + 1
    ensures s == DurationText(s[..n], s[n], s[n + 1..|s| - 1])
  {
    var k := RunEnd(s, n + 1, DigitClass);
    RunIsDigits(s, n + 1, k);
    LongDurationText(s, n, k);
  }

  lemma ShortDurationText(s: string, n: nat)
    requires n + 1 == |s|
    ensures s == DurationText(s[..n], s[n], [])
  {
    assert s == s[..n] + [s[n]];
  }

  lemma LongDurationText(s: string, n: nat, k: nat)
    requires n + 1 < k == |s| - 1 && s[k] == 'm'
    ensures s == DurationText(s[..n], s[n], s[n + 1..|s| - 1])
  {
    assert s == s[..n] + [s[n]] + (s[n + 1..k] + [s[k]]);
  }

  lemma RunIsDigits(s: string, i: nat, j: nat)
    requires i <= j <= |s|
    requires forall x :: i <= x < j ==> InClass(s[x], DigitClass)
    ensures AllDigits(s[i..j])
  {
    var t := s[i..j];
    forall x | 0 <= x < |t| ensures IsDigit(t[x]) { assert t[x] == s[i + x]; assert InClass(s[i + x], DigitClass); }
  }

  /** The duration tokens of the parser's own test cases: `1h30m` is 90
      minutes ... */
  lemma DurationExample90()
    ensures IsDurationToken("1h30m") && ParseDuration("1h30m") == 90
  {
    DurationValue("1", 'h', "30");
    assert DurationText("1", 'h', "30") == "1h30m";
  }

  /** ... `2h15m` is 135 ... */
  lemma DurationExample135()
    ensures IsDurationToken("2h15m") && ParseDuration("2h15m") == 135
  {
    DurationValue("2", 'h', "15");
    assert DurationText("2", 'h', "15") == "2h15m";
  }

  /** ... `1h` is 60 ... */
  lemma DurationExample60()
    ensures IsDurationToken("1h") && ParseDuration("1h") == 60
  {
    DurationValue("1", 'h', []);
    assert DurationText("1", 'h', []) == "1h";
  }

  /** ... and `45m` is 45. */
  lemma DurationExample45()
    ensures IsDurationToken("45m") && ParseDuration("45m") == 45
  {
    DurationValue("45", 'm', []);
    assert DurationText("45", 'm', []) == "45m";
  }

  // ---------------------------------------------------------------- date formats

  /** `^(\d{4})-(\d{2})-(\d{2})` at the start of `s`. */
  predicate DatePrefix(s: string) {
    && |s| >= 10 && DigitsAt(s, 0, 4) && s[4] == '-' && DigitsAt(s, 5, 2) && s[7] == '-' && DigitsAt(s, 8, 2)
  }

  /** `^(\d{4})-(\d{2})-(\d{2})T(\d{2}):(\d{2}):(\d{2})$`, built as
      `new Date(year, month - 1, day, hours, minutes, seconds)`. */
  function TryIsoT(s: string): Option<int> {
    if && |s| == 19 && DatePrefix(s) && s[10] == 'T' && DigitsAt(s, 11, 2) && s[13] == ':'
       && DigitsAt(s, 14, 2) && s[16] == ':' && DigitsAt(s, 17, 2)
    then Some(NewDate(DigitsValue(s[0..4]), DigitsValue(s[5..7]) - 1, DigitsValue(s[8..10]),
                      DigitsValue(s[11..13]), DigitsValue(s[14..16]), DigitsValue(s[17..19]), 0))
    else None
  }

  /** `^(\d{4})-(\d{2})-(\d{2})\s+(\d{2}):(\d{2})$`, built as
      `new Date(year, month - 1, day, hours, minutes)`. */
  function TryDateSpace(s: string): Option<int> {
    if DatePrefix(s) then
      var (w, r) := Span(s[10..], SpaceClass);
      if w != [] && |r| == 5 && DigitsAt(r, 0, 2) && r[2] == ':' && DigitsAt(r, 3, 2) then
        Some(NewDate(DigitsValue(s[0..4]), DigitsValue(s[5..7]) - 1, DigitsValue(s[8..10]),
                     DigitsValue(r[0..2]), DigitsValue(r[3..5]), 0, 0))
      else None
    else None
  }

  function ToLower(c: char): char {
    if 'A' <= c <= 'Z' then ((c as int) + 32) as char else c
  }

  /** The case-insensitive group `(am|pm)`. */
  predicate IsMeridiem(t: string) {
    |t| == 2 && (ToLower(t[0]) == 'a' || ToLower(t[0]) == 'p') && ToLower(t[1]) == 'm'
  }

  /** The 12-hour conversion of the month-name format: `pm` before noon adds
      twelve hours and `12am` is midnight. */
  function To24Hour(hour: nat, pm: bool): nat {
    if pm && hour < 12 then hour + 12
    else if !pm && hour == 12 then 0
    else hour
  }

  /** On a 12-hour clock reading (1 to 12) the conversion gives the hour of the
      day: `12am` is 0, `12pm` is 12, and `pm` adds twelve to the others. */
  lemma To24HourClock(hour: nat, pm: bool)
    requires 1 <= hour <= 12
    ensures To24Hour(hour, pm) == hour % 12 + (if pm then 12 else 0)
    ensures To24Hour(hour, pm) < 24 && (pm <==> To24Hour(hour, pm) >= 12)
  {
  }

  /** `^([A-Za-z]+)\s+(\d+)\s+(\d+):(\d+)(am|pm)$` (case-insensitive), built as
      `new Date(<current year>, <month index of the name>, day, hour, minutes)`;
      a month name the host cannot resolve gives an invalid date. */
  function TryMonthName(s: string, host: Host): Option<int> {
    var (name, r1) := Span(s, LetterClass);
    var (w1, r2) := Span(r1, SpaceClass);
    var (day, r3) := Span(r2, DigitClass);
    var (w2, r4) := Span(r3, SpaceClass);
    var (hour, r5) := Span(r4, DigitClass);
    if name != [] && w1 != [] && day != [] && w2 != [] && hour != [] && r5 != [] && r5[0] == ':' then
      var (minutes, mer) := Span(r5[1..], DigitClass);
      if minutes != [] && IsMeridiem(mer) then
        match host.monthIndex(name)
        case None => None
        case Some(monthIndex) =>
          var h := To24Hour(DigitsValue(hour), ToLower(mer[0]) == 'p');
          Some(NewDate(host.year, monthIndex, DigitsValue(day), h, DigitsValue(minutes), 0, 0))
      else None
    else None
  }

  /** The five numbers of `^(\d{1,2})<sep>(\d{1,2})<sep>(\d{4})\s+(\d{1,2}):(\d{2})$`. */
  datatype NumericDate = NumericDate(first: nat, second: nat, year: nat, hours: nat, minutes: nat)

  function MatchNumericDate(s: string, sep: char): Option<NumericDate>
    requires !IsDigit(sep) && !IsWhitespace(sep)
  {
    var (p, r1) := Span(s, DigitClass);
    if 1 <= |p| <= 2 && r1 != [] && r1[0] == sep then
      var (q, r2) := Span(r1[1..], DigitClass);
      if 1 <= |q| <= 2 && r2 != [] && r2[0] == sep then
        var (y, r3) := Span(r2[1..], DigitClass);
        var (w, r4) := Span(r3, SpaceClass);
        var (h, r5) := Span(r4, DigitClass);
        if |y| == 4 && w != [] && 1 <= |h| <= 2 && |r5| == 3 && r5[0] == ':' && AllDigits(r5[1..]) then
          Some(NumericDate(DigitsValue(p), DigitsValue(q), DigitsValue(y), DigitsValue(h), DigitsValue(r5[1..])))
        else None
      else None
    else None
  }

  /** `M/D/YYYY H:MM`, built as `new Date(year, month - 1, day, hours, minutes)`. */
  function TrySlash(s: string): Option<int> {
    match MatchNumericDate(s, '/')
    case None => None
    case Some(n) => Some(NewDate(n.year, n.first - 1, n.second, n.hours, n.minutes, 0, 0))
  }

  /** `D.M.YYYY H:MM`, built as `new Date(year, month - 1, day, hours, minutes)`. */
  function TryDot(s: string): Option<int> {
    match MatchNumericDate(s, '.')
    case None => None
    case Some(n) => Some(NewDate(n.year, n.second - 1, n.first, n.hours, n.minutes, 0, 0))
  }

  /** The date attempts, in the order the parser tries them. */
  datatype DateFormat = IsoT | DateSpace | MonthName | Slash | Dot | HostParse

  const DateFormats: seq<DateFormat> := [IsoT, DateSpace, MonthName, Slash, Dot, HostParse]

  function TryFormat(f: DateFormat, s: string, host: Host): Option<int> {
    match f
    case IsoT => TryIsoT(s)
    case DateSpace => TryDateSpace(s)
    case MonthName => TryMonthName(s, host)
    case Slash => TrySlash(s)
    case Dot => TryDot(s)
    case HostParse => host.parseDate(s)
  }

  /** The result of the first attempt in `fs` that yields a valid time. */
  function FirstMatch(fs: seq<DateFormat>, s: string, host: Host): Option<int> {
    if fs == [] then None
    else match TryFormat(fs[0], s, host)
      case Some(t) => Some(t)
      case None => FirstMatch(fs[1..], s, host)
  }

  /** First match wins: the chain yields `t` exactly when some attempt yields
      `t` and every attempt before it yields nothing ... */
  lemma FirstMatchSome(fs: seq<DateFormat>, s: string, host: Host, t: int)
    ensures FirstMatch(fs, s, host) == Some(t)
            <==> exists k :: 0 <= k < |fs| && TryFormat(fs[k], s, host) == Some(t)
                             && forall j :: 0 <= j < k ==> TryFormat(fs[j], s, host).None?
  {
    if FirstMatch(fs, s, host) == Some(t) {
      var k := FirstMatchFound(fs, s, host, t);
    }
    if exists k :: 0 <= k < |fs| && TryFormat(fs[k], s, host) == Some(t)
                   && forall j :: 0 <= j < k ==> TryFormat(fs[j], s, host).None? {
      var k :| 0 <= k < |fs| && TryFormat(fs[k], s, host) == Some(t)
               && forall j :: 0 <= j < k ==> TryFormat(fs[j], s, host).None?;
      FirstMatchAt(fs, s, host, t, k);
    }
  }

  lemma {:induction false} FirstMatchFound(fs: seq<DateFormat>, s: string, host: Host, t: int) returns (k: nat)
    requires FirstMatch(fs, s, host) == Some(t)
    ensures k < |fs| && TryFormat(fs[k], s, host) == Some(t)
    ensures forall j :: 0 <= j < k ==> TryFormat(fs[j], s, host).None?
  {
    if TryFormat(fs[0], s, host).None? {
      var k' := FirstMatchFound(fs[1..], s, host, t);
      k := k' + 1;
      assert fs[k] == fs[1..][k'];
      forall j | 0 <= j < k ensures TryFormat(fs[j], s, host).None? {
        if j > 0 { assert fs[j] == fs[1..][j - 1]; }
      }
    } else {
      k := 0;
    }
  }

  lemma {:induction false} FirstMatchAt(fs: seq<DateFormat>, s: string, host: Host, t: int, k: nat)
    requires k < |fs| && TryFormat(fs[k], s, host) == Some(t)
    requires forall j :: 0 <= j < k ==> TryFormat(fs[j], s, host).None?
    ensures FirstMatch(fs, s, host) == Some(t)
  {
    if k > 0 {
      assert TryFormat(fs[0], s, host).None?;
      assert fs[1..][k - 1] == fs[k];
      forall j | 0 <= j < k - 1 ensures TryFormat(fs[1..][j], s, host).None? {
        assert fs[1..][j] == fs[j + 1];
      }
      FirstMatchAt(fs[1..], s, host, t, k - 1);
    }
  }

  /** ... and it yields nothing exactly when every attempt yields nothing. */
  lemma {:induction false} FirstMatchNone(fs: seq<DateFormat>, s: string, host: Host)
    ensures FirstMatch(fs, s, host).None? <==> forall k :: 0 <= k < |fs| ==> TryFormat(fs[k], s, host).None?
  {
    if fs != [] {
      FirstMatchNone(fs[1..], s, host);
      assert forall k :: 1 <= k < |fs| ==> fs[k] == fs[1..][k - 1];
    }
  }

  /** A duration token is none of the five fixed date formats, so between the
      two only the host's general date parser could disagree with the duration
      reading, and the duration is tried first. */
  lemma DurationIsNoFixedDate(s: string, host: Host, f: DateFormat)
    requires IsDurationToken(s) && f != HostParse
    ensures TryFormat(f, s, host).None?
  {
    var n := RunEnd(s, 0, DigitClass);
    assert !IsDigit(s[n]) && s[n] != '/' && s[n] != '.';
    if n + 1 < |s| {
      var k := RunEnd(s, n + 1, DigitClass);
      assert forall j :: n < j < |s| ==> s[j] != '-' by {
        forall j | n < j < |s| ensures s[j] != '-' {
          if j > n && j < k { assert InClass(s[j], DigitClass); }
        }
      }
    }
    assert forall j :: 0 <= j < n ==> IsDigit(s[j]) by {
      forall j | 0 <= j < n ensures IsDigit(s[j]) { assert InClass(s[j], DigitClass); }
    }
    assert |s| > 4 ==> s[4] != '-';
    assert !IsAsciiLetter(s[0]);
  }

  // ---------------------------------------------------------------- the detail line

  /** What a detail line contributes: a start time or a duration, never both. */
  datatype TimeInfo = TimeInfo(startTime: Option<int>, duration: Option<nat>)

  /** `parseTimeLine`: the trimmed line is either empty (nothing), a duration
      token (a duration), or else the first valid date of the chain. */
  function ParseTimeLine(line: string, host: Host): (r: TimeInfo)
    ensures r.startTime.None? || r.duration.None?
    ensures IsDurationToken(Trim(line)) ==> r == TimeInfo(None, Some(ParseDuration(Trim(line))))
    ensures Trim(line) == [] ==> r == TimeInfo(None, None)
  {
    var t := Trim(line);
    if t == [] then TimeInfo(None, None)
    else if IsDurationToken(t) then TimeInfo(None, Some(ParseDuration(t)))
    else TimeInfo(FirstMatch(DateFormats, t, host), None)
  }

  /** A line that is neither blank nor a duration token gets its start from
      the first date format in the fixed order that accepts it, and no
      duration. */
  lemma ParseTimeLineDate(line: string, host: Host, k: nat, t: int)
    requires Trim(line) != [] && !IsDurationToken(Trim(line))
    requires k < |DateFormats| && TryFormat(DateFormats[k], Trim(line), host) == Some(t)
    requires forall j :: 0 <= j < k ==> TryFormat(DateFormats[j], Trim(line), host).None?
    ensures ParseTimeLine(line, host) == TimeInfo(Some(t), None)
  {
    FirstMatchSome(DateFormats, Trim(line), host, t);
  }

  /** A line that is neither blank nor a duration token, and that no format of
      the chain accepts, gives neither a start nor a duration. */
  lemma ParseTimeLineNone(line: string, host: Host)
    requires Trim(line) != [] && !IsDurationToken(Trim(line))
    requires forall k :: 0 <= k < |DateFormats| ==> TryFormat(DateFormats[k], Trim(line), host).None?
    ensures ParseTimeLine(line, host) == TimeInfo(None, None)
  {
    FirstMatchNone(DateFormats, Trim(line), host);
  }

  /** An attempt that yields a time ends the chain with it. */
  lemma ChainHit(f: DateFormat, fs: seq<DateFormat>, s: string, host: Host, d: int)
    requires TryFormat(f, s, host) == Some(d)
    ensures FirstMatch([f] + fs, s, host) == Some(d)
  {
    assert ([f] + fs)[0] == f;
  }

  /** A line that is neither blank nor a duration token starts where the chain
      says. */
  lemma ChainLine(line: string, host: Host, d: int)
    requires Trim(line) != [] && !IsDurationToken(Trim(line))
    requires FirstMatch(DateFormats, Trim(line), host) == Some(d)
    ensures ParseTimeLine(line, host) == TimeInfo(Some(d), None)
  {
  }

  /** The chain, cut where the lemmas below pass over its attempts. */
  lemma FormatsOrder()
    ensures DateFormats == [IsoT, DateSpace] + ([MonthName] + ([Slash] + [Dot, HostParse]))
    ensures DateFormats == [IsoT] + ([DateSpace] + ([MonthName] + ([Slash] + [Dot, HostParse])))
  {
  }

  /** A text with no `T` in the eleventh place passes over the `T` form ... */
  lemma SkipIsoT(fs: seq<DateFormat>, t: string, host: Host)
    requires |t| <= 10 || t[10] != 'T'
    ensures FirstMatch([IsoT] + fs, t, host) == FirstMatch(fs, t, host)
  {
    assert ([IsoT] + fs)[1..] == fs;
  }

  /** ... one without the `YYYY-MM-DD` prefix passes over both ISO-like forms ... */
  lemma SkipIsoForms(fs: seq<DateFormat>, t: string, host: Host)
    requires !DatePrefix(t)
    ensures FirstMatch([IsoT, DateSpace] + fs, t, host) == FirstMatch(fs, t, host)
  {
    assert ([IsoT, DateSpace] + fs)[1..] == [DateSpace] + fs;
    assert ([DateSpace] + fs)[1..] == fs;
  }

  /** ... a text that does not open with a letter passes over the month-name
      form ... */
  lemma SkipMonthName(fs: seq<DateFormat>, t: string, host: Host)
    requires t != [] && !IsAsciiLetter(t[0])
    ensures FirstMatch([MonthName] + fs, t, host) == FirstMatch(fs, t, host)
  {
    assert RunEnd(t, 0, LetterClass) == 0;
    assert Span(t, LetterClass).0 == [];
    assert ([MonthName] + fs)[1..] == fs;
  }

  /** ... and a text whose leading digit run is not followed by `/` passes
      over the slash form. */
  lemma SkipSlash(fs: seq<DateFormat>, t: string, host: Host, n: nat)
    requires n < |t| && RunEnd(t, 0, DigitClass) == n && t[n] != '/'
    ensures FirstMatch([Slash] + fs, t, host) == FirstMatch(fs, t, host)
  {
    assert Span(t, DigitClass).1 == t[n..];
    assert ([Slash] + fs)[1..] == fs;
  }

  /** A text that opens with four digits and a `-` is no duration token. */
  lemma DashStart(t: string)
    requires 4 < |t| && AllDigits(t[..4]) && t[4] == '-'
    ensures !IsDurationToken(t)
  {
    forall x | 0 <= x < 4 ensures InClass(t[x], DigitClass) { assert t[..4][x] == t[x]; }
    RunEndStopsAt(t, 0, 4, DigitClass);
  }

  /** A detail line that opens with `YYYY-` starts where the `T` form says,
      when that form accepts it ... */
  lemma IsoTLine(line: string, host: Host, d: int)
    requires 4 < |Trim(line)| && AllDigits(Trim(line)[..4]) && Trim(line)[4] == '-'
    requires TryFormat(IsoT, Trim(line), host) == Some(d)
    ensures ParseTimeLine(line, host) == TimeInfo(Some(d), None)
  {
    var t := Trim(line);
    DashStart(t);
    FormatsOrder();
    ChainHit(IsoT, [DateSpace] + ([MonthName] + ([Slash] + [Dot, HostParse])), t, host, d);
    ChainLine(line, host, d);
  }

  /** ... and, when it has no `T` in the eleventh place, where the
      date-and-space form says. */
  lemma DateSpaceLine(line: string, host: Host, d: int)
    requires 4 < |Trim(line)| && AllDigits(Trim(line)[..4]) && Trim(line)[4] == '-'
    requires |Trim(line)| <= 10 || Trim(line)[10] != 'T'
    requires TryFormat(DateSpace, Trim(line), host) == Some(d)
    ensures ParseTimeLine(line, host) == TimeInfo(Some(d), None)
  {
    var t := Trim(line);
    DashStart(t);
    FormatsOrder();
    SkipIsoT([DateSpace] + ([MonthName] + ([Slash] + [Dot, HostParse])), t, host);
    ChainHit(DateSpace, [MonthName] + ([Slash] + [Dot, HostParse]), t, host, d);
    ChainLine(line, host, d);
  }

  /** A text that opens with a letter is no duration token and has no
      `YYYY-MM-DD` prefix ... */
  lemma LetterStart(t: string)
    requires t != [] && IsAsciiLetter(t[0])
    ensures !IsDurationToken(t) && !DatePrefix(t)
  {
    assert RunEnd(t, 0, DigitClass) == 0;
    assert !DatePrefix(t) by {
      if 4 <= |t| { assert t[0..4][0] == t[0]; }
    }
  }

  /** ... so such a detail line starts where the month-name form says, when
      that form accepts it. */
  lemma LetterLine(line: string, host: Host, d: int)
    requires Trim(line) != [] && IsAsciiLetter(Trim(line)[0])
    requires TryFormat(MonthName, Trim(line), host) == Some(d)
    ensures ParseTimeLine(line, host) == TimeInfo(Some(d), None)
  {
    var t := Trim(line);
    LetterStart(t);
    FormatsOrder();
    SkipIsoForms([MonthName] + ([Slash] + [Dot, HostParse]), t, host);
    ChainHit(MonthName, [Slash] + [Dot, HostParse], t, host, d);
    ChainLine(line, host, d);
  }

  /** A text that opens with one or two digits and then a `/` or `.` is no
      duration token and has no `YYYY-MM-DD` prefix. */
  lemma SeparatorStart(t: string, n: nat)
    requires 1 <= n <= 2 && n < |t| && AllDigits(t[..n]) && (t[n] == '/' || t[n] == '.')
    ensures RunEnd(t, 0, DigitClass) == n && !IsDurationToken(t) && !DatePrefix(t)
  {
    forall x | 0 <= x < n ensures InClass(t[x], DigitClass) { assert t[..n][x] == t[x]; }
    RunEndStopsAt(t, 0, n, DigitClass);
  }

  /** Such a text reaches the slash form untouched, and, when its digit run is
      not followed by `/`, the dot form. */
  lemma SeparatorChain(t: string, host: Host, n: nat)
    requires 1 <= n < |t| && RunEnd(t, 0, DigitClass) == n && !DatePrefix(t)
    ensures FirstMatch(DateFormats, t, host) == FirstMatch([Slash] + [Dot, HostParse], t, host)
    ensures t[n] != '/' ==> FirstMatch(DateFormats, t, host) == FirstMatch([Dot] + [HostParse], t, host)
  {
    calc {
      FirstMatch(DateFormats, t, host);
      { FormatsOrder(); }
      FirstMatch([IsoT, DateSpace] + ([MonthName] + ([Slash] + [Dot, HostParse])), t, host);
      { SkipIsoForms([MonthName] + ([Slash] + [Dot, HostParse]), t, host); }
      FirstMatch([MonthName] + ([Slash] + [Dot, HostParse]), t, host);
      { SkipMonthName([Slash] + [Dot, HostParse], t, host); }
      FirstMatch([Slash] + [Dot, HostParse], t, host);
    }
    if t[n] != '/' {
      SkipSlash([Dot, HostParse], t, host, n);
      assert [Dot] + [HostParse] == [Dot, HostParse];
    }
  }

  /** A detail line in that shape with a `/` starts where the slash form says ... */
  lemma SlashLine(line: string, host: Host, n: nat, d: int)
    requires 1 <= n <= 2 && n < |Trim(line)| && AllDigits(Trim(line)[..n]) && Trim(line)[n] == '/'
    requires TryFormat(Slash, Trim(line), host) == Some(d)
    ensures ParseTimeLine(line, host) == TimeInfo(Some(d), None)
  {
    var t := Trim(line);
    SeparatorStart(t, n);
    SeparatorChain(t, host, n);
    ChainHit(Slash, [Dot, HostParse], t, host, d);
    ChainLine(line, host, d);
  }

  /** ... and with a `.` where the dot form says. */
  lemma DotLine(line: string, host: Host, n: nat, d: int)
    requires 1 <= n <= 2 && n < |Trim(line)| && AllDigits(Trim(line)[..n]) && Trim(line)[n] == '.'
    requires TryFormat(Dot, Trim(line), host) == Some(d)
    ensures ParseTimeLine(line, host) == TimeInfo(Some(d), None)
  {
    var t := Trim(line);
    SeparatorStart(t, n);
    SeparatorChain(t, host, n);
    ChainHit(Dot, [HostParse], t, host, d);
    ChainLine(line, host, d);
  }

  lemma ExampleDateFields()
    ensures Fields(NewDate(2024, 9, 30, 5, 0, 0, 0)) == DateTime(2024, 10, 30, 5, 0, 0, 0)
  {
    NewDateFields(2024, 10, 30, 5, 0, 0, 0);
  }

  lemma TwoDigits(s: string)
    requires |s| == 2 && AllDigits(s)
    ensures DigitsValue(s) == 10 * DigitValue(s[0]) + DigitValue(s[1])
  {
    var h := s[..1];
    assert h[0] == s[0] && h[..0] == [];
    assert DigitsValue(h) == DigitValue(s[0]);
  }

  lemma FourDigits(s: string)
    requires |s| == 4 && AllDigits(s)
    ensures DigitsValue(s) == 100 * DigitsValue(s[..2]) + 10 * DigitValue(s[2]) + DigitValue(s[3])
  {
    assert s[..3][..2] == s[..2];
    assert s[..3][2] == s[2];
  }
}
