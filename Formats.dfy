/** What the five fixed date formats of `parseTimeLine` accept and what they
    build. For each format the text is written out from its parts (the groups
    of the regular expression and the literal characters between them); the
    recognizer yields a date for that text, built from the parts in the
    format's own field order, and conversely every text the recognizer accepts
    is such a text. */
module Formats {
  import opened Text
  import opened Calendar
  import opened Types
  import opened Recognizers

  /** The group `\d+`. */
  predicate Number(t: string) {
    |t| >= 1 && AllDigits(t)
  }

  /** The group `\s+`. */
  predicate Blank(w: string) {
    |w| >= 1 && AllWhitespace(w)
  }

  /** The group `[A-Za-z]+`. */
  predicate Word(t: string) {
    |t| >= 1 && forall k :: 0 <= k < |t| ==> IsAsciiLetter(t[k])
  }

  /** A run of class `k` that fills `s[i..i + |t|]` and is not continued
      after it ends there. */
  lemma RunOver(s: string, i: nat, t: string, k: CharClass)
    requires i + |t| <= |s| && s[i..i + |t|] == t
    requires forall x :: 0 <= x < |t| ==> InClass(t[x], k)
    requires i + |t| == |s| || !InClass(s[i + |t|], k)
    ensures RunEnd(s, i, k) == i + |t|
    decreases |t|
  {
    if t != [] {
      assert s[i] == t[0];
      assert s[i + 1..i + |t|] == t[1..];
      RunOver(s, i + 1, t[1..], k);
    }
  }

  lemma DigitsInClass(t: string)
    requires AllDigits(t)
    ensures forall x :: 0 <= x < |t| ==> InClass(t[x], DigitClass)
  {
  }

  lemma BlankInClass(t: string)
    requires AllWhitespace(t)
    ensures forall x :: 0 <= x < |t| ==> InClass(t[x], SpaceClass)
  {
  }

  /** The run of digits `t` at `s[i..]`, ended by a non-digit or the end of `s`,
      is what the scanner takes, and it reads as `t`. */
  lemma DigitRun(s: string, i: nat, t: string)
    requires i + |t| <= |s| && s[i..i + |t|] == t && AllDigits(t)
    requires i + |t| == |s| || !IsDigit(s[i + |t|])
    ensures RunEnd(s, i, DigitClass) == i + |t|
    ensures RunValue(s, i, i + |t|) == DigitsValue(t)
  {
    DigitsInClass(t);
    RunOver(s, i, t, DigitClass);
    RunValueOf(s, i, i + |t|, t);
  }

  /** The whitespace run `w` at `s[i..]`, ended by a non-whitespace character,
      is what the scanner takes. */
  lemma BlankRun(s: string, i: nat, w: string)
    requires i + |w| < |s| && s[i..i + |w|] == w && AllWhitespace(w)
    requires !IsWhitespace(s[i + |w|])
    ensures RunEnd(s, i, SpaceClass) == i + |w|
  {
    BlankInClass(w);
    RunOver(s, i, w, SpaceClass);
  }

  /** The scanned run `s[i..j]` has the class of its scanner. */
  lemma RunSlice(s: string, i: nat, j: nat, k: CharClass)
    requires i <= j <= |s| && forall x :: i <= x < j ==> InClass(s[x], k)
    ensures forall x :: 0 <= x < j - i ==> InClass(s[i..j][x], k)
  {
    forall x | 0 <= x < j - i ensures InClass(s[i..j][x], k) { assert s[i..j][x] == s[i + x]; }
  }

  /** Where the rest of `s` from `i` is `t + q`, with `t` a run of class `k`
      that `q` does not continue, the scanner takes `t` and leaves `q`. */
  lemma RunAt(s: string, i: nat, t: string, q: string, k: CharClass)
    requires i <= |s| && s[i..] == t + q
    requires forall x :: 0 <= x < |t| ==> InClass(t[x], k)
    requires q == [] || !InClass(q[0], k)
    ensures RunEnd(s, i, k) == i + |t| && s[i + |t|..] == q
  {
    assert s[i..i + |t|] == (t + q)[..|t|] == t;
    assert i + |t| < |s| ==> s[i + |t|] == q[0];
    assert s[i + |t|..] == (t + q)[|t|..];
    RunOver(s, i, t, k);
  }

  /** ... and a run of digits reads as the number it spells. */
  lemma DigitsAtRest(s: string, i: nat, t: string, q: string)
    requires i <= |s| && s[i..] == t + q && AllDigits(t)
    requires q == [] || !IsDigit(q[0])
    ensures RunEnd(s, i, DigitClass) == i + |t| && s[i + |t|..] == q
    ensures RunValue(s, i, i + |t|) == DigitsValue(t)
  {
    DigitsInClass(t);
    RunAt(s, i, t, q, DigitClass);
    assert s[i..i + |t|] == (t + q)[..|t|] == t;
    RunValueOf(s, i, i + |t|, t);
  }

  /** `s[i..]` is `s[i..j]` followed by `s[j..]`. */
  lemma Cut(s: string, i: nat, j: nat)
    requires i <= j <= |s|
    ensures s[i..] == s[i..j] + s[j..]
  {
  }

  /** Where `t` is a run of class `k` that `q` does not continue, the scanner
      splits `t + q` into `t` and `q`. */
  lemma SpanOf(t: string, q: string, k: CharClass)
    requires forall x :: 0 <= x < |t| ==> InClass(t[x], k)
    requires q == [] || !InClass(q[0], k)
    ensures Span(t + q, k) == (t, q)
  {
    var s := t + q;
    assert s[0..] == s;
    RunAt(s, 0, t, q, k);
    assert s[..|t|] == t;
  }

  /** The scanner takes a word up to the blank after it, ... */
  lemma SpanWord(t: string, w: string, q: string)
    requires Word(t) && Blank(w)
    ensures Span(t + (w + q), LetterClass) == (t, w + q)
  {
    LetterInClass(t);
    SpanOf(t, w + q, LetterClass);
  }

  /** ... a blank up to the number after it, ... */
  lemma SpanBlank(w: string, t: string, q: string)
    requires Blank(w) && Number(t)
    ensures Span(w + (t + q), SpaceClass) == (w, t + q)
  {
    BlankInClass(w);
    SpanOf(w, t + q, SpaceClass);
  }

  /** ... and a number up to the first non-digit after it. */
  lemma SpanNumber(t: string, q: string)
    requires AllDigits(t) && (q == [] || !IsDigit(q[0]))
    ensures Span(t + q, DigitClass) == (t, q)
  {
    DigitsInClass(t);
    SpanOf(t, q, DigitClass);
  }

  lemma LetterInClass(t: string)
    requires Word(t)
    ensures forall x :: 0 <= x < |t| ==> InClass(t[x], LetterClass)
  {
  }

  lemma WordOfClass(t: string)
    requires t != [] && forall x :: 0 <= x < |t| ==> InClass(t[x], LetterClass)
    ensures Word(t)
  {
  }

  lemma BlankOfClass(w: string)
    requires w != [] && forall x :: 0 <= x < |w| ==> InClass(w[x], SpaceClass)
    ensures Blank(w)
  {
  }

  /** A non-empty text is its first character followed by the rest. */
  lemma Uncons(r: string)
    requires r != []
    ensures r == [r[0]] + r[1..]
  {
  }

  // ---------------------------------------------------------------- YYYY-MM-DDTHH:MM:SS

  function IsoText(y: string, mo: string, d: string, h: string, mi: string, se: string): string {
    y + "-" + mo + "-" + d + "T" + h + ":" + mi + ":" + se
  }

  predicate IsoParts(y: string, mo: string, d: string, h: string, mi: string, se: string) {
    && |y| == 4 && AllDigits(y) && |mo| == 2 && AllDigits(mo) && |d| == 2 && AllDigits(d)
    && |h| == 2 && AllDigits(h) && |mi| == 2 && AllDigits(mi) && |se| == 2 && AllDigits(se)
  }

  /** The `T` form gives `new Date(year, month - 1, day, hours, minutes, seconds)`. */
  lemma IsoTValue(y: string, mo: string, d: string, h: string, mi: string, se: string)
    requires IsoParts(y, mo, d, h, mi, se)
    ensures TryIsoT(IsoText(y, mo, d, h, mi, se))
            == Some(NewDate(DigitsValue(y), DigitsValue(mo) - 1, DigitsValue(d),
                            DigitsValue(h), DigitsValue(mi), DigitsValue(se), 0))
  {
    IsoDate(y, mo, d, h, mi, se);
    IsoClock(y, mo, d, h, mi, se);
    IsoTAccepts(IsoText(y, mo, d, h, mi, se), y, mo, d, h, mi, se);
  }

  lemma IsoDate(y: string, mo: string, d: string, h: string, mi: string, se: string)
    requires IsoParts(y, mo, d, h, mi, se)
    ensures var s := IsoText(y, mo, d, h, mi, se);
            && |s| == 19 && DatePrefix(s) && s[10] == 'T' && s[13] == ':' && s[16] == ':'
            && DigitsValue(s[0..4]) == DigitsValue(y) && DigitsValue(s[5..7]) == DigitsValue(mo)
            && DigitsValue(s[8..10]) == DigitsValue(d)
  {
    var s := IsoText(y, mo, d, h, mi, se);
    assert s[0..4] == y && s[5..7] == mo && s[8..10] == d;
  }

  lemma IsoClock(y: string, mo: string, d: string, h: string, mi: string, se: string)
    requires IsoParts(y, mo, d, h, mi, se)
    ensures var s := IsoText(y, mo, d, h, mi, se);
            && |s| == 19 && DigitsAt(s, 11, 2) && DigitsAt(s, 14, 2) && DigitsAt(s, 17, 2)
            && DigitsValue(s[11..13]) == DigitsValue(h) && DigitsValue(s[14..16]) == DigitsValue(mi)
            && DigitsValue(s[17..19]) == DigitsValue(se)
  {
    var s := IsoText(y, mo, d, h, mi, se);
    assert s[11..13] == h && s[14..16] == mi && s[17..19] == se;
  }

  lemma IsoTAccepts(s: string, y: string, mo: string, d: string, h: string, mi: string, se: string)
    requires IsoParts(y, mo, d, h, mi, se)
    requires |s| == 19 && DatePrefix(s) && s[10] == 'T' && DigitsAt(s, 11, 2) && s[13] == ':'
             && DigitsAt(s, 14, 2) && s[16] == ':' && DigitsAt(s, 17, 2)
    requires DigitsValue(s[0..4]) == DigitsValue(y) && DigitsValue(s[5..7]) == DigitsValue(mo)
             && DigitsValue(s[8..10]) == DigitsValue(d) && DigitsValue(s[11..13]) == DigitsValue(h)
             && DigitsValue(s[14..16]) == DigitsValue(mi) && DigitsValue(s[17..19]) == DigitsValue(se)
    ensures TryIsoT(s) == Some(NewDate(DigitsValue(y), DigitsValue(mo) - 1, DigitsValue(d),
                                       DigitsValue(h), DigitsValue(mi), DigitsValue(se), 0))
  {
  }

  /** Conversely, every text the `T` form accepts is such a text. */
  lemma IsoTShape(s: string)
    requires TryIsoT(s).Some?
    ensures exists y, mo, d, h, mi, se :: IsoParts(y, mo, d, h, mi, se) && s == IsoText(y, mo, d, h, mi, se)
  {
    assert s == IsoText(s[0..4], s[5..7], s[8..10], s[11..13], s[14..16], s[17..19]);
  }

  // ---------------------------------------------------------------- YYYY-MM-DD HH:MM

  /** The date part `YYYY-MM-DD`. */
  function DateText(y: string, mo: string, d: string): string {
    y + "-" + mo + "-" + d
  }

  function DateSpaceText(y: string, mo: string, d: string, w: string, h: string, mi: string): string {
    DateText(y, mo, d) + (w + (h + (":" + mi)))
  }

  predicate DateSpaceParts(y: string, mo: string, d: string, w: string, h: string, mi: string) {
    && |y| == 4 && AllDigits(y) && |mo| == 2 && AllDigits(mo) && |d| == 2 && AllDigits(d)
    && Blank(w) && |h| == 2 && AllDigits(h) && |mi| == 2 && AllDigits(mi)
  }

  /** The date-and-space form gives `new Date(year, month - 1, day, hours, minutes)`. */
  lemma DateSpaceValue(y: string, mo: string, d: string, w: string, h: string, mi: string)
    requires DateSpaceParts(y, mo, d, w, h, mi)
    ensures TryDateSpace(DateSpaceText(y, mo, d, w, h, mi))
            == Some(NewDate(DigitsValue(y), DigitsValue(mo) - 1, DigitsValue(d),
                            DigitsValue(h), DigitsValue(mi), 0, 0))
  {
    DateSpaceScanOf(y, mo, d, w, h, mi);
    DateSpaceAccepts(DateSpaceText(y, mo, d, w, h, mi), y, mo, d, w, h + (":" + mi), h, mi);
  }

  /** What the date-and-space form reads in `s`: the date `y-mo-d`, the blank
      `w` its scanner takes, and the clock `r`, which is `h:mi`. */
  predicate DateSpaceScan(s: string, y: string, mo: string, d: string, w: string, r: string, h: string, mi: string) {
    && DatePrefix(s) && s[0..4] == y && s[5..7] == mo && s[8..10] == d
    && Span(s[10..], SpaceClass) == (w, r) && w != []
    && |r| == 5 && r[0..2] == h && r[2] == ':' && r[3..5] == mi && AllDigits(h) && AllDigits(mi)
  }

  lemma DateSpaceScanOf(y: string, mo: string, d: string, w: string, h: string, mi: string)
    requires DateSpaceParts(y, mo, d, w, h, mi)
    ensures DateSpaceScan(DateSpaceText(y, mo, d, w, h, mi), y, mo, d, w, h + (":" + mi), h, mi)
  {
    DatePrefixOf(y, mo, d, w + (h + (":" + mi)));
    SpanBlank(w, h, ":" + mi);
    ClockPairOf(h, mi);
  }

  /** A date text followed by anything starts with the date's fields. */
  lemma DatePrefixOf(y: string, mo: string, d: string, rest: string)
    requires |y| == 4 && AllDigits(y) && |mo| == 2 && AllDigits(mo) && |d| == 2 && AllDigits(d)
    ensures var s := DateText(y, mo, d) + rest;
            && DatePrefix(s) && s[0..4] == y && s[5..7] == mo && s[8..10] == d && s[10..] == rest
  {
    var s := DateText(y, mo, d) + rest;
    assert s[0..4] == y && s[5..7] == mo && s[8..10] == d && s[10..] == rest;
  }

  /** `HH:MM` holds its two fields around the colon. */
  lemma ClockPairOf(h: string, mi: string)
    requires |h| == 2 && |mi| == 2
    ensures var r := h + (":" + mi);
            |r| == 5 && r[0..2] == h && r[2] == ':' && r[3..5] == mi
  {
    var r := h + (":" + mi);
    assert r[0..2] == h && r[3..5] == mi;
  }

  lemma DateSpaceAccepts(s: string, y: string, mo: string, d: string, w: string, r: string, h: string, mi: string)
    requires DateSpaceScan(s, y, mo, d, w, r, h, mi)
    ensures AllDigits(y) && AllDigits(mo) && AllDigits(d)
    ensures TryDateSpace(s) == Some(NewDate(DigitsValue(y), DigitsValue(mo) - 1, DigitsValue(d),
                                            DigitsValue(h), DigitsValue(mi), 0, 0))
  {
    assert DigitsValue(s[0..4]) == DigitsValue(y);
    assert DigitsValue(s[5..7]) - 1 == DigitsValue(mo) - 1;
    assert DigitsValue(s[8..10]) == DigitsValue(d);
    assert DigitsValue(r[0..2]) == DigitsValue(h);
    assert DigitsValue(r[3..5]) == DigitsValue(mi);
  }

  /** Conversely, every text the date-and-space form accepts is such a text. */
  lemma DateSpaceShape(s: string)
    requires TryDateSpace(s).Some?
    ensures exists y, mo, d, w, h, mi :: DateSpaceParts(y, mo, d, w, h, mi) && s == DateSpaceText(y, mo, d, w, h, mi)
  {
    var (w, r) := Span(s[10..], SpaceClass);
    SpanSplits(s[10..], SpaceClass);
    assert DatePrefix(s) && w != [] && |r| == 5 && DigitsAt(r, 0, 2) && r[2] == ':' && DigitsAt(r, 3, 2);
    BlankOfClass(w);
    var y, mo, d, h, mi := s[0..4], s[5..7], s[8..10], r[0..2], r[3..5];
    assert r == h + (":" + mi);
    assert s[..10] == DateText(y, mo, d);
    assert s == s[..10] + s[10..];
    assert DateSpaceParts(y, mo, d, w, h, mi);
    assert s == DateSpaceText(y, mo, d, w, h, mi);
  }

  // ---------------------------------------------------------------- Month D H:MMam

  function MonthText(name: string, w1: string, day: string, w2: string,
                     hour: string, minutes: string, mer: string): string {
    name + (w1 + (day + (w2 + (hour + (":" + (minutes + mer))))))
  }

  predicate MonthParts(name: string, w1: string, day: string, w2: string,
                       hour: string, minutes: string, mer: string) {
    Word(name) && Blank(w1) && Number(day) && Blank(w2) && Number(hour) && Number(minutes) && IsMeridiem(mer)
  }

  /** The month-name form looks the name up with the host. An unknown name
      gives no date; otherwise it gives `new Date(<current year>, monthIndex,
      day, hour, minutes)` with the hour turned to the 24-hour clock. */
  lemma MonthNameValue(name: string, w1: string, day: string, w2: string,
                       hour: string, minutes: string, mer: string, host: Host)
    requires MonthParts(name, w1, day, w2, hour, minutes, mer)
    ensures TryMonthName(MonthText(name, w1, day, w2, hour, minutes, mer), host)
            == match host.monthIndex(name)
               case None => None
               case Some(m) =>
                 Some(NewDate(host.year, m, DigitsValue(day), To24Hour(DigitsValue(hour), ToLower(mer[0]) == 'p'),
                              DigitsValue(minutes), 0, 0))
  {
    MonthScanOf(name, w1, day, w2, hour, minutes, mer);
    MonthAccepts(MonthText(name, w1, day, w2, hour, minutes, mer), host, name, w1, day, w2, hour, minutes, mer);
  }

  /** The scans of the month-name form, one after the other, take exactly the
      given parts and leave `:` between the hour and the minutes. */
  predicate MonthScan(s: string, name: string, w1: string, day: string, w2: string,
                      hour: string, minutes: string, mer: string) {
    var (a, r1) := Span(s, LetterClass);
    var (b, r2) := Span(r1, SpaceClass);
    var (c, r3) := Span(r2, DigitClass);
    var (e, r4) := Span(r3, SpaceClass);
    var (f, r5) := Span(r4, DigitClass);
    && a == name && b == w1 && c == day && e == w2 && f == hour
    && r5 != [] && r5[0] == ':' && Span(r5[1..], DigitClass) == (minutes, mer)
  }

  lemma MonthScanOf(name: string, w1: string, day: string, w2: string,
                    hour: string, minutes: string, mer: string)
    requires MonthParts(name, w1, day, w2, hour, minutes, mer)
    ensures MonthScan(MonthText(name, w1, day, w2, hour, minutes, mer), name, w1, day, w2, hour, minutes, mer)
  {
    var s := MonthText(name, w1, day, w2, hour, minutes, mer);
    var r4 := hour + (":" + (minutes + mer));
    var r3 := w2 + r4;
    var r2 := day + r3;
    var r1 := w1 + r2;
    SpanWord(name, w1, r2);
    assert Span(s, LetterClass) == (name, r1);
    SpanBlank(w1, day, r3);
    assert Span(r1, SpaceClass) == (w1, r2);
    SpanNumber(day, r3);
    assert Span(r2, DigitClass) == (day, r3);
    SpanBlank(w2, hour, ":" + (minutes + mer));
    assert Span(r3, SpaceClass) == (w2, r4);
    MeridiemClockScan(hour, minutes, mer);
  }

  /** The clock `h:mmam` of the month-name form scans as its hour, then `:`,
      its minutes and the meridiem. */
  lemma MeridiemClockScan(hour: string, minutes: string, mer: string)
    requires Number(hour) && Number(minutes) && IsMeridiem(mer)
    ensures Span(hour + (":" + (minutes + mer)), DigitClass) == (hour, ":" + (minutes + mer))
    ensures Span((":" + (minutes + mer))[1..], DigitClass) == (minutes, mer)
  {
    var r5 := ":" + (minutes + mer);
    SpanNumber(hour, r5);
    assert r5[1..] == minutes + mer;
    SpanNumber(minutes, mer);
  }

  lemma MonthAccepts(s: string, host: Host, name: string, w1: string, day: string, w2: string,
                     hour: string, minutes: string, mer: string)
    requires MonthParts(name, w1, day, w2, hour, minutes, mer)
    requires MonthScan(s, name, w1, day, w2, hour, minutes, mer)
    ensures TryMonthName(s, host)
            == match host.monthIndex(name)
               case None => None
               case Some(m) =>
                 Some(NewDate(host.year, m, DigitsValue(day), To24Hour(DigitsValue(hour), ToLower(mer[0]) == 'p'),
                              DigitsValue(minutes), 0, 0))
  {
  }

  /** Conversely, every text the month-name form accepts is such a text. */
  lemma MonthNameShape(s: string, host: Host)
    requires TryMonthName(s, host).Some?
    ensures exists name, w1, day, w2, hour, minutes, mer ::
              MonthParts(name, w1, day, w2, hour, minutes, mer) && s == MonthText(name, w1, day, w2, hour, minutes, mer)
  {
    var (name, r1) := Span(s, LetterClass);
    var (w1, r2) := Span(r1, SpaceClass);
    var (day, r3) := Span(r2, DigitClass);
    var (w2, r4) := Span(r3, SpaceClass);
    var (hour, r5) := Span(r4, DigitClass);
    var (minutes, mer) := Span(r5[1..], DigitClass);
    SpanSplits(s, LetterClass);
    SpanSplits(r1, SpaceClass);
    SpanSplits(r2, DigitClass);
    SpanSplits(r3, SpaceClass);
    SpanSplits(r4, DigitClass);
    SpanSplits(r5[1..], DigitClass);
    assert name != [] && w1 != [] && day != [] && w2 != [] && hour != [] && r5 != [] && r5[0] == ':';
    assert minutes != [] && IsMeridiem(mer);
    Uncons(r5);
    WordOfClass(name);
    BlankOfClass(w1);
    BlankOfClass(w2);
    assert MonthParts(name, w1, day, w2, hour, minutes, mer);
    assert s == MonthText(name, w1, day, w2, hour, minutes, mer);
  }

  // ---------------------------------------------------------------- N/N/YYYY H:MM and N.N.YYYY H:MM

  function NumericText(p: string, sep: char, q: string, y: string, w: string, h: string, mi: string): string {
    p + ([sep] + (q + ([sep] + (y + (w + (h + (":" + mi)))))))
  }

  predicate NumericParts(p: string, q: string, y: string, w: string, h: string, mi: string) {
    && 1 <= |p| <= 2 && AllDigits(p) && 1 <= |q| <= 2 && AllDigits(q) && |y| == 4 && AllDigits(y)
    && Blank(w) && 1 <= |h| <= 2 && AllDigits(h) && |mi| == 2 && AllDigits(mi)
  }

  /** The two numeric forms read their five numbers from the text in order. */
  lemma NumericValue(p: string, sep: char, q: string, y: string, w: string, h: string, mi: string)
    requires !IsDigit(sep) && !IsWhitespace(sep) && NumericParts(p, q, y, w, h, mi)
    ensures MatchNumericDate(NumericText(p, sep, q, y, w, h, mi), sep)
            == Some(NumericDate(DigitsValue(p), DigitsValue(q), DigitsValue(y), DigitsValue(h), DigitsValue(mi)))
  {
    NumericScanOf(p, sep, q, y, w, h, mi);
    NumericAccepts(NumericText(p, sep, q, y, w, h, mi), sep, p, q, y, w, h, ":" + mi, mi);
  }

  /** The scans of a numeric form, one after the other, take exactly the given
      parts, with `sep` twice and then `:` between them; `r` is the clock's
      `:mi`. */
  predicate NumericScan(s: string, sep: char, p: string, q: string, y: string, w: string, h: string,
                        r: string, mi: string) {
    var (a, r1) := Span(s, DigitClass);
    && a == p && r1 != [] && r1[0] == sep
    && var (b, r2) := Span(r1[1..], DigitClass);
       && b == q && r2 != [] && r2[0] == sep
       && var (c, r3) := Span(r2[1..], DigitClass);
          var (e, r4) := Span(r3, SpaceClass);
          && c == y && e == w && Span(r4, DigitClass) == (h, r)
          && |r| == 3 && r[0] == ':' && r[1..] == mi
  }

  lemma NumericScanOf(p: string, sep: char, q: string, y: string, w: string, h: string, mi: string)
    requires !IsDigit(sep) && !IsWhitespace(sep) && NumericParts(p, q, y, w, h, mi)
    ensures NumericScan(NumericText(p, sep, q, y, w, h, mi), sep, p, q, y, w, h, ":" + mi, mi)
  {
    var r5 := ":" + mi;
    var r3 := w + (h + r5);
    var r2 := [sep] + (y + r3);
    var r1 := [sep] + (q + r2);
    SpanNumber(p, r1);
    assert r1[1..] == q + r2;
    SpanNumber(q, r2);
    assert r2[1..] == y + r3;
    SpanNumber(y, r3);
    SpanBlank(w, h, r5);
    SpanNumber(h, r5);
    assert r5[1..] == mi;
  }

  lemma NumericAccepts(s: string, sep: char, p: string, q: string, y: string, w: string, h: string,
                       r: string, mi: string)
    requires !IsDigit(sep) && !IsWhitespace(sep) && NumericParts(p, q, y, w, h, mi)
    requires NumericScan(s, sep, p, q, y, w, h, r, mi)
    ensures MatchNumericDate(s, sep)
            == Some(NumericDate(DigitsValue(p), DigitsValue(q), DigitsValue(y), DigitsValue(h), DigitsValue(mi)))
  {
  }

  /** Conversely, every text a numeric form accepts is such a text. */
  lemma NumericShape(s: string, sep: char)
    requires !IsDigit(sep) && !IsWhitespace(sep) && MatchNumericDate(s, sep).Some?
    ensures exists p, q, y, w, h, mi :: NumericParts(p, q, y, w, h, mi) && s == NumericText(p, sep, q, y, w, h, mi)
  {
    var (p, r1) := Span(s, DigitClass);
    var (q, r2) := Span(r1[1..], DigitClass);
    var (y, r3) := Span(r2[1..], DigitClass);
    var (w, r4) := Span(r3, SpaceClass);
    var (h, r5) := Span(r4, DigitClass);
    assert 1 <= |p| <= 2 && r1 != [] && r1[0] == sep;
    assert 1 <= |q| <= 2 && r2 != [] && r2[0] == sep;
    assert |y| == 4 && w != [] && 1 <= |h| <= 2 && |r5| == 3 && r5[0] == ':' && AllDigits(r5[1..]);
    NumericRebuild(s, sep, p, r1, q, r2, y, r3, w, r4, h, r5);
  }

  /** A text cut by the scans of a numeric form is the concatenation of its parts. */
  lemma NumericRebuild(s: string, sep: char, p: string, r1: string, q: string, r2: string, y: string, r3: string,
                       w: string, r4: string, h: string, r5: string)
    requires Span(s, DigitClass) == (p, r1) && r1 != [] && r1[0] == sep && Span(r1[1..], DigitClass) == (q, r2)
    requires r2 != [] && r2[0] == sep && Span(r2[1..], DigitClass) == (y, r3)
    requires Span(r3, SpaceClass) == (w, r4) && Span(r4, DigitClass) == (h, r5)
    requires 1 <= |p| <= 2 && 1 <= |q| <= 2 && |y| == 4 && w != [] && 1 <= |h| <= 2
    requires |r5| == 3 && r5[0] == ':' && AllDigits(r5[1..])
    ensures NumericParts(p, q, y, w, h, r5[1..]) && s == NumericText(p, sep, q, y, w, h, r5[1..])
  {
    SpanSplits(s, DigitClass);
    SpanSplits(r1[1..], DigitClass);
    SpanSplits(r2[1..], DigitClass);
    SpanSplits(r3, SpaceClass);
    SpanSplits(r4, DigitClass);
    Uncons(r1);
    Uncons(r2);
    Uncons(r5);
    BlankOfClass(w);
  }

  /** `M/D/YYYY H:MM` is month first: `new Date(year, month - 1, day, hours, minutes)` ... */
  lemma SlashValue(mo: string, d: string, y: string, w: string, h: string, mi: string)
    requires NumericParts(mo, d, y, w, h, mi)
    ensures TrySlash(NumericText(mo, '/', d, y, w, h, mi))
            == Some(NewDate(DigitsValue(y), DigitsValue(mo) - 1, DigitsValue(d), DigitsValue(h), DigitsValue(mi), 0, 0))
  {
    var n := NumericDate(DigitsValue(mo), DigitsValue(d), DigitsValue(y), DigitsValue(h), DigitsValue(mi));
    NumericValue(mo, '/', d, y, w, h, mi);
    assert n.first - 1 == DigitsValue(mo) - 1;
    calc {
      TrySlash(NumericText(mo, '/', d, y, w, h, mi));
      { SlashOn(NumericText(mo, '/', d, y, w, h, mi), n); }
      Some(NewDate(n.year, n.first - 1, n.second, n.hours, n.minutes, 0, 0));
      Some(NewDate(DigitsValue(y), DigitsValue(mo) - 1, DigitsValue(d), DigitsValue(h), DigitsValue(mi), 0, 0));
    }
  }

  /** A slash text builds its date from the numbers it matched, month first. */
  lemma SlashOn(s: string, n: NumericDate)
    requires MatchNumericDate(s, '/') == Some(n)
    ensures TrySlash(s) == Some(NewDate(n.year, n.first - 1, n.second, n.hours, n.minutes, 0, 0))
  {
    var m := MatchNumericDate(s, '/');
    assert m.value == n;
    assert TrySlash(s) == (match m case None => None case Some(k) => Some(NewDate(k.year, k.first - 1, k.second, k.hours, k.minutes, 0, 0)));
  }

  /** ... and `D.M.YYYY H:MM` is day first. */
  lemma DotValue(d: string, mo: string, y: string, w: string, h: string, mi: string)
    requires NumericParts(d, mo, y, w, h, mi)
    ensures TryDot(NumericText(d, '.', mo, y, w, h, mi))
            == Some(NewDate(DigitsValue(y), DigitsValue(mo) - 1, DigitsValue(d), DigitsValue(h), DigitsValue(mi), 0, 0))
  {
    var n := NumericDate(DigitsValue(d), DigitsValue(mo), DigitsValue(y), DigitsValue(h), DigitsValue(mi));
    NumericValue(d, '.', mo, y, w, h, mi);
    assert n.second - 1 == DigitsValue(mo) - 1;
    calc {
      TryDot(NumericText(d, '.', mo, y, w, h, mi));
      { DotOn(NumericText(d, '.', mo, y, w, h, mi), n); }
      Some(NewDate(n.year, n.second - 1, n.first, n.hours, n.minutes, 0, 0));
      Some(NewDate(DigitsValue(y), DigitsValue(mo) - 1, DigitsValue(d), DigitsValue(h), DigitsValue(mi), 0, 0));
    }
  }

  /** A dot text builds its date from the numbers it matched, day first. */
  lemma DotOn(s: string, n: NumericDate)
    requires MatchNumericDate(s, '.') == Some(n)
    ensures TryDot(s) == Some(NewDate(n.year, n.second - 1, n.first, n.hours, n.minutes, 0, 0))
  {
    var m := MatchNumericDate(s, '.');
    assert m.value == n;
    assert TryDot(s) == (match m case None => None case Some(k) => Some(NewDate(k.year, k.second - 1, k.first, k.hours, k.minutes, 0, 0)));
  }

  lemma SlashShape(s: string)
    requires TrySlash(s).Some?
    ensures exists mo, d, y, w, h, mi :: NumericParts(mo, d, y, w, h, mi) && s == NumericText(mo, '/', d, y, w, h, mi)
  {
    NumericShape(s, '/');
  }

  lemma DotShape(s: string)
    requires TryDot(s).Some?
    ensures exists d, mo, y, w, h, mi :: NumericParts(d, mo, y, w, h, mi) && s == NumericText(d, '.', mo, y, w, h, mi)
  {
    NumericShape(s, '.');
  }

  // ---------------------------------------------------------------- detail lines of each form

  // A detail line is read from its trimmed text, so any indentation in front
  // of a text of each form gives that form's date, provided no earlier form
  // of the chain takes the text first. Each `...LineOf` lemma states this for
  // the parts; `...LineAt` names the text and the date (for the two numeric
  // forms it is the statement itself), and `Indented...` works on the text
  // alone.

  /** An indented `YYYY-MM-DDTHH:MM:SS` line starts at its date ... */
  lemma IsoTLineOf(ind: string, y: string, mo: string, d: string, h: string, mi: string, se: string, host: Host)
    requires AllWhitespace(ind) && IsoParts(y, mo, d, h, mi, se)
    ensures ParseTimeLine(ind + IsoText(y, mo, d, h, mi, se), host)
            == TimeInfo(Some(NewDate(DigitsValue(y), DigitsValue(mo) - 1, DigitsValue(d),
                                     DigitsValue(h), DigitsValue(mi), DigitsValue(se), 0)), None)
  {
    IsoTLineAt(ind, y, mo, d, h, mi, se, host, IsoText(y, mo, d, h, mi, se),
               NewDate(DigitsValue(y), DigitsValue(mo) - 1, DigitsValue(d),
                       DigitsValue(h), DigitsValue(mi), DigitsValue(se), 0));
  }

  lemma IsoTLineAt(ind: string, y: string, mo: string, d: string, h: string, mi: string, se: string,
                   host: Host, t: string, date: int)
    requires AllWhitespace(ind) && IsoParts(y, mo, d, h, mi, se) && t == IsoText(y, mo, d, h, mi, se)
    requires date == NewDate(DigitsValue(y), DigitsValue(mo) - 1, DigitsValue(d),
                             DigitsValue(h), DigitsValue(mi), DigitsValue(se), 0)
    ensures ParseTimeLine(ind + t, host) == TimeInfo(Some(date), None)
  {
    IsoTValue(y, mo, d, h, mi, se);
    assert t[..4] == y && t[|t| - 1] == se[1];
    IndentedIsoT(ind, t, host, date);
  }

  lemma IndentedIsoT(ind: string, t: string, host: Host, date: int)
    requires AllWhitespace(ind) && 4 < |t| && AllDigits(t[..4]) && t[4] == '-' && !IsWhitespace(t[|t| - 1])
    requires TryFormat(IsoT, t, host) == Some(date)
    ensures ParseTimeLine(ind + t, host) == TimeInfo(Some(date), None)
  {
    TrimIndented(ind, t);
    IsoTLine(ind + t, host, date);
  }

  /** ... and so does an indented `YYYY-MM-DD HH:MM` line ... */
  lemma DateSpaceLineOf(ind: string, y: string, mo: string, d: string, w: string, h: string, mi: string, host: Host)
    requires AllWhitespace(ind) && DateSpaceParts(y, mo, d, w, h, mi)
    ensures ParseTimeLine(ind + DateSpaceText(y, mo, d, w, h, mi), host)
            == TimeInfo(Some(NewDate(DigitsValue(y), DigitsValue(mo) - 1, DigitsValue(d),
                                     DigitsValue(h), DigitsValue(mi), 0, 0)), None)
  {
    DateSpaceLineAt(ind, y, mo, d, w, h, mi, host, DateSpaceText(y, mo, d, w, h, mi),
                    NewDate(DigitsValue(y), DigitsValue(mo) - 1, DigitsValue(d), DigitsValue(h), DigitsValue(mi), 0, 0));
  }

  lemma DateSpaceLineAt(ind: string, y: string, mo: string, d: string, w: string, h: string, mi: string,
                        host: Host, t: string, date: int)
    requires AllWhitespace(ind) && DateSpaceParts(y, mo, d, w, h, mi) && t == DateSpaceText(y, mo, d, w, h, mi)
    requires date == NewDate(DigitsValue(y), DigitsValue(mo) - 1, DigitsValue(d), DigitsValue(h), DigitsValue(mi), 0, 0)
    ensures ParseTimeLine(ind + t, host) == TimeInfo(Some(date), None)
  {
    DateSpaceFormat(y, mo, d, w, h, mi, host, t, date);
    DateSpaceEnds(y, mo, d, w, h, mi, t);
    IndentedDateSpace(ind, t, host, date);
  }

  lemma DateSpaceFormat(y: string, mo: string, d: string, w: string, h: string, mi: string,
                        host: Host, t: string, date: int)
    requires DateSpaceParts(y, mo, d, w, h, mi) && t == DateSpaceText(y, mo, d, w, h, mi)
    requires date == NewDate(DigitsValue(y), DigitsValue(mo) - 1, DigitsValue(d), DigitsValue(h), DigitsValue(mi), 0, 0)
    ensures TryFormat(DateSpace, t, host) == Some(date)
  {
    DateSpaceValue(y, mo, d, w, h, mi);
  }

  /** A `YYYY-MM-DD HH:MM` text starts with a year and a dash, has blank where
      the `T` form has its `T`, and ends in a digit. */
  lemma DateSpaceEnds(y: string, mo: string, d: string, w: string, h: string, mi: string, t: string)
    requires DateSpaceParts(y, mo, d, w, h, mi) && t == DateSpaceText(y, mo, d, w, h, mi)
    ensures 10 < |t| && AllDigits(t[..4]) && t[4] == '-' && t[10] != 'T' && !IsWhitespace(t[|t| - 1])
  {
    assert t[..4] == y && t[10] == w[0] && t[|t| - 1] == mi[1];
  }

  lemma IndentedDateSpace(ind: string, t: string, host: Host, date: int)
    requires AllWhitespace(ind) && 10 < |t| && AllDigits(t[..4]) && t[4] == '-' && t[10] != 'T'
    requires !IsWhitespace(t[|t| - 1]) && TryFormat(DateSpace, t, host) == Some(date)
    ensures ParseTimeLine(ind + t, host) == TimeInfo(Some(date), None)
  {
    TrimIndented(ind, t);
    DateSpaceLine(ind + t, host, date);
  }

  /** ... and an indented month-name line, when the host knows the month ... */
  lemma MonthNameLineOf(ind: string, name: string, w1: string, day: string, w2: string,
                        hour: string, minutes: string, mer: string, host: Host, m: int)
    requires AllWhitespace(ind) && MonthParts(name, w1, day, w2, hour, minutes, mer)
    requires host.monthIndex(name) == Some(m)
    ensures ParseTimeLine(ind + MonthText(name, w1, day, w2, hour, minutes, mer), host)
            == TimeInfo(Some(NewDate(host.year, m, DigitsValue(day),
                                     To24Hour(DigitsValue(hour), ToLower(mer[0]) == 'p'),
                                     DigitsValue(minutes), 0, 0)), None)
  {
    MonthNameLineAt(ind, name, w1, day, w2, hour, minutes, mer, host, m, MonthText(name, w1, day, w2, hour, minutes, mer),
                    NewDate(host.year, m, DigitsValue(day), To24Hour(DigitsValue(hour), ToLower(mer[0]) == 'p'),
                            DigitsValue(minutes), 0, 0));
  }

  lemma MonthNameLineAt(ind: string, name: string, w1: string, day: string, w2: string,
                        hour: string, minutes: string, mer: string, host: Host, m: int, t: string, date: int)
    requires AllWhitespace(ind) && MonthParts(name, w1, day, w2, hour, minutes, mer)
    requires host.monthIndex(name) == Some(m) && t == MonthText(name, w1, day, w2, hour, minutes, mer)
    requires date == NewDate(host.year, m, DigitsValue(day), To24Hour(DigitsValue(hour), ToLower(mer[0]) == 'p'),
                             DigitsValue(minutes), 0, 0)
    ensures ParseTimeLine(ind + t, host) == TimeInfo(Some(date), None)
  {
    MonthNameFormat(name, w1, day, w2, hour, minutes, mer, host, m, t, date);
    MonthEnds(name, w1, day, w2, hour, minutes, mer, t);
    IndentedMonthName(ind, t, host, date);
  }

  lemma MonthNameFormat(name: string, w1: string, day: string, w2: string,
                        hour: string, minutes: string, mer: string, host: Host, m: int, t: string, date: int)
    requires MonthParts(name, w1, day, w2, hour, minutes, mer)
    requires host.monthIndex(name) == Some(m) && t == MonthText(name, w1, day, w2, hour, minutes, mer)
    requires date == NewDate(host.year, m, DigitsValue(day), To24Hour(DigitsValue(hour), ToLower(mer[0]) == 'p'),
                             DigitsValue(minutes), 0, 0)
    ensures TryFormat(MonthName, t, host) == Some(date)
  {
    MonthNameValue(name, w1, day, w2, hour, minutes, mer, host);
  }

  /** A month text starts with a letter and ends in a letter. */
  lemma MonthEnds(name: string, w1: string, day: string, w2: string,
                  hour: string, minutes: string, mer: string, t: string)
    requires MonthParts(name, w1, day, w2, hour, minutes, mer) && t == MonthText(name, w1, day, w2, hour, minutes, mer)
    ensures t != [] && IsAsciiLetter(t[0]) && !IsWhitespace(t[|t| - 1])
  {
    assert t[0] == name[0] && t[|t| - 1] == mer[1];
  }

  lemma IndentedMonthName(ind: string, t: string, host: Host, date: int)
    requires AllWhitespace(ind) && t != [] && IsAsciiLetter(t[0]) && !IsWhitespace(t[|t| - 1])
    requires TryFormat(MonthName, t, host) == Some(date)
    ensures ParseTimeLine(ind + t, host) == TimeInfo(Some(date), None)
  {
    TrimIndented(ind, t);
    LetterLine(ind + t, host, date);
  }

  /** ... and indented `M/D/YYYY H:MM` and `D.M.YYYY H:MM` lines. */
  lemma SlashLineAt(ind: string, mo: string, d: string, y: string, w: string, h: string, mi: string,
                  host: Host, t: string, date: int)
    requires AllWhitespace(ind) && NumericParts(mo, d, y, w, h, mi) && t == NumericText(mo, '/', d, y, w, h, mi)
    requires date == NewDate(DigitsValue(y), DigitsValue(mo) - 1, DigitsValue(d), DigitsValue(h), DigitsValue(mi), 0, 0)
    ensures ParseTimeLine(ind + t, host) == TimeInfo(Some(date), None)
  {
    NumericMatch(mo, '/', d, y, w, h, mi, t);
    SlashMatched(t, host, DigitsValue(mo), DigitsValue(d), DigitsValue(y), DigitsValue(h), DigitsValue(mi), date);
    NumericEnds(mo, '/', d, y, w, h, mi, t);
    IndentedSlash(ind, t, host, |mo|, date);
  }

  /** A numeric text whose slash match holds the numbers `a`, `b`, `c`, `e`, `f`
      is read month first as the date `date`. */
  lemma SlashMatched(t: string, host: Host, a: nat, b: nat, c: nat, e: nat, f: nat, date: int)
    requires forall u :: u == t ==> MatchNumericDate(u, '/') == Some(NumericDate(a, b, c, e, f))
    requires date == NewDate(c, a - 1, b, e, f, 0, 0)
    ensures TryFormat(Slash, t, host) == Some(date)
  {
    var n := NumericDate(a, b, c, e, f);
    assert MatchNumericDate(t, '/') == Some(n);
    SlashDate(n, c, a, b, e, f, date);
    SlashFormat(t, n, host, date);
  }

  lemma SlashDate(n: NumericDate, yy: int, mm: int, dd: int, hh: int, nn: int, date: int)
    requires n.year == yy && n.first == mm && n.second == dd && n.hours == hh && n.minutes == nn
    requires date == NewDate(yy, mm - 1, dd, hh, nn, 0, 0)
    ensures date == NewDate(n.year, n.first - 1, n.second, n.hours, n.minutes, 0, 0)
  {
  }

  /** A slash match builds its date month first. */
  lemma SlashFormat(t: string, n: NumericDate, host: Host, date: int)
    requires MatchNumericDate(t, '/') == Some(n) && date == NewDate(n.year, n.first - 1, n.second, n.hours, n.minutes, 0, 0)
    ensures TryFormat(Slash, t, host) == Some(date)
  {
    SlashOn(t, n);
  }

  lemma IndentedSlash(ind: string, t: string, host: Host, p: nat, date: int)
    requires AllWhitespace(ind) && 1 <= p <= 2 && p < |t| && AllDigits(t[..p]) && t[p] == '/'
    requires !IsWhitespace(t[|t| - 1]) && TryFormat(Slash, t, host) == Some(date)
    ensures ParseTimeLine(ind + t, host) == TimeInfo(Some(date), None)
  {
    assert t[..p][0] == t[0];
    TrimIndented(ind, t);
    SlashLine(ind + t, host, p, date);
  }

  lemma DotLineAt(ind: string, d: string, mo: string, y: string, w: string, h: string, mi: string,
                host: Host, t: string, date: int)
    requires AllWhitespace(ind) && NumericParts(d, mo, y, w, h, mi) && t == NumericText(d, '.', mo, y, w, h, mi)
    requires date == NewDate(DigitsValue(y), DigitsValue(mo) - 1, DigitsValue(d), DigitsValue(h), DigitsValue(mi), 0, 0)
    ensures ParseTimeLine(ind + t, host) == TimeInfo(Some(date), None)
  {
    NumericMatch(d, '.', mo, y, w, h, mi, t);
    DotMatched(t, host, DigitsValue(d), DigitsValue(mo), DigitsValue(y), DigitsValue(h), DigitsValue(mi), date);
    NumericEnds(d, '.', mo, y, w, h, mi, t);
    IndentedDot(ind, t, host, |d|, date);
  }

  /** A numeric text whose dot match holds the numbers `a`, `b`, `c`, `e`, `f`
      is read day first as the date `date`. */
  lemma DotMatched(t: string, host: Host, a: nat, b: nat, c: nat, e: nat, f: nat, date: int)
    requires forall u :: u == t ==> MatchNumericDate(u, '.') == Some(NumericDate(a, b, c, e, f))
    requires date == NewDate(c, b - 1, a, e, f, 0, 0)
    ensures TryFormat(Dot, t, host) == Some(date)
  {
    var n := NumericDate(a, b, c, e, f);
    assert MatchNumericDate(t, '.') == Some(n);
    DotDate(n, c, b, a, e, f, date);
    DotFormat(t, n, host, date);
  }

  lemma DotDate(n: NumericDate, yy: int, mm: int, dd: int, hh: int, nn: int, date: int)
    requires n.year == yy && n.second == mm && n.first == dd && n.hours == hh && n.minutes == nn
    requires date == NewDate(yy, mm - 1, dd, hh, nn, 0, 0)
    ensures date == NewDate(n.year, n.second - 1, n.first, n.hours, n.minutes, 0, 0)
  {
  }

  /** A dot match builds its date day first. */
  lemma DotFormat(t: string, n: NumericDate, host: Host, date: int)
    requires MatchNumericDate(t, '.') == Some(n) && date == NewDate(n.year, n.second - 1, n.first, n.hours, n.minutes, 0, 0)
    ensures TryFormat(Dot, t, host) == Some(date)
  {
    DotOn(t, n);
  }

  lemma IndentedDot(ind: string, t: string, host: Host, p: nat, date: int)
    requires AllWhitespace(ind) && 1 <= p <= 2 && p < |t| && AllDigits(t[..p]) && t[p] == '.'
    requires !IsWhitespace(t[|t| - 1]) && TryFormat(Dot, t, host) == Some(date)
    ensures ParseTimeLine(ind + t, host) == TimeInfo(Some(date), None)
  {
    assert t[..p][0] == t[0];
    TrimIndented(ind, t);
    DotLine(ind + t, host, p, date);
  }

  /** The numbers a numeric text matches are the ones its parts spell. The
      fact is stated for every text equal to `t`, so that a proof about a
      whole detail line draws on it only where the match of `t` is asked for. */
  lemma NumericMatch(p: string, sep: char, q: string, y: string, w: string, h: string, mi: string, t: string)
    requires !IsDigit(sep) && !IsWhitespace(sep) && NumericParts(p, q, y, w, h, mi)
    requires t == NumericText(p, sep, q, y, w, h, mi)
    ensures forall u :: u == t ==>
              MatchNumericDate(u, sep) == Some(NumericDate(DigitsValue(p), DigitsValue(q), DigitsValue(y), DigitsValue(h), DigitsValue(mi)))
  {
    NumericValue(p, sep, q, y, w, h, mi);
  }

  /** A numeric text starts with its one- or two-digit first number and the
      separator, and ends in a digit. */
  lemma NumericEnds(p: string, sep: char, q: string, y: string, w: string, h: string, mi: string, t: string)
    requires NumericParts(p, q, y, w, h, mi) && t == NumericText(p, sep, q, y, w, h, mi)
    ensures 1 <= |p| <= 2 && |p| < |t| && AllDigits(t[..|p|]) && t[|p|] == sep && !IsWhitespace(t[|t| - 1])
  {
    assert t[..|p|] == p && t[|t| - 1] == mi[1];
  }

  // ---------------------------------------------------------------- the parser's test lines

  /** The numbers of the test lines. */
  lemma TestNumbers()
    ensures DigitsValue("2024") == 2024 && DigitsValue("10") == 10 && DigitsValue("30") == 30
    ensures DigitsValue("05") == 5 && DigitsValue("00") == 0
  {
    TwoDigits("10");
    TwoDigits("30");
    TwoDigits("05");
    TwoDigits("00");
    TwoDigits("20");
    FourDigits("2024");
    assert "2024"[..2] == "20";
  }

  // The six lines of the date-format test, each indented by four spaces
  // under its header: every one starts at 05:00 on 30 October (of 2024, or of
  // the current year for the month-name forms). For each form, `...Parts`
  // states what its recognizer makes of the text, `...TextIs` that the text
  // is the test's, and `...TestLine` what the whole indented line yields.

  lemma IsoTParts()
    ensures TryIsoT(IsoText("2024", "10", "30", "05", "00", "00")) == Some(NewDate(2024, 9, 30, 5, 0, 0, 0))
  {
    TestNumbers();
    IsoTValue("2024", "10", "30", "05", "00", "00");
    assert DigitsValue("10") - 1 == 9;
  }

  lemma IsoTTextIs()
    ensures IsoText("2024", "10", "30", "05", "00", "00") == "2024-10-30T05:00:00"
  {
  }

  lemma IsoTTestLine(host: Host)
    ensures ParseTimeLine("    " + IsoText("2024", "10", "30", "05", "00", "00"), host)
            == TimeInfo(Some(NewDate(2024, 9, 30, 5, 0, 0, 0)), None)
  {
    TestNumbers();
    assert AllWhitespace("    ");
    IsoTLineOf("    ", "2024", "10", "30", "05", "00", "00", host);
  }

  lemma DateSpaceParts1()
    ensures TryDateSpace(DateSpaceText("2024", "10", "30", " ", "05", "00")) == Some(NewDate(2024, 9, 30, 5, 0, 0, 0))
  {
    TestNumbers();
    assert Blank(" ");
    DateSpaceValue("2024", "10", "30", " ", "05", "00");
    assert DigitsValue("10") - 1 == 9;
  }

  lemma DateSpaceTextIs()
    ensures DateSpaceText("2024", "10", "30", " ", "05", "00") == "2024-10-30 05:00"
  {
  }

  lemma DateSpaceTestLine(host: Host)
    ensures ParseTimeLine("    " + DateSpaceText("2024", "10", "30", " ", "05", "00"), host)
            == TimeInfo(Some(NewDate(2024, 9, 30, 5, 0, 0, 0)), None)
  {
    TestNumbers();
    assert AllWhitespace("    ") && Blank(" ");
    DateSpaceLineOf("    ", "2024", "10", "30", " ", "05", "00", host);
  }

  /** The month-name lines hold for any name the host reads as the tenth
      month: `Oct` and `October` in the test. */
  lemma MonthNameParts(name: string, host: Host)
    requires Word(name) && host.monthIndex(name) == Some(9)
    ensures TryMonthName(MonthText(name, " ", "30", " ", "05", "00", "am"), host) == Some(NewDate(host.year, 9, 30, 5, 0, 0, 0))
  {
    TestNumbers();
    assert Blank(" ") && Number("30") && Number("05") && Number("00") && IsMeridiem("am");
    MonthNameValue(name, " ", "30", " ", "05", "00", "am", host);
    assert To24Hour(DigitsValue("05"), ToLower("am"[0]) == 'p') == 5;
  }

  lemma MonthTextIs()
    ensures MonthText("Oct", " ", "30", " ", "05", "00", "am") == "Oct 30 05:00am"
    ensures MonthText("October", " ", "30", " ", "05", "00", "am") == "October 30 05:00am"
  {
  }

  lemma MonthNameTestLine(name: string, host: Host)
    requires Word(name) && host.monthIndex(name) == Some(9)
    ensures ParseTimeLine("    " + MonthText(name, " ", "30", " ", "05", "00", "am"), host)
            == TimeInfo(Some(NewDate(host.year, 9, 30, 5, 0, 0, 0)), None)
  {
    TestNumbers();
    assert AllWhitespace("    ") && Blank(" ") && Number("30") && Number("05") && Number("00") && IsMeridiem("am");
    assert To24Hour(DigitsValue("05"), ToLower("am"[0]) == 'p') == 5;
    MonthNameLineOf("    ", name, " ", "30", " ", "05", "00", "am", host, 9);
  }

  lemma SlashParts()
    ensures TrySlash(NumericText("10", '/', "30", "2024", " ", "05", "00")) == Some(NewDate(2024, 9, 30, 5, 0, 0, 0))
  {
    TestNumbers();
    assert Blank(" ");
    SlashValue("10", "30", "2024", " ", "05", "00");
    assert DigitsValue("10") - 1 == 9;
  }

  lemma SlashTextIs()
    ensures NumericText("10", '/', "30", "2024", " ", "05", "00") == "10/30/2024 05:00"
  {
  }

  lemma SlashTestLine(host: Host)
    ensures ParseTimeLine("    " + NumericText("10", '/', "30", "2024", " ", "05", "00"), host)
            == TimeInfo(Some(NewDate(2024, 9, 30, 5, 0, 0, 0)), None)
  {
    TestNumbers();
    assert AllWhitespace("    ") && Blank(" ");
    SlashLineAt("    ", "10", "30", "2024", " ", "05", "00", host,
                NumericText("10", '/', "30", "2024", " ", "05", "00"), NewDate(2024, 9, 30, 5, 0, 0, 0));
  }

  lemma DotParts()
    ensures TryDot(NumericText("30", '.', "10", "2024", " ", "05", "00")) == Some(NewDate(2024, 9, 30, 5, 0, 0, 0))
  {
    TestNumbers();
    assert Blank(" ");
    DotValue("30", "10", "2024", " ", "05", "00");
    assert DigitsValue("10") - 1 == 9;
  }

  lemma DotTextIs()
    ensures NumericText("30", '.', "10", "2024", " ", "05", "00") == "30.10.2024 05:00"
  {
  }

  lemma DotTestLine(host: Host)
    ensures ParseTimeLine("    " + NumericText("30", '.', "10", "2024", " ", "05", "00"), host)
            == TimeInfo(Some(NewDate(2024, 9, 30, 5, 0, 0, 0)), None)
  {
    TestNumbers();
    assert AllWhitespace("    ") && Blank(" ");
    DotLineAt("    ", "30", "10", "2024", " ", "05", "00", host,
              NumericText("30", '.', "10", "2024", " ", "05", "00"), NewDate(2024, 9, 30, 5, 0, 0, 0));
  }
}
