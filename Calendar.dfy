/** Local wall-clock time as the JavaScript `Date` object computes it when no
    time zone offset or daylight-saving shift is involved: a time value is an
    integer number of milliseconds since 1970-01-01T00:00:00.000, and calendar
    fields are obtained from it with the proleptic Gregorian calendar. */
module Calendar {

  const MsPerSecond: int := 1000
  const MsPerMinute: int := 60000
  const MsPerHour: int := 3600000
  const MsPerDay: int := 86400000

  predicate IsLeapYear(y: int) {
    y % 4 == 0 && (y % 100 != 0 || y % 400 == 0)
  }

  function DaysInMonth(y: int, m: int): int
    requires 1 <= m <= 12
  {
    if m == 2 then (if IsLeapYear(y) then 29 else 28)
    else if m == 4 || m == 6 || m == 9 || m == 11 then 30
    else 31
  }

  /** The calendar fields a `Date` reports through `getFullYear`, `getMonth`
      (here 1-based), `getDate`, `getHours`, `getMinutes`, `getSeconds` and
      `getMilliseconds`. */
  datatype DateTime = DateTime(year: int, month: int, day: int,
                               hour: int, minute: int, second: int, ms: int)

  predicate ValidDateTime(t: DateTime) {
    && 1 <= t.month <= 12 && 1 <= t.day <= DaysInMonth(t.year, t.month)
    && 0 <= t.hour < 24 && 0 <= t.minute < 60 && 0 <= t.second < 60 && 0 <= t.ms < 1000
  }

  // The day arithmetic below counts years from March, so that the leap day
  // is the last day of a (shifted) year. `mp` is the month counted from March
  // (0 = March, 11 = February), `yoe` the year within a 400-year era.

  /** Day of the shifted year on which shifted month `mp` starts. */
  function MonthStart(mp: int): int {
    (153 * mp + 2) / 5
  }

  /** Day of the era on which shifted year `yoe` starts. */
  function YearStart(yoe: int): int {
    365 * yoe + yoe / 4 - yoe / 100
  }

  /** Length of shifted year `yoe`: its February belongs to calendar year
      `yoe + 1` of the era. */
  function ShiftedYearLength(yoe: int): int {
    if IsLeapYear(yoe + 1) then 366 else 365
  }

  /** Shifted year of the era in which day `doe` of the era falls. */
  function YearOfEra(doe: int): int {
    (doe - doe / 1460 + doe / 36524 - doe / 146096) / 365
  }

  /** Number of days from 1970-01-01 to the given proleptic Gregorian date. */
  function DaysFromCivil(y: int, m: int, d: int): int
    requires 1 <= m <= 12
  {
    var y' := if m <= 2 then y - 1 else y;
    var era := y' / 400;
    var yoe := y' - era * 400;
    var mp := if m > 2 then m - 3 else m + 9;
    var doy := MonthStart(mp) + d - 1;
    era * 146097 + YearStart(yoe) + doy - 719468
  }

  datatype Date = Date(year: int, month: int, day: int)

  /** The proleptic Gregorian date of day number `z` (days from 1970-01-01):
      always a real date. */
  function CivilFromDays(z: int): (r: Date)
    ensures 1 <= r.month <= 12 && 1 <= r.day <= DaysInMonth(r.year, r.month)
  {
    var z' := z + 719468;
    var era := z' / 146097;
    DateOfEra(era, z' - era * 146097)
  }

  /** The date on day `doe` of 400-year era `era`. */
  function DateOfEra(era: int, doe: int): (r: Date)
    requires 0 <= doe < 146097
    ensures 1 <= r.month <= 12 && 1 <= r.day <= DaysInMonth(r.year, r.month)
  {
    YearOfEraBounds(doe);
    var yoe := YearOfEra(doe);
    DateOfYear(era, yoe, doe - YearStart(yoe))
  }

  /** The date on day `doy` of shifted year `yoe` of era `era`. */
  function DateOfYear(era: int, yoe: int, doy: int): (r: Date)
    requires 0 <= yoe < 400 && 0 <= doy < ShiftedYearLength(yoe)
    ensures 1 <= r.month <= 12 && 1 <= r.day <= DaysInMonth(r.year, r.month)
  {
    MonthOfYearBounds(doy);
    var mp := (5 * doy + 2) / 153;
    var m := if mp < 10 then mp + 3 else mp - 9;
    var y := yoe + era * 400 + (if m <= 2 then 1 else 0);
    MonthLength(y, m, era, yoe, mp);
    Date(y, m, doy - MonthStart(mp) + 1)
  }

  // ---------------------------------------------------------------- era arithmetic

  /** Days of the era before shifted year `100 * c + 4 * q + r`. */
  lemma YearStartSplit(yoe: int, c: int, q: int, r: int)
    requires 0 <= c < 4 && 0 <= q < 25 && 0 <= r < 4 && yoe == 100 * c + 4 * q + r
    ensures YearStart(yoe) == 36524 * c + 1461 * q + 365 * r
    ensures ShiftedYearLength(yoe) == (if r == 3 && (q < 24 || c == 3) then 366 else 365)
  {
    assert yoe / 4 == 25 * c + q;
    assert yoe / 100 == c;
  }

  lemma YearOfEraInverse(yoe: int, doy: int)
    requires 0 <= yoe < 400 && 0 <= doy < ShiftedYearLength(yoe)
    ensures YearOfEra(YearStart(yoe) + doy) == yoe
  {
    var c, q, r := yoe / 100, (yoe % 100) / 4, yoe % 4;
    YearStartSplit(yoe, c, q, r);
    var doe := YearStart(yoe) + doy;
    var e1 := if 24 * c + q + 365 * r + doy >= 1460 then 1 else 0;
    assert doy == 365 ==> r == 3 && (q < 24 || c == 3);
    EraQuotients(c, q, r, doy, doe);
    assert yoe == 100 * c + 4 * q + r;
    assert doe - doe / 1460 + doe / 36524 - doe / 146096 == 365 * yoe + doy - e1;
    assert 0 <= doy - e1 < 365;
    QuotientOf365(365 * yoe + doy - e1, yoe);
    assert YearOfEra(doe) == (365 * yoe + doy - e1) / 365;
  }

  /** The three quotients in `YearOfEra` for day `doy` of shifted year
      `100 * c + 4 * q + r`. */
  lemma EraQuotients(c: int, q: int, r: int, doy: int, doe: int)
    requires 0 <= c < 4 && 0 <= q < 25 && 0 <= r < 4 && 0 <= doy <= 365
    requires doy == 365 ==> r == 3 && (q < 24 || c == 3)
    requires doe == 36524 * c + 1461 * q + 365 * r + doy
    ensures doe / 146096 == (if doe == 146096 then 1 else 0)
    ensures doe / 36524 == c + (if doe == 146096 then 1 else 0)
    ensures doe / 1460 == 25 * c + q + (if 24 * c + q + 365 * r + doy >= 1460 then 1 else 0)
  {
    var last := if doe == 146096 then 1 else 0;
    QuotientOf146096(doe, last);
    QuotientOf36524(doe, c + last);
    QuotientOf1460(doe, 25 * c + q + (if 24 * c + q + 365 * r + doy >= 1460 then 1 else 0));
  }

  lemma QuotientOf146096(a: int, q: int)
    requires q * 146096 <= a < q * 146096 + 146096
    ensures a / 146096 == q
  {
  }

  lemma QuotientOf36524(a: int, q: int)
    requires q * 36524 <= a < q * 36524 + 36524
    ensures a / 36524 == q
  {
  }

  lemma QuotientOf365(a: int, q: int)
    requires q * 365 <= a < q * 365 + 365
    ensures a / 365 == q
  {
  }

  lemma QuotientOf1460(a: int, q: int)
    requires q * 1460 <= a < q * 1460 + 1460
    ensures a / 1460 == q
  {
  }

  lemma YearOfEraBounds(doe: int)
    requires 0 <= doe < 146097
    ensures 0 <= YearOfEra(doe) < 400
    ensures YearStart(YearOfEra(doe)) <= doe < YearStart(YearOfEra(doe)) + ShiftedYearLength(YearOfEra(doe))
  {
    var c := if doe / 36524 < 3 then doe / 36524 else 3;
    var rem1 := doe - 36524 * c;
    var q := rem1 / 1461;
    var rem2 := rem1 - 1461 * q;
    var r := if rem2 / 365 < 3 then rem2 / 365 else 3;
    var doy := rem2 - 365 * r;
    assert 0 <= c <= 3 && 0 <= rem1 <= 36524 && (c < 3 ==> rem1 < 36524);
    assert 0 <= q <= 24 && 0 <= rem2 < 1461;
    assert 0 <= r <= 3 && 0 <= doy <= 365 && (r < 3 ==> doy < 365);
    assert doy == 365 ==> r == 3 && rem2 == 1460 && (q < 24 || c == 3);
    var yoe := 100 * c + 4 * q + r;
    YearStartSplit(yoe, c, q, r);
    assert doe == YearStart(yoe) + doy && doy < ShiftedYearLength(yoe);
    YearOfEraInverse(yoe, doy);
    assert YearOfEra(doe) == yoe;
  }

  lemma MonthOfYearBounds(doy: int)
    requires 0 <= doy < 366
    ensures 0 <= (5 * doy + 2) / 153 < 12
    ensures MonthStart((5 * doy + 2) / 153) <= doy < MonthStart((5 * doy + 2) / 153 + 1)
  {
  }

  lemma MonthOfYearInverse(mp: int, dd: int)
    requires 0 <= mp < 12 && 0 <= dd < MonthStart(mp + 1) - MonthStart(mp)
    ensures (5 * (MonthStart(mp) + dd) + 2) / 153 == mp
  {
  }

  lemma MonthLength(y: int, m: int, era: int, yoe: int, mp: int)
    requires 0 <= yoe < 400 && 0 <= mp < 12
    requires m == (if mp < 10 then mp + 3 else mp - 9)
    requires y == yoe + era * 400 + (if m <= 2 then 1 else 0)
    ensures mp < 11 ==> DaysInMonth(y, m) == MonthStart(mp + 1) - MonthStart(mp)
    ensures mp == 11 ==> DaysInMonth(y, m) == ShiftedYearLength(yoe) - MonthStart(11)
  {
    if mp == 11 {
      LeapCycle(yoe + 1, era);
      assert y == (yoe + 1) + era * 400;
    }
  }

  /** Leap years repeat every 400 years. */
  lemma LeapCycle(x: int, era: int)
    ensures IsLeapYear(x + era * 400) == IsLeapYear(x)
  {
    ShiftMod4(x, era * 100);
    ShiftMod100(x, era * 4);
    ShiftMod400(x, era);
  }

  lemma ShiftMod4(x: int, k: int)
    ensures (x + k * 4) % 4 == x % 4
  {
  }

  lemma ShiftMod100(x: int, k: int)
    ensures (x + k * 100) % 100 == x % 100
  {
  }

  lemma ShiftMod400(x: int, k: int)
    ensures (x + k * 400) % 400 == x % 400
  {
  }

  // ---------------------------------------------------------------- dates and day numbers

  lemma EraDivision(a: int, q: int, r: int)
    requires a == q * 146097 + r && 0 <= r < 146097
    ensures a / 146097 == q && a % 146097 == r
  {
  }

  lemma CycleDivision(a: int, q: int, r: int)
    requires a == q * 400 + r && 0 <= r < 400
    ensures a / 400 == q && a % 400 == r
  {
  }

  lemma DayDivision(a: int, q: int, r: int)
    requires a == q * MsPerDay + r && 0 <= r < MsPerDay
    ensures a / MsPerDay == q && a % MsPerDay == r
  {
  }

  lemma CivilFromEraDay(z: int, era: int, doe: int)
    requires 0 <= doe < 146097 && z == era * 146097 + doe - 719468
    ensures CivilFromDays(z) == DateOfEra(era, doe)
  {
    EraDivision(z + 719468, era, doe);
  }

  lemma DateOfEraInverse(era: int, yoe: int, doy: int)
    requires 0 <= yoe < 400 && 0 <= doy < ShiftedYearLength(yoe)
    requires 0 <= YearStart(yoe) + doy < 146097
    ensures DateOfEra(era, YearStart(yoe) + doy) == DateOfYear(era, yoe, doy)
  {
    YearOfEraInverse(yoe, doy);
  }

  lemma DateOfYearInverse(era: int, yoe: int, mp: int, d: int)
    requires 0 <= yoe < 400 && 0 <= mp < 12
    requires 1 <= d && d - 1 < MonthStart(mp + 1) - MonthStart(mp)
    requires MonthStart(mp) + d - 1 < ShiftedYearLength(yoe)
    ensures var m := if mp < 10 then mp + 3 else mp - 9;
            DateOfYear(era, yoe, MonthStart(mp) + d - 1)
            == Date(yoe + era * 400 + (if m <= 2 then 1 else 0), m, d)
  {
    MonthOfYearInverse(mp, d - 1);
  }

  /** Where a real date falls in its era: the shifted year and the day of it. */
  lemma ShiftedDay(y: int, m: int, d: int)
    requires 1 <= m <= 12 && 1 <= d <= DaysInMonth(y, m)
    ensures var y' := if m <= 2 then y - 1 else y;
            var yoe := y' - (y' / 400) * 400;
            var mp := if m > 2 then m - 3 else m + 9;
            && 0 <= yoe < 400 && 0 <= mp < 12
            && d - 1 < MonthStart(mp + 1) - MonthStart(mp)
            && 0 <= MonthStart(mp) + d - 1 < ShiftedYearLength(yoe)
            && YearStart(yoe) + MonthStart(mp) + d - 1 < 146097
  {
    var y' := if m <= 2 then y - 1 else y;
    var era := y' / 400;
    var yoe := y' - era * 400;
    var mp := if m > 2 then m - 3 else m + 9;
    MonthLength(y, m, era, yoe, mp);
    assert mp < 11 ==> MonthStart(mp + 1) <= 337;
    YearStartSplit(yoe, yoe / 100, (yoe % 100) / 4, yoe % 4);
  }

  /** The era, shifted year and shifted day of year of a real date. */
  function EraOf(y: int, m: int): int {
    (if m <= 2 then y - 1 else y) / 400
  }

  function YearOfEraOf(y: int, m: int): int {
    var y' := if m <= 2 then y - 1 else y;
    y' - (y' / 400) * 400
  }

  function DayOfYearOf(m: int, d: int): int {
    MonthStart(if m > 2 then m - 3 else m + 9) + d - 1
  }

  function DayOfEraOf(y: int, m: int, d: int): int {
    YearStart(YearOfEraOf(y, m)) + DayOfYearOf(m, d)
  }

  lemma CivilStepEra(y: int, m: int, d: int)
    requires 1 <= m <= 12 && 1 <= d <= DaysInMonth(y, m)
    ensures 0 <= DayOfEraOf(y, m, d) < 146097
    ensures CivilFromDays(DaysFromCivil(y, m, d))
            == DateOfEra(EraOf(y, m), DayOfEraOf(y, m, d))
  {
    ShiftedDay(y, m, d);
    var era, doe := EraOf(y, m), DayOfEraOf(y, m, d);
    assert DaysFromCivil(y, m, d) == era * 146097 + doe - 719468;
    CivilFromEraDay(DaysFromCivil(y, m, d), era, doe);
    assert CivilFromDays(DaysFromCivil(y, m, d)) == DateOfEra(era, doe);
  }

  lemma CivilStepYear(y: int, m: int, d: int)
    requires 1 <= m <= 12 && 1 <= d <= DaysInMonth(y, m)
    ensures 0 <= YearOfEraOf(y, m) < 400 && 0 <= DayOfYearOf(m, d) < ShiftedYearLength(YearOfEraOf(y, m))
    ensures 0 <= DayOfEraOf(y, m, d) < 146097
    ensures DateOfEra(EraOf(y, m), DayOfEraOf(y, m, d))
            == DateOfYear(EraOf(y, m), YearOfEraOf(y, m), DayOfYearOf(m, d))
  {
    ShiftedDay(y, m, d);
    var era, yoe, doy := EraOf(y, m), YearOfEraOf(y, m), DayOfYearOf(m, d);
    DateOfEraInverse(era, yoe, doy);
    assert DayOfEraOf(y, m, d) == YearStart(yoe) + doy;
    assert DateOfEra(era, DayOfEraOf(y, m, d)) == DateOfYear(era, yoe, doy);
  }

  lemma CivilStepMonth(y: int, m: int, d: int)
    requires 1 <= m <= 12 && 1 <= d <= DaysInMonth(y, m)
    ensures 0 <= YearOfEraOf(y, m) < 400 && 0 <= DayOfYearOf(m, d) < ShiftedYearLength(YearOfEraOf(y, m))
    ensures DateOfYear(EraOf(y, m), YearOfEraOf(y, m), DayOfYearOf(m, d)) == Date(y, m, d)
  {
    ShiftedDay(y, m, d);
    var mp := if m > 2 then m - 3 else m + 9;
    DateOfYearInverse(EraOf(y, m), YearOfEraOf(y, m), mp, d);
  }

  /** Day numbers and dates correspond one to one: every real date comes back
      from its day number ... */
  lemma CivilRoundTrip(y: int, m: int, d: int)
    requires 1 <= m <= 12 && 1 <= d <= DaysInMonth(y, m)
    ensures CivilFromDays(DaysFromCivil(y, m, d)) == Date(y, m, d)
  {
    CivilStepEra(y, m, d);
    CivilStepYear(y, m, d);
    CivilStepMonth(y, m, d);
  }

  /** ... and every day number comes back from its date. */
  lemma {:induction false} DaysRoundTrip(z: int)
    ensures DaysFromCivil(CivilFromDays(z).year, CivilFromDays(z).month, CivilFromDays(z).day) == z
  {
    var z' := z + 719468;
    var era := z' / 146097;
    var doe := z' - era * 146097;
    YearOfEraBounds(doe);
    var yoe := YearOfEra(doe);
    var doy := doe - YearStart(yoe);
    MonthOfYearBounds(doy);
    var mp := (5 * doy + 2) / 153;
    var r := DateOfYear(era, yoe, doy);
    CivilFromEraDay(z, era, doe);
    assert CivilFromDays(z) == r;
    var m := if mp < 10 then mp + 3 else mp - 9;
    assert r == Date(yoe + era * 400 + (if m <= 2 then 1 else 0), m, doy - MonthStart(mp) + 1);
    DaysFromParts(r.year, m, r.day, era, yoe, mp);
    calc {
      DaysFromCivil(r.year, r.month, r.day);
      era * 146097 + YearStart(yoe) + MonthStart(mp) + r.day - 1 - 719468;
      era * 146097 + YearStart(yoe) + doy - 719468;
      era * 146097 + doe - 719468;
      z;
    }
  }

  /** The day number of a date whose era, shifted year and shifted month are
      known. */
  lemma DaysFromParts(y: int, m: int, d: int, era: int, yoe: int, mp: int)
    requires 0 <= yoe < 400 && 0 <= mp < 12 && m == (if mp < 10 then mp + 3 else mp - 9)
    requires y == yoe + era * 400 + (if m <= 2 then 1 else 0)
    ensures DaysFromCivil(y, m, d) == era * 146097 + YearStart(yoe) + MonthStart(mp) + d - 1 - 719468
  {
    var y' := if m <= 2 then y - 1 else y;
    CycleDivision(y', era, yoe);
    assert (if m > 2 then m - 3 else m + 9) == mp;
  }

  // ---------------------------------------------------------------- time values

  /** Milliseconds into the day of the given time of day. */
  function MakeTime(h: int, mi: int, s: int, ms: int): int {
    h * MsPerHour + mi * MsPerMinute + s * MsPerSecond + ms
  }

  /** The time value of a date-time whose month is in range. */
  function TimeOf(t: DateTime): int
    requires 1 <= t.month <= 12
  {
    DaysFromCivil(t.year, t.month, t.day) * MsPerDay + MakeTime(t.hour, t.minute, t.second, t.ms)
  }

  /** The calendar fields of time value `t`: always a valid date-time. */
  function Fields(t: int): (r: DateTime)
    ensures ValidDateTime(r)
  {
    var date := CivilFromDays(t / MsPerDay);
    var tod := t % MsPerDay;
    DateTime(date.year, date.month, date.day,
             tod / MsPerHour, tod % MsPerHour / MsPerMinute,
             tod % MsPerMinute / MsPerSecond, tod % MsPerSecond)
  }

  lemma ClockFields(h: int, mi: int, s: int, ms: int)
    requires 0 <= h < 24 && 0 <= mi < 60 && 0 <= s < 60 && 0 <= ms < 1000
    ensures 0 <= MakeTime(h, mi, s, ms) < MsPerDay
    ensures MakeTime(h, mi, s, ms) / MsPerHour == h
    ensures MakeTime(h, mi, s, ms) % MsPerHour / MsPerMinute == mi
    ensures MakeTime(h, mi, s, ms) % MsPerMinute / MsPerSecond == s
    ensures MakeTime(h, mi, s, ms) % MsPerSecond == ms
  {
    var tod := MakeTime(h, mi, s, ms);
    var inHour := mi * MsPerMinute + s * MsPerSecond + ms;
    var inMinute := s * MsPerSecond + ms;
    assert tod % MsPerHour == inHour;
    assert tod % MsPerMinute == inMinute;
  }

  lemma ClockRecompose(tod: int)
    requires 0 <= tod < MsPerDay
    ensures MakeTime(tod / MsPerHour, tod % MsPerHour / MsPerMinute,
                     tod % MsPerMinute / MsPerSecond, tod % MsPerSecond) == tod
  {
    var h, rh := tod / MsPerHour, tod % MsPerHour;
    assert rh % MsPerMinute == tod % MsPerMinute;
    assert rh / MsPerMinute * MsPerMinute + rh % MsPerMinute == rh;
    var rm := tod % MsPerMinute;
    assert rm / MsPerSecond * MsPerSecond + rm % MsPerSecond == rm;
    assert rm % MsPerSecond == tod % MsPerSecond;
  }

  /** Fields and time values correspond one to one: a valid date-time comes back
      from its time value ... */
  lemma FieldsOfTime(t: DateTime)
    requires ValidDateTime(t)
    ensures Fields(TimeOf(t)) == t
  {
    var days := DaysFromCivil(t.year, t.month, t.day);
    var tod := MakeTime(t.hour, t.minute, t.second, t.ms);
    ClockFields(t.hour, t.minute, t.second, t.ms);
    DayDivision(TimeOf(t), days, tod);
    CivilRoundTrip(t.year, t.month, t.day);
  }

  /** ... and every time value comes back from its fields. */
  lemma TimeOfFields(v: int)
    ensures TimeOf(Fields(v)) == v
  {
    DaysRoundTrip(v / MsPerDay);
    ClockRecompose(v % MsPerDay);
  }

  /** ECMAScript MakeDay: the day number of day `date` of month `monthIndex`
      (0-based) of `year`, where an out-of-range month or day carries over
      into the following or preceding months and years. */
  function MakeDay(year: int, monthIndex: int, date: int): int {
    DaysFromCivil(year + monthIndex / 12, monthIndex % 12 + 1, 1) + date - 1
  }

  /** `new Date(year, monthIndex, day, hours, minutes, seconds, ms)` in local
      time: a year from 0 to 99 means 1900 plus that year. */
  function NewDate(year: int, monthIndex: int, day: int,
                   hours: int, minutes: int, seconds: int, ms: int): int
  {
    var fullYear := if 0 <= year <= 99 then 1900 + year else year;
    MakeDay(fullYear, monthIndex, day) * MsPerDay + MakeTime(hours, minutes, seconds, ms)
  }

  /** For in-range fields the constructor builds exactly the date-time given,
      with a two-digit year moved into the 1900s. */
  lemma NewDateFields(year: int, month: int, day: int, h: int, mi: int, s: int, ms: int)
    requires ValidDateTime(DateTime(if 0 <= year <= 99 then 1900 + year else year, month, day, h, mi, s, ms))
    ensures Fields(NewDate(year, month - 1, day, h, mi, s, ms))
            == DateTime(if 0 <= year <= 99 then 1900 + year else year, month, day, h, mi, s, ms)
  {
    var fullYear := if 0 <= year <= 99 then 1900 + year else year;
    var t := DateTime(fullYear, month, day, h, mi, s, ms);
    assert (month - 1) / 12 == 0 && (month - 1) % 12 == month - 1;
    assert MakeDay(fullYear, month - 1, day) == DaysFromCivil(fullYear, month, day);
    assert NewDate(year, month - 1, day, h, mi, s, ms) == TimeOf(t);
    FieldsOfTime(t);
  }

  /** `d.setMinutes(d.getMinutes() + n)`: `n` minutes later. */
  function AddMinutes(t: int, n: int): int {
    t + n * MsPerMinute
  }

  /** Adding minutes that stay within the hour changes only the minute
      field. */
  lemma AddMinutesWithinHour(t: int, n: int)
    requires 0 <= Fields(t).minute + n < 60
    ensures Fields(AddMinutes(t, n)) == Fields(t).(minute := Fields(t).minute + n)
  {
    var f := Fields(t);
    var g := f.(minute := f.minute + n);
    TimeOfFields(t);
    ShiftMinutes(f, n);
    assert TimeOf(g) == AddMinutes(t, n);
    FieldsOfTime(g);
  }

  lemma ShiftMinutes(f: DateTime, n: int)
    requires 1 <= f.month <= 12
    ensures TimeOf(f.(minute := f.minute + n)) == TimeOf(f) + n * MsPerMinute
  {
  }
}
