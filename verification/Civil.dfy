/** The day-number-to-civil-date conversion of crates/mem-ingest/examples/ingest_repo.rs, against
    the Gregorian calendar (section 3.2.1 of ISO 8601:2004). */
module Civil {

  datatype Date = Date(year: int, month: int, day: int)

  // ---- the calendar ----

  predicate IsLeap(year: int) { year % 4 == 0 && (year % 100 != 0 || year % 400 == 0) }

  function DaysInMonth(year: int, month: int): int {
    if month == 2 then (if IsLeap(year) then 29 else 28)
    else if month == 4 || month == 6 || month == 9 || month == 11 then 30
    else 31
  }

  predicate ValidDate(d: Date) {
    1 <= d.month <= 12 && 1 <= d.day <= DaysInMonth(d.year, d.month)
  }

  /** The day after, by the calendar's own rules. */
  function NextDay(d: Date): Date {
    if d.day < DaysInMonth(d.year, d.month) then d.(day := d.day + 1)
    else if d.month < 12 then Date(d.year, d.month + 1, 1)
    else Date(d.year + 1, 1, 1)
  }

  // ---- the conversion ----

  /** Integer division as Rust does it, towards zero. */
  function TruncDiv(a: int, b: int): int
    requires b > 0
  {
    if a >= 0 then a / b else -(-a / b)
  }

  function Era(z: int): int { TruncDiv(if z >= 0 then z else z - 146_096, 146_097) }

  function YearOfEra(doe: int): int {
    (doe - TruncDiv(doe, 1460) + TruncDiv(doe, 36_524) - TruncDiv(doe, 146_096)) / 365
  }

  /** Days before March-based year `y` of an era. */
  function YearStart(y: int): int { 365 * y + y / 4 - y / 100 }

  function FromMarch(year: int, doy: int): Date {
    var mp := (5 * doy + 2) / 153;
    var d := doy - (153 * mp + 2) / 5 + 1;
    var m := if mp < 10 then mp + 3 else mp - 9;
    Date(if m <= 2 then year + 1 else year, m, d)
  }

  function CivilFromDays(days: int): Date {
    var z := days + 719_468;
    var era := Era(z);
    var doe := z - era * 146_097;
    var yoe := YearOfEra(doe);
    FromMarch(yoe + era * 400, doe - YearStart(yoe))
  }

  // ---- eras and years ----

  lemma EraIsFloor(z: int)
    ensures Era(z) == z / 146_097 && 0 <= z - Era(z) * 146_097 <= 146_096
  {
  }

  /** The length of the year that starts in March of `year`. */
  function YearLength(year: int): int { if IsLeap(year + 1) then 366 else 365 }

  /** `doe` is day `doe - YearStart(y)` of year `y` of its era. */
  ghost predicate InYear(doe: int, y: int) {
    0 <= y <= 399 && 0 <= doe - YearStart(y) < YearLength(y)
  }

  /** The correction terms of the year formula land in the right year. */
  lemma YearFormula(c: int, q: int, a: int, s: int, doe: int)
    requires 0 <= c <= 3 && 0 <= q <= 24 && 0 <= s <= 1460 && a == (if s == 1460 then 3 else s / 365)
    requires doe == 36_524 * c + 1461 * q + s && 0 <= doe <= 146_096
    requires q == 24 && s == 1460 ==> c == 3
    ensures YearOfEra(doe) == 100 * c + 4 * q + a && InYear(doe, 100 * c + 4 * q + a)
  {
    hide IsLeap;
    var e := (24 * c + q + s) / 1460;
    FourYearTerm(c, q, s, doe);
    CenturyTerm(c, 1461 * q + s, doe);
    var n := doe - doe / 1460 + c;
    assert n == 365 * (100 * c + 4 * q) + (s - e);
    assert (s - e) / 365 == a;
    var y := 100 * c + 4 * q + a;
    assert n / 365 == y;
    YearOffset(c, q, a, s, doe);
  }

  lemma FourYearTerm(c: int, q: int, s: int, doe: int)
    requires 0 <= c <= 3 && 0 <= q <= 24 && 0 <= s <= 1460 && doe == 36_524 * c + 1461 * q + s
    ensures var e := (24 * c + q + s) / 1460; (e == 0 || e == 1) && doe / 1460 == 25 * c + q + e
  {
    assert doe == 1460 * (25 * c + q) + (24 * c + q + s);
  }

  lemma CenturyTerm(c: int, r: int, doe: int)
    requires 0 <= c <= 3 && 0 <= r <= 36_524 && doe == 36_524 * c + r && (r == 36_524 ==> c == 3)
    ensures doe / 36_524 - doe / 146_096 == c
  {
  }

  lemma YearOffset(c: int, q: int, a: int, s: int, doe: int)
    requires 0 <= c <= 3 && 0 <= q <= 24 && 0 <= s <= 1460 && a == (if s == 1460 then 3 else s / 365)
    requires doe == 36_524 * c + 1461 * q + s && (q == 24 && s == 1460 ==> c == 3)
    ensures InYear(doe, 100 * c + 4 * q + a)
  {
    var y := 100 * c + 4 * q + a;
    assert 0 <= a <= 3 && y / 4 == 25 * c + q && y / 100 == c;
    assert doe - YearStart(y) == s - 365 * a;
    if s == 1460 {
      assert (y + 1) % 4 == 0 && (q == 24 ==> y + 1 == 400) && (q < 24 ==> (y + 1) % 100 == 4 * q + 4);
    }
  }

  lemma YearOfEraIsRight(doe: int)
    requires 0 <= doe <= 146_096
    ensures InYear(doe, YearOfEra(doe))
  {
    var c := if doe == 146_096 then 3 else doe / 36_524;
    var r := doe - 36_524 * c;
    var q := if r == 36_524 then 24 else r / 1461;
    var s := r - 1461 * q;
    assert 0 <= r <= 36_524 && (r == 36_524 ==> c == 3);
    assert 0 <= q <= 24 && 0 <= s <= 1460;
    YearFormula(c, q, if s == 1460 then 3 else s / 365, s, doe);
  }

  lemma YearsTile(y: int)
    requires 0 <= y <= 399
    ensures YearStart(y) + YearLength(y) == if y == 399 then 146_097 else YearStart(y + 1)
  {
    var n := y + 1;
    assert n / 4 - y / 4 == if n % 4 == 0 then 1 else 0;
    assert n / 100 - y / 100 == if n % 100 == 0 then 1 else 0;
    assert n % 400 == 0 <==> n == 400;
  }

  lemma YearStartMonotone(a: int, b: int)
    requires 0 <= a <= b <= 400
    ensures YearStart(a) <= YearStart(b)
  {
    assert b / 100 - a / 100 <= b - a;
  }

  /** A day of an era lies in only one year. */
  lemma OneYearOnly(doe: int, a: int, b: int)
    requires InYear(doe, a) && InYear(doe, b)
    ensures a == b
  {
    YearsTile(a);
    YearsTile(b);
    if a < b { YearStartMonotone(a + 1, b); } else if b < a { YearStartMonotone(b + 1, a); }
  }

  // ---- months ----

  /** First day of March-based month `mp`, and of the month after. */
  function MonthStart(mp: int): int { (153 * mp + 2) / 5 }

  lemma MonthOfDay(doy: int)
    requires 0 <= doy <= 365
    ensures var mp := (5 * doy + 2) / 153; 0 <= mp <= 11 && MonthStart(mp) <= doy < MonthStart(mp + 1)
  {
  }

  lemma MonthStarts(mp: int)
    requires 0 <= mp <= 11
    ensures MonthStart(mp) == [0, 31, 61, 92, 122, 153, 184, 214, 245, 275, 306, 337][mp]
    ensures MonthStart(12) == 367
  {
  }

  lemma MarchDateIsValid(year: int, doy: int)
    requires 0 <= doy < YearLength(year)
    ensures ValidDate(FromMarch(year, doy))
  {
    var mp := (5 * doy + 2) / 153;
    MonthOfDay(doy);
    MonthStarts(mp);
    if mp < 11 { MonthStarts(mp + 1); }
  }

  /** Inside a year the next day of the year is the next calendar day. */
  lemma NextInYear(year: int, doy: int)
    requires 0 <= doy && doy + 1 < YearLength(year)
    ensures FromMarch(year, doy + 1) == NextDay(FromMarch(year, doy))
  {
    var mp, mp' := (5 * doy + 2) / 153, (5 * (doy + 1) + 2) / 153;
    MonthOfDay(doy);
    MonthOfDay(doy + 1);
    MonthStarts(mp);
    MonthStarts(mp');
    if mp < 11 { MonthStarts(mp + 1); }
    assert mp' == mp || (mp' == mp + 1 && doy + 1 == MonthStart(mp'));
  }

  /** The last day of a year is followed by March 1. */
  lemma NextYear(year: int)
    ensures FromMarch(year + 1, 0) == NextDay(FromMarch(year, YearLength(year) - 1))
  {
    MonthStarts(11);
  }

  // ---- the calendar theorem ----

  /** Era, year and day of the year of a day number. */
  lemma Decompose(days: int) returns (era: int, yoe: int, doy: int)
    ensures days + 719_468 == era * 146_097 + YearStart(yoe) + doy
    ensures 0 <= yoe <= 399 && 0 <= doy < YearLength(yoe)
    ensures CivilFromDays(days) == FromMarch(yoe + era * 400, doy)
  {
    hide Era, YearOfEra, FromMarch, YearLength, YearStart;
    var z := days + 719_468;
    EraIsFloor(z);
    era := Era(z);
    YearOfEraIsRight(z - era * 146_097);
    yoe := YearOfEra(z - era * 146_097);
    doy := z - era * 146_097 - YearStart(yoe);
  }

  lemma InEra(yoe: int, doy: int)
    requires 0 <= yoe <= 399 && 0 <= doy < YearLength(yoe)
    ensures 0 <= YearStart(yoe) + doy <= 146_096
  {
    YearsTile(yoe);
    YearsTile(399);
    YearStartMonotone(0, yoe);
    if yoe < 399 { YearStartMonotone(yoe + 1, 399); }
  }

  lemma SameEra(era: int, x: int, era': int, x': int)
    requires 0 <= x <= 146_096 && 0 <= x' <= 146_096 && era * 146_097 + x == era' * 146_097 + x'
    ensures era == era' && x == x'
  {
  }

  lemma YearIs(yoe: int, doy: int)
    requires 0 <= yoe <= 399 && 0 <= doy < YearLength(yoe)
    ensures InYear(YearStart(yoe) + doy, yoe)
  {
  }

  lemma DecomposeIsUnique(days: int, era: int, yoe: int, doy: int)
    requires days + 719_468 == era * 146_097 + YearStart(yoe) + doy
    requires 0 <= yoe <= 399 && 0 <= doy < YearLength(yoe)
    ensures CivilFromDays(days) == FromMarch(yoe + era * 400, doy)
  {
    hide CivilFromDays, FromMarch, YearStart, YearLength, YearOfEra, Era;
    var era', yoe', doy' := Decompose(days);
    InEra(yoe, doy);
    InEra(yoe', doy');
    SameEra(era, YearStart(yoe) + doy, era', YearStart(yoe') + doy');
    YearIs(yoe, doy);
    YearIs(yoe', doy');
    OneYearOnly(YearStart(yoe) + doy, yoe, yoe');
  }

  lemma FirstYear()
    ensures YearStart(0) == 0
  {
  }

  lemma LengthIsPositive()
    ensures forall y :: YearLength(y) > 0
  {
  }

  lemma DayZero()
    ensures CivilFromDays(0) == Date(1970, 1, 1)
  {
    assert Era(719_468) == 4 && YearOfEra(135_080) == 369 && YearStart(369) == 134_774;
  }

  lemma LeapRepeats(year: int, era: int)
    ensures IsLeap(year + era * 400) <==> IsLeap(year)
    ensures YearLength(year + era * 400) == YearLength(year)
  {
    SameRemainders(year, era);
    SameRemainders(year + 1, era);
  }

  lemma SameRemainders(x: int, era: int)
    ensures var y := x + era * 400; y % 4 == x % 4 && y % 100 == x % 100 && y % 400 == x % 400
  {
    Remainder4(x, 100 * era);
    Remainder100(x, 4 * era);
    Remainder400(x, era);
  }

  lemma Remainder4(x: int, k: int)
    ensures (x + 4 * k) % 4 == x % 4
  {
  }

  lemma Remainder100(x: int, k: int)
    ensures (x + 100 * k) % 100 == x % 100
  {
  }

  lemma Remainder400(x: int, k: int)
    ensures (x + 400 * k) % 400 == x % 400
  {
  }

  /** The conversion is the Gregorian calendar: day 0 is 1970-01-01, every day is a valid date, and
      the day after any day is the calendar's next day. */
  lemma CivilIsGregorian(days: int)
    ensures CivilFromDays(0) == Date(1970, 1, 1)
    ensures ValidDate(CivilFromDays(days))
    ensures CivilFromDays(days + 1) == NextDay(CivilFromDays(days))
  {
    hide CivilFromDays, FromMarch, YearStart, YearLength, NextDay, ValidDate;
    DayZero();
    FirstYear();
    var era, yoe, doy := Decompose(days);
    var year := yoe + era * 400;
    LeapRepeats(yoe, era);
    MarchDateIsValid(year, doy);
    YearsTile(yoe);
    LengthIsPositive();
    if doy + 1 < YearLength(yoe) {
      DecomposeIsUnique(days + 1, era, yoe, doy + 1);
      NextInYear(year, doy);
    } else if yoe < 399 {
      DecomposeIsUnique(days + 1, era, yoe + 1, 0);
      NextYear(year);
    } else {
      DecomposeIsUnique(days + 1, era + 1, 0, 0);
      NextYear(year);
    }
  }

  /** The quantities on the way stay within their stated ranges. */
  lemma Ranges(days: int)
    ensures var z := days + 719_468; var doe := z - Era(z) * 146_097; var yoe := YearOfEra(doe);
      var doy := doe - YearStart(yoe); var mp := (5 * doy + 2) / 153;
      0 <= doe <= 146_096 && 0 <= yoe <= 399 && 0 <= doy <= 365 && 0 <= mp <= 11
  {
    hide Era, YearOfEra, YearStart;
    var z := days + 719_468;
    EraIsFloor(z);
    YearOfEraIsRight(z - Era(z) * 146_097);
    MonthOfDay(z - Era(z) * 146_097 - YearStart(YearOfEra(z - Era(z) * 146_097)));
  }
}
