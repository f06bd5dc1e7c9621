/** Civil-date conversion of `src/executor/datetime.rs`.
  *
  * The code counts years from March so that the leap day is the last day of a
  * year, and cuts time into 400-year eras.  The lemmas show that, in spite of
  * truncating division and negative eras, the two conversions are mutual
  * inverses between all integers and all valid proleptic Gregorian dates, and
  * that the day count is the one obtained by walking the calendar day by day.
  */
module Calendar {

  /** Integer division as the source's language does it: toward zero. */
  function TruncDiv(a: int, b: int): int
    requires b > 0
  {
    if a >= 0 then a / b else -((-a) / b)
  }

  datatype Date = Date(y: int, m: int, d: int)

  predicate IsLeapYear(y: int) {
    (y % 4 == 0 && y % 100 != 0) || y % 400 == 0
  }

  function DaysInMonth(y: int, m: int): int {
    if m in {1, 3, 5, 7, 8, 10, 12} then 31
    else if m in {4, 6, 9, 11} then 30
    else if m == 2 then (if IsLeapYear(y) then 29 else 28)
    else 0
  }

  predicate ValidDate(t: Date) {
    1 <= t.m <= 12 && 1 <= t.d <= DaysInMonth(t.y, t.m)
  }

  /** Calendar order: year, then month, then day. */
  predicate DateBefore(a: Date, b: Date) {
    a.y < b.y || (a.y == b.y && (a.m < b.m || (a.m == b.m && a.d < b.d)))
  }

  /** The calendar's own successor: the reference the arithmetic is held against. */
  function NextDate(t: Date): Date {
    if t.d < DaysInMonth(t.y, t.m) then Date(t.y, t.m, t.d + 1)
    else if t.m < 12 then Date(t.y, t.m + 1, 1)
    else Date(t.y + 1, 1, 1)
  }

  // ---------- the two conversions, as the source computes them ----------

  function DaysFromCivil(year: int, m: int, d: int): int {
    var y := if m <= 2 then year - 1 else year;
    var era := TruncDiv(if y >= 0 then y else y - 399, 400);
    var yoe := y - era * 400;
    var mp := if m > 2 then m - 3 else m + 9;
    var doy := TruncDiv(153 * mp + 2, 5) + d - 1;
    var doe := yoe * 365 + TruncDiv(yoe, 4) - TruncDiv(yoe, 100) + doy;
    era * 146097 + doe - 719468
  }

  function YearOfEra(doe: int): int {
    TruncDiv(doe - TruncDiv(doe, 1460) + TruncDiv(doe, 36524) - TruncDiv(doe, 146096), 365)
  }

  function CivilFromDays(day: int): Date {
    var z := day + 719468;
    var era := TruncDiv(if z >= 0 then z else z - 146096, 146097);
    CivilOfEra(era, z - era * 146097)
  }

  /** The date of day `doe` of era `era`. */
  function CivilOfEra(era: int, doe: int): Date {
    var yoe := YearOfEra(doe);
    var y := yoe + era * 400;
    var doy := doe - (365 * yoe + TruncDiv(yoe, 4) - TruncDiv(yoe, 100));
    var mp := TruncDiv(5 * doy + 2, 153);
    var d := doy - TruncDiv(153 * mp + 2, 5) + 1;
    var m := if mp < 10 then mp + 3 else mp - 9;
    Date(if m <= 2 then y + 1 else y, m, d)
  }

  // ---------- the March year ----------

  /** Days before March year `yoe` within its era. */
  ghost function YearStart(yoe: int): int {
    365 * yoe + yoe / 4 - yoe / 100
  }

  /** Days before March-based month `mp` within its year. */
  ghost function MonthStart(mp: int): int {
    (153 * mp + 2) / 5
  }

  /** March year `yoe` of any era ends in a February with a leap day. */
  ghost predicate LeapEnding(yoe: int) {
    IsLeapYear(yoe + 1)
  }

  ghost predicate InEra(yoe: int, doy: int) {
    0 <= yoe < 400 && 0 <= doy <= 365 && (doy == 365 ==> LeapEnding(yoe))
  }

  /** The sign test before the truncating division makes it round down. */
  lemma FloorEra(y: int)
    ensures TruncDiv(if y >= 0 then y else y - 399, 400) == y / 400
  {
  }

  lemma FloorEraOfDay(z: int)
    ensures TruncDiv(if z >= 0 then z else z - 146096, 146097) == z / 146097
  {
  }

  /** A March year is a century, a leap cycle of the century and a year of the cycle. */
  lemma YearStartByCycles(yoe: int, c: int, q: int, j: int)
    requires yoe == 100 * c + 4 * q + j && 0 <= c < 4 && 0 <= q < 25 && 0 <= j < 4
    ensures YearStart(yoe) == 36524 * c + 1461 * q + 365 * j
    ensures LeapEnding(yoe) ==> j == 3 && (q == 24 ==> c == 3)
  {
    assert yoe / 4 == 25 * c + q;
    assert yoe / 100 == c;
    assert (yoe + 1) % 4 == (j + 1) % 4;
    if q == 24 && j == 3 {
      assert (yoe + 1) % 100 == 0;
    }
  }

  lemma CycleQuotients(doe: int, c: int, q: int, j: int, doy: int) returns (borrow: int)
    requires 0 <= c < 4 && 0 <= q < 25 && 0 <= j < 4 && 0 <= doy <= 365
    requires doy == 365 ==> j == 3 && (q == 24 ==> c == 3)
    requires doe == 36524 * c + 1461 * q + 365 * j + doy
    ensures 0 <= doe < 146097 && 0 <= borrow <= 1 && 0 <= doy - borrow < 365
    ensures doe / 1460 == 25 * c + q + borrow
    ensures doe / 36524 - doe / 146096 == c
  {
    var rest := 24 * c + q + 365 * j + doy;
    assert doe == 1460 * (25 * c + q) + rest;
    borrow := if rest >= 1460 then 1 else 0;
  }

  /** The year formula undoes `YearStart` on every day of the era. */
  lemma YearOfEraCorrect(yoe: int, doy: int)
    requires InEra(yoe, doy)
    ensures 0 <= YearStart(yoe) + doy < 146097
    ensures YearOfEra(YearStart(yoe) + doy) == yoe
  {
    var c, k := yoe / 100, yoe % 100;
    var q, j := k / 4, k % 4;
    YearStartByCycles(yoe, c, q, j);
    var doe := YearStart(yoe) + doy;
    var borrow := CycleQuotients(doe, c, q, j, doy);
    assert doe - doe / 1460 + (doe / 36524 - doe / 146096) == 365 * yoe + (doy - borrow);
  }

  /** Every day of an era is some day of some March year. */
  lemma {:induction false} SplitEra(doe: int) returns (yoe: int, doy: int)
    requires 0 <= doe < 146097
    ensures InEra(yoe, doy) && doe == YearStart(yoe) + doy
    decreases doe
  {
    if doe == 0 {
      yoe, doy := 0, 0;
    } else {
      yoe, doy := SplitEra(doe - 1);
      if doy < 364 || (doy == 364 && LeapEnding(yoe)) {
        doy := doy + 1;
      } else {
        assert yoe == 399 ==> LeapEnding(yoe);
        yoe, doy := yoe + 1, 0;
      }
    }
  }

  lemma MonthOfYear(mp: int, doy: int)
    requires 0 <= mp <= 11 && MonthStart(mp) <= doy < MonthStart(mp + 1)
    ensures TruncDiv(5 * doy + 2, 153) == mp
  {
  }

  /** A position in the March calendar. */
  datatype March = March(era: int, yoe: int, mp: int, doy: int)

  ghost predicate ValidMarch(p: March) {
    InEra(p.yoe, p.doy) && 0 <= p.mp <= 11 && MonthStart(p.mp) <= p.doy < MonthStart(p.mp + 1)
  }

  ghost function DayOf(p: March): int {
    p.era * 146097 + YearStart(p.yoe) + p.doy - 719468
  }

  ghost function DateOf(p: March): Date {
    var m := if p.mp < 10 then p.mp + 3 else p.mp - 9;
    var y := p.era * 400 + p.yoe;
    Date(if m <= 2 then y + 1 else y, m, p.doy - MonthStart(p.mp) + 1)
  }

  ghost function MarchOf(t: Date): March {
    var y := if t.m <= 2 then t.y - 1 else t.y;
    var mp := if t.m > 2 then t.m - 3 else t.m + 9;
    March(y / 400, y % 400, mp, MonthStart(mp) + t.d - 1)
  }

  lemma ShiftMod4(y: int, k: int)
    ensures (y + 4 * k) % 4 == y % 4
  {
  }

  lemma ShiftMod100(y: int, k: int)
    ensures (y + 100 * k) % 100 == y % 100
  {
  }

  lemma ShiftMod400(y: int, k: int)
    ensures (y + 400 * k) % 400 == y % 400
  {
  }

  lemma LeapPeriodic(y: int, era: int)
    ensures IsLeapYear(y + 400 * era) <==> IsLeapYear(y)
  {
    ShiftMod4(y, 100 * era);
    ShiftMod100(y, 4 * era);
    ShiftMod400(y, era);
  }

  lemma MarchOfValid(t: Date)
    requires ValidDate(t)
    ensures ValidMarch(MarchOf(t)) && DateOf(MarchOf(t)) == t
  {
    var p := MarchOf(t);
    LeapPeriodic(p.yoe + 1, p.era);
  }

  lemma DateOfValid(p: March)
    requires ValidMarch(p)
    ensures ValidDate(DateOf(p)) && MarchOf(DateOf(p)) == p
  {
    LeapPeriodic(p.yoe + 1, p.era);
    var y := p.era * 400 + p.yoe;
    assert y / 400 == p.era && y % 400 == p.yoe;
  }

  lemma DaysAreMarchDays(t: Date)
    requires ValidDate(t)
    ensures DaysFromCivil(t.y, t.m, t.d) == DayOf(MarchOf(t))
  {
    var y := if t.m <= 2 then t.y - 1 else t.y;
    FloorEra(y);
  }

  lemma CivilByEra(era: int, doe: int)
    requires 0 <= doe < 146097
    ensures CivilFromDays(era * 146097 + doe - 719468) == CivilOfEra(era, doe)
  {
    hide CivilOfEra;
    var z := era * 146097 + doe;
    FloorEraOfDay(z);
    assert z / 146097 == era;
  }

  lemma CivilIsMarchDate(p: March)
    requires ValidMarch(p)
    ensures CivilFromDays(DayOf(p)) == DateOf(p)
  {
    hide CivilFromDays, CivilOfEra, DateOf;
    YearOfEraCorrect(p.yoe, p.doy);
    CivilByEra(p.era, YearStart(p.yoe) + p.doy);
    CivilOfEraIsMarchDate(p);
  }

  lemma CivilOfEraIsMarchDate(p: March)
    requires ValidMarch(p)
    ensures CivilOfEra(p.era, YearStart(p.yoe) + p.doy) == DateOf(p)
  {
    YearOfEraCorrect(p.yoe, p.doy);
    MonthOfYear(p.mp, p.doy);
  }

  lemma MarchOfDay(day: int) returns (p: March)
    ensures ValidMarch(p) && DayOf(p) == day
  {
    var z := day + 719468;
    var yoe, doy := SplitEra(z % 146097);
    p := March(z / 146097, yoe, (5 * doy + 2) / 153, doy);
  }

  // ---------- main results ----------

  /** Reading back the day count of a valid date gives that date. */
  lemma CivilOfDays(t: Date)
    requires ValidDate(t)
    ensures CivilFromDays(DaysFromCivil(t.y, t.m, t.d)) == t
  {
    MarchOfValid(t);
    DaysAreMarchDays(t);
    CivilIsMarchDate(MarchOf(t));
  }

  /** Every integer is the day count of the valid date it converts to. */
  lemma DaysOfCivil(day: int)
    ensures var t := CivilFromDays(day);
            ValidDate(t) && DaysFromCivil(t.y, t.m, t.d) == day
  {
    var p := MarchOfDay(day);
    CivilIsMarchDate(p);
    DateOfValid(p);
    DaysAreMarchDays(DateOf(p));
  }

  lemma NextDateValid(t: Date)
    requires ValidDate(t)
    ensures ValidDate(NextDate(t)) && DateBefore(t, NextDate(t))
  {
  }

  /** The day count advances by exactly one along the calendar's successor. */
  lemma DaysCountCalendarSteps(t: Date)
    requires ValidDate(t)
    ensures var n := NextDate(t);
            DaysFromCivil(n.y, n.m, n.d) == DaysFromCivil(t.y, t.m, t.d) + 1
  {
    var n := NextDate(t);
    NextDateValid(t);
    DaysAreMarchDays(t);
    DaysAreMarchDays(n);
    MarchStep(t);
  }

  lemma MarchStep(t: Date)
    requires ValidDate(t)
    ensures DayOf(MarchOf(NextDate(t))) == DayOf(MarchOf(t)) + 1
  {
    var p, n := MarchOf(t), MarchOf(NextDate(t));
    if t.m == 2 && t.d == DaysInMonth(t.y, 2) {
      LeapPeriodic(p.yoe + 1, p.era);
      if p.yoe == 399 {
        assert n.era == p.era + 1 && n.yoe == 0;
      } else {
        assert n.era == p.era && n.yoe == p.yoe + 1;
        YearLength(p.yoe);
      }
    } else {
      assert n.era == p.era && n.yoe == p.yoe;
    }
  }

  lemma YearLength(yoe: int)
    requires 0 <= yoe < 399
    ensures YearStart(yoe + 1) == YearStart(yoe) + (if LeapEnding(yoe) then 366 else 365)
  {
    QuotientSteps(yoe);
  }

  lemma QuotientSteps(x: int)
    ensures (x + 1) / 4 == x / 4 + if (x + 1) % 4 == 0 then 1 else 0
    ensures (x + 1) / 100 == x / 100 + if (x + 1) % 100 == 0 then 1 else 0
  {
  }

  /** The epoch: together with the step lemma this fixes the whole count. */
  lemma UnixEpoch()
    ensures DaysFromCivil(1970, 1, 1) == 0
    ensures DaysFromCivil(1, 1, 1) == -719162
    ensures DaysFromCivil(9999, 12, 31) == 2932896
  {
  }

  /** Later in the calendar is later in the count. */
  lemma DaysMonotone(a: Date, b: Date)
    requires ValidDate(a) && ValidDate(b) && DateBefore(a, b)
    ensures DaysFromCivil(a.y, a.m, a.d) < DaysFromCivil(b.y, b.m, b.d)
  {
    MarchOfValid(a);
    MarchOfValid(b);
    DaysAreMarchDays(a);
    DaysAreMarchDays(b);
    MarchMonotone(MarchOf(a), MarchOf(b));
  }

  lemma MarchMonotone(p: March, q: March)
    requires ValidMarch(p) && ValidMarch(q)
    requires p.era < q.era || (p.era == q.era && (p.yoe < q.yoe || (p.yoe == q.yoe && p.doy < q.doy)))
    ensures DayOf(p) < DayOf(q)
  {
    YearOfEraCorrect(p.yoe, p.doy);
    YearOfEraCorrect(q.yoe, q.doy);
    if p.era == q.era && p.yoe < q.yoe {
      YearStartStep(p.yoe, p.doy, q.yoe);
    }
  }

  lemma {:induction false} YearStartStep(yoe: int, doy: int, later: int)
    requires InEra(yoe, doy) && yoe < later < 400
    ensures YearStart(yoe) + doy < YearStart(later)
    decreases later
  {
    YearLength(later - 1);
    if yoe + 1 < later {
      YearStartStep(yoe, doy, later - 1);
    }
    hide YearStart;
  }

  /** The order is total, so the count decides it in both directions. */
  lemma DaysOrderIff(a: Date, b: Date)
    requires ValidDate(a) && ValidDate(b)
    ensures DateBefore(a, b) <==> DaysFromCivil(a.y, a.m, a.d) < DaysFromCivil(b.y, b.m, b.d)
  {
    if DateBefore(a, b) {
      DaysMonotone(a, b);
    } else if a != b {
      assert DateBefore(b, a);
      DaysMonotone(b, a);
    }
  }
}
