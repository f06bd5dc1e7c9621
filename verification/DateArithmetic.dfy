/** Timestamp fields, month-anchored intervals and `datediff` of
  * `src/executor/datetime.rs`, over the civil calendar of module Calendar.
  *
  * Dates count days since 0001-01-01, timestamps microseconds since the Unix
  * epoch.  `div_euclid`/`rem_euclid` are Dafny's own `/` and `%`.
  */
module DateArithmetic {
  import opened Calendar

  const DAYS_0001_TO_1970 := 719162
  const MAX_DATE_SERIAL := 3652058
  const MICROS_PER_SECOND := 1_000_000
  const MICROS_PER_MINUTE := 60_000_000
  const MICROS_PER_HOUR := 3_600_000_000
  const MICROS_PER_DAY := 86_400_000_000

  // ---------- fields ----------

  /** Day of month and time of day: what `datediff` compares below the month. */
  datatype Tail = Tail(d: int, h: int, mi: int, s: int, us: int)

  datatype Fields = Fields(y: int, m: int, tail: Tail)

  function DateFields(days: int): Fields {
    var t := CivilFromDays(days - DAYS_0001_TO_1970);
    Fields(t.y, t.m, Tail(t.d, 0, 0, 0, 0))
  }

  function TsFields(micros: int): Fields {
    var rem := micros % MICROS_PER_DAY;
    var t := CivilFromDays(micros / MICROS_PER_DAY);
    Fields(t.y, t.m,
           Tail(t.d,
                rem / MICROS_PER_HOUR,
                rem % MICROS_PER_HOUR / MICROS_PER_MINUTE,
                rem % MICROS_PER_MINUTE / MICROS_PER_SECOND,
                rem % MICROS_PER_SECOND))
  }

  function DateOfFields(f: Fields): Date {
    Date(f.y, f.m, f.tail.d)
  }

  function TimeOfDay(t: Tail): int {
    t.h * MICROS_PER_HOUR + t.mi * MICROS_PER_MINUTE + t.s * MICROS_PER_SECOND + t.us
  }

  predicate ValidTime(t: Tail) {
    0 <= t.h < 24 && 0 <= t.mi < 60 && 0 <= t.s < 60 && 0 <= t.us < 1_000_000
  }

  predicate ValidFields(f: Fields) {
    ValidDate(DateOfFields(f)) && ValidTime(f.tail)
  }

  /** Microseconds of a civil date and time: `date_serial_to_unix_micros`. */
  function MicrosOf(f: Fields): int {
    DaysFromCivil(f.y, f.m, f.tail.d) * MICROS_PER_DAY + TimeOfDay(f.tail)
  }

  lemma SplitTimeOfDay(rem: int)
    requires 0 <= rem < MICROS_PER_DAY
    ensures var t := Tail(0, rem / MICROS_PER_HOUR, rem % MICROS_PER_HOUR / MICROS_PER_MINUTE,
                          rem % MICROS_PER_MINUTE / MICROS_PER_SECOND, rem % MICROS_PER_SECOND);
            ValidTime(t) && TimeOfDay(t) == rem
  {
    var hours, inHour := rem / MICROS_PER_HOUR, rem % MICROS_PER_HOUR;
    var minutes, inMinute := inHour / MICROS_PER_MINUTE, inHour % MICROS_PER_MINUTE;
    assert rem == MICROS_PER_MINUTE * (60 * hours + minutes) + inMinute;
    assert rem % MICROS_PER_MINUTE == inMinute;
    var seconds, us := inMinute / MICROS_PER_SECOND, inMinute % MICROS_PER_SECOND;
    assert rem == MICROS_PER_SECOND * (60 * (60 * hours + minutes) + seconds) + us;
    assert rem % MICROS_PER_SECOND == us;
  }

  lemma TimeOfDayRange(t: Tail)
    requires ValidTime(t)
    ensures 0 <= TimeOfDay(t) < MICROS_PER_DAY
  {
  }

  /** A timestamp's fields are valid and spell exactly that timestamp. */
  lemma FieldsOfTs(micros: int)
    ensures ValidFields(TsFields(micros)) && MicrosOf(TsFields(micros)) == micros
  {
    DaysOfCivil(micros / MICROS_PER_DAY);
    SplitTimeOfDay(micros % MICROS_PER_DAY);
  }

  /** Valid fields are recovered from the microseconds they spell. */
  lemma TsOfFields(f: Fields)
    requires ValidFields(f)
    ensures TsFields(MicrosOf(f)) == f
  {
    var days, t := DaysFromCivil(f.y, f.m, f.tail.d), TimeOfDay(f.tail);
    var micros := MicrosOf(f);
    TimeOfDayRange(f.tail);
    assert micros / MICROS_PER_DAY == days && micros % MICROS_PER_DAY == t;
    CivilOfDays(DateOfFields(f));
    SplitTimeOfDay(t);
    var g := TsFields(micros).tail;
    TimeUnique(g, f.tail);
  }

  lemma TimeUnique(a: Tail, b: Tail)
    requires ValidTime(a) && ValidTime(b) && TimeOfDay(a) == TimeOfDay(b) && a.d == b.d
    ensures a == b
  {
  }

  // ---------- order ----------

  predicate TailLess(a: Tail, b: Tail) {
    a.d < b.d || (a.d == b.d && (a.h < b.h || (a.h == b.h && (a.mi < b.mi || (a.mi == b.mi &&
      (a.s < b.s || (a.s == b.s && a.us < b.us)))))))
  }

  predicate FieldsLess(a: Fields, b: Fields) {
    a.y < b.y || (a.y == b.y && (a.m < b.m || (a.m == b.m && TailLess(a.tail, b.tail))))
  }

  lemma TailLessIsDayThenTime(a: Tail, b: Tail)
    requires ValidTime(a) && ValidTime(b)
    ensures TailLess(a, b) <==> a.d < b.d || (a.d == b.d && TimeOfDay(a) < TimeOfDay(b))
  {
    if a.d == b.d && a.h == b.h {
      assert TimeOfDay(a) < TimeOfDay(b) <==>
             a.mi * MICROS_PER_MINUTE + a.s * MICROS_PER_SECOND + a.us
             < b.mi * MICROS_PER_MINUTE + b.s * MICROS_PER_SECOND + b.us;
    }
  }

  /** Field by field order is microsecond order. */
  lemma FieldOrderIsMicrosOrder(a: int, b: int)
    ensures FieldsLess(TsFields(a), TsFields(b)) <==> a < b
  {
    var f, g := TsFields(a), TsFields(b);
    FieldsOfTs(a);
    FieldsOfTs(b);
    TailLessIsDayThenTime(f.tail, g.tail);
    DaysOrderIff(DateOfFields(f), DateOfFields(g));
    DaysOrderIff(DateOfFields(g), DateOfFields(f));
    TimeOfDayRange(f.tail);
    TimeOfDayRange(g.tail);
    if DateOfFields(f) != DateOfFields(g) {
      assert DateBefore(DateOfFields(f), DateOfFields(g)) || DateBefore(DateOfFields(g), DateOfFields(f));
    }
  }

  // ---------- datediff ----------

  datatype Unit = Year | Month | Day | Hour | Minute | Second

  datatype Moment = DateMoment(days: int) | TsMoment(micros: int) | NotTemporal

  datatype Diff = Ok(n: int) | TypeMismatch

  predicate SameFamily(a: Moment, b: Moment) {
    (a.DateMoment? && b.DateMoment?) || (a.TsMoment? && b.TsMoment?)
  }

  function Expand(v: Moment): Fields
    requires !v.NotTemporal?
  {
    if v.DateMoment? then DateFields(v.days) else TsFields(v.micros)
  }

  function EpochMicros(v: Moment): int
    requires !v.NotTemporal?
  {
    if v.DateMoment? then (v.days - DAYS_0001_TO_1970) * MICROS_PER_DAY else v.micros
  }

  function MonthIndex(f: Fields): int {
    f.y * 12 + (f.m - 1)
  }

  function MonthsBetween(a: Fields, b: Fields): int {
    var months := (b.y - a.y) * 12 + (b.m - a.m);
    if months > 0 && TailLess(b.tail, a.tail) then months - 1
    else if months < 0 && TailLess(a.tail, b.tail) then months + 1
    else months
  }

  function DateDiff(unit: Unit, a: Moment, b: Moment): Diff {
    if !SameFamily(a, b) then TypeMismatch
    else
      var micros := EpochMicros(b) - EpochMicros(a);
      match unit
      case Day => Ok(TruncDiv(micros, MICROS_PER_DAY))
      case Hour => Ok(TruncDiv(micros, MICROS_PER_HOUR))
      case Minute => Ok(TruncDiv(micros, MICROS_PER_MINUTE))
      case Second => Ok(TruncDiv(micros, MICROS_PER_SECOND))
      case Month => Ok(MonthsBetween(Expand(a), Expand(b)))
      case Year => Ok(TruncDiv(MonthsBetween(Expand(a), Expand(b)), 12))
  }

  /** A date is the timestamp of its midnight, fields included. */
  lemma ExpandIsTsFields(v: Moment)
    requires !v.NotTemporal?
    ensures Expand(v) == TsFields(EpochMicros(v))
  {
    hide CivilFromDays;
    if v.DateMoment? {
      Midnight(v.days - DAYS_0001_TO_1970);
    }
  }

  lemma Midnight(day: int)
    ensures (day * MICROS_PER_DAY) / MICROS_PER_DAY == day && (day * MICROS_PER_DAY) % MICROS_PER_DAY == 0
  {
  }

  lemma TruncDivOdd(x: int)
    ensures TruncDiv(-x, MICROS_PER_DAY) == -TruncDiv(x, MICROS_PER_DAY)
    ensures TruncDiv(-x, MICROS_PER_HOUR) == -TruncDiv(x, MICROS_PER_HOUR)
    ensures TruncDiv(-x, MICROS_PER_MINUTE) == -TruncDiv(x, MICROS_PER_MINUTE)
    ensures TruncDiv(-x, MICROS_PER_SECOND) == -TruncDiv(x, MICROS_PER_SECOND)
  {
  }

  lemma MonthsAntisymmetric(a: Fields, b: Fields)
    ensures MonthsBetween(b, a) == -MonthsBetween(a, b)
    ensures TruncDiv(MonthsBetween(b, a), 12) == -TruncDiv(MonthsBetween(a, b), 12)
  {
  }

  /** Swapping the operands negates the difference, in every unit; and the two
    * orders agree on whether the operands can be compared at all. */
  lemma DateDiffAntisymmetric(unit: Unit, a: Moment, b: Moment)
    ensures DateDiff(unit, a, b).Ok? <==> SameFamily(a, b)
    ensures SameFamily(a, b) ==>
              DateDiff(unit, b, a).Ok? && DateDiff(unit, b, a).n == -DateDiff(unit, a, b).n
  {
    if SameFamily(a, b) {
      if unit == Month || unit == Year {
        MonthsAntisymmetric(Expand(a), Expand(b));
      } else {
        TruncDivOdd(EpochMicros(b) - EpochMicros(a));
      }
    }
  }

  /** `n` whole months after `a` is not past `b`. */
  ghost predicate MonthsReach(a: Fields, n: int, b: Fields) {
    MonthIndex(a) + n < MonthIndex(b) ||
    (MonthIndex(a) + n == MonthIndex(b) && !TailLess(b.tail, a.tail))
  }

  lemma TailLessAsymmetric(a: Tail, b: Tail)
    ensures TailLess(a, b) ==> !TailLess(b, a)
  {
  }

  lemma MonthsBetweenOrdered(a: Fields, b: Fields, n: int)
    requires 1 <= a.m <= 12 && 1 <= b.m <= 12 && !FieldsLess(b, a)
    ensures MonthsBetween(a, b) >= 0
    ensures MonthsBetween(a, b) == n <==> MonthsReach(a, n, b) && !MonthsReach(a, n + 1, b)
  {
    TailLessAsymmetric(a.tail, b.tail);
    assert MonthIndex(a) <= MonthIndex(b);
    assert MonthIndex(a) == MonthIndex(b) ==> !TailLess(b.tail, a.tail);
  }

  lemma OrderedMoments(a: Moment, b: Moment)
    requires SameFamily(a, b) && EpochMicros(a) <= EpochMicros(b)
    ensures 1 <= Expand(a).m <= 12 && 1 <= Expand(b).m <= 12
    ensures !FieldsLess(Expand(b), Expand(a))
  {
    ExpandIsTsFields(a);
    ExpandIsTsFields(b);
    FieldsOfTs(EpochMicros(a));
    FieldsOfTs(EpochMicros(b));
    FieldOrderIsMicrosOrder(EpochMicros(b), EpochMicros(a));
  }

  /** For `a <= b` the month result is the only `n` for which `n` whole months
    * fit between them and `n + 1` do not. */
  lemma MonthsAreWholeMonths(a: Moment, b: Moment, n: int)
    requires SameFamily(a, b) && EpochMicros(a) <= EpochMicros(b)
    ensures DateDiff(Month, a, b) == Ok(n) <==>
            MonthsReach(Expand(a), n, Expand(b)) && !MonthsReach(Expand(a), n + 1, Expand(b))
  {
    OrderedMoments(a, b);
    MonthsBetweenOrdered(Expand(a), Expand(b), n);
  }

  function MicrosPer(unit: Unit): int
    requires unit != Month && unit != Year
  {
    match unit
    case Day => MICROS_PER_DAY
    case Hour => MICROS_PER_HOUR
    case Minute => MICROS_PER_MINUTE
    case Second => MICROS_PER_SECOND
  }

  /** The fixed-length units count whole units, toward zero. */
  lemma WholeUnits(unit: Unit, a: Moment, b: Moment)
    requires unit != Month && unit != Year
    requires SameFamily(a, b) && EpochMicros(a) <= EpochMicros(b)
    ensures DateDiff(unit, a, b).n * MicrosPer(unit)
            <= EpochMicros(b) - EpochMicros(a)
            < (DateDiff(unit, a, b).n + 1) * MicrosPer(unit)
  {
  }

  /** A year is twelve whole months, toward zero. */
  lemma WholeYears(a: Moment, b: Moment)
    requires SameFamily(a, b) && EpochMicros(a) <= EpochMicros(b)
    ensures 12 * DateDiff(Year, a, b).n <= DateDiff(Month, a, b).n < 12 * (DateDiff(Year, a, b).n + 1)
  {
    OrderedMoments(a, b);
    MonthsBetweenOrdered(Expand(a), Expand(b), 0);
  }

  // ---------- month-anchored addition ----------

  function Min(a: int, b: int): int {
    if a <= b then a else b
  }

  function AddMonths(t: Date, months: int): Date {
    var total := t.y * 12 + (t.m - 1) + months;
    var ny, nm := total / 12, total % 12 + 1;
    Date(ny, nm, Min(t.d, DaysInMonth(ny, nm)))
  }

  /** The shifted date is valid, lies exactly `months` months away, and keeps
    * the day unless the target month is too short. */
  lemma AddMonthsExact(t: Date, months: int)
    requires ValidDate(t)
    ensures var r := AddMonths(t, months);
            && ValidDate(r)
            && r.y * 12 + r.m == t.y * 12 + t.m + months
            && r.d <= t.d
            && (r.d < t.d ==> r.d == DaysInMonth(r.y, r.m))
  {
  }

  /** Nothing else fits that description. */
  lemma AddMonthsUnique(t: Date, months: int, r: Date)
    requires ValidDate(t) && ValidDate(r)
    requires r.y * 12 + r.m == t.y * 12 + t.m + months
    requires r.d <= t.d && (r.d < t.d ==> r.d == DaysInMonth(r.y, r.m))
    ensures r == AddMonths(t, months)
  {
    var total := t.y * 12 + (t.m - 1) + months;
    assert total == 12 * r.y + (r.m - 1);
    assert total / 12 == r.y && total % 12 == r.m - 1;
  }

  /** Shifting never reorders dates. */
  lemma AddMonthsMonotone(a: Date, b: Date, months: int)
    requires ValidDate(a) && ValidDate(b) && !DateBefore(b, a)
    ensures !DateBefore(AddMonths(b, months), AddMonths(a, months))
  {
    AddMonthsExact(a, months);
    AddMonthsExact(b, months);
  }

  /** Two shifts add up exactly when the month in between keeps the day or is at
    * least as long as the last one; a shift is undone exactly when it kept the
    * day.  Both hold for every day up to 28. */
  lemma AddMonthsAdditive(t: Date, m1: int, m2: int)
    requires ValidDate(t)
    ensures var mid, end := AddMonths(t, m1), AddMonths(t, m1 + m2);
            AddMonths(mid, m2) == end <==>
            t.d <= DaysInMonth(mid.y, mid.m) || DaysInMonth(end.y, end.m) <= DaysInMonth(mid.y, mid.m)
    ensures var mid := AddMonths(t, m1);
            AddMonths(mid, -m1) == t <==> t.d <= DaysInMonth(mid.y, mid.m)
    ensures t.d <= 28 ==>
            AddMonths(AddMonths(t, m1), m2) == AddMonths(t, m1 + m2) && AddMonths(AddMonths(t, m1), -m1) == t
  {
    var mid, end := AddMonths(t, m1), AddMonths(t, m1 + m2);
    AddMonthsDay(t, m1);
    AddMonthsDay(t, m1 + m2);
    AddMonthsDay(mid, m2);
    AddMonthsDay(mid, -m1);
    MonthsFixYear(AddMonths(mid, m2), end);
    MonthsFixYear(AddMonths(mid, -m1), t);
    assert DaysInMonth(mid.y, mid.m) >= 28;
    hide AddMonths, DaysInMonth;
  }

  /** The shifted day in one formula. */
  lemma AddMonthsDay(t: Date, months: int)
    requires ValidDate(t)
    ensures var r := AddMonths(t, months);
            && ValidDate(r) && r.y * 12 + r.m == t.y * 12 + t.m + months
            && r.d == if t.d <= DaysInMonth(r.y, r.m) then t.d else DaysInMonth(r.y, r.m)
  {
    AddMonthsExact(t, months);
  }

  lemma MonthsFixYear(a: Date, b: Date)
    requires ValidDate(a) && ValidDate(b) && a.y * 12 + a.m == b.y * 12 + b.m
    ensures a.y == b.y && a.m == b.m
  {
  }

  lemma MonthsBetweenShift(f: Fields, g: Fields, n: int)
    requires MonthIndex(g) == MonthIndex(f) + n && g.tail == f.tail.(d := g.tail.d) && g.tail.d <= f.tail.d
    ensures MonthsBetween(f, g) == n <==> n <= 0 || g.tail.d == f.tail.d
  {
  }

  lemma DateFieldsOf(r: Date)
    requires ValidDate(r)
    ensures DateFields(DaysFromCivil(r.y, r.m, r.d) + DAYS_0001_TO_1970)
            == Fields(r.y, r.m, Tail(r.d, 0, 0, 0, 0))
  {
    CivilOfDays(r);
  }

  /** `datediff` reads back a month shift except when the shift went forward
    * and had to shorten the day. */
  lemma DateDiffUndoesAddMonths(a: int, n: int)
    ensures var t := DateOfFields(DateFields(a));
            var r := AddMonths(t, n);
            var b := DaysFromCivil(r.y, r.m, r.d) + DAYS_0001_TO_1970;
            DateDiff(Month, DateMoment(a), DateMoment(b)) == Ok(n) <==>
            n <= 0 || t.d <= DaysInMonth(r.y, r.m)
  {
    var f := DateFields(a);
    var t := DateOfFields(f);
    DaysOfCivil(a - DAYS_0001_TO_1970);
    hide CivilFromDays, DaysFromCivil, DaysInMonth, AddMonths;
    AddMonthsExact(t, n);
    var r := AddMonths(t, n);
    DateFieldsOf(r);
    MonthsBetweenShift(f, Fields(r.y, r.m, Tail(r.d, 0, 0, 0, 0)), n);
  }

  // ---------- the supported years ----------

  /** A day serial is in 0..MAX exactly when its civil year is in 0001..9999. */
  lemma SerialRangeIsYearRange(serial: int)
    ensures 0 <= serial <= MAX_DATE_SERIAL <==> 1 <= DateFields(serial).y <= 9999
  {
    var u := serial - DAYS_0001_TO_1970;
    var t := CivilFromDays(u);
    DaysOfCivil(u);
    UnixEpoch();
    DaysOrderIff(t, Date(1, 1, 1));
    DaysOrderIff(Date(9999, 12, 31), t);
  }

  /** Day serials and timestamps of years 0001..9999. */
  predicate SupportedDay(serial: int) {
    0 <= serial <= MAX_DATE_SERIAL
  }

  predicate SupportedTs(micros: int) {
    SupportedDay(micros / MICROS_PER_DAY + DAYS_0001_TO_1970)
  }

  /** Supported is exactly: the year field is in 0001..9999. */
  lemma SupportedIsYearRange(micros: int)
    ensures SupportedTs(micros) <==> 1 <= TsFields(micros).y <= 9999
  {
    SerialRangeIsYearRange(micros / MICROS_PER_DAY + DAYS_0001_TO_1970);
    hide CivilFromDays;
  }
}
