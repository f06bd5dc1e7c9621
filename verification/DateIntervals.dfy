/** Adding intervals to dates and timestamps (`src/executor/datetime.rs`), with
  * the 64-bit wrap-around of a release build.
  *
  * An interval is a number of months and a number of microseconds.  Months are
  * added on the calendar, microseconds linearly.  The linear part is computed in
  * signed 64-bit words: for very large month counts the product of days and
  * microseconds per day wraps, and a wrapped sum can land in the supported
  * years.  The lemmas say what the code returns on every input, and exactly when
  * that is the true sum.
  */
module DateIntervals {
  import opened Calendar
  import opened DateArithmetic

  datatype Sum = InRange(value: int) | OutOfRange

  const WORD := 0x1_0000_0000_0000_0000
  const HALF_WORD := 0x8000_0000_0000_0000

  /** The microseconds of years 0001..9999. */
  const SPAN := 315_537_897_600_000_000

  /** From the start of year 1 to the Unix epoch, in microseconds. */
  const EPOCH_MICROS := 62_135_596_800_000_000

  /** The signed 64-bit word congruent to `x`. */
  function Wrap(x: int): int {
    (x + HALF_WORD) % WORD - HALF_WORD
  }

  predicate FitsI64(x: int) {
    -HALF_WORD <= x < HALF_WORD
  }

  // ---------- the code's sums ----------

  /** The serial of a date moved by whole months. */
  function ShiftDate(days: int, months: int): int {
    var r := AddMonths(DateOfFields(DateFields(days)), months);
    DaysFromCivil(r.y, r.m, r.d) + DAYS_0001_TO_1970
  }

  /** Fields moved by whole months, time of day untouched. */
  function ShiftFields(f: Fields, months: int): Fields {
    var r := AddMonths(DateOfFields(f), months);
    Fields(r.y, r.m, f.tail.(d := r.d))
  }

  function ShiftTs(micros: int, months: int): int {
    MicrosOf(ShiftFields(TsFields(micros), months))
  }

  function AddIntervalToDate(days: int, months: int, micros: int): Sum {
    var ts := Wrap(Wrap(ShiftDate(days, months) * MICROS_PER_DAY) + micros);
    var serial := ts / MICROS_PER_DAY;
    if 0 <= serial <= MAX_DATE_SERIAL then InRange(serial) else OutOfRange
  }

  function AddIntervalToTs(micros: int, months: int, delta: int): Sum {
    var f := ShiftFields(TsFields(micros), months);
    var days := DaysFromCivil(f.y, f.m, f.tail.d);
    var result := Wrap(Wrap(Wrap(days * MICROS_PER_DAY) + TimeOfDay(f.tail)) + delta);
    if 1 <= TsFields(result).y <= 9999 then InRange(result) else OutOfRange
  }

  // ---------- wrap-around ----------

  lemma WrapShifts(x: int, k: int)
    ensures Wrap(x + k * WORD) == Wrap(x)
    ensures FitsI64(x) ==> Wrap(x) == x
    ensures FitsI64(Wrap(x))
  {
    ModShift(x + HALF_WORD, k);
  }

  lemma ModShift(x: int, k: int)
    ensures (x + k * WORD) % WORD == x % WORD
  {
    assert x == WORD * (x / WORD) + x % WORD;
    assert x + k * WORD == WORD * (x / WORD + k) + x % WORD;
    DivUnique(x + k * WORD, x / WORD + k, x % WORD);
  }

  lemma DivUnique(x: int, q: int, r: int)
    requires x == WORD * q + r && 0 <= r < WORD
    ensures x / WORD == q && x % WORD == r
  {
  }

  lemma WrapIsCongruent(x: int) returns (k: int)
    ensures Wrap(x) == x + k * WORD
  {
    k := -((x + HALF_WORD) / WORD);
  }

  /** Wrapping early changes nothing. */
  lemma WrapAbsorbs(a: int, b: int)
    ensures Wrap(Wrap(a) + b) == Wrap(a + b)
  {
    var k := WrapIsCongruent(a);
    WrapShifts(a + b, k);
  }

  /** A wrapped number is in the first `SPAN` of the word exactly if the residue is. */
  lemma WrapWindow(x: int)
    ensures 0 <= Wrap(x) < SPAN <==> x % WORD < SPAN
    ensures x % WORD < SPAN ==> Wrap(x) == x % WORD
  {
    var k := WrapIsCongruent(x);
    ModShift(x, k);
    WrapShifts(x, 0);
  }

  // ---------- what the code returns ----------

  /** Whether a sum that is `x` microseconds after the start of year 1 comes back
    * from the 64-bit arithmetic as some other date. */
  predicate Misplaced(x: int) {
    x % WORD < SPAN && !(0 <= x < SPAN)
  }

  lemma SpanOfDays(y: int)
    ensures 0 <= y / MICROS_PER_DAY <= MAX_DATE_SERIAL <==> 0 <= y < SPAN
  {
  }

  /** The unwrapped sum of a date, in microseconds since the start of year 1. */
  function DateSumMicros(days: int, months: int, micros: int): int {
    ShiftDate(days, months) * MICROS_PER_DAY + micros
  }

  function TrueDateSum(days: int, months: int, micros: int): Sum {
    var day := ShiftDate(days, months) + micros / MICROS_PER_DAY;
    if 1 <= DateFields(day).y <= 9999 then InRange(day) else OutOfRange
  }

  lemma DayCarry(base: int, micros: int)
    ensures (base * MICROS_PER_DAY + micros) / MICROS_PER_DAY == base + micros / MICROS_PER_DAY
  {
  }

  /** Date plus interval: months first, then the linear part rounded down to a
    * day, all modulo one word; the result is a day of years 0001..9999 or an
    * error, and it is the true one exactly when the sum is not misplaced. */
  lemma DateIntervalSum(days: int, months: int, micros: int)
    ensures var x := DateSumMicros(days, months, micros);
            var sum := AddIntervalToDate(days, months, micros);
            && sum == (if x % WORD < SPAN then InRange(x % WORD / MICROS_PER_DAY) else OutOfRange)
            && (sum == TrueDateSum(days, months, micros) <==> !Misplaced(x))
  {
    hide ShiftDate, DateFields;
    var base := ShiftDate(days, months);
    var x := base * MICROS_PER_DAY + micros;
    WrapAbsorbs(base * MICROS_PER_DAY, micros);
    WrapWindow(x);
    SpanOfDays(Wrap(x));
    DayCarry(base, micros);
    SpanOfDays(x);
    SerialRangeIsYearRange(base + micros / MICROS_PER_DAY);
    SmallResidue(x);
    hide Wrap;
  }

  lemma SmallResidue(x: int)
    ensures 0 <= x < SPAN ==> x % WORD == x
  {
  }

  /** The unwrapped sum of a timestamp, in microseconds since the start of year 1. */
  function TsSumMicros(micros: int, months: int, delta: int): int {
    ShiftTs(micros, months) + delta + EPOCH_MICROS
  }

  function TrueTsSum(micros: int, months: int, delta: int): Sum {
    var result := ShiftTs(micros, months) + delta;
    if 1 <= TsFields(result).y <= 9999 then InRange(result) else OutOfRange
  }

  lemma SupportedIsSpan(micros: int)
    ensures 1 <= TsFields(micros).y <= 9999 <==> 0 <= micros + EPOCH_MICROS < SPAN
  {
    SupportedIsYearRange(micros);
    DayCarry(DAYS_0001_TO_1970, micros);
    SpanOfDays(micros + EPOCH_MICROS);
    hide TsFields;
  }

  lemma WrapWindowAt(x: int)
    ensures 0 <= Wrap(x) + EPOCH_MICROS < SPAN <==> (x + EPOCH_MICROS) % WORD < SPAN
    ensures (x + EPOCH_MICROS) % WORD < SPAN ==> Wrap(x) + EPOCH_MICROS == (x + EPOCH_MICROS) % WORD
  {
    var k := WrapIsCongruent(x);
    ModShift(x + EPOCH_MICROS, k);
    WrapShifts(x, 0);
    assert FitsI64(Wrap(x));
  }

  /** Timestamp plus interval: the month shift, then the linear part, modulo one
    * word; in years 0001..9999 or an error, and true exactly when not misplaced. */
  lemma TsIntervalSum(micros: int, months: int, delta: int)
    ensures var x := TsSumMicros(micros, months, delta);
            var sum := AddIntervalToTs(micros, months, delta);
            && sum == (if x % WORD < SPAN then InRange(x % WORD - EPOCH_MICROS) else OutOfRange)
            && (sum == TrueTsSum(micros, months, delta) <==> !Misplaced(x))
  {
    hide TsFields, ShiftFields;
    var f := ShiftFields(TsFields(micros), months);
    var days := DaysFromCivil(f.y, f.m, f.tail.d) * MICROS_PER_DAY;
    var exact := ShiftTs(micros, months) + delta;
    assert exact == days + TimeOfDay(f.tail) + delta;
    WrapAbsorbs(days, TimeOfDay(f.tail));
    WrapAbsorbs(days + TimeOfDay(f.tail), delta);
    WrapWindowAt(exact);
    SupportedIsSpan(Wrap(exact));
    SupportedIsSpan(exact);
    SmallResidue(exact + EPOCH_MICROS);
    hide Wrap;
  }

  /** A month shift keeps the time of day and moves the civil date by `AddMonths`. */
  lemma TsMonthShift(micros: int, months: int)
    ensures var f, g := TsFields(micros), TsFields(ShiftTs(micros, months));
            DateOfFields(g) == AddMonths(DateOfFields(f), months) && TimeOfDay(g.tail) == TimeOfDay(f.tail)
  {
    var f := TsFields(micros);
    FieldsOfTs(micros);
    ShiftFieldsValid(f, months);
    TsOfFields(ShiftFields(f, months));
  }

  lemma ShiftFieldsValid(f: Fields, months: int)
    requires ValidFields(f)
    ensures ValidFields(ShiftFields(f, months))
  {
    AddMonthsExact(DateOfFields(f), months);
  }

  // ---------- how many months are safe ----------

  /** The largest month count, either way, for which no sum is misplaced. */
  const SAFE_MONTHS := 3_387_336

  lemma LaterMonth(t: Date, m1: int, m2: int)
    requires ValidDate(t) && m1 <= m2
    ensures ValidDate(AddMonths(t, m1)) && ValidDate(AddMonths(t, m2))
    ensures !DateBefore(AddMonths(t, m2), AddMonths(t, m1))
  {
    AddMonthsExact(t, m1);
    AddMonthsExact(t, m2);
  }

  lemma NotBeforeDays(a: Date, b: Date)
    requires ValidDate(a) && ValidDate(b) && !DateBefore(b, a)
    ensures DaysFromCivil(a.y, a.m, a.d) <= DaysFromCivil(b.y, b.m, b.d)
  {
    DaysOrderIff(b, a);
  }

  /** A later date, moved by more months, is not earlier. */
  lemma ShiftDateMonotone(d1: int, d2: int, m1: int, m2: int)
    requires d1 <= d2 && m1 <= m2
    ensures ShiftDate(d1, m1) <= ShiftDate(d2, m2)
  {
    var t1, t2 := DateOfFields(DateFields(d1)), DateOfFields(DateFields(d2));
    DaysOfCivil(d1 - DAYS_0001_TO_1970);
    DaysOfCivil(d2 - DAYS_0001_TO_1970);
    DaysOrderIff(t2, t1);
    AddMonthsMonotone(t1, t2, m1);
    LaterMonth(t1, m1, m1);
    LaterMonth(t2, m1, m2);
    hide AddMonths, DaysFromCivil, CivilFromDays;
    NotBeforeDays(AddMonths(t1, m1), AddMonths(t2, m1));
    NotBeforeDays(AddMonths(t2, m1), AddMonths(t2, m2));
  }

  lemma FirstAndLastDay()
    ensures DateOfFields(DateFields(0)) == Date(1, 1, 1)
    ensures DateOfFields(DateFields(MAX_DATE_SERIAL)) == Date(9999, 12, 31)
  {
    UnixEpoch();
    CivilOfDays(Date(1, 1, 1));
    CivilOfDays(Date(9999, 12, 31));
  }

  /** The extreme days at the threshold and one month beyond. */
  lemma AtTheThreshold()
    ensures ShiftDate(MAX_DATE_SERIAL, SAFE_MONTHS) == 106_751_981
    ensures ShiftDate(MAX_DATE_SERIAL, SAFE_MONTHS + 1) == 106_752_012
    ensures ShiftDate(0, -SAFE_MONTHS) == -103_099_923
    ensures ShiftDate(0, -SAFE_MONTHS - 1) == -103_099_954
  {
    hide CivilFromDays, DaysFromCivil, AddMonths;
    FirstAndLastDay();
    LastDayShifted();
    FirstDayShifted();
  }

  lemma LastDayShifted()
    ensures AddMonths(Date(9999, 12, 31), SAFE_MONTHS) == Date(292_277, 12, 31)
    ensures AddMonths(Date(9999, 12, 31), SAFE_MONTHS + 1) == Date(292_278, 1, 31)
    ensures DaysFromCivil(292_277, 12, 31) == 106_032_819 && DaysFromCivil(292_278, 1, 31) == 106_032_850
  {
  }

  lemma FirstDayShifted()
    ensures AddMonths(Date(1, 1, 1), -SAFE_MONTHS) == Date(-282_277, 1, 1)
    ensures AddMonths(Date(1, 1, 1), -SAFE_MONTHS - 1) == Date(-282_278, 12, 1)
    ensures DaysFromCivil(-282_277, 1, 1) == -103_819_085 && DaysFromCivil(-282_278, 12, 1) == -103_819_116
  {
  }

  lemma SafeShift(days: int, months: int)
    requires SupportedDay(days) && -SAFE_MONTHS <= months <= SAFE_MONTHS
    ensures -103_099_923 <= ShiftDate(days, months) <= 106_751_981
  {
    AtTheThreshold();
    ShiftDateMonotone(0, days, -SAFE_MONTHS, months);
    ShiftDateMonotone(days, MAX_DATE_SERIAL, months, SAFE_MONTHS);
  }

  lemma NotMisplaced(x: int)
    requires SPAN - WORD <= x < WORD
    ensures !Misplaced(x)
  {
    if x < 0 {
      DivUnique(x, -1, x + WORD);
    }
  }

  /** Beyond the threshold some supported day and some 64-bit count of
    * microseconds give a wrong date. */
  lemma UnsafeMonths(months: int) returns (days: int, micros: int)
    requires months < -SAFE_MONTHS || SAFE_MONTHS < months
    ensures SupportedDay(days) && FitsI64(micros) && Misplaced(DateSumMicros(days, months, micros))
  {
    hide ShiftDate, Misplaced;
    AtTheThreshold();
    if months > 0 {
      days := MAX_DATE_SERIAL;
      ShiftDateMonotone(days, days, SAFE_MONTHS + 1, months);
    } else {
      days := 0;
      ShiftDateMonotone(days, days, months, -SAFE_MONTHS - 1);
    }
    micros := MisplacedBeyond(ShiftDate(days, months) * MICROS_PER_DAY);
  }

  lemma MisplacedBeyond(base: int) returns (micros: int)
    requires base > HALF_WORD || base < SPAN - HALF_WORD
    ensures FitsI64(micros) && Misplaced(base + micros)
  {
    if -HALF_WORD <= base < SPAN - HALF_WORD {
      micros := -HALF_WORD;
      DivUnique(base + micros, -1, base + micros + WORD);
    } else {
      micros := Wrap(-base);
      var k := WrapIsCongruent(-base);
      WrapShifts(-base, 0);
      hide Wrap;
      assert base + micros == WORD * k;
      DivUnique(base + micros, k, 0);
    }
  }

  /** The answer is right for every supported day and every 64-bit count of
    * microseconds exactly up to `SAFE_MONTHS` months in either direction. */
  lemma DateSumSafeMonths(months: int)
    ensures -SAFE_MONTHS <= months <= SAFE_MONTHS <==>
            forall days: int, micros: int :: SupportedDay(days) && FitsI64(micros) ==>
              AddIntervalToDate(days, months, micros) == TrueDateSum(days, months, micros)
  {
    hide AddIntervalToDate, TrueDateSum, Misplaced, SupportedDay, ShiftDate;
    if -SAFE_MONTHS <= months <= SAFE_MONTHS {
      forall days: int, micros: int | SupportedDay(days) && FitsI64(micros)
        ensures AddIntervalToDate(days, months, micros) == TrueDateSum(days, months, micros)
      {
        DateIntervalSum(days, months, micros);
        SafeShift(days, months);
        NotMisplaced(DateSumMicros(days, months, micros));
      }
    } else {
      var days, micros := UnsafeMonths(months);
      DateIntervalSum(days, months, micros);
    }
  }

  /** A timestamp moved by months is its day moved, plus its time of day. */
  lemma TsIsDayAndTime(micros: int, months: int)
    ensures var f := TsFields(micros);
            && 0 <= TimeOfDay(f.tail) < MICROS_PER_DAY
            && ShiftTs(micros, months) + EPOCH_MICROS
               == ShiftDate(micros / MICROS_PER_DAY + DAYS_0001_TO_1970, months) * MICROS_PER_DAY + TimeOfDay(f.tail)
  {
    FieldsOfTs(micros);
    TimeOfDayRange(TsFields(micros).tail);
    hide AddMonths, CivilFromDays, DaysFromCivil;
  }

  /** The same threshold holds for timestamps. */
  lemma TsSumSafeMonths(months: int)
    ensures -SAFE_MONTHS <= months <= SAFE_MONTHS <==>
            forall micros: int, delta: int :: SupportedTs(micros) && FitsI64(delta) ==>
              AddIntervalToTs(micros, months, delta) == TrueTsSum(micros, months, delta)
  {
    if -SAFE_MONTHS <= months <= SAFE_MONTHS {
      forall micros: int, delta: int | SupportedTs(micros) && FitsI64(delta)
        ensures AddIntervalToTs(micros, months, delta) == TrueTsSum(micros, months, delta)
      {
        TsIntervalSum(micros, months, delta);
        TsIsDayAndTime(micros, months);
        SafeShift(micros / MICROS_PER_DAY + DAYS_0001_TO_1970, months);
        hide AddIntervalToTs, TrueTsSum, Misplaced, ShiftDate, ShiftTs, TsFields;
        NotMisplaced(TsSumMicros(micros, months, delta));
      }
    } else {
      var days, delta := UnsafeMonths(months);
      var micros := (days - DAYS_0001_TO_1970) * MICROS_PER_DAY;
      Midnight(days - DAYS_0001_TO_1970);
      MidnightTime(micros);
      TsIsDayAndTime(micros, months);
      TsIntervalSum(micros, months, delta);
      hide AddIntervalToTs, TrueTsSum, Misplaced, ShiftDate, ShiftTs, TsFields;
      assert TsSumMicros(micros, months, delta) == DateSumMicros(days, months, delta);
      assert SupportedTs(micros);
    }
  }

  lemma MidnightTime(micros: int)
    requires micros % MICROS_PER_DAY == 0
    ensures TimeOfDay(TsFields(micros).tail) == 0
  {
    hide CivilFromDays;
  }

  /** 1 January 2024 plus 584,000 years is accepted as a day of the year 1469. */
  lemma WrongDate()
    ensures AddIntervalToDate(738_885, 7_008_000, 0) == InRange(536_522)
    ensures TrueDateSum(738_885, 7_008_000, 0) == OutOfRange
  {
    CivilOfDays(Date(2024, 1, 1));
    assert DaysFromCivil(2024, 1, 1) + DAYS_0001_TO_1970 == 738_885;
    assert DateOfFields(DateFields(738_885)) == Date(2024, 1, 1);
    assert AddMonths(Date(2024, 1, 1), 7_008_000) == Date(586_024, 1, 1);
    assert DaysFromCivil(586_024, 1, 1) + DAYS_0001_TO_1970 == 214_040_505;
    var x := DateSumMicros(738_885, 7_008_000, 0);
    assert x == 18_493_099_632_000_000_000;
    DateIntervalSum(738_885, 7_008_000, 0);
    DivUnique(x, 1, x - WORD);
    hide AddIntervalToDate, TrueDateSum, DateSumMicros;
  }

  // ---------- the other intermediates ----------

  /** Before the product of days and microseconds, nothing overflows: from any
    * supported date and any 32-bit month count the month index and the year stay
    * far inside their types. */
  lemma EarlierStepsFit(t: Date, months: int)
    requires ValidDate(t) && 1 <= t.y <= 9999 && -0x8000_0000 <= months <= 0x8000_0000
    ensures var r := AddMonths(t, months);
            && FitsI64(t.y * 12 + (t.m - 1) + months)
            && -0x8000_0000 <= r.y < 0x8000_0000
            && -66_000_000_000 <= DaysFromCivil(r.y, r.m, r.d) <= 66_000_000_000
  {
    AddMonthsExact(t, months);
    var r := AddMonths(t, months);
    hide AddMonths;
    assert -178_970_000 <= r.y <= 178_970_000;
    DaysOrderIff(r, Date(-178_970_000, 1, 1));
    DaysOrderIff(Date(178_970_000, 12, 31), r);
  }

  lemma DaysBound(t: Date)
    requires ValidDate(t) && -200_000 <= t.y <= 210_000
    ensures -73_768_028 <= DaysFromCivil(t.y, t.m, t.d) <= 75_981_762
  {
    var lo, hi := Date(-200_000, 1, 1), Date(210_000, 12, 31);
    assert DaysFromCivil(-200_000, 1, 1) == -73_768_028;
    DaysOrderIff(t, lo);
    DaysOrderIff(hi, t);
  }

  /** From any base in years 0001..9999, with at most 2,400,000 months and
    * 10^18 microseconds, every intermediate of both additions fits 64 bits. */
  lemma NoOverflow(micros: int, months: int, delta: int)
    requires SupportedTs(micros)
    requires -2_400_000 <= months <= 2_400_000
    requires -1_000_000_000_000_000_000 <= delta <= 1_000_000_000_000_000_000
    ensures var f := TsFields(micros);
            var r := AddMonths(DateOfFields(f), months);
            var days := DaysFromCivil(r.y, r.m, r.d);
            && FitsI64(f.y * 12 + (f.m - 1) + months)
            && FitsI64(days * MICROS_PER_DAY)
            && FitsI64(days * MICROS_PER_DAY + TimeOfDay(f.tail))
            && FitsI64(days * MICROS_PER_DAY + TimeOfDay(f.tail) + delta)
            && FitsI64((days + DAYS_0001_TO_1970) * MICROS_PER_DAY)
            && FitsI64((days + DAYS_0001_TO_1970) * MICROS_PER_DAY + delta)
  {
    var f := TsFields(micros);
    SupportedIsYearRange(micros);
    FieldsOfTs(micros);
    TimeOfDayRange(f.tail);
    AddMonthsExact(DateOfFields(f), months);
    DaysBound(AddMonths(DateOfFields(f), months));
  }
}
