/** Parsing and printing of dates and timestamps (`src/executor/datetime.rs`).
  *
  * A text is a sequence of characters standing for its bytes: every byte of an
  * accepted text is an ASCII digit or separator, so no other byte matters.
  */
module DateText {
  import opened Calendar
  import opened DateArithmetic
  import opened Options

  // ---------- decimal digits ----------

  predicate IsDigit(c: char) {
    '0' <= c <= '9'
  }

  predicate AllDigits(b: string) {
    forall i :: 0 <= i < |b| ==> IsDigit(b[i])
  }

  function DigitValue(c: char): nat
    requires IsDigit(c)
  {
    c as int - '0' as int
  }

  function DigitChar(n: nat): (c: char)
    requires n < 10
    ensures IsDigit(c) && DigitValue(c) == n
  {
    n as char + '0'
  }

  function Number(b: string): nat
    requires AllDigits(b)
  {
    if b == "" then 0 else Number(b[..|b| - 1]) * 10 + DigitValue(b[|b| - 1])
  }

  /** What `digits4` and `digits2` accept: digits only. */
  function ReadDigits(b: string): Option<nat> {
    if AllDigits(b) then Some(Number(b)) else None
  }

  function Pow10(w: nat): nat {
    if w == 0 then 1 else 10 * Pow10(w - 1)
  }

  /** Decimal text of `n`, zero-filled to at least `w` characters (`{:0w}`). */
  function Padded(n: nat, w: nat): string
    decreases n + w
  {
    if n < 10 && w <= 1 then [DigitChar(n)]
    else Padded(n / 10, if w == 0 then 0 else w - 1) + [DigitChar(n % 10)]
  }

  /** A number that fits its width prints in exactly that width and reads back. */
  lemma {:induction false} ReadPadded(n: nat, w: nat)
    requires 1 <= w && n < Pow10(w)
    ensures |Padded(n, w)| == w && ReadDigits(Padded(n, w)) == Some(n)
    decreases w
  {
    if w > 1 {
      ReadPadded(n / 10, w - 1);
      assert Padded(n, w)[..w - 1] == Padded(n / 10, w - 1);
    } else {
      assert Pow10(1) == 10 * Pow10(0) == 10;
      var p := Padded(n, w);
      assert p == [DigitChar(n)] && p[..0] == "";
      assert Number(p) == Number(p[..0]) * 10 + DigitValue(p[0]);
    }
  }

  /** A digit text is the padded print of the number it denotes. */
  lemma {:induction false} PadNumber(b: string)
    requires 1 <= |b| && AllDigits(b)
    ensures Number(b) < Pow10(|b|) && Padded(Number(b), |b|) == b
  {
    var n := |b| - 1;
    assert b == b[..n] + [b[n]];
    if n > 0 {
      PadNumber(b[..n]);
      assert Number(b) / 10 == Number(b[..n]) && Number(b) % 10 == DigitValue(b[n]);
    } else {
      assert b[..0] == "";
    }
  }

  lemma Widths()
    ensures Pow10(2) == 100 && Pow10(4) == 10_000 && Pow10(6) == 1_000_000
  {
    assert Pow10(3) == 1000;
    assert Pow10(5) == 100_000;
  }

  // ---------- dates ----------

  function DateString(y: int, m: nat, d: nat): string {
    (if y >= 0 then Padded(y, 4) else "-" + Padded(-y, 4)) + "-" + Padded(m, 2) + "-" + Padded(d, 2)
  }

  function FormatDate(days: int): string {
    var t := CivilFromDays(days - DAYS_0001_TO_1970);
    DaysOfCivil(days - DAYS_0001_TO_1970);
    DateString(t.y, t.m, t.d)
  }

  function ParseDate(s: string): Option<int> {
    if |s| != 10 || s[4] != '-' || s[7] != '-' then None
    else
      match (ReadDigits(s[0..4]), ReadDigits(s[5..7]), ReadDigits(s[8..10]))
      case (Some(year), Some(month), Some(day)) =>
        if year == 0 || month == 0 || month > 12 then None
        else if day == 0 || day > DaysInMonth(year, month) then None
        else Some(DaysFromCivil(year, month, day) + DAYS_0001_TO_1970)
      case _ => None
  }

  lemma DateStringParts(y: nat, m: nat, d: nat)
    requires 1 <= y <= 9999 && 1 <= m <= 12 && 1 <= d <= 31
    ensures var s := DateString(y, m, d);
            && |s| == 10 && s[4] == '-' && s[7] == '-'
            && ReadDigits(s[0..4]) == Some(y) && ReadDigits(s[5..7]) == Some(m) && ReadDigits(s[8..10]) == Some(d)
  {
    Widths();
    ReadPadded(y, 4);
    ReadPadded(m, 2);
    ReadPadded(d, 2);
    DateSlices(Padded(y, 4), Padded(m, 2), Padded(d, 2));
  }

  lemma DateSlices(a: string, b: string, c: string)
    requires |a| == 4 && |b| == |c| == 2
    ensures var s := a + "-" + b + "-" + c;
            |s| == 10 && s[4] == '-' && s[7] == '-' && s[0..4] == a && s[5..7] == b && s[8..10] == c
  {
  }

  lemma ParseDateString(t: Date)
    requires ValidDate(t) && 1 <= t.y <= 9999
    ensures ParseDate(DateString(t.y, t.m, t.d))
            == Some(DaysFromCivil(t.y, t.m, t.d) + DAYS_0001_TO_1970)
  {
    DateStringParts(t.y, t.m, t.d);
  }

  /** Every date of years 0001..9999 survives print and parse. */
  lemma DateRoundTrip(days: int)
    requires SupportedDay(days)
    ensures ParseDate(FormatDate(days)) == Some(days)
  {
    hide CivilFromDays, DaysFromCivil, DateString, ParseDate;
    SerialRangeIsYearRange(days);
    var u := days - DAYS_0001_TO_1970;
    DaysOfCivil(u);
    ParseDateString(CivilFromDays(u));
  }

  lemma DateStringOfParts(s: string)
    requires |s| == 10 && s[4] == '-' && s[7] == '-'
    requires AllDigits(s[0..4]) && AllDigits(s[5..7]) && AllDigits(s[8..10])
    ensures DateString(Number(s[0..4]), Number(s[5..7]), Number(s[8..10])) == s
    ensures Number(s[0..4]) <= 9999
  {
    Widths();
    PadNumber(s[0..4]);
    PadNumber(s[5..7]);
    PadNumber(s[8..10]);
    assert s == s[0..4] + "-" + s[5..7] + "-" + s[8..10];
  }

  /** An accepted date text is the print of the date it denotes, and that date
    * is in years 0001..9999. */
  lemma ParseDateExact(s: string)
    requires ParseDate(s).Some?
    ensures FormatDate(ParseDate(s).value) == s
    ensures 1 <= DateFields(ParseDate(s).value).y <= 9999
  {
    DateStringOfParts(s);
    CivilOfDays(Date(Number(s[0..4]), Number(s[5..7]), Number(s[8..10])));
  }

  // ---------- timestamps ----------

  function TimeString(h: nat, mi: nat, s: nat): string {
    Padded(h, 2) + ":" + Padded(mi, 2) + ":" + Padded(s, 2)
  }

  function FractionString(us: nat): string {
    if us != 0 then "." + Padded(us, 6) else ""
  }

  function FormatTimestamp(micros: int): string {
    FieldsOfTs(micros);
    var f := TsFields(micros);
    DateString(f.y, f.m, f.tail.d) + " " + TimeString(f.tail.h, f.tail.mi, f.tail.s)
    + FractionString(f.tail.us)
  }

  /** The fraction after the dot, scaled to microseconds. */
  function FractionMicros(frac: string): Option<nat> {
    if frac == "" || |frac| > 6 || !AllDigits(frac) then None
    else Some(Number(frac) * Pow10(6 - |frac|))
  }

  function ParseFraction(s: string): Option<nat>
    requires 19 <= |s|
  {
    if |s| == 19 then Some(0) else if s[19] != '.' then None else FractionMicros(s[20..])
  }

  function ParseTimestamp(s: string): Option<int> {
    if |s| < 10 || ParseDate(s[0..10]).None? then None
    else if |s| == 10 then Some((ParseDate(s[0..10]).value - DAYS_0001_TO_1970) * MICROS_PER_DAY)
    else if |s| < 19 || |s| > 26 || (s[10] != ' ' && s[10] != 'T') || s[13] != ':' || s[16] != ':' then None
    else
      match (ReadDigits(s[11..13]), ReadDigits(s[14..16]), ReadDigits(s[17..19]))
      case (Some(h), Some(mi), Some(sec)) =>
        if h > 23 || mi > 59 || sec > 59 then None
        else
          (match ParseFraction(s)
           case None => None
           case Some(us) => Some((ParseDate(s[0..10]).value - DAYS_0001_TO_1970) * MICROS_PER_DAY
                                 + TimeOfDay(Tail(1, h, mi, sec, us))))
      case _ => None
  }

  lemma TimeStringParts(h: nat, mi: nat, s: nat)
    requires h < 24 && mi < 60 && s < 60
    ensures var t := TimeString(h, mi, s);
            && |t| == 8 && t[2] == ':' && t[5] == ':'
            && ReadDigits(t[0..2]) == Some(h) && ReadDigits(t[3..5]) == Some(mi) && ReadDigits(t[6..8]) == Some(s)
  {
    Widths();
    ReadPadded(h, 2);
    ReadPadded(mi, 2);
    ReadPadded(s, 2);
    TimeSlices(Padded(h, 2), Padded(mi, 2), Padded(s, 2));
  }

  lemma TimeSlices(a: string, b: string, c: string)
    requires |a| == |b| == |c| == 2
    ensures var t := a + ":" + b + ":" + c;
            |t| == 8 && t[2] == ':' && t[5] == ':' && t[0..2] == a && t[3..5] == b && t[6..8] == c
  {
  }

  lemma ParseFractionString(prefix: string, us: nat)
    requires |prefix| == 19 && us < 1_000_000
    ensures var s := prefix + FractionString(us);
            19 <= |s| <= 26 && ParseFraction(s) == Some(us)
  {
    Widths();
    if us != 0 {
      ReadPadded(us, 6);
      var s := prefix + FractionString(us);
      assert s[20..] == Padded(us, 6);
      assert Pow10(0) == 1;
    }
  }

  /** A date text, a separator, a time text and a fraction parse to their parts. */
  lemma ParseAssembled(date: string, sep: char, time: string, frac: string, h: nat, mi: nat, sec: nat)
    requires |date| == 10 && ParseDate(date).Some? && (sep == ' ' || sep == 'T')
    requires |time| == 8 && time[2] == ':' && time[5] == ':' && h <= 23 && mi <= 59 && sec <= 59
    requires ReadDigits(time[0..2]) == Some(h)
    requires ReadDigits(time[3..5]) == Some(mi)
    requires ReadDigits(time[6..8]) == Some(sec)
    requires var s := date + [sep] + time + frac; |s| <= 26 && ParseFraction(s).Some?
    ensures var s := date + [sep] + time + frac;
            ParseTimestamp(s) ==
            Some((ParseDate(date).value - DAYS_0001_TO_1970) * MICROS_PER_DAY
                 + TimeOfDay(Tail(1, h, mi, sec, ParseFraction(s).value)))
  {
    var s := date + [sep] + time + frac;
    assert s[0..10] == date;
    assert s[11..13] == time[0..2];
    assert s[14..16] == time[3..5];
    assert s[17..19] == time[6..8];
  }

  lemma TextOfFieldsParses(date: string, days: int, t: Tail)
    requires |date| == 10 && ParseDate(date) == Some(days) && ValidTime(t)
    ensures ParseTimestamp(date + " " + TimeString(t.h, t.mi, t.s) + FractionString(t.us))
            == Some((days - DAYS_0001_TO_1970) * MICROS_PER_DAY + TimeOfDay(t))
  {
    hide ParseTimestamp, ParseDate, ParseFraction, TimeString, FractionString, ReadDigits;
    var time := TimeString(t.h, t.mi, t.s);
    TimeStringParts(t.h, t.mi, t.s);
    ParseFractionString(date + [' '] + time, t.us);
    ParseAssembled(date, ' ', time, FractionString(t.us), t.h, t.mi, t.s);
  }

  /** Every timestamp of years 0001..9999 survives print and parse. */
  lemma TimestampRoundTrip(micros: int)
    requires SupportedTs(micros)
    ensures ParseTimestamp(FormatTimestamp(micros)) == Some(micros)
  {
    SupportedIsYearRange(micros);
    hide ParseTimestamp, ParseDate, TimeString, FractionString, ReadDigits, DateString;
    hide DaysFromCivil, CivilFromDays;
    var f := TsFields(micros);
    FieldsOfTs(micros);
    DateStringParts(f.y, f.m, f.tail.d);
    ParseDateString(DateOfFields(f));
    TextOfFieldsParses(DateString(f.y, f.m, f.tail.d),
                       DaysFromCivil(f.y, f.m, f.tail.d) + DAYS_0001_TO_1970, f.tail);
  }

  lemma {:induction false} FractionBelowSecond(frac: string)
    requires 1 <= |frac| <= 6 && AllDigits(frac)
    ensures Number(frac) * Pow10(6 - |frac|) < 1_000_000
  {
    PadNumber(frac);
    assert Pow10(1) == 10 && Pow10(2) == 100;
    assert Pow10(3) == 1000 && Pow10(4) == 10_000;
    assert Pow10(5) == 100_000 && Pow10(6) == 1_000_000;
  }

  /** The time part of an accepted text stays within its day. */
  lemma ParsedTimeOfDay(s: string)
    requires ParseTimestamp(s).Some?
    ensures |s| >= 10 && ParseDate(s[0..10]).Some?
    ensures var midnight := (ParseDate(s[0..10]).value - DAYS_0001_TO_1970) * MICROS_PER_DAY;
            midnight <= ParseTimestamp(s).value < midnight + MICROS_PER_DAY
  {
    hide ParseDate, ReadDigits;
    if |s| > 19 {
      FractionBelowSecond(s[20..]);
    }
  }

  /** An accepted timestamp text, with either separator and zero to six fraction
    * digits, denotes a moment of years 0001..9999, so its print denotes it too. */
  lemma ParseTimestampStable(s: string)
    requires ParseTimestamp(s).Some?
    ensures 1 <= TsFields(ParseTimestamp(s).value).y <= 9999
    ensures ParseTimestamp(FormatTimestamp(ParseTimestamp(s).value)) == ParseTimestamp(s)
  {
    hide ParseTimestamp, ParseDate, FormatTimestamp, CivilFromDays;
    ParsedTimeOfDay(s);
    var days := ParseDate(s[0..10]).value;
    ParseDateExact(s[0..10]);
    assert ParseTimestamp(s).value / MICROS_PER_DAY == days - DAYS_0001_TO_1970;
    SupportedIsYearRange(ParseTimestamp(s).value);
    TimestampRoundTrip(ParseTimestamp(s).value);
  }

  // ---------- equal texts ----------

  lemma SamePrefix(s: string, t: string)
    requires |s| >= 19 && |t| >= 19 && s[..19] == t[..19] && |s| <= 26 && |t| <= 26
    requires ParseFraction(s) == ParseFraction(t)
    ensures ParseTimestamp(s) == ParseTimestamp(t)
  {
    assert s[0..10] == s[..19][0..10] == t[0..10];
    assert s[11..13] == s[..19][11..13] == t[11..13];
    assert s[14..16] == s[..19][14..16] == t[14..16];
    assert s[17..19] == s[..19][17..19] == t[17..19];
    assert s[10] == s[..19][10] == t[10] && s[13] == s[..19][13] == t[13] && s[16] == s[..19][16] == t[16];
    hide ParseDate, ReadDigits, ParseFraction;
  }

  lemma FractionZero(frac: string)
    requires 1 <= |frac| <= 5
    ensures FractionMicros(frac + "0") == FractionMicros(frac)
  {
    var more := frac + "0";
    assert more[..|frac|] == frac && more[|frac|] == '0';
    if AllDigits(frac) {
      assert AllDigits(more) && Number(more) == Number(frac) * 10;
      assert Pow10(6 - |frac|) == 10 * Pow10(6 - |more|);
      assert Number(more) * Pow10(6 - |more|) == Number(frac) * (10 * Pow10(6 - |more|));
    } else {
      var i :| 0 <= i < |frac| && !IsDigit(frac[i]);
      assert more[i] == frac[i];
    }
  }

  /** A zero at the end of a fraction of up to five digits changes nothing: digits
    * count from the dot. */
  lemma TrailingZero(s: string)
    requires 21 <= |s| <= 25
    ensures ParseTimestamp(s + "0") == ParseTimestamp(s)
  {
    hide ParseTimestamp, FractionMicros;
    var t := s + "0";
    FractionZero(s[20..]);
    assert t[20..] == s[20..] + "0" && t[..19] == s[..19] && t[19] == s[19];
    SamePrefix(s, t);
  }

  /** Nor does a zero fraction. */
  lemma ZeroFraction(s: string)
    requires |s| == 19
    ensures ParseTimestamp(s + ".0") == ParseTimestamp(s)
  {
    hide ParseTimestamp;
    var t := s + ".0";
    assert t[20..] == "0" && t[..19] == s[..19] && t[19] == '.';
    assert "0"[..0] == "" && Number("0") == 0;
    SamePrefix(s, t);
  }

  /** A date alone denotes its midnight. */
  lemma DateIsMidnight(s: string)
    requires |s| == 10
    ensures ParseTimestamp(s + " 00:00:00") == ParseTimestamp(s)
  {
    var t := s + " 00:00:00";
    assert t[0..10] == s && s[0..10] == s;
    var zeros := "00";
    assert t[11..13] == zeros && t[14..16] == zeros && t[17..19] == zeros;
    assert zeros[..1] == "0" && "0"[..0] == "" && Number("0") == 0 && Number(zeros) == 0;
    hide ParseDate, Number;
  }

  /** Either separator will do. */
  lemma EitherSeparator(s: string)
    requires |s| >= 19 && s[10] == ' '
    ensures ParseTimestamp(s[10 := 'T']) == ParseTimestamp(s)
  {
    var t := s[10 := 'T'];
    assert t[0..10] == s[0..10] && t[11..13] == s[11..13] && t[14..16] == s[14..16] && t[17..19] == s[17..19];
    assert |s| > 19 ==> t[20..] == s[20..];
    hide ParseDate, ReadDigits, FractionMicros;
  }

  // ---------- text order ----------

  /** Dictionary order, a text before its extensions. */
  predicate TextLess(a: string, b: string) {
    if b == "" then false
    else if a == "" then true
    else if a[0] != b[0] then a[0] < b[0]
    else TextLess(a[1..], b[1..])
  }

  lemma {:induction false} TextLessParts(a: string, b: string, c: string, d: string)
    requires |a| == |c|
    ensures TextLess(a + b, c + d) <==> TextLess(a, c) || (a == c && TextLess(b, d))
    decreases |a|
  {
    if a == "" {
      assert a + b == b && c + d == d;
    } else {
      assert (a + b)[1..] == a[1..] + b && (c + d)[1..] == c[1..] + d;
      TextLessParts(a[1..], b, c[1..], d);
      assert a == [a[0]] + a[1..] && c == [c[0]] + c[1..];
    }
  }

  lemma {:induction false} NotLessThanItself(a: string)
    ensures !TextLess(a, a)
  {
    if a != "" {
      NotLessThanItself(a[1..]);
    }
  }

  /** Numbers of one width sort as their texts: the leading digit comes first. */
  lemma {:induction false} PaddedOrder(x: nat, y: nat, w: nat)
    requires 1 <= w && x < Pow10(w) && y < Pow10(w)
    ensures TextLess(Padded(x, w), Padded(y, w)) <==> x < y
    ensures Padded(x, w) == Padded(y, w) <==> x == y
    decreases w
  {
    ReadPadded(x, w);
    ReadPadded(y, w);
    if w > 1 {
      assert Pow10(w) == 10 * Pow10(w - 1);
      PaddedOrder(x / 10, y / 10, w - 1);
      ReadPadded(x / 10, w - 1);
      ReadPadded(y / 10, w - 1);
      TextLessParts(Padded(x / 10, w - 1), [DigitChar(x % 10)], Padded(y / 10, w - 1), [DigitChar(y % 10)]);
      DigitOrder(x % 10, y % 10);
      hide Padded, TextLess;
      PaddedLast(x, w);
      PaddedLast(y, w);
    } else {
      assert Pow10(1) == 10 * Pow10(0) == 10;
      DigitOrder(x, y);
    }
  }

  lemma PaddedLast(n: nat, w: nat)
    requires w > 1
    ensures Padded(n, w) == Padded(n / 10, w - 1) + [DigitChar(n % 10)]
  {
  }

  lemma DigitOrder(x: nat, y: nat)
    requires x < 10 && y < 10
    ensures TextLess([DigitChar(x)], [DigitChar(y)]) <==> x < y
  {
    var a, b := [DigitChar(x)], [DigitChar(y)];
    assert a[1..] == "" && b[1..] == "";
  }

  /** A separator between parts of one width. */
  lemma FieldOrder(a: string, rest: string, c: string, rest': string, sep: char)
    requires |a| == |c|
    ensures TextLess(a + [sep] + rest, c + [sep] + rest') <==> TextLess(a, c) || (a == c && TextLess(rest, rest'))
  {
    assert a + [sep] + rest == a + ([sep] + rest) && c + [sep] + rest' == c + ([sep] + rest');
    TextLessParts(a, [sep] + rest, c, [sep] + rest');
    TextLessParts([sep], rest, [sep], rest');
    NotLessThanItself([sep]);
  }

  lemma TwoNumbers(x: nat, y: nat, w: nat)
    requires w in {2, 4, 6} && x < Pow10(w) && y < Pow10(w)
    ensures |Padded(x, w)| == |Padded(y, w)| == w
    ensures TextLess(Padded(x, w), Padded(y, w)) <==> x < y
    ensures Padded(x, w) == Padded(y, w) <==> x == y
  {
    PaddedOrder(x, y, w);
    ReadPadded(x, w);
    ReadPadded(y, w);
  }

  /** Three parts, all but the last of one width. */
  lemma ThreeParts(a: string, b: string, c: string, a': string, b': string, c': string, sep: char)
    requires |a| == |a'| && |b| == |b'|
    ensures TextLess(a + [sep] + b + [sep] + c, a' + [sep] + b' + [sep] + c') <==>
            TextLess(a, a') || (a == a' && (TextLess(b, b') || (b == b' && TextLess(c, c'))))
  {
    hide TextLess;
    FieldOrder(a, b + [sep] + c, a', b' + [sep] + c', sep);
    FieldOrder(b, c, b', c', sep);
    assert a + [sep] + b + [sep] + c == a + [sep] + (b + [sep] + c);
    assert a' + [sep] + b' + [sep] + c' == a' + [sep] + (b' + [sep] + c');
  }

  lemma DateStringOrder(t: Date, u: Date)
    requires ValidDate(t) && 1 <= t.y <= 9999 && ValidDate(u) && 1 <= u.y <= 9999
    ensures TextLess(DateString(t.y, t.m, t.d), DateString(u.y, u.m, u.d)) <==> DateBefore(t, u)
    ensures |DateString(t.y, t.m, t.d)| == |DateString(u.y, u.m, u.d)| == 10
  {
    hide Padded, TextLess, Pow10;
    Widths();
    TwoNumbers(t.y, u.y, 4);
    TwoNumbers(t.m, u.m, 2);
    TwoNumbers(t.d, u.d, 2);
    ThreeParts(Padded(t.y, 4), Padded(t.m, 2), Padded(t.d, 2), Padded(u.y, 4), Padded(u.m, 2), Padded(u.d, 2), '-');
  }

  lemma SameDateString(t: Date, u: Date)
    requires ValidDate(t) && 1 <= t.y <= 9999 && ValidDate(u) && 1 <= u.y <= 9999
    ensures DateString(t.y, t.m, t.d) == DateString(u.y, u.m, u.d) ==> t == u
  {
    DateStringParts(t.y, t.m, t.d);
    DateStringParts(u.y, u.m, u.d);
    hide DateString, ReadDigits;
  }

  /** Dates of years 0001..9999 sort as their texts do. */
  lemma DateTextOrder(a: int, b: int)
    requires SupportedDay(a) && SupportedDay(b)
    ensures TextLess(FormatDate(a), FormatDate(b)) <==> a < b
  {
    hide CivilFromDays, DaysFromCivil, DateString, TextLess;
    SerialRangeIsYearRange(a);
    SerialRangeIsYearRange(b);
    var t, u := CivilFromDays(a - DAYS_0001_TO_1970), CivilFromDays(b - DAYS_0001_TO_1970);
    DaysOfCivil(a - DAYS_0001_TO_1970);
    DaysOfCivil(b - DAYS_0001_TO_1970);
    DateStringOrder(t, u);
    DaysOrderIff(t, u);
  }

  lemma TimeStringOrder(t: Tail, u: Tail)
    requires ValidTime(t) && ValidTime(u)
    ensures var x := TimeString(t.h, t.mi, t.s) + FractionString(t.us);
            var y := TimeString(u.h, u.mi, u.s) + FractionString(u.us);
            TextLess(x, y) <==> TailLess(t.(d := 1), u.(d := 1))
  {
    hide Padded, TextLess, Pow10, FractionString;
    Widths();
    TwoNumbers(t.h, u.h, 2);
    TwoNumbers(t.mi, u.mi, 2);
    TwoNumbers(t.s, u.s, 2);
    FractionOrder(t.us, u.us);
    var f, g := FractionString(t.us), FractionString(u.us);
    TextLessParts(Padded(t.s, 2), f, Padded(u.s, 2), g);
    ThreeParts(Padded(t.h, 2), Padded(t.mi, 2), Padded(t.s, 2) + f,
               Padded(u.h, 2), Padded(u.mi, 2), Padded(u.s, 2) + g, ':');
    assert TimeString(t.h, t.mi, t.s) + f
        == Padded(t.h, 2) + [':'] + Padded(t.mi, 2) + [':'] + (Padded(t.s, 2) + f);
    assert TimeString(u.h, u.mi, u.s) + g
        == Padded(u.h, 2) + [':'] + Padded(u.mi, 2) + [':'] + (Padded(u.s, 2) + g);
  }

  lemma FractionOrder(x: nat, y: nat)
    requires x < 1_000_000 && y < 1_000_000
    ensures TextLess(FractionString(x), FractionString(y)) <==> x < y
  {
    Widths();
    if x != 0 && y != 0 {
      PaddedOrder(x, y, 6);
      TextLessParts(".", Padded(x, 6), ".", Padded(y, 6));
      NotLessThanItself(".");
    }
  }

  lemma StampOrder(f: Fields, g: Fields)
    requires ValidFields(f) && 1 <= f.y <= 9999 && ValidFields(g) && 1 <= g.y <= 9999
    ensures TextLess(StampString(f), StampString(g)) <==> FieldsLess(f, g)
  {
    hide DateString, TextLess, TimeString, FractionString;
    DateStringOrder(DateOfFields(f), DateOfFields(g));
    SameDateString(DateOfFields(f), DateOfFields(g));
    TimeStringOrder(f.tail, g.tail);
    FieldOrder(DateString(f.y, f.m, f.tail.d), TimeString(f.tail.h, f.tail.mi, f.tail.s) + FractionString(f.tail.us),
               DateString(g.y, g.m, g.tail.d), TimeString(g.tail.h, g.tail.mi, g.tail.s) + FractionString(g.tail.us),
               ' ');
  }

  function StampString(f: Fields): string
    requires ValidFields(f)
  {
    DateString(f.y, f.m, f.tail.d) + " " + (TimeString(f.tail.h, f.tail.mi, f.tail.s) + FractionString(f.tail.us))
  }

  lemma StampIsFormat(micros: int)
    ensures ValidFields(TsFields(micros)) && StampString(TsFields(micros)) == FormatTimestamp(micros)
  {
    FieldsOfTs(micros);
    hide DateString, TimeString, FractionString, TsFields;
  }

  /** Timestamps of years 0001..9999 sort as their texts do. */
  lemma TimestampTextOrder(a: int, b: int)
    requires SupportedTs(a) && SupportedTs(b)
    ensures TextLess(FormatTimestamp(a), FormatTimestamp(b)) <==> a < b
  {
    hide *;
    SupportedIsYearRange(a);
    SupportedIsYearRange(b);
    StampIsFormat(a);
    StampIsFormat(b);
    FieldOrderIsMicrosOrder(a, b);
    StampOrder(TsFields(a), TsFields(b));
  }

  // ---------- the digit loops ----------

  /** The loop of `digits4`: left to right, giving up at the first non-digit. */
  method Digits(b: string) returns (r: Option<nat>)
    ensures r == ReadDigits(b)
  {
    var v: nat := 0;
    for i := 0 to |b|
      invariant AllDigits(b[..i]) && v == Number(b[..i])
    {
      if !IsDigit(b[i]) {
        return None;
      }
      assert b[..i + 1][..i] == b[..i];
      v := v * 10 + DigitValue(b[i]);
    }
    assert b[..|b|] == b;
    return Some(v);
  }

  /** The fraction loops of `parse_timestamp`: read the digits, then scale by
    * ten once per missing digit. */
  method ScaleFraction(frac: string) returns (r: Option<nat>)
    ensures r == FractionMicros(frac)
  {
    if frac == "" || |frac| > 6 {
      return None;
    }
    var digits := Digits(frac);
    if digits.None? {
      return None;
    }
    var value := digits.value;
    for k := 0 to 6 - |frac|
      invariant value == digits.value * Pow10(k)
    {
      value := value * 10;
    }
    return Some(value);
  }
}
