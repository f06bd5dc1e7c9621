/** Order-preserving secondary index keys (`src/executor/value.rs`, generation 1)
  * and the range sentinels built from a prefix constraint.
  *
  * A key is the concatenation of its columns' codes, zero-filled to 32 bytes and
  * compared byte by byte.  The main results: key order is column order, and a
  * key lies between the sentinels exactly when its row meets the constraint.
  */
module KeyEncoding {
  import opened Options
  import opened Values

  const MAX_KEY_LEN: nat := 32

  type Bytes = seq<Byte>

  datatype ColumnType = IntColumn | StringColumn | OtherColumn

  // ---------- byte order ----------

  /** `a` and `b` agree before position `i`, where `a` has the smaller byte. */
  predicate DiffersAt(a: Bytes, b: Bytes, i: nat) {
    i < |a| && i < |b| && a[..i] == b[..i] && a[i] < b[i]
  }

  /** `a` sorts before `b` at a position inside both. */
  predicate Before(a: Bytes, b: Bytes) {
    exists i :: 0 <= i < |a| && DiffersAt(a, b, i)
  }

  lemma BeforeExtends(a: Bytes, b: Bytes, x: Bytes, y: Bytes)
    requires Before(a, b)
    ensures Before(a + x, b + y)
  {
    var i :| 0 <= i < |a| && DiffersAt(a, b, i);
    assert (a + x)[..i] == a[..i] && (b + y)[..i] == b[..i];
    assert DiffersAt(a + x, b + y, i);
  }

  lemma BeforeShifts(p: Bytes, a: Bytes, b: Bytes)
    requires Before(a, b)
    ensures Before(p + a, p + b)
  {
    var i :| 0 <= i < |a| && DiffersAt(a, b, i);
    assert (p + a)[..|p| + i] == p + a[..i] && (p + b)[..|p| + i] == p + b[..i];
    assert DiffersAt(p + a, p + b, |p| + i);
  }

  lemma BeforeAsymmetric(a: Bytes, b: Bytes)
    requires Before(a, b)
    ensures !Before(b, a) && a != b
  {
    var i :| 0 <= i < |a| && DiffersAt(a, b, i);
    forall j: nat ensures !DiffersAt(b, a, j) {
      if j < i && j < |a| && j < |b| {
        assert a[j] == a[..i][j] == b[..i][j] == b[j];
      } else if i < j && j < |a| && j < |b| {
        assert a[..j][i] == a[i] != b[i] == b[..j][i];
      }
    }
  }

  /** How two byte strings compare: the prefix of the other is the smaller. */
  ghost predicate TextLess(s: Bytes, t: Bytes) {
    (|s| < |t| && s == t[..|s|]) || Before(s, t)
  }

  // ---------- component codes ----------

  function BigEndian(u: nat, w: nat): (code: Bytes)
    ensures |code| == w
  {
    if w == 0 then [] else BigEndian(u / 256, w - 1) + [u % 256]
  }

  function FlipSign(b: Byte): Byte {
    if b >= 128 then b - 128 else b + 128
  }

  /** Two's complement, big end first, sign bit flipped. */
  function EncodeInt(n: I64): (code: Bytes)
    ensures |code| == 8
  {
    var raw := BigEndian(if n < 0 then n + 0x1_0000_0000_0000_0000 else n, 8);
    [FlipSign(raw[0])] + raw[1..]
  }

  /** A zero byte becomes 00 FF, every other byte stands for itself. */
  function Escape(text: Bytes): Bytes {
    if text == [] then []
    else (if text[0] == 0 then [0, 255] else [text[0]]) + Escape(text[1..])
  }

  function StringCode(text: Bytes): Bytes {
    Escape(text) + [0, 0]
  }

  function EncodeComponent(column: ColumnType, value: Value): Option<Bytes> {
    match (column, value)
    case (IntColumn, Int(n)) => Some(EncodeInt(n))
    case (StringColumn, Str(text)) =>
      if |StringCode(text)| <= MAX_KEY_LEN then Some(StringCode(text)) else None
    case _ => None
  }

  /** Order of two values of one keyable column. */
  ghost predicate ValueLess(a: Value, b: Value) {
    match (a, b)
    case (Int(m), Int(n)) => m < n
    case (Str(s), Str(t)) => TextLess(s, t)
    case _ => false
  }

  function Pow256(w: nat): nat {
    if w == 0 then 1 else 256 * Pow256(w - 1)
  }

  lemma {:induction false} BigEndianOrder(u: nat, v: nat, w: nat)
    requires u < v < Pow256(w)
    ensures Before(BigEndian(u, w), BigEndian(v, w))
  {
    var a, b := BigEndian(u / 256, w - 1), BigEndian(v / 256, w - 1);
    if u / 256 < v / 256 {
      BigEndianOrder(u / 256, v / 256, w - 1);
      BeforeExtends(a, b, [u % 256], [v % 256]);
    } else {
      assert DiffersAt(a + [u % 256], b + [v % 256], w - 1);
    }
  }

  lemma {:induction false} HighByte(u: nat, w: nat)
    requires w >= 1 && u < Pow256(w)
    ensures BigEndian(u, w)[0] >= 128 <==> 2 * u >= Pow256(w)
  {
    if w > 1 {
      HighByte(u / 256, w - 1);
      var half := 128 * Pow256(w - 2);
      assert Pow256(w - 1) == 2 * half;
      QuotientAtLeast(u, half);
    } else {
      assert Pow256(1) == 256 * Pow256(0);
    }
  }

  lemma QuotientAtLeast(u: nat, q: nat)
    ensures u / 256 >= q <==> u >= 256 * q
  {
  }

  lemma Pow256Of8()
    ensures Pow256(8) == 0x1_0000_0000_0000_0000
  {
    assert Pow256(2) == 0x1_0000;
    assert Pow256(4) == 0x1_0000_0000;
    assert Pow256(6) == 0x1_0000_0000_0000;
  }

  function Unsigned(n: I64): nat {
    if n < 0 then n + 0x1_0000_0000_0000_0000 else n
  }

  lemma FlipKeepsOrder(a: Bytes, b: Bytes)
    requires |a| == |b| == 8 && Before(a, b) && (a[0] >= 128 <==> b[0] >= 128)
    ensures Before([FlipSign(a[0])] + a[1..], [FlipSign(b[0])] + b[1..])
  {
    var i :| 0 <= i < |a| && DiffersAt(a, b, i);
    var x, y := [FlipSign(a[0])] + a[1..], [FlipSign(b[0])] + b[1..];
    if i > 0 {
      assert a[0] == a[..i][0] == b[..i][0] == b[0];
      forall j | 0 <= j < i ensures x[j] == y[j] {
        assert a[j] == a[..i][j] == b[..i][j] == b[j];
      }
    }
    assert DiffersAt(x, y, i);
  }

  lemma EncodeIntOrder(m: I64, n: I64)
    requires m < n
    ensures Before(EncodeInt(m), EncodeInt(n))
  {
    var u, v := Unsigned(m), Unsigned(n);
    Pow256Of8();
    HighByte(u, 8);
    HighByte(v, 8);
    if m < 0 <= n {
      assert DiffersAt(EncodeInt(m), EncodeInt(n), 0);
    } else {
      BigEndianOrder(u, v, 8);
      FlipKeepsOrder(BigEndian(u, 8), BigEndian(v, 8));
    }
  }

  /** The escape keeps text order, a text before its own extensions. */
  lemma {:induction false} StringCodeOrder(s: Bytes, t: Bytes)
    requires TextLess(s, t)
    ensures Before(StringCode(s), StringCode(t))
  {
    assert t != [];
    var tail := Escape(t[1..]) + [0, 0];
    assert StringCode(t) == (if t[0] == 0 then [0, 255] else [t[0]]) + tail;
    if s == [] {
      assert DiffersAt(StringCode(s), StringCode(t), if t[0] == 0 then 1 else 0);
    } else {
      assert StringCode(s) == (if s[0] == 0 then [0, 255] else [s[0]]) + StringCode(s[1..]);
      if s[0] == t[0] {
        TailsTextLess(s, t);
        StringCodeOrder(s[1..], t[1..]);
        BeforeShifts(if s[0] == 0 then [0, 255] else [s[0]], StringCode(s[1..]), StringCode(t[1..]));
      } else {
        FirstByteLess(s, t);
        assert DiffersAt(StringCode(s), StringCode(t), 0);
      }
    }
  }

  lemma TailsTextLess(s: Bytes, t: Bytes)
    requires s != [] && t != [] && s[0] == t[0] && TextLess(s, t)
    ensures TextLess(s[1..], t[1..])
  {
    if Before(s, t) {
      var i :| 0 <= i < |s| && DiffersAt(s, t, i);
      assert s[1..][..i - 1] == s[..i][1..] && t[1..][..i - 1] == t[..i][1..];
      assert DiffersAt(s[1..], t[1..], i - 1);
    } else {
      assert s[1..] == t[1..][..|s| - 1];
    }
  }

  lemma FirstByteLess(s: Bytes, t: Bytes)
    requires s != [] && t != [] && s[0] != t[0] && TextLess(s, t)
    ensures s[0] < t[0]
  {
    if Before(s, t) {
      var i :| 0 <= i < |s| && DiffersAt(s, t, i);
      if i > 0 { assert s[0] == s[..i][0] == t[..i][0]; }
    }
  }

  /** Codes of one column sort as the values do. */
  lemma ComponentOrder(column: ColumnType, a: Value, b: Value)
    requires EncodeComponent(column, a).Some? && EncodeComponent(column, b).Some?
    requires ValueLess(a, b)
    ensures Before(EncodeComponent(column, a).value, EncodeComponent(column, b).value)
  {
    match column
    case IntColumn => EncodeIntOrder(a.n, b.n);
    case StringColumn => StringCodeOrder(a.text, b.text);
    case OtherColumn =>
  }

  lemma {:induction false} TextTotal(s: Bytes, t: Bytes)
    ensures s == t || TextLess(s, t) || TextLess(t, s)
  {
    if s != [] && t != [] {
      if s[0] == t[0] {
        TextTotal(s[1..], t[1..]);
        assert s == [s[0]] + s[1..] && t == [t[0]] + t[1..];
        if Before(s[1..], t[1..]) { BeforeShifts([s[0]], s[1..], t[1..]); }
        if Before(t[1..], s[1..]) { BeforeShifts([s[0]], t[1..], s[1..]); }
      } else {
        assert DiffersAt(s, t, 0) || DiffersAt(t, s, 0);
      }
    }
  }

  lemma ValueTotal(column: ColumnType, a: Value, b: Value)
    requires EncodeComponent(column, a).Some? && EncodeComponent(column, b).Some?
    ensures a == b || ValueLess(a, b) || ValueLess(b, a)
  {
    if column == StringColumn {
      TextTotal(a.text, b.text);
    }
  }

  // ---------- composite codes ----------

  /** The code of a column prefix; nothing when a column cannot be keyed or the
    * codes outgrow a key. */
  function EncodePrefix(columns: seq<ColumnType>, values: seq<Value>): Option<Bytes>
    requires |values| <= |columns|
  {
    if values == [] then Some([])
    else
      var n := |values| - 1;
      match (EncodePrefix(columns, values[..n]), EncodeComponent(columns[n], values[n]))
      case (Some(buf), Some(part)) =>
        if |buf| + |part| > MAX_KEY_LEN then None else Some(buf + part)
      case _ => None
  }

  function Fill(prefix: Bytes, b: Byte): (key: Bytes)
    requires |prefix| <= MAX_KEY_LEN
    ensures |key| == MAX_KEY_LEN
  {
    prefix + seq(MAX_KEY_LEN - |prefix|, _ => b)
  }

  lemma {:induction false} EncodePrefixFits(columns: seq<ColumnType>, values: seq<Value>)
    requires |values| <= |columns| && EncodePrefix(columns, values).Some?
    ensures |EncodePrefix(columns, values).value| <= MAX_KEY_LEN
  {
  }

  /** `Value::derive_secondary_index_key` for generation 1. */
  function DeriveKey(columns: seq<ColumnType>, values: seq<Value>): (key: Option<Bytes>)
    ensures key.Some? ==> |key.value| == MAX_KEY_LEN
  {
    if |columns| != |values| || columns == [] then None
    else
      match EncodePrefix(columns, values)
      case None => None
      case Some(code) => EncodePrefixFits(columns, values); Some(Fill(code, 0))
  }

  function ZeroBytes(text: Bytes): nat {
    if text == [] then 0 else (if text[0] == 0 then 1 else 0) + ZeroBytes(text[1..])
  }

  /** Bytes a value takes in a key: eight for an integer; for a text its bytes, one
    * more for each zero byte, and two to end it. */
  function Room(value: Value): nat {
    match value
    case Int(_) => 8
    case Str(text) => |text| + ZeroBytes(text) + 2
    case _ => 0
  }

  function RoomOf(values: seq<Value>): nat {
    if values == [] then 0 else Room(values[0]) + RoomOf(values[1..])
  }

  predicate Suits(column: ColumnType, value: Value) {
    (column == IntColumn && value.Int?) || (column == StringColumn && value.Str?)
  }

  lemma {:induction false} EscapeLength(text: Bytes)
    ensures |Escape(text)| == |text| + ZeroBytes(text)
  {
    if text != [] {
      EscapeLength(text[1..]);
    }
  }

  lemma ComponentExists(column: ColumnType, value: Value)
    ensures EncodeComponent(column, value).Some? <==> Suits(column, value) && Room(value) <= MAX_KEY_LEN
    ensures EncodeComponent(column, value).Some? ==> |EncodeComponent(column, value).value| == Room(value)
  {
    if value.Str? {
      EscapeLength(value.text);
    }
  }

  lemma {:induction false} RoomOfSnoc(values: seq<Value>, v: Value)
    ensures RoomOf(values + [v]) == RoomOf(values) + Room(v)
  {
    if values == [] {
      assert values + [v] == [v] && [v][1..] == [];
    } else {
      assert (values + [v])[1..] == values[1..] + [v];
      RoomOfSnoc(values[1..], v);
    }
  }

  lemma {:induction false} PrefixExists(columns: seq<ColumnType>, values: seq<Value>)
    requires |values| <= |columns|
    ensures EncodePrefix(columns, values).Some? <==>
            (forall i :: 0 <= i < |values| ==> Suits(columns[i], values[i])) && RoomOf(values) <= MAX_KEY_LEN
    ensures EncodePrefix(columns, values).Some? ==> |EncodePrefix(columns, values).value| == RoomOf(values)
    decreases |values|
  {
    if values != [] {
      var n := |values| - 1;
      PrefixExists(columns, values[..n]);
      ComponentExists(columns[n], values[n]);
      assert values == values[..n] + [values[n]];
      RoomOfSnoc(values[..n], values[n]);
      hide EncodeComponent, Room, Suits;
    }
  }

  /** A row has a key exactly if every column is an integer or a text of its
    * column's type and together they fit into thirty-two bytes. */
  lemma KeyExistsExactly(columns: seq<ColumnType>, values: seq<Value>)
    ensures DeriveKey(columns, values).Some? <==>
            && |columns| == |values| > 0 && RoomOf(values) <= MAX_KEY_LEN
            && forall i :: 0 <= i < |values| ==> Suits(columns[i], values[i])
  {
    if |columns| == |values| {
      PrefixExists(columns, values);
    }
  }

  ghost predicate TupleDiffersAt(a: seq<Value>, b: seq<Value>, k: nat) {
    k < |a| && k < |b| && a[..k] == b[..k] && ValueLess(a[k], b[k])
  }

  /** Column by column order. */
  ghost predicate TupleLess(a: seq<Value>, b: seq<Value>) {
    exists k: nat :: TupleDiffersAt(a, b, k)
  }

  /** A shorter prefix of the columns has a shorter code in front of the longer one. */
  lemma {:induction false} EncodePrefixSplit(columns: seq<ColumnType>, values: seq<Value>, k: nat)
    requires k <= |values| <= |columns| && EncodePrefix(columns, values).Some?
    ensures EncodePrefix(columns, values[..k]).Some?
    ensures EncodePrefix(columns, values[..k]).value <= EncodePrefix(columns, values).value
  {
    if k < |values| {
      EncodePrefixSplit(columns, values[..|values| - 1], k);
      assert values[..|values| - 1][..k] == values[..k];
    } else {
      assert values[..k] == values;
    }
  }

  lemma PrefixOrderAt(columns: seq<ColumnType>, a: seq<Value>, b: seq<Value>)
    requires |a| == |b| >= 1 && |a| <= |columns|
    requires EncodePrefix(columns, a).Some? && EncodePrefix(columns, b).Some?
    requires a[..|a| - 1] == b[..|b| - 1] && ValueLess(a[|a| - 1], b[|b| - 1])
    ensures Before(EncodePrefix(columns, a).value, EncodePrefix(columns, b).value)
  {
    var k := |a| - 1;
    ComponentOrder(columns[k], a[k], b[k]);
    BeforeShifts(EncodePrefix(columns, a[..k]).value,
                 EncodeComponent(columns[k], a[k]).value, EncodeComponent(columns[k], b[k]).value);
  }

  /** Codes of tuples of one column list sort as the tuples do. */
  lemma PrefixOrder(columns: seq<ColumnType>, a: seq<Value>, b: seq<Value>)
    requires |a| == |b| <= |columns|
    requires EncodePrefix(columns, a).Some? && EncodePrefix(columns, b).Some?
    requires TupleLess(a, b)
    ensures Before(EncodePrefix(columns, a).value, EncodePrefix(columns, b).value)
  {
    hide EncodePrefix, ValueLess;
    var k: nat :| TupleDiffersAt(a, b, k);
    EncodePrefixSplit(columns, a, k + 1);
    EncodePrefixSplit(columns, b, k + 1);
    assert a[..k + 1][..k] == a[..k] && b[..k + 1][..k] == b[..k];
    PrefixOrderAt(columns, a[..k + 1], b[..k + 1]);
    var x, y := EncodePrefix(columns, a[..k + 1]).value, EncodePrefix(columns, b[..k + 1]).value;
    var p, q := EncodePrefix(columns, a).value, EncodePrefix(columns, b).value;
    BeforeExtends(x, y, p[|x|..], q[|y|..]);
    assert p == x + p[|x|..] && q == y + q[|y|..];
  }

  lemma {:induction false} TupleTotal(columns: seq<ColumnType>, a: seq<Value>, b: seq<Value>)
    requires |a| == |b| <= |columns|
    requires EncodePrefix(columns, a).Some? && EncodePrefix(columns, b).Some?
    ensures a == b || TupleLess(a, b) || TupleLess(b, a)
  {
    if a != [] {
      var n := |a| - 1;
      TupleTotal(columns, a[..n], b[..n]);
      assert a == a[..n] + [a[n]] && b == b[..n] + [b[n]];
      if a[..n] == b[..n] {
        ValueTotal(columns[n], a[n], b[n]);
        hide ValueLess, EncodePrefix;
        assert a == b || TupleDiffersAt(a, b, n) || TupleDiffersAt(b, a, n);
      } else if TupleLess(a[..n], b[..n]) {
        ExtendTupleLess(a, b, n);
      } else {
        ExtendTupleLess(b, a, n);
      }
    }
  }

  lemma ExtendTupleLess(a: seq<Value>, b: seq<Value>, n: nat)
    requires n <= |a| && n <= |b| && TupleLess(a[..n], b[..n])
    ensures TupleLess(a, b)
  {
    var k: nat :| TupleDiffersAt(a[..n], b[..n], k);
    assert a[..k] == a[..n][..k] && b[..k] == b[..n][..k];
    assert TupleDiffersAt(a, b, k);
  }

  /** Index keys sort exactly as the indexed columns do, and equal keys come from
    * equal columns. */
  lemma KeyOrder(columns: seq<ColumnType>, a: seq<Value>, b: seq<Value>)
    requires DeriveKey(columns, a).Some? && DeriveKey(columns, b).Some?
    ensures Before(DeriveKey(columns, a).value, DeriveKey(columns, b).value) <==> TupleLess(a, b)
    ensures DeriveKey(columns, a) == DeriveKey(columns, b) <==> a == b
  {
    TupleTotal(columns, a, b);
    if TupleLess(a, b) {
      KeyBefore(columns, a, b);
    }
    if TupleLess(b, a) {
      KeyBefore(columns, b, a);
    }
    if a == b && Before(DeriveKey(columns, a).value, DeriveKey(columns, b).value) {
      BeforeAsymmetric(DeriveKey(columns, a).value, DeriveKey(columns, b).value);
    }
  }

  lemma KeyBefore(columns: seq<ColumnType>, a: seq<Value>, b: seq<Value>)
    requires DeriveKey(columns, a).Some? && DeriveKey(columns, b).Some? && TupleLess(a, b)
    ensures Before(DeriveKey(columns, a).value, DeriveKey(columns, b).value)
    ensures !Before(DeriveKey(columns, b).value, DeriveKey(columns, a).value)
    ensures DeriveKey(columns, a) != DeriveKey(columns, b)
  {
    PrefixOrder(columns, a, b);
    var p, q := EncodePrefix(columns, a).value, EncodePrefix(columns, b).value;
    EncodePrefixFits(columns, a);
    EncodePrefixFits(columns, b);
    BeforeExtends(p, q, seq(MAX_KEY_LEN - |p|, _ => 0), seq(MAX_KEY_LEN - |q|, _ => 0));
    BeforeAsymmetric(DeriveKey(columns, a).value, DeriveKey(columns, b).value);
  }

  // ---------- range bounds ----------

  datatype Mark = Mark(value: Value, inclusive: bool)

  /** The constraint on the last column of a prefix; the earlier ones are equalities. */
  datatype LastBound = Equals(value: Value) | Between(lower: Option<Mark>, upper: Option<Mark>)

  datatype Sentinel = Sentinel(key: Bytes, inclusive: bool)

  datatype Bounds = Bounds(lower: Option<Sentinel>, upper: Option<Sentinel>)

  function RangeSentinel(prefix: Bytes, inclusive: bool, isLower: bool): Sentinel
    requires |prefix| <= MAX_KEY_LEN
  {
    var fillFF := if isLower then !inclusive else inclusive;
    Sentinel(Fill(prefix, if fillFF then 255 else 0), inclusive)
  }

  function EncodeFit(columns: seq<ColumnType>, values: seq<Value>): (code: Option<Bytes>)
    requires |values| <= |columns|
    ensures code.Some? ==> |code.value| <= MAX_KEY_LEN
  {
    match EncodePrefix(columns, values)
    case None => None
    case Some(code) => EncodePrefixFits(columns, values); Some(code)
  }

  /** One end of the range on the column after the equalities. */
  function EndSentinel(columns: seq<ColumnType>, equal: seq<Value>, end: Option<Mark>, isLower: bool)
    : Option<Option<Sentinel>>
    requires |equal| < |columns|
  {
    match end
    case Some(mark) =>
      (match EncodeFit(columns, equal + [mark.value])
       case None => None
       case Some(code) => Some(Some(RangeSentinel(code, mark.inclusive, isLower))))
    case None =>
      (match EncodeFit(columns, equal)
       case None => None
       case Some(code) => Some(if code == [] then None else Some(RangeSentinel(code, true, isLower))))
  }

  /** `Value::secondary_range_bounds`: `None` where the constraint has no range. */
  function RangeBounds(columns: seq<ColumnType>, equal: seq<Value>, last: LastBound): Option<Bounds> {
    if |equal| + 1 > |columns| then None
    else
      match last
      case Equals(value) =>
        (match EncodeFit(columns, equal + [value])
         case None => None
         case Some(code) =>
           if code == [] then None
           else Some(Bounds(Some(RangeSentinel(code, true, true)), Some(RangeSentinel(code, true, false)))))
      case Between(lower, upper) =>
        if lower.None? && upper.None? then None
        else
          match (EndSentinel(columns, equal, lower, true), EndSentinel(columns, equal, upper, false))
          case (Some(lo), Some(hi)) => if lo.None? && hi.None? then None else Some(Bounds(lo, hi))
          case _ => None
  }

  predicate KeyInRange(key: Bytes, bounds: Bounds) {
    && (bounds.lower.Some? ==>
          !Before(key, bounds.lower.value.key) && (key == bounds.lower.value.key ==> bounds.lower.value.inclusive))
    && (bounds.upper.Some? ==>
          !Before(bounds.upper.value.key, key) && (key == bounds.upper.value.key ==> bounds.upper.value.inclusive))
  }

  ghost predicate AboveLower(v: Value, lower: Option<Mark>) {
    lower.Some? ==> ValueLess(lower.value.value, v) || (lower.value.inclusive && v == lower.value.value)
  }

  ghost predicate BelowUpper(v: Value, upper: Option<Mark>) {
    upper.Some? ==> ValueLess(v, upper.value.value) || (upper.value.inclusive && v == upper.value.value)
  }

  /** What the constraint says about a row's indexed columns. */
  ghost predicate Meets(values: seq<Value>, equal: seq<Value>, last: LastBound)
    requires |equal| < |values|
  {
    && values[..|equal|] == equal
    && match last
       case Equals(value) => values[|equal|] == value
       case Between(lower, upper) => AboveLower(values[|equal|], lower) && BelowUpper(values[|equal|], upper)
  }

  /** A key against a prefix code: it starts with the code, or falls on one side
    * of everything that does. */
  lemma KeyAgainstPrefix(columns: seq<ColumnType>, values: seq<Value>, prefix: seq<Value>, fill: Byte)
    requires DeriveKey(columns, values).Some? && |prefix| <= |values|
    requires EncodeFit(columns, prefix).Some?
    ensures var key, edge := DeriveKey(columns, values).value, Fill(EncodeFit(columns, prefix).value, fill);
            var head := values[..|prefix|];
            && (TupleLess(head, prefix) ==> Before(key, edge) && !Before(edge, key) && key != edge)
            && (TupleLess(prefix, head) ==> Before(edge, key) && !Before(key, edge) && key != edge)
            && (head == prefix ==> EncodeFit(columns, prefix).value <= key)
            && (head == prefix || TupleLess(head, prefix) || TupleLess(prefix, head))
  {
    var head := values[..|prefix|];
    EncodePrefixSplit(columns, values, |prefix|);
    TupleTotal(columns, head, prefix);
    var key, code := DeriveKey(columns, values).value, EncodeFit(columns, prefix).value;
    var mine := EncodePrefix(columns, head).value;
    assert key == mine + key[|mine|..];
    var edge := Fill(code, fill);
    assert edge == code + edge[|code|..];
    if TupleLess(head, prefix) {
      PrefixOrder(columns, head, prefix);
      BeforeExtends(mine, code, key[|mine|..], edge[|code|..]);
      BeforeAsymmetric(key, edge);
    }
    if TupleLess(prefix, head) {
      PrefixOrder(columns, prefix, head);
      BeforeExtends(code, mine, edge[|code|..], key[|mine|..]);
      BeforeAsymmetric(edge, key);
    }
  }

  /** All keys that start with a code lie between its zero and its FF filling. */
  lemma BetweenFills(code: Bytes, key: Bytes)
    requires |code| <= MAX_KEY_LEN == |key| && code <= key
    ensures !Before(key, Fill(code, 0)) && !Before(Fill(code, 255), key)
  {
    forall i: nat ensures !DiffersAt(key, Fill(code, 0), i) && !DiffersAt(Fill(code, 255), key, i) {
      if i < |code| { assert key[i] == code[i]; }
    }
  }

  lemma EdgeIff(columns: seq<ColumnType>, values: seq<Value>, prefix: seq<Value>, inclusive: bool, isLower: bool)
    requires DeriveKey(columns, values).Some? && |prefix| <= |values|
    requires EncodeFit(columns, prefix).Some?
    ensures var key, s := DeriveKey(columns, values).value,
                          RangeSentinel(EncodeFit(columns, prefix).value, inclusive, isLower);
            var head := values[..|prefix|];
            if isLower then
              (!Before(key, s.key) && (key == s.key ==> inclusive)) <==>
              (TupleLess(prefix, head) || (inclusive && head == prefix))
            else
              (!Before(s.key, key) && (key == s.key ==> inclusive)) <==>
              (TupleLess(head, prefix) || (inclusive && head == prefix))
  {
    var code := EncodeFit(columns, prefix).value;
    var key := DeriveKey(columns, values).value;
    var fill: Byte := if (if isLower then !inclusive else inclusive) then 255 else 0;
    KeyAgainstPrefix(columns, values, prefix, fill);
    var head := values[..|prefix|];
    EncodePrefixSplit(columns, values, |prefix|);
    if head == prefix {
      BetweenFills(code, key);
      BetweenFillsStrict(code, key);
      TupleLessIrreflexive(columns, prefix);
    } else if TupleLess(head, prefix) {
      TupleLessAsymmetric(columns, head, prefix);
    } else {
      TupleLessAsymmetric(columns, prefix, head);
    }
  }

  /** Unless it is a fill itself, such a key lies strictly between them. */
  lemma BetweenFillsStrict(code: Bytes, key: Bytes)
    requires |code| <= MAX_KEY_LEN == |key| && code <= key
    ensures key == Fill(code, 0) || Before(Fill(code, 0), key)
    ensures key == Fill(code, 255) || Before(key, Fill(code, 255))
  {
    FixedTotal(key, Fill(code, 0));
    FixedTotal(key, Fill(code, 255));
    BetweenFills(code, key);
  }

  lemma FixedTotal(a: Bytes, b: Bytes)
    requires |a| == |b|
    ensures a == b || Before(a, b) || Before(b, a)
  {
    TextTotal(a, b);
  }

  lemma TupleLessIrreflexive(columns: seq<ColumnType>, a: seq<Value>)
    requires |a| <= |columns| && EncodePrefix(columns, a).Some?
    ensures !TupleLess(a, a)
  {
    if TupleLess(a, a) {
      PrefixOrder(columns, a, a);
      BeforeAsymmetric(EncodePrefix(columns, a).value, EncodePrefix(columns, a).value);
    }
  }

  lemma TupleLessAsymmetric(columns: seq<ColumnType>, a: seq<Value>, b: seq<Value>)
    requires |a| == |b| <= |columns| && EncodePrefix(columns, a).Some? && EncodePrefix(columns, b).Some?
    requires TupleLess(a, b)
    ensures !TupleLess(b, a) && a != b
  {
    PrefixOrder(columns, a, b);
    BeforeAsymmetric(EncodePrefix(columns, a).value, EncodePrefix(columns, b).value);
    if TupleLess(b, a) {
      PrefixOrder(columns, b, a);
    }
  }

  lemma SplitTupleLess(p: seq<Value>, m: Value, h: seq<Value>, v: Value)
    requires |p| == |h|
    ensures TupleLess(p + [m], h + [v]) <==> TupleLess(p, h) || (p == h && ValueLess(m, v))
  {
    hide ValueLess;
    var a, b := p + [m], h + [v];
    assert a[..|p|] == p && b[..|p|] == h;
    if TupleLess(a, b) {
      var k: nat :| TupleDiffersAt(a, b, k);
      if k < |p| {
        assert p[..k] == a[..k] && h[..k] == b[..k];
        assert TupleDiffersAt(p, h, k);
      }
    }
    if TupleLess(p, h) {
      ExtendTupleLess(a, b, |p|);
    }
    if p == h && ValueLess(m, v) {
      assert TupleDiffersAt(a, b, |p|);
    }
  }

  lemma CodeNonEmpty(columns: seq<ColumnType>, values: seq<Value>)
    requires |values| <= |columns| && EncodeFit(columns, values).Some?
    ensures EncodeFit(columns, values).value == [] <==> values == []
  {
  }

  /** One end of the range cuts the keys where the constraint cuts the rows. */
  lemma EndIff(columns: seq<ColumnType>, values: seq<Value>, equal: seq<Value>, end: Option<Mark>, isLower: bool)
    requires DeriveKey(columns, values).Some? && |equal| < |values|
    requires EndSentinel(columns, equal, end, isLower).Some?
    ensures EncodeFit(columns, equal).Some?
    ensures var key, s := DeriveKey(columns, values).value, EndSentinel(columns, equal, end, isLower).value;
            var head, v := values[..|equal|], values[|equal|];
            if isLower then
              KeyInRange(key, Bounds(s, None)) <==> TupleLess(equal, head) || (head == equal && AboveLower(v, end))
            else
              KeyInRange(key, Bounds(None, s)) <==> TupleLess(head, equal) || (head == equal && BelowUpper(v, end))
  {
    var head, v := values[..|equal|], values[|equal|];
    match end
    case Some(mark) =>
      var prefix := equal + [mark.value];
      assert prefix[..|equal|] == equal && values[..|prefix|] == head + [v];
      EncodePrefixSplit(columns, prefix, |equal|);
      EdgeIff(columns, values, prefix, mark.inclusive, isLower);
      SplitTupleLess(equal, mark.value, head, v);
      SplitTupleLess(head, v, equal, mark.value);
    case None =>
      CodeNonEmpty(columns, equal);
      if equal != [] {
        EdgeIff(columns, values, equal, true, isLower);
      }
  }

  /** The central law: the sentinels admit a row's key exactly when the row's
    * indexed columns meet the constraint they were built from. */
  lemma RangeIsConstraint(columns: seq<ColumnType>, values: seq<Value>, equal: seq<Value>, last: LastBound)
    requires DeriveKey(columns, values).Some? && RangeBounds(columns, equal, last).Some?
    ensures |equal| < |values|
    ensures KeyInRange(DeriveKey(columns, values).value, RangeBounds(columns, equal, last).value)
            <==> Meets(values, equal, last)
  {
    var head, v := values[..|equal|], values[|equal|];
    EncodePrefixSplit(columns, values, |equal|);
    match last
    case Equals(value) =>
      var prefix := equal + [value];
      var top := values[..|prefix|];
      assert top == head + [v];
      EncodePrefixSplit(columns, values, |prefix|);
      EdgeIff(columns, values, prefix, true, true);
      EdgeIff(columns, values, prefix, true, false);
      if TupleLess(prefix, top) {
        TupleLessAsymmetric(columns, prefix, top);
      }
    case Between(lower, upper) =>
      EndIff(columns, values, equal, lower, true);
      EndIff(columns, values, equal, upper, false);
      if TupleLess(equal, head) {
        TupleLessAsymmetric(columns, equal, head);
      }
  }

  /** `range_is_empty` may skip the scan: no key lies in such a range. */
  predicate RangeIsEmpty(bounds: Bounds) {
    && bounds.lower.Some? && bounds.upper.Some?
    && (Before(bounds.upper.value.key, bounds.lower.value.key) ||
        (bounds.lower.value.key == bounds.upper.value.key
         && !(bounds.lower.value.inclusive && bounds.upper.value.inclusive)))
  }

  lemma BeforeTransitive(a: Bytes, b: Bytes, c: Bytes)
    requires Before(a, b) && Before(b, c)
    ensures Before(a, c)
  {
    var i :| 0 <= i < |a| && DiffersAt(a, b, i);
    var j :| 0 <= j < |b| && DiffersAt(b, c, j);
    var k := if i < j then i else j;
    assert a[..k] == a[..i][..k] == b[..i][..k] == b[..k];
    assert c[..k] == c[..j][..k] == b[..j][..k] == b[..k];
    if i < j {
      assert b[i] == b[..j][i] == c[..j][i] == c[i];
    } else if j < i {
      assert a[j] == a[..i][j] == b[..i][j] == b[j];
    }
    assert DiffersAt(a, c, k);
  }

  lemma EmptyRangeHasNoKey(bounds: Bounds, key: Bytes)
    requires RangeIsEmpty(bounds) && |key| == |bounds.lower.value.key| == |bounds.upper.value.key|
    ensures !KeyInRange(key, bounds)
  {
    var lo, hi := bounds.lower.value.key, bounds.upper.value.key;
    FixedTotal(key, lo);
    FixedTotal(key, hi);
    if Before(hi, lo) && Before(key, hi) {
      BeforeTransitive(key, hi, lo);
    }
  }

  // ---------- the encoding loops ----------

  lemma {:induction false} EscapeSnoc(text: Bytes, b: Byte)
    ensures Escape(text + [b]) == Escape(text) + (if b == 0 then [0, 255] else [b])
  {
    if text == [] {
      assert [b][1..] == [];
    } else {
      EscapeSnoc(text[1..], b);
      assert (text + [b])[1..] == text[1..] + [b];
    }
  }

  lemma {:induction false} EscapeGrows(text: Bytes, i: nat)
    requires i <= |text|
    ensures |Escape(text[..i])| <= |Escape(text)| && |text| <= |Escape(text)|
    decreases |text|
  {
    if text != [] {
      EscapeGrows(text[1..], if i == 0 then 0 else i - 1);
      if i > 0 {
        assert text[..i][1..] == text[1..][..i - 1];
      }
    }
  }

  /** `encode_string_bytes`: escapes byte by byte and gives up as soon as the
    * code cannot fit, without ever rejecting one that would have. */
  method EncodeString(text: Bytes) returns (code: Option<Bytes>)
    ensures code == EncodeComponent(StringColumn, Str(text))
  {
    EscapeGrows(text, 0);
    if |text| > MAX_KEY_LEN - 2 {
      return None;
    }
    var encoded: Bytes := [];
    for i := 0 to |text|
      invariant encoded == Escape(text[..i])
    {
      assert text[..i + 1] == text[..i] + [text[i]];
      EscapeSnoc(text[..i], text[i]);
      if text[i] == 0 {
        encoded := encoded + [0, 255];
      } else {
        encoded := encoded + [text[i]];
      }
      EscapeGrows(text, i + 1);
      if |encoded| > MAX_KEY_LEN {
        return None;
      }
    }
    assert text[..|text|] == text;
    encoded := encoded + [0, 0];
    return if |encoded| > MAX_KEY_LEN then None else Some(encoded);
  }

  /** The column loop of `derive_secondary_index_key`, which stops at the first
    * column that cannot be appended. */
  method DeriveRowKey(columns: seq<ColumnType>, values: seq<Value>) returns (key: Option<Bytes>)
    ensures key == DeriveKey(columns, values)
  {
    if |columns| != |values| || columns == [] {
      return None;
    }
    var encoded: Bytes := [];
    for i := 0 to |values|
      invariant EncodePrefix(columns, values[..i]) == Some(encoded) && |encoded| <= MAX_KEY_LEN
    {
      assert values[..i + 1][..i] == values[..i];
      var part := EncodeComponent(columns[i], values[i]);
      if part.None? || |encoded| + |part.value| > MAX_KEY_LEN {
        assert EncodePrefix(columns, values[..i + 1]).None?;
        if EncodePrefix(columns, values).Some? {
          EncodePrefixSplit(columns, values, i + 1);
          assert false;
        }
        return None;
      }
      encoded := encoded + part.value;
    }
    assert values[..|values|] == values;
    return Some(Fill(encoded, 0));
  }
}
