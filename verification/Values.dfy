/** SQL values, rows and their equality (`src/executor/value.rs`). */
module Values {

  type Byte = b: int | 0 <= b < 256
  type I64 = n: int | -0x8000_0000_0000_0000 <= n < 0x8000_0000_0000_0000

  /** A finite float: zero carries a sign bit, which hashing sees and equality
    * does not. */
  datatype Flt = Zero(negative: bool) | NonZero(r: real)

  datatype Value =
    | Int(n: I64)
    | Str(text: seq<Byte>)
    | Null
    | Float(f: Flt)
    | Bool(b: bool)
    | Date(days: int)
    | Timestamp(micros: int)

  type Row = seq<Value>

  function IntAsFloat(n: int): Flt {
    if n == 0 then Zero(false) else NonZero(n as real)
  }

  predicate FloatEq(a: Flt, b: Flt) {
    (a.Zero? && b.Zero?) || a == b
  }

  /** The engine's cross-type equality, `Value::equals`. */
  predicate SqlEquals(a: Value, b: Value) {
    match (a, b)
    case (Float(x), Float(y)) => FloatEq(x, y)
    case (Int(x), Float(y)) => FloatEq(IntAsFloat(x), y)
    case (Float(x), Int(y)) => FloatEq(x, IntAsFloat(y))
    case _ => a == b
  }

  predicate IsNumber(v: Value) {
    v.Int? || v.Float?
  }

  function NumberOf(v: Value): real
    requires IsNumber(v)
  {
    match v
    case Int(n) => n as real
    case Float(Zero(_)) => 0.0
    case Float(NonZero(r)) => r
  }

  /** A float other than the zeros is not zero. */
  predicate IsProper(v: Value) {
    v.Float? && v.f.NonZero? ==> v.f.r != 0.0
  }

  /** Numbers are equal by value, whatever their type and the sign of zero; all
    * else only to itself. */
  lemma SqlEqualsMeans(a: Value, b: Value)
    requires IsProper(a) && IsProper(b)
    ensures SqlEquals(a, b) <==> if IsNumber(a) && IsNumber(b) then NumberOf(a) == NumberOf(b) else a == b
  {
  }

  function Picked(row: Row, projection: seq<nat>): Row
    requires forall i :: 0 <= i < |projection| ==> projection[i] < |row|
  {
    seq(|projection|, i requires 0 <= i < |projection| => row[projection[i]])
  }

  lemma MultisetRemove<T>(s: seq<T>, i: nat)
    requires i < |s|
    ensures multiset(s) == multiset{s[i]} + multiset(s[..i] + s[i + 1..])
  {
    assert s == s[..i] + ([s[i]] + s[i + 1..]);
  }

  /** Equal bags: the first element of one can be taken out of both. */
  lemma TakeFromBoth<T>(a: seq<T>, b: seq<T>) returns (i: nat)
    requires a != [] && multiset(a) == multiset(b)
    ensures i < |b| && b[i] == a[0]
    ensures multiset(a[..0] + a[1..]) == multiset(b[..i] + b[i + 1..])
  {
    assert a[0] in multiset(a);
    i :| 0 <= i < |b| && b[i] == a[0];
    MultisetRemove(a, 0);
    MultisetRemove(b, i);
    assert multiset(a[..0] + a[1..]) == multiset(a) - multiset{a[0]};
    assert multiset(b[..i] + b[i + 1..]) == multiset(b) - multiset{b[i]};
  }

  /** Prefixing three lists keeps one the bag sum of the other two. */
  lemma BagSumStep<T>(x: seq<T>, y: seq<T>, z: seq<T>, a: seq<T>, b: seq<T>, c: seq<T>)
    requires multiset(x) == multiset(y) + multiset(z) && multiset(a) == multiset(b) + multiset(c)
    ensures multiset(x + a) == multiset(y + b) + multiset(z + c)
  {
  }
}
