/** The memory budget of one statement (`src/executor/query_budget.rs`). */
module QueryBudget {
  import opened Options
  import opened Values

  /** Counters are 64-bit words. */
  const WORD := 0x1_0000_0000_0000_0000

  type Word = n: int | 0 <= n < WORD

  function SaturatingAdd(a: Word, b: Word): Word {
    if a + b >= WORD then WORD - 1 else a + b
  }

  function WrappingAdd(a: Word, b: Word): Word {
    if a + b >= WORD then a + b - WORD else a + b
  }

  function WrappingSub(a: Word, b: Word): Word {
    if b <= a then a - b else a + WORD - b
  }

  // ---------- how much is charged ----------

  const VALUE_BYTES := 16

  function ValueBytes(v: Value): nat {
    match v
    case Str(text) => VALUE_BYTES + |text|
    case _ => VALUE_BYTES
  }

  function RowBytes(row: Row): nat {
    if row == [] then 0 else ValueBytes(row[0]) + RowBytes(row[1..])
  }

  function RowsBytes(rows: seq<Row>): nat {
    if rows == [] then 0 else RowBytes(rows[0]) + RowsBytes(rows[1..])
  }

  /** Correlated parameters are charged by name and value. */
  function ParamKeyBytes(names: seq<seq<Byte>>, values: Row): nat {
    StringsBytes(names) + RowBytes(values)
  }

  function StringsBytes(texts: seq<seq<Byte>>): nat {
    if texts == [] then 0 else VALUE_BYTES + |texts[0]| + StringsBytes(texts[1..])
  }

  /** All text in a row. */
  function TextOf(row: Row): seq<Byte> {
    if row == [] then [] else (if row[0].Str? then row[0].text else []) + TextOf(row[1..])
  }

  function Flat(texts: seq<seq<Byte>>): seq<Byte> {
    if texts == [] then [] else texts[0] + Flat(texts[1..])
  }

  /** A row weighs sixteen bytes for each value, and its text. */
  lemma {:induction false} RowWeighs(row: Row)
    ensures RowBytes(row) == VALUE_BYTES * |row| + |TextOf(row)|
  {
    if row != [] {
      RowWeighs(row[1..]);
    }
  }

  lemma {:induction false} TextsWeigh(texts: seq<seq<Byte>>)
    ensures StringsBytes(texts) == VALUE_BYTES * |texts| + |Flat(texts)|
  {
    if texts != [] {
      TextsWeigh(texts[1..]);
    }
  }

  lemma {:induction false} RowBytesBoth(a: Row, b: Row)
    ensures RowBytes(a + b) == RowBytes(a) + RowBytes(b)
  {
    if a == [] {
      assert a + b == b;
    } else {
      assert (a + b)[1..] == a[1..] + b;
      RowBytesBoth(a[1..], b);
    }
  }

  lemma {:induction false} StringsBytesSnoc(texts: seq<seq<Byte>>, text: seq<Byte>)
    ensures StringsBytes(texts + [text]) == StringsBytes(texts) + VALUE_BYTES + |text|
  {
    if texts == [] {
      assert texts + [text] == [text] && [text][1..] == [];
    } else {
      assert (texts + [text])[1..] == texts[1..] + [text];
      StringsBytesSnoc(texts[1..], text);
    }
  }

  lemma {:induction false} RowsBytesSnoc(rows: seq<Row>, row: Row)
    ensures RowsBytes(rows + [row]) == RowsBytes(rows) + RowBytes(row)
  {
    if rows == [] {
      assert [] + [row] == [row] && [row][1..] == [];
    } else {
      assert (rows + [row])[1..] == rows[1..] + [row];
      RowsBytesSnoc(rows[1..], row);
    }
  }

  /** A sum over the entries of a map, in whatever order they are visited. */
  ghost function MapSum<V>(m: map<Row, V>, size: (Row, V) -> int): int
    decreases |m|
  {
    if m == map[] then 0
    else
      var k :| k in m;
      size(k, m[k]) + MapSum(m - {k}, size)
  }

  /** The sum does not depend on the order. */
  lemma {:induction false} MapSumSplit<V>(m: map<Row, V>, size: (Row, V) -> int, k: Row)
    requires k in m
    ensures MapSum(m, size) == size(k, m[k]) + MapSum(m - {k}, size)
    decreases |m|
  {
    var c :| c in m && MapSum(m, size) == size(c, m[c]) + MapSum(m - {c}, size);
    if c != k {
      MapSumSplit(m - {c}, size, k);
      MapSumSplit(m - {k}, size, c);
      assert (m - {c}) - {k} == (m - {k}) - {c};
    }
  }

  /** Setting one entry changes the sum by that entry. */
  lemma MapSumSet<V>(m: map<Row, V>, size: (Row, V) -> int, k: Row, v: V)
    ensures MapSum(m[k := v], size) == MapSum(m, size) + size(k, v) - if k in m then size(k, m[k]) else 0
  {
    MapSumSplit(m[k := v], size, k);
    if k in m {
      MapSumSplit(m, size, k);
      assert m[k := v] - {k} == m - {k};
    } else {
      assert m[k := v] - {k} == m;
    }
  }

  /** Rows grouped by key, as the hash operators hold them. */
  type Buckets = map<Row, seq<Row>>

  function BucketBytes(key: Row, rows: seq<Row>): int {
    RowBytes(key) + RowsBytes(rows)
  }

  ghost function BucketsBytes(m: Buckets): int {
    MapSum(m, BucketBytes)
  }

  /** Add a row to its bucket. */
  function Inserted(m: Buckets, key: Row, row: Row): Buckets {
    m[key := (if key in m then m[key] else []) + [row]]
  }

  /** What an insertion adds to the resident size: the row, and its key if the
    * bucket is new. */
  function InsertBytes(m: Buckets, key: Row, row: Row): nat {
    RowBytes(row) + if key in m then 0 else RowBytes(key)
  }

  lemma InsertGrowsBy(m: Buckets, key: Row, row: Row)
    ensures BucketsBytes(Inserted(m, key, row)) == BucketsBytes(m) + InsertBytes(m, key, row)
  {
    var before := if key in m then m[key] else [];
    RowsBytesSnoc(before, row);
    MapSumSet(m, BucketBytes, key, before + [row]);
  }

  /** The buckets of a list of rows, filled in order; rows without a key are
    * left out. */
  function Grouped(keyOf: Row -> Option<Row>, rows: seq<Row>): Buckets {
    if rows == [] then map[]
    else
      var before, row := Grouped(keyOf, rows[..|rows| - 1]), rows[|rows| - 1];
      if keyOf(row).None? then before else Inserted(before, keyOf(row).value, row)
  }

  lemma GroupedSnoc(keyOf: Row -> Option<Row>, rows: seq<Row>, row: Row)
    ensures Grouped(keyOf, rows + [row])
            == if keyOf(row).None? then Grouped(keyOf, rows) else Inserted(Grouped(keyOf, rows), keyOf(row).value, row)
  {
    assert (rows + [row])[..|rows|] == rows;
  }

  lemma {:induction false} GroupedKeys(keyOf: Row -> Option<Row>, rows: seq<Row>, key: Row)
    ensures key in Grouped(keyOf, rows) <==> exists row :: row in rows && keyOf(row) == Some(key)
    decreases |rows|
  {
    if rows != [] {
      var before, row := rows[..|rows| - 1], rows[|rows| - 1];
      assert rows == before + [row];
      GroupedKeys(keyOf, before, key);
      if keyOf(row) == Some(key) {
        assert row in rows;
      }
      if key in Grouped(keyOf, before) {
        var r :| r in before && keyOf(r) == Some(key);
        assert r in rows;
      }
    }
  }

  // ---------- concurrent charges ----------

  /** A charge that has added its bytes and not finished: `ok` was decided when
    * it added them. */
  datatype Call = Call(bytes: Word, ok: bool)

  datatype Ledger = Ledger(limit: Word, used: Word, granted: nat, calls: seq<Call>)

  datatype Operation =
    | Add(bytes: Word)
    | Accept(call: nat)
    | Undo(call: nat)
    | Release(bytes: Word)

  function Total(calls: seq<Call>): nat {
    if calls == [] then 0 else calls[0].bytes + Total(calls[1..])
  }

  function Accepted(calls: seq<Call>): nat {
    if calls == [] then 0 else (if calls[0].ok then calls[0].bytes else 0) + Accepted(calls[1..])
  }

  function Drop(calls: seq<Call>, i: nat): seq<Call>
    requires i < |calls|
  {
    calls[..i] + calls[i + 1..]
  }

  predicate Enabled(s: Ledger, step: Operation) {
    match step
    case Add(bytes) => 0 < bytes
    case Accept(i) => i < |s.calls| && s.calls[i].ok
    case Undo(i) => i < |s.calls| && !s.calls[i].ok
    case Release(bytes) => bytes <= s.granted
  }

  /** The charge and release steps of a limited budget; each line is one atomic
    * operation on the counter, or the caller's return. */
  function Do(s: Ledger, step: Operation): Ledger
    requires Enabled(s, step)
  {
    match step
    case Add(bytes) =>
      s.(used := WrappingAdd(s.used, bytes), calls := s.calls + [Call(bytes, SaturatingAdd(s.used, bytes) <= s.limit)])
    case Accept(i) => s.(granted := s.granted + s.calls[i].bytes, calls := Drop(s.calls, i))
    case Undo(i) => s.(used := WrappingSub(s.used, s.calls[i].bytes), calls := Drop(s.calls, i))
    case Release(bytes) => s.(used := WrappingSub(s.used, bytes), granted := s.granted - bytes)
  }

  /** Everything the counter stands for, without wrap-around. */
  function Outstanding(s: Ledger): nat {
    s.granted + Total(s.calls)
  }

  /** The counter stands for everything outstanding, modulo the word. */
  ghost predicate Inv(s: Ledger) {
    0 < s.limit < WORD - 1 && s.used == Outstanding(s) % WORD
  }

  lemma {:induction false} SumsSnoc(calls: seq<Call>, c: Call)
    ensures Total(calls + [c]) == Total(calls) + c.bytes
    ensures Accepted(calls + [c]) == Accepted(calls) + if c.ok then c.bytes else 0
  {
    if calls == [] {
      assert [] + [c] == [c] && [c][1..] == [];
    } else {
      assert (calls + [c])[1..] == calls[1..] + [c];
      SumsSnoc(calls[1..], c);
    }
  }

  lemma {:induction false} SumsDrop(calls: seq<Call>, i: nat)
    requires i < |calls|
    ensures Total(calls) == Total(Drop(calls, i)) + calls[i].bytes
    ensures Accepted(calls) == Accepted(Drop(calls, i)) + if calls[i].ok then calls[i].bytes else 0
  {
    if i == 0 {
      assert Drop(calls, 0) == calls[1..];
    } else {
      SumsDrop(calls[1..], i - 1);
      assert Drop(calls, i) == [calls[0]] + Drop(calls[1..], i - 1);
      assert Drop(calls, i)[1..] == Drop(calls[1..], i - 1);
    }
  }

  lemma Wraps(n: nat, b: Word)
    ensures WrappingAdd(n % WORD, b) == (n + b) % WORD
    ensures b <= n ==> WrappingSub(n % WORD, b) == (n - b) % WORD
  {
    var q, r := n / WORD, n % WORD;
    assert n == q * WORD + r;
  }

  lemma StepKeepsInv(s: Ledger, step: Operation)
    requires Inv(s) && Enabled(s, step)
    ensures Inv(Do(s, step)) && Do(s, step).limit == s.limit
  {
    match step
    case Add(bytes) =>
      SumsSnoc(s.calls, Call(bytes, SaturatingAdd(s.used, bytes) <= s.limit));
      Wraps(Outstanding(s), bytes);
    case Accept(i) => SumsDrop(s.calls, i);
    case Undo(i) =>
      SumsDrop(s.calls, i);
      Wraps(Outstanding(s), s.calls[i].bytes);
    case Release(bytes) => Wraps(Outstanding(s), bytes);
  }

  ghost predicate ValidRun(s: Ledger, steps: seq<Operation>)
    decreases |steps|
  {
    steps != [] ==> Enabled(s, steps[0]) && ValidRun(Do(s, steps[0]), steps[1..])
  }

  function Execute(s: Ledger, steps: seq<Operation>): Ledger
    requires ValidRun(s, steps)
    decreases |steps|
  {
    if steps == [] then s else Execute(Do(s, steps[0]), steps[1..])
  }

  lemma {:induction false} RunKeepsInv(s: Ledger, steps: seq<Operation>)
    requires Inv(s) && ValidRun(s, steps)
    ensures Inv(Execute(s, steps)) && Execute(s, steps).limit == s.limit
    decreases |steps|
  {
    if steps != [] {
      StepKeepsInv(s, steps[0]);
      RunKeepsInv(Do(s, steps[0]), steps[1..]);
    }
  }

  function Opened(limit: Word): Ledger {
    Ledger(limit, 0, 0, [])
  }

  /** In every interleaving, once no charge is in progress the counter is what
    * was granted, modulo the word: refused charges leave nothing behind. */
  lemma CounterIsExact(limit: Word, steps: seq<Operation>)
    requires 0 < limit < WORD - 1 && ValidRun(Opened(limit), steps)
    ensures var s := Execute(Opened(limit), steps);
            && s.used == Outstanding(s) % WORD
            && (s.calls == [] ==> s.used == s.granted % WORD)
  {
    RunKeepsInv(Opened(limit), steps);
  }

  // ---------- what is granted ----------

  /** What was granted and what is about to be. */
  function Committed(s: Ledger): nat {
    s.granted + Accepted(s.calls)
  }

  lemma {:induction false} AcceptedAtMostTotal(calls: seq<Call>)
    ensures Accepted(calls) <= Total(calls)
  {
    if calls != [] {
      AcceptedAtMostTotal(calls[1..]);
    }
  }

  /** In every reachable state a charge is decided as an unbounded counter would
    * decide it, if and only if the counter has not wrapped to where the charge
    * seems to fit. */
  lemma DecisionIsExact(limit: Word, steps: seq<Operation>, bytes: Word)
    requires 0 < limit < WORD - 1 && ValidRun(Opened(limit), steps) && 0 < bytes
    ensures var s := Execute(Opened(limit), steps);
            var calls := Do(s, Add(bytes)).calls;
            (calls[|calls| - 1].ok <==> Outstanding(s) + bytes <= limit) <==>
            !(Outstanding(s) >= WORD && Outstanding(s) % WORD + bytes <= limit)
  {
    RunKeepsInv(Opened(limit), steps);
    hide Execute;
    var n := Outstanding(Execute(Opened(limit), steps));
    if n < WORD {
      assert n % WORD == n;
    }
  }

  /** The charge fits the wrapped counter and not what is left of the limit. */
  predicate Overgrants(s: Ledger, step: Operation) {
    step.Add? && Outstanding(s) % WORD + step.bytes <= s.limit < Committed(s) + step.bytes
  }

  /** That takes a full word of bytes granted or in progress. */
  lemma OvergrantNeedsAWord(s: Ledger, step: Operation)
    requires Overgrants(s, step)
    ensures Outstanding(s) >= WORD
  {
    AcceptedAtMostTotal(s.calls);
  }

  /** A step keeps the grants within the limit unless it is such a charge. */
  lemma StepKeepsLimit(s: Ledger, step: Operation)
    requires Inv(s) && Enabled(s, step) && Committed(s) <= s.limit
    ensures Committed(Do(s, step)) <= s.limit <==> !Overgrants(s, step)
  {
    match step
    case Add(bytes) => SumsSnoc(s.calls, Call(bytes, SaturatingAdd(s.used, bytes) <= s.limit));
    case Accept(i) => SumsDrop(s.calls, i);
    case Undo(i) => SumsDrop(s.calls, i);
    case Release(bytes) =>
  }

  ghost predicate NoOvergrant(s: Ledger, steps: seq<Operation>)
    requires ValidRun(s, steps)
    decreases |steps|
  {
    steps != [] ==> !Overgrants(s, steps[0]) && NoOvergrant(Do(s, steps[0]), steps[1..])
  }

  lemma {:induction false} RunKeepsLimit(s: Ledger, steps: seq<Operation>)
    requires Inv(s) && Committed(s) <= s.limit && ValidRun(s, steps) && NoOvergrant(s, steps)
    ensures Committed(Execute(s, steps)) <= s.limit
    decreases |steps|
  {
    if steps != [] {
      hide Inv, Overgrants;
      StepKeepsInv(s, steps[0]);
      StepKeepsLimit(s, steps[0]);
      RunKeepsLimit(Do(s, steps[0]), steps[1..]);
    }
  }

  /** In every interleaving without such a charge, what was granted never exceeds
    * the limit, and once no charge is in progress the counter is exactly what
    * was granted. */
  lemma GrantsStayWithinLimit(limit: Word, steps: seq<Operation>)
    requires 0 < limit < WORD - 1 && ValidRun(Opened(limit), steps) && NoOvergrant(Opened(limit), steps)
    ensures var s := Execute(Opened(limit), steps);
            s.granted <= limit && (s.calls == [] ==> s.used == s.granted)
  {
    RunKeepsLimit(Opened(limit), steps);
    CounterIsExact(limit, steps);
  }

  lemma OneStep(s: Ledger, step: Operation, rest: seq<Operation>, s': Ledger)
    requires Enabled(s, step) && Do(s, step) == s' && ValidRun(s', rest)
    ensures ValidRun(s, [step] + rest) && Execute(s, [step] + rest) == Execute(s', rest)
  {
    hide Do, Enabled;
    assert ([step] + rest)[1..] == rest;
  }

  ghost predicate WithinWord(s: Ledger, steps: seq<Operation>)
    requires ValidRun(s, steps)
    decreases |steps|
  {
    Outstanding(s) < WORD && (steps != [] ==> WithinWord(Do(s, steps[0]), steps[1..]))
  }

  lemma {:induction false} WithinWordIsSafe(s: Ledger, steps: seq<Operation>)
    requires ValidRun(s, steps) && WithinWord(s, steps)
    ensures NoOvergrant(s, steps)
    decreases |steps|
  {
    if steps != [] {
      if Overgrants(s, steps[0]) {
        OvergrantNeedsAWord(s, steps[0]);
        assert false;
      }
      WithinWordIsSafe(Do(s, steps[0]), steps[1..]);
    }
  }

  /** In particular, in every interleaving that never has a full word granted or
    * in progress. */
  lemma WithinWordStaysWithinLimit(limit: Word, steps: seq<Operation>)
    requires 0 < limit < WORD - 1 && ValidRun(Opened(limit), steps) && WithinWord(Opened(limit), steps)
    ensures var s := Execute(Opened(limit), steps);
            s.granted <= limit && (s.calls == [] ==> s.used == s.granted)
  {
    WithinWordIsSafe(Opened(limit), steps);
    GrantsStayWithinLimit(limit, steps);
  }

  /** At any limit there is an interleaving that grants more: the limit is
    * granted, a charge of a word less one is refused and not yet undone, and one
    * more byte fits the wrapped counter. */
  lemma WrapGrantsTooMuch(limit: Word)
    requires 0 < limit < WORD - 1
    ensures var steps := [Add(limit), Accept(0), Add(WORD - 1), Add(1), Accept(1)];
            ValidRun(Opened(limit), steps) && Execute(Opened(limit), steps).granted == limit + 1
  {
    var s1 := Ledger(limit, limit, 0, [Call(limit, true)]);
    var s2 := Ledger(limit, limit, limit, []);
    var s3 := Ledger(limit, limit - 1, limit, [Call(WORD - 1, false)]);
    var s4 := Ledger(limit, limit, limit, [Call(WORD - 1, false), Call(1, true)]);
    var s5 := Ledger(limit, limit, limit + 1, [Call(WORD - 1, false)]);
    OneStep(s4, Accept(1), [], s5);
    OneStep(s3, Add(1), [Accept(1)], s4);
    OneStep(s2, Add(WORD - 1), [Add(1), Accept(1)], s3);
    OneStep(s1, Accept(0), [Add(WORD - 1), Add(1), Accept(1)], s2);
    OneStep(Opened(limit), Add(limit), [Accept(0), Add(WORD - 1), Add(1), Accept(1)], s1);
    hide *;
    assert [Add(limit)] + [Accept(0), Add(WORD - 1), Add(1), Accept(1)]
        == [Add(limit), Accept(0), Add(WORD - 1), Add(1), Accept(1)];
    assert [Accept(0)] + [Add(WORD - 1), Add(1), Accept(1)] == [Accept(0), Add(WORD - 1), Add(1), Accept(1)];
    assert [Add(WORD - 1)] + [Add(1), Accept(1)] == [Add(WORD - 1), Add(1), Accept(1)];
    assert [Add(1)] + [Accept(1)] == [Add(1), Accept(1)] && [Accept(1)] + [] == [Accept(1)];
  }

  // ---------- charges of bounded size ----------

  /** No charge is larger than `size` and at most `width` are in progress. */
  ghost predicate Bounded(s: Ledger, steps: seq<Operation>, size: nat, width: nat)
    requires ValidRun(s, steps)
    decreases |steps|
  {
    && |s.calls| <= width && (forall c :: c in s.calls ==> c.bytes <= size)
    && (steps != [] ==> Bounded(Do(s, steps[0]), steps[1..], size, width))
  }

  lemma {:induction false} TotalBound(calls: seq<Call>, size: nat, width: nat)
    requires |calls| <= width && forall c :: c in calls ==> c.bytes <= size
    ensures Total(calls) <= width * size
    decreases width
  {
    if calls == [] {
      assert 0 <= width * size;
    } else {
      TotalBound(calls[1..], size, width - 1);
      assert calls[0] in calls && width * size == (width - 1) * size + size;
    }
  }

  lemma {:induction false} BoundedRunKeepsLimit(s: Ledger, steps: seq<Operation>, size: nat, width: nat)
    requires Inv(s) && Committed(s) <= s.limit && ValidRun(s, steps) && Bounded(s, steps, size, width)
    requires s.limit + width * size < WORD
    ensures NoOvergrant(s, steps)
    decreases |steps|
  {
    if steps != [] {
      TotalBound(s.calls, size, width);
      hide Inv, Overgrants;
      if Overgrants(s, steps[0]) {
        OvergrantNeedsAWord(s, steps[0]);
        assert false;
      }
      StepKeepsInv(s, steps[0]);
      StepKeepsLimit(s, steps[0]);
      BoundedRunKeepsLimit(Do(s, steps[0]), steps[1..], size, width);
    }
  }

  /** So if the limit and the charges that can be in progress at once fit a word
    * together, the limit holds in every interleaving. */
  lemma BoundedChargesStayWithinLimit(limit: Word, steps: seq<Operation>, size: nat, width: nat)
    requires 0 < limit < WORD - 1 && limit + width * size < WORD
    requires ValidRun(Opened(limit), steps) && Bounded(Opened(limit), steps, size, width)
    ensures Execute(Opened(limit), steps).granted <= limit
  {
    BoundedRunKeepsLimit(Opened(limit), steps, size, width);
    GrantsStayWithinLimit(limit, steps);
  }

  // ---------- one caller ----------

  /** The budget object as one caller at a time uses it.  Sizes of data held in
    * memory fit a word, so wrap-around is left to the concurrent model above. */
  class Budget {
    const limit: nat
    var used: nat

    constructor (bytes: nat)
      ensures limit == bytes && used == 0 && Valid()
    {
      limit, used := bytes, 0;
    }

    ghost predicate Valid()
      reads this
    {
      limit == 0 || used <= limit
    }

    predicate Fits(bytes: nat)
      reads this
    {
      limit == 0 || used + bytes <= limit
    }

    /** What `used` becomes when `bytes` are granted. */
    function After(bytes: nat): nat
      reads this
    {
      if limit == 0 then used else used + bytes
    }

    method Charge(bytes: nat) returns (ok: bool)
      requires Valid()
      modifies this
      ensures Valid()
      ensures ok <==> old(Fits(bytes))
      ensures used == if ok then old(After(bytes)) else old(used)
    {
      if limit == 0 || bytes == 0 {
        return true;
      }
      var previous := used;
      used := used + bytes;
      if previous + bytes > limit {
        used := used - bytes;
        return false;
      }
      return true;
    }

    method Release(bytes: nat)
      requires Valid() && (limit == 0 || bytes <= used)
      modifies this
      ensures Valid()
      ensures used == if limit == 0 then old(used) else old(used) - bytes
    {
      if limit == 0 || bytes == 0 {
        return;
      }
      used := used - bytes;
    }

    /** `charge_bucket_insert`: charge what the insertion adds, then insert;
      * nothing changes if the charge is refused. */
    method ChargeBucketInsert(m: Buckets, key: Row, row: Row) returns (m': Buckets, bytes: Option<nat>)
      requires Valid()
      modifies this
      ensures Valid()
      ensures bytes.Some? <==> old(Fits(InsertBytes(m, key, row)))
      ensures bytes.None? ==> m' == m && used == old(used)
      ensures bytes.Some? ==>
              && m' == Inserted(m, key, row)
              && BucketsBytes(m') == BucketsBytes(m) + bytes.value
              && used == old(After(bytes.value))
    {
      var total: nat;
      if key in m {
        total := RowBytes(row);
      } else {
        total := RowBytes(key) + RowBytes(row);
      }
      var ok := Charge(total);
      if !ok {
        return m, None;
      }
      InsertGrowsBy(m, key, row);
      assert [] + [row] == [row];
      if key in m {
        m' := m[key := m[key] + [row]];
      } else {
        m' := m[key := [row]];
      }
      return m', Some(total);
    }
  }
}
