/** Hash aggregation and its memory accounting (`src/executor/aggregate.rs`). */
module Aggregation {
  import opened Options
  import opened Values
  import opened Streams
  import opened Selections
  import opened QueryBudget

  datatype Func =
    | CountStar
    | Count
    | Sum
    | Avg
    | Min
    | Max
    | CountDistinct
    | SumDistinct
    | AvgDistinct
    | GroupConcat(separator: seq<Byte>)

  /** A set of distinct values is kept in the order of first arrival. */
  datatype State =
    | CountStarOf(count: nat)
    | CountOf(count: nat)
    | SumOf(sum: Option<Value>, count: nat)
    | AvgOf(sum: Option<Value>, count: nat)
    | MinOf(current: Option<Value>)
    | MaxOf(current: Option<Value>)
    | CountDistinctOf(seen: seq<Value>)
    | SumDistinctOf(seen: seq<Value>, sum: Option<Value>)
    | AvgDistinctOf(seen: seq<Value>, sum: Option<Value>, count: nat)
    | ConcatOf(parts: seq<seq<Byte>>, separator: seq<Byte>)

  /** Value arithmetic, order and text, left open. */
  datatype Ops = Ops(add: (Value, Value) -> Value, less: (Value, Value) -> bool, text: Value -> seq<Byte>)

  function New(f: Func): State {
    match f
    case CountStar => CountStarOf(0)
    case Count => CountOf(0)
    case Sum => SumOf(None, 0)
    case Avg => AvgOf(None, 0)
    case Min => MinOf(None)
    case Max => MaxOf(None)
    case CountDistinct => CountDistinctOf([])
    case SumDistinct => SumDistinctOf([], None)
    case AvgDistinct => AvgDistinctOf([], None, 0)
    case GroupConcat(separator) => ConcatOf([], separator)
  }

  function Plus(ops: Ops, sum: Option<Value>, v: Value): Option<Value> {
    Some(if sum.Some? then ops.add(sum.value, v) else v)
  }

  function Update(ops: Ops, s: State, v: Value): State {
    if s.CountStarOf? then CountStarOf(s.count + 1)
    else if v == Null then s
    else match s
      case CountStarOf(count) => s
      case CountOf(count) => CountOf(count + 1)
      case SumOf(sum, count) => SumOf(Plus(ops, sum, v), count + 1)
      case AvgOf(sum, count) => AvgOf(Plus(ops, sum, v), count + 1)
      case MinOf(current) => if current.Some? && !ops.less(v, current.value) then s else MinOf(Some(v))
      case MaxOf(current) => if current.Some? && !ops.less(current.value, v) then s else MaxOf(Some(v))
      case CountDistinctOf(seen) => if v in seen then s else CountDistinctOf(seen + [v])
      case SumDistinctOf(seen, sum) => if v in seen then s else SumDistinctOf(seen + [v], Plus(ops, sum, v))
      case AvgDistinctOf(seen, sum, count) =>
        if v in seen then s else AvgDistinctOf(seen + [v], Plus(ops, sum, v), count + 1)
      case ConcatOf(parts, separator) => ConcatOf(parts + [ops.text(v)], separator)
  }

  // ---------- what an accumulator computes ----------

  function Fold(ops: Ops, s: State, values: seq<Value>): State {
    if values == [] then s else Update(ops, Fold(ops, s, values[..|values| - 1]), values[|values| - 1])
  }

  function NonNull(values: seq<Value>): seq<Value> {
    if values == [] then []
    else
      var v := values[|values| - 1];
      NonNull(values[..|values| - 1]) + if v == Null then [] else [v]
  }

  /** Each value once, at its first arrival. */
  function Distinct(values: seq<Value>): seq<Value> {
    if values == [] then []
    else
      var before, v := values[..|values| - 1], values[|values| - 1];
      Distinct(before) + if v in before then [] else [v]
  }

  /** The same values, none twice. */
  lemma {:induction false} DistinctIsSet(values: seq<Value>)
    ensures forall v :: v in Distinct(values) <==> v in values
    ensures forall i, j :: 0 <= i < j < |Distinct(values)| ==> Distinct(values)[i] != Distinct(values)[j]
    decreases |values|
  {
    if values != [] {
      var before, v := values[..|values| - 1], values[|values| - 1];
      assert values == before + [v];
      DistinctIsSet(before);
    }
  }

  function Total(ops: Ops, values: seq<Value>): Option<Value> {
    if values == [] then None else Plus(ops, Total(ops, values[..|values| - 1]), values[|values| - 1])
  }

  function Texts(ops: Ops, values: seq<Value>): seq<seq<Byte>> {
    seq(|values|, i requires 0 <= i < |values| => ops.text(values[i]))
  }

  /** The values can be ranked by `less`, as the values of one column can. */
  ghost predicate IsOrder(less: (Value, Value) -> bool, values: seq<Value>) {
    && (forall a :: a in values ==> !less(a, a))
    && (forall a, b :: a in values && b in values && less(a, b) ==> !less(b, a))
    && (forall a, b, c :: a in values && b in values && c in values && !less(a, b) && !less(b, c) ==> !less(a, c))
  }

  /** A least element of the values under `less`, or nothing for no values. */
  ghost predicate IsLeast(less: (Value, Value) -> bool, values: seq<Value>, m: Option<Value>) {
    if values == [] then m == None
    else m.Some? && m.value in values && forall v :: v in values ==> !less(v, m.value)
  }

  function Flipped(less: (Value, Value) -> bool): (Value, Value) -> bool {
    (a: Value, b: Value) => less(b, a)
  }

  /** The meaning of each aggregate function on a list of values. */
  ghost predicate Means(ops: Ops, f: Func, all: seq<Value>, s: State) {
    var values := NonNull(all);
    match f
    case CountStar => s == CountStarOf(|all|)
    case Count => s == CountOf(|values|)
    case Sum => s == SumOf(Total(ops, values), |values|)
    case Avg => s == AvgOf(Total(ops, values), |values|)
    case Min => s.MinOf? && IsLeast(ops.less, values, s.current)
    case Max => s.MaxOf? && IsLeast(Flipped(ops.less), values, s.current)
    case CountDistinct => s == CountDistinctOf(Distinct(values))
    case SumDistinct => s == SumDistinctOf(Distinct(values), Total(ops, Distinct(values)))
    case AvgDistinct => s == AvgDistinctOf(Distinct(values), Total(ops, Distinct(values)), |Distinct(values)|)
    case GroupConcat(separator) => s == ConcatOf(Texts(ops, values), separator)
  }

  lemma NonNullSnoc(values: seq<Value>, v: Value)
    ensures NonNull(values + [v]) == NonNull(values) + if v == Null then [] else [v]
  {
    assert (values + [v])[..|values|] == values;
  }

  lemma DistinctSnoc(values: seq<Value>, v: Value)
    ensures Distinct(values + [v]) == Distinct(values) + if v in values then [] else [v]
  {
    assert (values + [v])[..|values|] == values;
  }

  lemma DistinctMember(values: seq<Value>, v: Value)
    ensures v in Distinct(values) <==> v in values
  {
    DistinctIsSet(values);
  }

  lemma TotalSnoc(ops: Ops, values: seq<Value>, v: Value)
    ensures Total(ops, values + [v]) == Plus(ops, Total(ops, values), v)
  {
    assert (values + [v])[..|values|] == values;
  }

  lemma LeastSnoc(less: (Value, Value) -> bool, values: seq<Value>, m: Option<Value>, v: Value)
    requires IsOrder(less, values + [v]) && IsLeast(less, values, m)
    ensures IsLeast(less, values + [v], if m.Some? && !less(v, m.value) then m else Some(v))
  {
    forall w | w in values + [v]
      ensures !less(w, if m.Some? && !less(v, m.value) then m.value else v)
    {
    }
  }

  lemma UpdateMeans(ops: Ops, f: Func, all: seq<Value>, s: State, v: Value)
    requires Means(ops, f, all, s) && (f == Min || f == Max ==> IsOrder(ops.less, NonNull(all + [v])))
    ensures Means(ops, f, all + [v], Update(ops, s, v))
  {
    hide Means, Update;
    match f
    case Min => LeastStep(ops, f, all, s, v);
    case Max => LeastStep(ops, f, all, s, v);
    case CountDistinct => DistinctStep(ops, f, all, s, v);
    case SumDistinct => DistinctStep(ops, f, all, s, v);
    case AvgDistinct => DistinctStep(ops, f, all, s, v);
    case _ => PlainStep(ops, f, all, s, v);
  }

  lemma LeastStep(ops: Ops, f: Func, all: seq<Value>, s: State, v: Value)
    requires IsOrder(ops.less, NonNull(all + [v])) && Means(ops, f, all, s) && (f == Min || f == Max)
    ensures Means(ops, f, all + [v], Update(ops, s, v))
  {
    hide NonNull;
    NonNullSnoc(all, v);
    var values := NonNull(all);
    if v == Null {
      assert values + [] == values;
    } else {
      LeastSnoc(if f == Min then ops.less else Flipped(ops.less), values, s.current, v);
    }
    hide IsLeast, IsOrder;
  }

  lemma DistinctStep(ops: Ops, f: Func, all: seq<Value>, s: State, v: Value)
    requires Means(ops, f, all, s) && (f == CountDistinct || f == SumDistinct || f == AvgDistinct)
    ensures Means(ops, f, all + [v], Update(ops, s, v))
  {
    hide NonNull, Distinct, Total;
    NonNullSnoc(all, v);
    var values := NonNull(all);
    if v == Null {
      assert values + [] == values;
    } else {
      DistinctSnoc(values, v);
      DistinctMember(values, v);
      TotalSnoc(ops, Distinct(values), v);
      assert Distinct(values) + [] == Distinct(values);
    }
  }

  lemma PlainStep(ops: Ops, f: Func, all: seq<Value>, s: State, v: Value)
    requires Means(ops, f, all, s)
    requires f == CountStar || f == Count || f == Sum || f == Avg || f.GroupConcat?
    ensures Means(ops, f, all + [v], Update(ops, s, v))
  {
    hide NonNull, Total;
    NonNullSnoc(all, v);
    var values := NonNull(all);
    if v == Null {
      assert values + [] == values;
    } else {
      TotalSnoc(ops, values, v);
      assert Texts(ops, values + [v]) == Texts(ops, values) + [ops.text(v)];
    }
  }

  /** Feeding an accumulator the values one by one gives the function's meaning
    * on the whole list; MIN and MAX where the values can be ranked. */
  lemma {:induction false} FoldMeans(ops: Ops, f: Func, values: seq<Value>)
    requires f == Min || f == Max ==> IsOrder(ops.less, NonNull(values))
    ensures Means(ops, f, values, Fold(ops, New(f), values))
    decreases |values|
  {
    if values == [] {
      assert Texts(ops, []) == [];
    } else {
      var before, v := values[..|values| - 1], values[|values| - 1];
      assert values == before + [v];
      NonNullSnoc(before, v);
      FoldMeans(ops, f, before);
      UpdateMeans(ops, f, before, Fold(ops, New(f), before), v);
    }
  }

  // ---------- which values, and what sum ----------

  ghost predicate ValuesAt(values: seq<Value>, ks: seq<nat>, out: seq<Value>) {
    |out| == |ks| && forall i :: 0 <= i < |ks| ==> ks[i] < |values| && out[i] == values[ks[i]]
  }

  lemma ValuesAtSnoc(values: seq<Value>, ks: seq<nat>, out: seq<Value>, v: Value, last: bool)
    requires ValuesAt(values, ks, out)
    ensures ValuesAt(values + [v], ks + (if last then [|values|] else []), out + if last then [v] else [])
  {
    var ks' := ks + if last then [|values|] else [];
    assert forall i :: 0 <= i < |ks| ==> ks'[i] == ks[i] && (values + [v])[ks[i]] == values[ks[i]];
  }

  /** The positions of the values other than NULL. */
  ghost function NonNullPlaces(values: seq<Value>): set<nat> {
    set k | 0 <= k < |values| && values[k] != Null
  }

  /** The values other than NULL, in order. */
  lemma {:induction false} NonNullAre(values: seq<Value>) returns (ks: seq<nat>)
    ensures Enumerates(ks, NonNullPlaces(values)) && ValuesAt(values, ks, NonNull(values))
    decreases |values|
  {
    if values == [] {
      ks := [];
    } else {
      var before, v := values[..|values| - 1], values[|values| - 1];
      assert values == before + [v];
      var ks' := NonNullAre(before);
      SnocEnumerates(ks', NonNullPlaces(before), |before|, v != Null);
      ValuesAtSnoc(before, ks', NonNull(before), v, v != Null);
      ks := ks' + if v != Null then [|before|] else [];
      assert NonNullPlaces(values) == NonNullPlaces(before) + if v != Null then {|before|} else {};
      hide Enumerates, ValuesAt;
    }
  }

  /** The positions at which a value arrives for the first time. */
  ghost function FirstPlaces(values: seq<Value>): set<nat> {
    set k | 0 <= k < |values| && values[k] !in values[..k]
  }

  lemma FirstPlacesSnoc(before: seq<Value>, v: Value)
    ensures FirstPlaces(before + [v]) == FirstPlaces(before) + if v !in before then {|before|} else {}
  {
    var values := before + [v];
    assert values[..|before|] == before;
    assert forall k :: 0 <= k < |before| ==> values[k] == before[k] && values[..k] == before[..k];
  }

  /** Each value at its first arrival, in that order. */
  lemma {:induction false} DistinctAre(values: seq<Value>) returns (ks: seq<nat>)
    ensures Enumerates(ks, FirstPlaces(values)) && ValuesAt(values, ks, Distinct(values))
    decreases |values|
  {
    if values == [] {
      ks := [];
    } else {
      var before, v := values[..|values| - 1], values[|values| - 1];
      assert values == before + [v];
      var ks' := DistinctAre(before);
      SnocEnumerates(ks', FirstPlaces(before), |before|, v !in before);
      ValuesAtSnoc(before, ks', Distinct(before), v, v !in before);
      ks := ks' + if v !in before then [|before|] else [];
      FirstPlacesSnoc(before, v);
      hide Enumerates, ValuesAt, FirstPlaces;
    }
  }

  /** The running sums of a list: the first value, then each next one added. */
  ghost predicate AreRunningSums(ops: Ops, values: seq<Value>, sums: seq<Value>) {
    && |sums| == |values|
    && (values != [] ==> sums[0] == values[0])
    && forall i :: 0 < i < |values| ==> sums[i] == ops.add(sums[i - 1], values[i])
  }

  lemma {:induction false} TotalIsLastSum(ops: Ops, values: seq<Value>) returns (sums: seq<Value>)
    ensures AreRunningSums(ops, values, sums)
    ensures Total(ops, values) == if values == [] then None else Some(sums[|values| - 1])
    decreases |values|
  {
    if values == [] {
      sums := [];
    } else {
      var n := |values| - 1;
      var before := TotalIsLastSum(ops, values[..n]);
      sums := before + [if n == 0 then values[0] else ops.add(before[n - 1], values[n])];
    }
  }

  /** The sum an accumulator holds. */
  function SumIn(s: State): Option<Value>
    requires s.SumOf? || s.AvgOf? || s.SumDistinctOf? || s.AvgDistinctOf?
  {
    s.sum
  }

  predicate IsSumming(f: Func) {
    f == Sum || f == Avg || f == SumDistinct || f == AvgDistinct
  }

  /** What SUM and AVG add up: the values other than NULL, or each of these once. */
  function Added(f: Func, values: seq<Value>): seq<Value> {
    if f == SumDistinct || f == AvgDistinct then Distinct(NonNull(values)) else NonNull(values)
  }

  /** SUM and AVG, with or without DISTINCT, hold the last running sum of the values
    * they add up; nothing if there are none. */
  lemma SumIsLastSum(ops: Ops, f: Func, values: seq<Value>) returns (sums: seq<Value>)
    requires IsSumming(f)
    ensures AreRunningSums(ops, Added(f, values), sums)
    ensures var s := Fold(ops, New(f), values);
            && (s.SumOf? || s.AvgOf? || s.SumDistinctOf? || s.AvgDistinctOf?)
            && SumIn(s) == if sums == [] then None else Some(sums[|sums| - 1])
  {
    FoldMeans(ops, f, values);
    sums := TotalIsLastSum(ops, Added(f, values));
  }

  function IntSum(values: seq<Value>): int
    requires forall v :: v in values ==> v.Int?
  {
    if values == [] then 0 else values[0].n + IntSum(values[1..])
  }

  lemma {:induction false} IntSumSnoc(values: seq<Value>, v: Value)
    requires (forall w :: w in values ==> w.Int?) && v.Int?
    ensures forall w :: w in values + [v] ==> w.Int?
    ensures IntSum(values + [v]) == IntSum(values) + v.n
  {
    if values == [] {
      assert values + [v] == [v] && [v][1..] == [];
    } else {
      assert (values + [v])[1..] == values[1..] + [v];
      IntSumSnoc(values[1..], v);
    }
  }

  predicate FitsI64(n: int) {
    -0x8000_0000_0000_0000 <= n < 0x8000_0000_0000_0000
  }

  /** Integer addition where it does not overflow. */
  ghost predicate AddsIntegers(ops: Ops) {
    forall a: I64, b: I64 :: FitsI64(a + b) ==> ops.add(Int(a), Int(b)) == Int(a + b)
  }

  lemma {:induction false} RunningSumIsIntSum(ops: Ops, values: seq<Value>, sums: seq<Value>)
    requires AddsIntegers(ops) && AreRunningSums(ops, values, sums) && values != []
    requires forall v :: v in values ==> v.Int?
    requires forall i :: 0 < i <= |values| ==> FitsI64(IntSum(values[..i]))
    ensures FitsI64(IntSum(values)) && sums[|values| - 1] == Int(IntSum(values))
    decreases |values|
  {
    var n := |values| - 1;
    assert values == values[..n] + [values[n]] && values[..|values|] == values;
    assert values[n] in values;
    IntSumSnoc(values[..n], values[n]);
    if n > 0 {
      forall i | 0 < i <= n ensures FitsI64(IntSum(values[..n][..i])) {
        assert values[..n][..i] == values[..i];
      }
      RunningSumIsIntSum(ops, values[..n], sums[..n]);
    } else {
      assert values[..0] == [];
    }
  }

  /** Over integers, as long as no partial sum overflows, SUM holds the sum. */
  lemma IntegerSum(ops: Ops, f: Func, values: seq<Value>)
    requires IsSumming(f) && AddsIntegers(ops) && Added(f, values) != []
    requires forall v :: v in Added(f, values) ==> v.Int?
    requires forall i :: 0 < i <= |Added(f, values)| ==> FitsI64(IntSum(Added(f, values)[..i]))
    ensures FitsI64(IntSum(Added(f, values)))
    ensures var s := Fold(ops, New(f), values);
            && (s.SumOf? || s.AvgOf? || s.SumDistinctOf? || s.AvgDistinctOf?)
            && SumIn(s) == Some(Int(IntSum(Added(f, values))))
  {
    var sums := SumIsLastSum(ops, f, values);
    RunningSumIsIntSum(ops, Added(f, values), sums);
  }

  // ---------- resident size ----------

  function OptionBytes(v: Option<Value>): nat {
    if v.None? then 0 else ValueBytes(v.value)
  }

  function StateBytes(s: State): nat {
    match s
    case CountStarOf(_) => 0
    case CountOf(_) => 0
    case SumOf(sum, _) => OptionBytes(sum)
    case AvgOf(sum, _) => OptionBytes(sum)
    case MinOf(current) => OptionBytes(current)
    case MaxOf(current) => OptionBytes(current)
    case CountDistinctOf(seen) => RowBytes(seen)
    case SumDistinctOf(seen, sum) => RowBytes(seen) + OptionBytes(sum)
    case AvgDistinctOf(seen, sum, _) => RowBytes(seen) + OptionBytes(sum)
    case ConcatOf(parts, separator) => StringsBytes(parts) + VALUE_BYTES + |separator|
  }

  function ValueIn(v: Option<Value>): seq<Value> {
    if v.None? then [] else [v.value]
  }

  /** The values an accumulator holds on to. */
  function ValuesIn(s: State): seq<Value> {
    match s
    case CountStarOf(_) => []
    case CountOf(_) => []
    case SumOf(sum, _) => ValueIn(sum)
    case AvgOf(sum, _) => ValueIn(sum)
    case MinOf(current) => ValueIn(current)
    case MaxOf(current) => ValueIn(current)
    case CountDistinctOf(seen) => seen
    case SumDistinctOf(seen, sum) => seen + ValueIn(sum)
    case AvgDistinctOf(seen, sum, _) => seen + ValueIn(sum)
    case ConcatOf(_, _) => []
  }

  function TextsIn(s: State): seq<seq<Byte>> {
    if s.ConcatOf? then s.parts + [s.separator] else []
  }

  /** An accumulator weighs the values and texts it holds: sixteen bytes each, and
    * their text. */
  lemma StateWeighs(s: State)
    ensures StateBytes(s) == VALUE_BYTES * (|ValuesIn(s)| + |TextsIn(s)|) + |TextOf(ValuesIn(s))| + |Flat(TextsIn(s))|
  {
    hide StateBytes, ValuesIn, TextsIn;
    StateIsHeld(s);
    RowWeighs(ValuesIn(s));
    TextsWeigh(TextsIn(s));
  }

  lemma StateIsHeld(s: State)
    ensures StateBytes(s) == RowBytes(ValuesIn(s)) + StringsBytes(TextsIn(s))
  {
    match s
    case SumDistinctOf(seen, sum) => RowBytesBoth(seen, ValueIn(sum));
    case AvgDistinctOf(seen, sum, _) => RowBytesBoth(seen, ValueIn(sum));
    case ConcatOf(parts, separator) => StringsBytesSnoc(parts, separator);
    case _ =>
  }

  predicate Matches(f: Func, s: State) {
    match f
    case CountStar => s.CountStarOf?
    case Count => s.CountOf?
    case Sum => s.SumOf?
    case Avg => s.AvgOf?
    case Min => s.MinOf?
    case Max => s.MaxOf?
    case CountDistinct => s.CountDistinctOf?
    case SumDistinct => s.SumDistinctOf?
    case AvgDistinct => s.AvgDistinctOf?
    case GroupConcat(separator) => s.ConcatOf? && s.separator == separator
  }

  lemma UpdateMatches(ops: Ops, f: Func, s: State, v: Value)
    requires Matches(f, s)
    ensures Matches(f, Update(ops, s, v))
  {
  }

  /** No accumulator is ever smaller than when it was new. */
  lemma NewIsSmallest(f: Func, s: State)
    requires Matches(f, s)
    ensures StateBytes(New(f)) <= StateBytes(s)
  {
  }

  /** How much the accumulators of a group have grown. */
  ghost function Growth(funcs: seq<Func>, states: seq<State>): int
    requires |funcs| == |states|
  {
    if funcs == [] then 0
    else StateBytes(states[0]) - StateBytes(New(funcs[0])) + Growth(funcs[1..], states[1..])
  }

  ghost predicate AllMatch(funcs: seq<Func>, states: seq<State>) {
    |funcs| == |states| && forall i :: 0 <= i < |funcs| ==> Matches(funcs[i], states[i])
  }

  lemma {:induction false} GrowthSet(funcs: seq<Func>, states: seq<State>, i: nat, s: State)
    requires |funcs| == |states| && i < |states|
    ensures Growth(funcs, states[i := s]) == Growth(funcs, states) + StateBytes(s) - StateBytes(states[i])
  {
    if i == 0 {
      assert states[0 := s][1..] == states[1..];
    } else {
      assert states[i := s][1..] == states[1..][i - 1 := s];
      GrowthSet(funcs[1..], states[1..], i - 1, s);
    }
  }

  /** One accumulator's growth is part of the group's. */
  lemma {:induction false} GrowthBounds(funcs: seq<Func>, states: seq<State>, i: nat)
    requires AllMatch(funcs, states) && i < |states|
    ensures Growth(funcs, states) >= StateBytes(states[i]) - StateBytes(New(funcs[i])) >= 0
  {
    GrowthPositive(funcs[1..], states[1..]);
    NewIsSmallest(funcs[0], states[0]);
    if i > 0 {
      GrowthBounds(funcs[1..], states[1..], i - 1);
    }
  }

  lemma {:induction false} GrowthPositive(funcs: seq<Func>, states: seq<State>)
    requires AllMatch(funcs, states)
    ensures Growth(funcs, states) >= 0
  {
    if funcs != [] {
      NewIsSmallest(funcs[0], states[0]);
      GrowthPositive(funcs[1..], states[1..]);
    }
  }

  // ---------- groups ----------

  /** `keyOf` fails where evaluating a grouping expression fails; without GROUP
    * BY every row has the empty key. */
  datatype Query = Query(ops: Ops, funcs: seq<Func>, args: seq<Row -> Value>, keyOf: Row -> Option<Row>, grouped: bool)

  ghost predicate ValidQuery(q: Query) {
    |q.funcs| == |q.args| && (!q.grouped ==> forall row :: q.keyOf(row) == Some([]))
  }

  type Groups = map<Row, seq<State>>

  function Fresh(q: Query): seq<State> {
    seq(|q.funcs|, i requires 0 <= i < |q.funcs| => New(q.funcs[i]))
  }

  function Folded(q: Query, states: seq<State>, row: Row): seq<State>
    requires |states| == |q.args|
  {
    seq(|states|, i requires 0 <= i < |states| => Update(q.ops, states[i], q.args[i](row)))
  }

  /** Without GROUP BY there is one group even for no input. */
  function Start(q: Query): Groups {
    if q.grouped then map[] else map[[] := Fresh(q)]
  }

  /** The groups after the rows, one row at a time. */
  ghost function GroupsOf(q: Query, rows: seq<Row>): (g: Groups)
    requires ValidQuery(q) && forall row :: row in rows ==> q.keyOf(row).Some?
    ensures forall k :: k in g ==> AllMatch(q.funcs, g[k])
  {
    if rows == [] then Start(q)
    else
      var g := GroupsOf(q, rows[..|rows| - 1]);
      var row := rows[|rows| - 1];
      Into(q, g, q.keyOf(row).value, row)
  }

  /** A row goes into the group of its key. */
  ghost function Into(q: Query, g: Groups, key: Row, row: Row): (g': Groups)
    requires ValidQuery(q) && forall k :: k in g ==> AllMatch(q.funcs, g[k])
    ensures forall k :: k in g' ==> AllMatch(q.funcs, g'[k])
  {
    var states := if key in g then g[key] else Fresh(q);
    FoldedMatches(q, states, row);
    g[key := Folded(q, states, row)]
  }

  lemma GroupsSnoc(q: Query, rows: seq<Row>, row: Row)
    requires ValidQuery(q) && (forall r :: r in rows ==> q.keyOf(r).Some?) && q.keyOf(row).Some?
    ensures forall r :: r in rows + [row] ==> q.keyOf(r).Some?
    ensures GroupsOf(q, rows + [row]) == Into(q, GroupsOf(q, rows), q.keyOf(row).value, row)
  {
    assert (rows + [row])[..|rows|] == rows;
  }

  lemma FoldedMatches(q: Query, states: seq<State>, row: Row)
    requires ValidQuery(q) && AllMatch(q.funcs, states)
    ensures AllMatch(q.funcs, Folded(q, states, row))
  {
    forall i | 0 <= i < |states| ensures Matches(q.funcs[i], Folded(q, states, row)[i]) {
      UpdateMatches(q.ops, q.funcs[i], states[i], q.args[i](row));
    }
  }

  function WithKey(q: Query, rows: seq<Row>, key: Row): seq<Row> {
    if rows == [] then []
    else
      var row := rows[|rows| - 1];
      WithKey(q, rows[..|rows| - 1], key) + if q.keyOf(row) == Some(key) then [row] else []
  }

  ghost function PlacesOf(q: Query, rows: seq<Row>, key: Row): set<nat> {
    set k | 0 <= k < |rows| && q.keyOf(rows[k]) == Some(key)
  }

  ghost predicate RowsAt(rows: seq<Row>, ks: seq<nat>, out: seq<Row>) {
    |out| == |ks| && forall i :: 0 <= i < |ks| ==> ks[i] < |rows| && out[i] == rows[ks[i]]
  }

  lemma RowsAtSnoc(rows: seq<Row>, ks: seq<nat>, out: seq<Row>, row: Row, last: bool)
    requires RowsAt(rows, ks, out)
    ensures RowsAt(rows + [row], ks + (if last then [|rows|] else []), out + if last then [row] else [])
  {
    var ks' := ks + if last then [|rows|] else [];
    assert forall i :: 0 <= i < |ks| ==> ks'[i] == ks[i] && (rows + [row])[ks[i]] == rows[ks[i]];
  }

  /** The rows of a group, in input order. */
  lemma {:induction false} WithKeyAre(q: Query, rows: seq<Row>, key: Row) returns (ks: seq<nat>)
    ensures Enumerates(ks, PlacesOf(q, rows, key)) && RowsAt(rows, ks, WithKey(q, rows, key))
    decreases |rows|
  {
    if rows == [] {
      ks := [];
    } else {
      var before, row := rows[..|rows| - 1], rows[|rows| - 1];
      assert rows == before + [row];
      var ks' := WithKeyAre(q, before, key);
      var mine := q.keyOf(row) == Some(key);
      SnocEnumerates(ks', PlacesOf(q, before, key), |before|, mine);
      RowsAtSnoc(before, ks', WithKey(q, before, key), row, mine);
      ks := ks' + if mine then [|before|] else [];
      assert PlacesOf(q, rows, key) == PlacesOf(q, before, key) + if mine then {|before|} else {};
      hide Enumerates, RowsAt;
    }
  }

  /** Accumulate over a list of rows, whatever their keys. */
  ghost function FoldAll(q: Query, rows: seq<Row>): (states: seq<State>)
    requires ValidQuery(q)
    ensures |states| == |q.funcs|
  {
    if rows == [] then Fresh(q) else Folded(q, FoldAll(q, rows[..|rows| - 1]), rows[|rows| - 1])
  }

  /** The groups partition the rows: a key has a group exactly when some row has
    * that key (or there is no GROUP BY), and its accumulators are those of its
    * own rows in input order. */
  lemma {:induction false} GroupsPartitionRows(q: Query, rows: seq<Row>, key: Row)
    requires ValidQuery(q) && forall row :: row in rows ==> q.keyOf(row).Some?
    ensures key in GroupsOf(q, rows) <==> WithKey(q, rows, key) != [] || (!q.grouped && key == [])
    ensures key in GroupsOf(q, rows) ==> GroupsOf(q, rows)[key] == FoldAll(q, WithKey(q, rows, key))
    decreases |rows|
  {
    if rows != [] {
      var before, row := rows[..|rows| - 1], rows[|rows| - 1];
      GroupsPartitionRows(q, before, key);
      if q.keyOf(row) == Some(key) {
        var mine := WithKey(q, before, key);
        assert WithKey(q, rows, key) == mine + [row];
        assert (mine + [row])[..|mine|] == mine && (mine + [row])[|mine|] == row;
        assert FoldAll(q, mine + [row]) == Folded(q, FoldAll(q, mine), row);
        assert key !in GroupsOf(q, before) ==> mine == [];
      } else {
        assert WithKey(q, rows, key) == WithKey(q, before, key);
      }
    }
  }

  /** The accumulators of a list of rows, function by function. */
  lemma {:induction false} FoldAllByFunction(q: Query, rows: seq<Row>, i: nat)
    requires ValidQuery(q) && i < |q.funcs|
    ensures FoldAll(q, rows)[i] == Fold(q.ops, New(q.funcs[i]), Arguments(q, rows, i))
    decreases |rows|
  {
    if rows != [] {
      var before, row := rows[..|rows| - 1], rows[|rows| - 1];
      FoldAllByFunction(q, before, i);
      assert Arguments(q, rows, i)[..|before|] == Arguments(q, before, i);
    }
  }

  function Arguments(q: Query, rows: seq<Row>, i: nat): seq<Value>
    requires i < |q.args|
  {
    seq(|rows|, r requires 0 <= r < |rows| => q.args[i](rows[r]))
  }

  /** A group's accumulator means its function on the argument values of the
    * group's own rows, in input order. */
  lemma GroupMeans(q: Query, rows: seq<Row>, key: Row, i: nat)
    requires ValidQuery(q) && i < |q.funcs|
    requires q.funcs[i] == Min || q.funcs[i] == Max ==>
             IsOrder(q.ops.less, NonNull(Arguments(q, WithKey(q, rows, key), i)))
    requires (forall row :: row in rows ==> q.keyOf(row).Some?) && key in GroupsOf(q, rows)
    ensures |GroupsOf(q, rows)[key]| == |q.funcs|
    ensures Means(q.ops, q.funcs[i], Arguments(q, WithKey(q, rows, key), i), GroupsOf(q, rows)[key][i])
  {
    GroupsPartitionRows(q, rows, key);
    FoldAllByFunction(q, WithKey(q, rows, key), i);
    FoldMeans(q.ops, q.funcs[i], Arguments(q, WithKey(q, rows, key), i));
  }

  // ---------- what the groups weigh ----------

  ghost function GroupSize(q: Query): (Row, seq<State>) -> int {
    (key: Row, states: seq<State>) => RowBytes(key) + if |states| == |q.funcs| then Growth(q.funcs, states) else 0
  }

  ghost function Resident(q: Query, g: Groups): int {
    MapSum(g, GroupSize(q))
  }

  lemma {:induction false} FreshHasNotGrown(funcs: seq<Func>, states: seq<State>)
    requires |funcs| == |states| && forall i :: 0 <= i < |funcs| ==> states[i] == New(funcs[i])
    ensures Growth(funcs, states) == 0
  {
    if funcs != [] {
      FreshHasNotGrown(funcs[1..], states[1..]);
    }
  }

  lemma NewGroupWeighsItsKey(q: Query, g: Groups, key: Row)
    requires key !in g
    ensures Resident(q, g[key := Fresh(q)]) == Resident(q, g) + RowBytes(key)
  {
    MapSumSet(g, GroupSize(q), key, Fresh(q));
    FreshHasNotGrown(q.funcs, Fresh(q));
  }

  lemma StateChangeWeighs(q: Query, g: Groups, key: Row, i: nat, s: State)
    requires key in g && |g[key]| == |q.funcs| && i < |q.funcs|
    ensures Resident(q, g[key := g[key][i := s]]) == Resident(q, g) + StateBytes(s) - StateBytes(g[key][i])
  {
    MapSumSet(g, GroupSize(q), key, g[key][i := s]);
    GrowthSet(q.funcs, g[key], i, s);
  }

  lemma {:induction false} ResidentPositive(q: Query, g: Groups)
    requires forall k :: k in g ==> AllMatch(q.funcs, g[k])
    ensures Resident(q, g) >= 0
    decreases |g|
  {
    if g != map[] {
      var k :| k in g;
      MapSumSplit(g, GroupSize(q), k);
      GrowthPositive(q.funcs, g[k]);
      ResidentPositive(q, g - {k});
    }
  }

  /** A group's accumulator is counted in the resident size. */
  lemma StateIsResident(q: Query, g: Groups, key: Row, i: nat)
    requires key in g && AllMatch(q.funcs, g[key]) && i < |q.funcs|
    requires forall k :: k in g ==> AllMatch(q.funcs, g[k])
    ensures Resident(q, g) >= StateBytes(g[key][i]) - StateBytes(New(q.funcs[i]))
  {
    MapSumSplit(g, GroupSize(q), key);
    GrowthBounds(q.funcs, g[key], i);
    ResidentPositive(q, g - {key});
  }

  // ---------- the executor ----------

  class Aggregator {
    const query: Query
    const input: Source
    const budget: Budget
    var groups: Groups

    constructor (q: Query, source: Source, b: Budget)
      requires ValidQuery(q)
      ensures query == q && input == source && budget == b && groups == Start(q) && Matched()
    {
      query, input, budget := q, source, b;
      groups := Start(q);
    }

    ghost predicate Matched()
      reads this
    {
      ValidQuery(query) && forall k :: k in groups ==> AllMatch(query.funcs, groups[k])
    }

    /** Besides what others have charged, a limited budget holds exactly the
      * resident size of the groups. */
    ghost predicate Accounted(others: int)
      reads this, budget
    {
      Matched() && budget.Valid() && others >= 0 &&
      (budget.limit > 0 ==> budget.used == others + Resident(query, groups))
    }

    /** `update_state` on accumulator `i` of a group. */
    method UpdateState(key: Row, i: nat, v: Value, ghost others: int) returns (ok: bool)
      requires Accounted(others) && key in groups && i < |groups[key]| == |query.funcs|
      modifies this, budget
      ensures groups == old(groups)[key := old(groups)[key][i := Update(query.ops, old(groups)[key][i], v)]]
      ensures Matched() && budget.Valid()
      ensures ok ==> Accounted(others)
      ensures !ok ==> budget.limit > 0 && others + Resident(query, groups) > budget.limit
    {
      var s := groups[key][i];
      var s' := Update(query.ops, s, v);
      UpdateMatches(query.ops, query.funcs[i], s, v);
      NewIsSmallest(query.funcs[i], s');
      StateIsResident(query, groups, key, i);
      StateChangeWeighs(query, groups, key, i, s');
      groups := groups[key := groups[key][i := s']];
      if budget.limit == 0 {
        return true;
      }
      var before, after := StateBytes(s), StateBytes(s');
      if after > before {
        ok := budget.Charge(after - before);
      } else {
        if after < before {
          budget.Release(before - after);
        }
        ok := true;
      }
    }

    /** All accumulators of a group take in one row. */
    method UpdateGroup(key: Row, row: Row, ghost others: int) returns (ok: bool)
      requires Accounted(others) && key in groups
      modifies this, budget
      ensures Matched() && budget.Valid()
      ensures ok ==> Accounted(others) && groups == old(groups)[key := Folded(query, old(groups)[key], row)]
      ensures !ok ==> budget.limit > 0 && others + Resident(query, groups) > budget.limit
    {
      ghost var before := groups;
      for i := 0 to |query.funcs|
        invariant Accounted(others) && key in groups && |groups[key]| == |query.funcs|
        invariant groups == before[key := groups[key]]
        invariant forall j :: 0 <= j < |query.funcs| ==>
                    groups[key][j] == if j < i then Update(query.ops, before[key][j], query.args[j](row))
                                      else before[key][j]
      {
        ok := UpdateState(key, i, query.args[i](row), others);
        if !ok {
          return;
        }
      }
      assert groups[key] == Folded(query, before[key], row);
      return true;
    }

    /** The group of a key; a new one is charged for its key. */
    method OpenGroup(key: Row, ghost others: int) returns (ok: bool)
      requires Accounted(others)
      modifies this, budget
      ensures Matched() && budget.Valid()
      ensures ok ==> Accounted(others) && groups == if key in old(groups) then old(groups)
                                                    else old(groups)[key := Fresh(query)]
      ensures !ok ==> budget.limit > 0 && others + Resident(query, groups) + RowBytes(key) > budget.limit
    {
      if key in groups {
        return true;
      }
      NewGroupWeighsItsKey(query, groups, key);
      ok := budget.Charge(RowBytes(key));
      if ok {
        groups := groups[key := Fresh(query)];
      }
    }

    /** One input row goes into the group of its key. */
    method TakeRow(row: Row, ghost others: int) returns (error: Option<Error>, ghost refused: Row)
      requires Accounted(others)
      modifies this, budget
      ensures Matched() && budget.Valid()
      ensures error.None? ==>
              query.keyOf(row).Some? && Accounted(others) &&
              groups == Into(query, old(groups), query.keyOf(row).value, row)
      ensures error == Some(MemoryExceeded) ==>
              budget.limit > 0 && others + Resident(query, groups) + RowBytes(refused) > budget.limit
      ensures error.Some? ==>
              error == Some(MemoryExceeded) || (error == Some(PredicateFailed) && query.keyOf(row).None?)
    {
      var key := query.keyOf(row);
      if key.None? {
        return Some(PredicateFailed), [];
      }
      hide Resident, Folded, ValidQuery, AllMatch;
      var ok := OpenGroup(key.value, others);
      if !ok {
        return Some(MemoryExceeded), key.value;
      }
      ok := UpdateGroup(key.value, row, others);
      if !ok {
        return Some(MemoryExceeded), [];
      }
      assert groups == Into(query, old(groups), key.value, row);
      return None, [];
    }

    /** `consume_input`.  On success the groups are those of all input rows, and
      * a limited budget has been charged exactly their resident size.  When
      * memory runs out, the resident size (with the key that was refused, if one
      * was) would have exceeded the limit. */
    method ConsumeInput(ghost others: int) returns (error: Option<Error>, ghost refused: Row)
      requires Accounted(others) && groups == Start(query)
      modifies this, budget, input
      ensures budget.Valid()
      ensures error.None? ==>
              var o := RowsOf(old(input.items));
              && o.error.None? && Accounted(others)
              && (forall row :: row in o.rows ==> query.keyOf(row).Some?)
              && groups == GroupsOf(query, o.rows)
      ensures error == Some(MemoryExceeded) && RowsOf(old(input.items)).error != Some(MemoryExceeded) ==>
              budget.limit > 0 && others + Resident(query, groups) + RowBytes(refused) > budget.limit
      ensures error.Some? && error != Some(MemoryExceeded) ==>
              var o := RowsOf(old(input.items));
              o.error == error ||
              (error == Some(PredicateFailed) && exists row :: row in o.rows && query.keyOf(row).None?)
    {
      ghost var taken: seq<Row> := [];
      refused := [];
      assert groups == GroupsOf(query, taken) && Continues(input.items, taken, input.items);
      hide GroupsOf, Into, Resident, AllMatch, ValidQuery, Continues;
      while true
        invariant Accounted(others)
        invariant forall row :: row in taken ==> query.keyOf(row).Some?
        invariant groups == GroupsOf(query, taken)
        invariant Continues(old(input.items), taken, input.items)
        decreases |input.items|
      {
        ContinuesStep(old(input.items), taken, input.items);
        ContinuesRow(old(input.items), taken, input.items);
        var pulled := input.Next();
        match pulled {
          case Exhausted =>
            return None, [];
          case Got(OtherItem) =>
          case Got(FaultItem(e)) =>
            return Some(e), [];
          case Got(RowItem(row)) =>
            error, refused := TakeRow(row, others);
            if error.Some? {
              return;
            }
            GroupsSnoc(query, taken, row);
            taken := taken + [row];
        }
      }
    }
  }
}
