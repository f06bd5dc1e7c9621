/** WHERE predicates with scalar subqueries
  * (`src/executor/scalar_subquery_filter.rs`) and their result caches.
  */
module ScalarSubqueryFilter {
  import opened Options
  import opened Values
  import opened Rows
  import opened Streams
  import opened Selections
  import opened QueryBudget

  /** One subquery of the predicate: the outer columns it depends on (`None` is
    * a column that was not found), the names of its parameters, and what its
    * executor hands over for given parameter values. */
  datatype Binding = Binding(params: seq<Option<nat>>, names: seq<seq<Byte>>, sub: Row -> seq<Item>)

  /** `test` is the predicate, given one scalar for each binding. */
  datatype Plan = Plan(bindings: seq<Binding>, test: (seq<Value>, Row) -> Truth, projection: seq<nat>)

  datatype Result<T> = Ok(value: T) | Err(error: Error)

  // ---------- without caches ----------

  /** A scalar subquery: no row is NULL, a second row is an error. */
  function ScalarOf(o: Outcome): Result<Value> {
    if |o.rows| > 1 then Err(MultipleRows)
    else if o.error.Some? then Err(o.error.value)
    else if o.rows == [] || o.rows[0] == [] then Ok(Null)
    else Ok(o.rows[0][0])
  }

  /** The scalar of a binding for a row, evaluated afresh. */
  function Scalar(b: Binding, row: Row): Result<Value> {
    match ParamValues(b.params, row)
    case None => Err(MissingColumn)
    case Some(values) => ScalarOf(RowsOf(b.sub(values)))
  }

  /** All scalars for a row, or the first error. */
  function Scalars(bindings: seq<Binding>, row: Row): Result<seq<Value>> {
    if bindings == [] then Ok([])
    else
      var last := |bindings| - 1;
      match Scalars(bindings[..last], row)
      case Err(e) => Err(e)
      case Ok(values) =>
        match Scalar(bindings[last], row)
        case Err(e) => Err(e)
        case Ok(v) => Ok(values + [v])
  }

  /** The verdict on one row. */
  function Verdict(plan: Plan, row: Row): Result<bool> {
    match Scalars(plan.bindings, row)
    case Err(e) => Err(e)
    case Ok(values) =>
      match plan.test(values, row)
      case Holds => Ok(true)
      case Fails => Ok(false)
      case Errs => Err(PredicateFailed)
  }

  /** The filter, re-evaluating every subquery for every row. */
  function Filtered(plan: Plan, input: Outcome): Outcome
    decreases |input.rows|
  {
    if input.rows == [] then input
    else
      match Verdict(plan, input.rows[0])
      case Err(e) => Outcome([], Some(e))
      case Ok(keep) =>
        Prepend(if keep then [Projected(plan.projection, input.rows[0])] else [],
                Filtered(plan, Outcome(input.rows[1..], input.error)))
  }

  // ---------- what the filter means ----------

  /** What a subquery hands over comes to one value: no error, at most one row, and
    * its first column, or NULL without one. */
  ghost predicate ComesTo(items: seq<Item>, v: Value) {
    && (forall i :: 0 <= i < |items| ==> !items[i].FaultItem?)
    && (forall i, j :: 0 <= i < j < |items| ==> !items[i].RowItem? || !items[j].RowItem?)
    && if exists i :: 0 <= i < |items| && items[i].RowItem? && items[i].row != []
       then exists i :: 0 <= i < |items| && items[i].RowItem? && items[i].row != [] && items[i].row[0] == v
       else v == Null
  }

  lemma ScalarComesTo(items: seq<Item>, v: Value)
    ensures ScalarOf(RowsOf(items)) == Ok(v) <==> ComesTo(items, v)
  {
    var n, ks := RowsOfExactly(items);
    var rows := RowsOf(items).rows;
    hide RowsOf;
    if n == |items| && |rows| <= 1 {
      forall i | 0 <= i < |items| && items[i].RowItem? ensures |ks| == 1 && i == ks[0] {
        assert i in (set k | 0 <= k < n && items[k].RowItem?) && i in ks;
        var a :| 0 <= a < |ks| && ks[a] == i;
      }
    }
    if |rows| > 1 {
      assert ks[0] < ks[1] && items[ks[0]].RowItem? && items[ks[1]].RowItem?;
    }
  }

  /** The value of a subquery for a row: that of the values of its parameters. */
  ghost predicate IsScalar(b: Binding, row: Row, v: Value) {
    && (forall i :: 0 <= i < |b.params| ==> b.params[i].Some?)
    && exists values :: HasColumns(b.params, row, values) && ComesTo(b.sub(values), v)
  }

  lemma ScalarIs(b: Binding, row: Row, v: Value)
    ensures Scalar(b, row) == Ok(v) <==> IsScalar(b, row, v)
  {
    ColumnValuesAre(b.params, row);
    if ParamValues(b.params, row).Some? {
      var values := ParamValues(b.params, row).value;
      ScalarComesTo(b.sub(values), v);
      assert forall other :: HasColumns(b.params, row, other) ==> other == values;
    }
  }

  ghost predicate AreScalars(bindings: seq<Binding>, row: Row, vs: seq<Value>) {
    |vs| == |bindings| && forall i :: 0 <= i < |vs| ==> IsScalar(bindings[i], row, vs[i])
  }

  lemma {:induction false} ScalarsAre(bindings: seq<Binding>, row: Row, vs: seq<Value>)
    ensures Scalars(bindings, row) == Ok(vs) <==> AreScalars(bindings, row, vs)
    decreases |bindings|
  {
    hide Scalar, IsScalar;
    if bindings != [] {
      var last := |bindings| - 1;
      if |vs| == |bindings| {
        ScalarsAre(bindings[..last], row, vs[..last]);
        ScalarIs(bindings[last], row, vs[last]);
        assert vs == vs[..last] + [vs[last]];
      }
      if Scalars(bindings[..last], row).Ok? {
        ScalarsAre(bindings[..last], row, Scalars(bindings[..last], row).value);
      }
    }
  }

  /** A row is kept exactly if every subquery has a value for it and the predicate
    * holds of these; it is left out exactly if the predicate then fails. */
  lemma VerdictIs(plan: Plan, row: Row)
    ensures Verdict(plan, row) == Ok(true) <==>
            exists vs :: AreScalars(plan.bindings, row, vs) && plan.test(vs, row) == Holds
    ensures Verdict(plan, row) == Ok(false) <==>
            exists vs :: AreScalars(plan.bindings, row, vs) && plan.test(vs, row) == Fails
  {
    hide AreScalars, Scalars;
    forall vs ensures Scalars(plan.bindings, row) == Ok(vs) <==> AreScalars(plan.bindings, row, vs) {
      ScalarsAre(plan.bindings, row, vs);
    }
  }

  function FateOf(plan: Plan, row: Row): Fate {
    match Verdict(plan, row)
    case Ok(keep) => if keep then Keep else Leave
    case Err(e) => Stop(e)
  }

  function Fates(plan: Plan, rows: seq<Row>): seq<Fate> {
    seq(|rows|, i requires 0 <= i < |rows| => FateOf(plan, rows[i]))
  }

  lemma {:induction false} FilteredIsSifted(plan: Plan, input: Outcome)
    ensures Filtered(plan, input) == Sifted(input.rows, Fates(plan, input.rows), plan.projection, input.error)
    decreases |input.rows|
  {
    if input.rows != [] {
      hide Verdict;
      FilteredIsSifted(plan, Outcome(input.rows[1..], input.error));
      assert Fates(plan, input.rows)[1..] == Fates(plan, input.rows[1..]);
    }
  }

  /** The filter yields the rows kept, in order and projected, up to the first one
    * that is neither kept nor left out. */
  lemma FilterAnswers(plan: Plan, input: Outcome) returns (n: nat, ks: seq<nat>)
    ensures Answers(Filtered(plan, input), input.rows, Fates(plan, input.rows), plan.projection, input.error, n, ks)
    ensures Enumerates(ks, set k | 0 <= k < n && k < |input.rows| && IsKept(plan, input.rows[k]))
    ensures n < |input.rows| ==> !IsKept(plan, input.rows[n]) && !IsLeftOut(plan, input.rows[n])
  {
    FilteredIsSifted(plan, input);
    n, ks := SiftedAnswers(input.rows, Fates(plan, input.rows), plan.projection, input.error);
    hide Filtered, AreProjections, Sifted, Verdict;
    forall k | 0 <= k < |input.rows|
      ensures IsKept(plan, input.rows[k]) <==> Fates(plan, input.rows)[k] == Keep
      ensures IsLeftOut(plan, input.rows[k]) <==> Fates(plan, input.rows)[k] == Leave
    {
      VerdictIs(plan, input.rows[k]);
    }
    assert (set k | 0 <= k < n && k < |input.rows| && IsKept(plan, input.rows[k]))
        == set k | 0 <= k < n && Fates(plan, input.rows)[k].Keep?;
  }

  ghost predicate IsKept(plan: Plan, row: Row) {
    exists vs :: AreScalars(plan.bindings, row, vs) && plan.test(vs, row) == Holds
  }

  ghost predicate IsLeftOut(plan: Plan, row: Row) {
    exists vs :: AreScalars(plan.bindings, row, vs) && plan.test(vs, row) == Fails
  }

  // ---------- with caches ----------

  /** The result of a subquery without parameters, and results by parameter values. */
  datatype Cache = Cache(scalar: Option<Value>, correlated: map<Row, Value>)

  /** A cache holds only scalars the subquery really has; never a failure. */
  ghost predicate Truthful(b: Binding, c: Cache) {
    && (c.scalar.Some? ==> b.params == [] && ScalarOf(RowsOf(b.sub([]))) == Ok(c.scalar.value))
    && (forall values :: values in c.correlated ==> ScalarOf(RowsOf(b.sub(values))) == Ok(c.correlated[values]))
  }

  class Executor {
    const plan: Plan
    const input: Source
    const budget: Budget
    var caches: seq<Cache>
    var injected: seq<Value>

    ghost predicate Valid()
      reads this, budget
    {
      && budget.Valid() && |caches| == |injected| == |plan.bindings|
      && forall i :: 0 <= i < |caches| ==> Truthful(plan.bindings[i], caches[i])
    }

    /** Everything the executor will still produce: the uncached filter. */
    ghost function Remaining(): Outcome
      reads this, input
    {
      Filtered(plan, RowsOf(input.items))
    }

    /** Whatever the predicate's parameters hold at the start. */
    constructor (p: Plan, source: Source, b: Budget, leftover: seq<Value>)
      requires b.Valid() && |leftover| == |p.bindings|
      ensures plan == p && input == source && budget == b && Valid()
      ensures Remaining() == Filtered(p, RowsOf(source.items))
    {
      plan, input, budget := p, source, b;
      caches, injected := seq(|p.bindings|, _ => Cache(None, map[])), leftover;
    }

    /** `eval_subquery_scalar`: drain the subquery, stopping at a second row. */
    method EvalSubquery(b: Binding, values: Row) returns (r: Result<Value>)
      ensures r == ScalarOf(RowsOf(b.sub(values)))
    {
      var source := new Source(b.sub(values));
      ghost var taken: seq<Row> := [];
      var found: Option<Value> := None;
      var rows := 0;
      assert Continues(source.items, taken, source.items);
      while true
        invariant fresh(source)
        invariant rows == |taken| <= 1
        invariant found == if taken == [] || taken[0] == [] then None else Some(taken[0][0])
        invariant Continues(b.sub(values), taken, source.items)
        decreases |source.items|
      {
        ContinuesStep(b.sub(values), taken, source.items);
        var pulled := source.Next();
        match pulled {
          case Exhausted =>
            return Ok(if found.Some? then found.value else Null);
          case Got(OtherItem) =>
          case Got(FaultItem(e)) =>
            return Err(e);
          case Got(RowItem(row)) =>
            taken := taken + [row];
            rows := rows + 1;
            if rows > 1 {
              return Err(MultipleRows);
            }
            if row != [] {
              found := Some(row[0]);
            }
        }
      }
    }

    /** `eval_binding`: from the cache, or evaluated and then stored. */
    method EvalBinding(i: nat, row: Row) returns (r: Result<Value>)
      requires Valid() && i < |plan.bindings|
      modifies this`caches, budget
      ensures Valid() && injected == old(injected)
      ensures r == Scalar(plan.bindings[i], row) || (r == Err(MemoryExceeded) && budget.limit > 0)
    {
      var b := plan.bindings[i];
      if b.params == [] {
        if caches[i].scalar.Some? {
          return Ok(caches[i].scalar.value);
        }
        r := EvalSubquery(b, []);
        if r.Ok? {
          caches := caches[i := caches[i].(scalar := Some(r.value))];
        }
        return;
      }
      var values := ParamValues(b.params, row);
      if values.None? {
        return Err(MissingColumn);
      }
      if values.value in caches[i].correlated {
        return Ok(caches[i].correlated[values.value]);
      }
      r := EvalSubquery(b, values.value);
      if r.Ok? {
        var ok := budget.Charge(ParamKeyBytes(b.names, values.value) + ValueBytes(r.value));
        if !ok {
          return Err(MemoryExceeded);
        }
        caches := caches[i := caches[i].(correlated := caches[i].correlated[values.value := r.value])];
      }
    }

    /** Evaluate every binding for a row and set every parameter of the predicate. */
    method Inject(row: Row) returns (error: Option<Error>)
      requires Valid()
      modifies this, budget
      ensures Valid()
      ensures error.None? ==> Scalars(plan.bindings, row) == Ok(injected)
      ensures error.Some? ==>
              Scalars(plan.bindings, row) == Err(error.value) || (error == Some(MemoryExceeded) && budget.limit > 0)
    {
      assert Scalars(plan.bindings[..0], row) == Ok([]) && injected[..0] == [];
      hide Scalars, Scalar, Truthful;
      for i := 0 to |plan.bindings|
        invariant Valid() && Scalars(plan.bindings[..i], row) == Ok(injected[..i])
      {
        ScalarsStep(plan.bindings, row, i);
        var r := EvalBinding(i, row);
        if r.Err? {
          ScalarsFail(plan.bindings, row, i + 1);
          return Some(r.error);
        }
        injected := injected[i := r.value];
        assert injected[..i + 1] == injected[..i] + [r.value];
      }
      assert plan.bindings[..|plan.bindings|] == plan.bindings && injected[..|plan.bindings|] == injected;
      return None;
    }

    /** `next` peels the uncached filter, unless memory runs out. */
    method Next() returns (step: Step)
      requires Valid()
      modifies this, input, budget
      ensures Valid()
      ensures (step == Fault(MemoryExceeded) && budget.limit > 0) || Peels(old(Remaining()), step, Remaining())
    {
      while true
        invariant Valid() && Remaining() == old(Remaining())
        decreases |input.items|
      {
        var pulled := input.Next();
        match pulled {
          case Exhausted =>
            return Finished;
          case Got(OtherItem) =>
          case Got(FaultItem(e)) =>
            return Fault(e);
          case Got(RowItem(row)) =>
            var error := Inject(row);
            if error.Some? {
              return Fault(error.value);
            }
            match plan.test(injected, row) {
              case Holds =>
                return Yield(Projected(plan.projection, row));
              case Fails =>
              case Errs =>
                return Fault(PredicateFailed);
            }
        }
      }
    }
  }

  lemma ScalarsStep(bindings: seq<Binding>, row: Row, i: nat)
    requires i < |bindings| && Scalars(bindings[..i], row).Ok?
    ensures Scalars(bindings[..i + 1], row) ==
            match Scalar(bindings[i], row)
            case Err(e) => Err(e)
            case Ok(v) => Ok(Scalars(bindings[..i], row).value + [v])
  {
    assert bindings[..i + 1][..i] == bindings[..i];
  }

  /** An error of an earlier binding is the error of the row. */
  lemma {:induction false} ScalarsFail(bindings: seq<Binding>, row: Row, n: nat)
    requires n <= |bindings|
    ensures Scalars(bindings[..n], row).Err? ==> Scalars(bindings, row) == Scalars(bindings[..n], row)
    decreases |bindings|
  {
    if n < |bindings| {
      var shorter := bindings[..|bindings| - 1];
      assert shorter[..n] == bindings[..n];
      ScalarsFail(shorter, row, n);
    } else {
      assert bindings[..n] == bindings;
    }
  }
}
