/** Pull-based executors: every call of `next` yields a row, ends, or fails.
  *
  * An executor's whole future is an `Outcome`: the rows it will still produce
  * and the error, if any, that stops it.  A correct `next` peels that outcome.
  */
module Streams {
  import opened Options
  import opened Values

  datatype Error =
    | ChainTooDeep
    | PredicateFailed
    | InputFailed(code: int)
    | MultipleRows
    | MissingColumn
    | MemoryExceeded

  /** A predicate on a row: unknown counts as failing; evaluation can go wrong. */
  datatype Truth = Holds | Fails | Errs

  datatype Outcome = Outcome(rows: seq<Row>, error: Option<Error>)

  datatype Step = Yield(row: Row) | Finished | Fault(error: Error)

  function Prepend(rows: seq<Row>, o: Outcome): Outcome {
    Outcome(rows + o.rows, o.error)
  }

  /** `step` is the next move of `before`, and leaves `after` to be produced.
    * Ending is final; nothing is promised after an error. */
  ghost predicate Peels(before: Outcome, step: Step, after: Outcome) {
    if before.rows != [] then step == Yield(before.rows[0]) && after == Outcome(before.rows[1..], before.error)
    else if before.error.Some? then step == Fault(before.error.value)
    else step == Finished && after == before
  }

  function Yielded(steps: seq<Step>): seq<Row> {
    if steps == [] then []
    else (if steps[0].Yield? then [steps[0].row] else []) + Yielded(steps[1..])
  }

  /** Calling `next` until it stops yields exactly the rows of the outcome, and
    * it stops with the outcome's error, or ends if there is none. */
  lemma {:induction false} DrainedIsOutcome(states: seq<Outcome>, steps: seq<Step>)
    requires |states| == |steps| + 1 && steps != [] && !steps[|steps| - 1].Yield?
    requires forall i :: 0 <= i < |steps| - 1 ==> steps[i].Yield?
    requires forall i :: 0 <= i < |steps| ==> Peels(states[i], steps[i], states[i + 1])
    ensures Yielded(steps) == states[0].rows
    ensures steps[|steps| - 1] == (if states[0].error.None? then Finished else Fault(states[0].error.value))
  {
    assert Peels(states[0], steps[0], states[1]);
    if |steps| > 1 {
      forall i | 0 <= i < |steps| - 1 ensures Peels(states[1..][i], steps[1..][i], states[1..][i + 1]) {
        assert Peels(states[i + 1], steps[i + 1], states[i + 2]);
      }
      DrainedIsOutcome(states[1..], steps[1..]);
    }
  }

  /** What an input executor hands over: rows, other signals, or an error. */
  datatype Item = RowItem(row: Row) | OtherItem | FaultItem(error: Error)

  /** The rows an operator sees when it drains an input, up to its first error. */
  function RowsOf(items: seq<Item>): (o: Outcome)
  {
    if items == [] then Outcome([], None)
    else match items[0]
      case RowItem(row) => Prepend([row], RowsOf(items[1..]))
      case OtherItem => RowsOf(items[1..])
      case FaultItem(e) => Outcome([], Some(e))
  }

  /** Of `all`, the rows `taken` have been read and `rest` is still to come. */
  ghost predicate Continues(all: seq<Item>, taken: seq<Row>, rest: seq<Item>) {
    RowsOf(all) == Prepend(taken, RowsOf(rest))
  }

  /** Reading one more item of an input. */
  lemma ContinuesStep(all: seq<Item>, taken: seq<Row>, rest: seq<Item>)
    requires Continues(all, taken, rest)
    ensures rest == [] ==> RowsOf(all) == Outcome(taken, None)
    ensures rest != [] && rest[0].RowItem? ==> Continues(all, taken + [rest[0].row], rest[1..])
    ensures rest != [] && rest[0].OtherItem? ==> Continues(all, taken, rest[1..])
    ensures rest != [] && rest[0].FaultItem? ==> RowsOf(all).error == Some(rest[0].error)
  {
  }

  lemma ContinuesRow(all: seq<Item>, taken: seq<Row>, rest: seq<Item>)
    requires Continues(all, taken, rest)
    ensures rest != [] && rest[0].RowItem? ==> rest[0].row in RowsOf(all).rows
  {
  }

  datatype Pull = Got(item: Item) | Exhausted

  /** An input executor; once exhausted it stays exhausted. */
  class Source {
    var items: seq<Item>

    constructor (given: seq<Item>)
      ensures items == given
    {
      items := given;
    }

    method Next() returns (r: Pull)
      modifies this
      ensures if old(items) == [] then r == Exhausted && items == []
              else r == Got(old(items)[0]) && items == old(items)[1..]
    {
      if items == [] {
        return Exhausted;
      }
      r := Got(items[0]);
      items := items[1..];
    }
  }
}
