/** The secondary index range scan (`src/executor/index_range_scan.rs`, without
  * a snapshot) against the full scan of module DataScan.
  */
module RangeScan {
  import opened Options
  import opened Values
  import opened Streams
  import opened VersionHeap
  import opened DataScan
  import opened KeyEncoding
  import opened IndexTree
  import opened IndexBuild

  // ---------- the two parts of the answer ----------

  ghost predicate EntriesExist(h: Heap, entries: seq<Entry<Rid>>) {
    forall e :: e in entries ==> Has(h, e.row) && !IsDeleted(At(h, e.row))
  }

  /** Rows of the index entries in range, in index order. */
  ghost function KeyedRows(h: Heap, entries: seq<Entry<Rid>>, bounds: Bounds, projection: seq<nat>): seq<Row>
    requires AllFit(h, projection) && EntriesExist(h, entries)
  {
    if entries == [] then []
    else (if KeyInRange(entries[0].key, bounds) then [Project(projection, RowAt(h, entries[0].row))] else [])
         + KeyedRows(h, entries[1..], bounds, projection)
  }

  /** Rows without a key that satisfy the predicate: `omitted_rows`. */
  ghost function OmittedRows(h: Heap, keyOf: KeyOf, test: Row -> Truth, projection: seq<nat>, rids: seq<Rid>): Outcome
    requires AllFit(h, projection) && forall r :: r in rids ==> Has(h, r) && !IsDeleted(At(h, r))
  {
    if rids == [] then Outcome([], None)
    else
      var row := RowAt(h, rids[0]);
      if keyOf(row).Some? then OmittedRows(h, keyOf, test, projection, rids[1..])
      else match test(row)
        case Holds => Prepend([Project(projection, row)], OmittedRows(h, keyOf, test, projection, rids[1..]))
        case Fails => OmittedRows(h, keyOf, test, projection, rids[1..])
        case Errs => Outcome([], Some(PredicateFailed))
  }

  /** The whole scan: index part, then omitted part; a predicate error in the
    * omitted part fails the scan before its first row. */
  ghost function RangeOutcome(h: Heap, entries: seq<Entry<Rid>>, keyOf: KeyOf, test: Row -> Truth,
                              bounds: Bounds, projection: seq<nat>): Outcome
    requires AllFit(h, projection) && EntriesExist(h, entries)
  {
    var omitted := OmittedRows(h, keyOf, test, projection, Tails(h));
    if omitted.error.Some? then Outcome([], omitted.error)
    else Outcome(KeyedRows(h, entries, bounds, projection) + omitted.rows, None)
  }

  // ---------- order of entries does not matter ----------

  lemma {:induction false} KeyedRowsConcat(h: Heap, a: seq<Entry<Rid>>, b: seq<Entry<Rid>>, bounds: Bounds,
                                           projection: seq<nat>)
    requires AllFit(h, projection) && EntriesExist(h, a) && EntriesExist(h, b)
    ensures EntriesExist(h, a + b)
    ensures KeyedRows(h, a + b, bounds, projection)
            == KeyedRows(h, a, bounds, projection) + KeyedRows(h, b, bounds, projection)
  {
    hide KeyInRange, Project;
    if a == [] {
      assert a + b == b;
    } else {
      KeyedRowsConcat(h, a[1..], b, bounds, projection);
      assert (a + b)[1..] == a[1..] + b;
    }
  }

  lemma KeyedRowsRemove(h: Heap, b: seq<Entry<Rid>>, i: nat, bounds: Bounds, projection: seq<nat>)
    requires AllFit(h, projection) && EntriesExist(h, b) && i < |b|
    ensures EntriesExist(h, [b[i]]) && EntriesExist(h, b[..i] + b[i + 1..])
    ensures multiset(KeyedRows(h, b, bounds, projection))
            == multiset(KeyedRows(h, [b[i]], bounds, projection))
               + multiset(KeyedRows(h, b[..i] + b[i + 1..], bounds, projection))
  {
    hide KeyedRows, AllFit;
    assert b == b[..i] + ([b[i]] + b[i + 1..]);
    KeyedRowsConcat(h, b[..i], b[i + 1..], bounds, projection);
    KeyedRowsConcat(h, [b[i]], b[i + 1..], bounds, projection);
    KeyedRowsConcat(h, b[..i], [b[i]] + b[i + 1..], bounds, projection);
  }

  lemma {:induction false} KeyedRowsPermuted(h: Heap, a: seq<Entry<Rid>>, b: seq<Entry<Rid>>, bounds: Bounds,
                                             projection: seq<nat>)
    requires AllFit(h, projection) && EntriesExist(h, a) && EntriesExist(h, b)
    requires multiset(a) == multiset(b)
    ensures multiset(KeyedRows(h, a, bounds, projection)) == multiset(KeyedRows(h, b, bounds, projection))
    decreases |a|
  {
    hide KeyedRows, AllFit, EntriesExist;
    if a == [] {
      assert |multiset(a)| == |a| && |multiset(b)| == |b|;
      assert b == a;
    } else {
      var i := TakeFromBoth(a, b);
      KeyedRowsRemove(h, a, 0, bounds, projection);
      KeyedRowsRemove(h, b, i, bounds, projection);
      KeyedRowsPermuted(h, a[..0] + a[1..], b[..i] + b[i + 1..], bounds, projection);
    }
  }

  // ---------- the agreement ----------

  /** On rows the index can hold, the predicate never errs and means "key in range". */
  ghost predicate RangeMeansPredicate(h: Heap, keyOf: KeyOf, test: Row -> Truth, bounds: Bounds) {
    forall r :: Has(h, r) && keyOf(RowAt(h, r)).Some? ==>
      test(RowAt(h, r)) == if KeyInRange(keyOf(RowAt(h, r)).value, bounds) then Holds else Fails
  }

  lemma {:induction false} EntriesOfExist(h: Heap, keyOf: KeyOf, rids: seq<Rid>)
    requires forall r :: r in rids ==> Has(h, r) && !IsDeleted(At(h, r))
    ensures EntriesExist(h, EntriesOf(h, keyOf, rids))
  {
    if rids != [] {
      EntriesOfExist(h, keyOf, rids[1..]);
    }
  }

  lemma {:induction false} SameError(h: Heap, plan: Plan, keyOf: KeyOf, bounds: Bounds, rids: seq<Rid>)
    requires AllFit(h, plan.projection) && (forall r :: r in rids ==> Has(h, r) && !IsDeleted(At(h, r)))
    requires plan.test.Some? && RangeMeansPredicate(h, keyOf, plan.test.value, bounds)
    ensures Select(plan, RowsAt(h, rids)).error
            == OmittedRows(h, keyOf, plan.test.value, plan.projection, rids).error
  {
    hide KeyInRange, Project;
    if rids != [] {
      SameError(h, plan, keyOf, bounds, rids[1..]);
      assert RowsAt(h, rids)[1..] == RowsAt(h, rids[1..]);
    }
  }

  /** What the first of the rids contributes to each of the three lists. */
  lemma FirstContribution(h: Heap, plan: Plan, keyOf: KeyOf, bounds: Bounds, rids: seq<Rid>)
    requires AllFit(h, plan.projection) && rids != [] && (forall r :: r in rids ==> Has(h, r) && !IsDeleted(At(h, r)))
    requires plan.test.Some? && EntriesExist(h, EntriesOf(h, keyOf, rids))
    requires EntriesExist(h, EntriesOf(h, keyOf, rids[1..]))
    requires Select(plan, RowsAt(h, rids)).error.None?
    ensures var row, tail := RowAt(h, rids[0]), rids[1..];
            var out := [Project(plan.projection, row)];
            && Select(plan, RowsAt(h, rids)).rows
               == (if plan.test.value(row) == Holds then out else []) + Select(plan, RowsAt(h, tail)).rows
            && Select(plan, RowsAt(h, tail)).error.None?
            && OmittedRows(h, keyOf, plan.test.value, plan.projection, rids).rows
               == (if keyOf(row).None? && plan.test.value(row) == Holds then out else [])
                  + OmittedRows(h, keyOf, plan.test.value, plan.projection, tail).rows
            && KeyedRows(h, EntriesOf(h, keyOf, rids), bounds, plan.projection)
               == (if keyOf(row).Some? && KeyInRange(keyOf(row).value, bounds) then out else [])
                  + KeyedRows(h, EntriesOf(h, keyOf, tail), bounds, plan.projection)
  {
    hide KeyInRange, Project;
    var row := RowAt(h, rids[0]);
    assert RowsAt(h, rids)[1..] == RowsAt(h, rids[1..]);
    var rest := EntriesOf(h, keyOf, rids[1..]);
    if keyOf(row).Some? {
      assert EntriesOf(h, keyOf, rids)[1..] == rest;
    } else {
      assert EntriesOf(h, keyOf, rids) == rest;
    }
  }

  /** A selected row has a key in range or no key, and nothing else qualifies. */
  lemma {:induction false} SplitSelection(h: Heap, plan: Plan, keyOf: KeyOf, bounds: Bounds, rids: seq<Rid>)
    requires AllFit(h, plan.projection) && (forall r :: r in rids ==> Has(h, r) && !IsDeleted(At(h, r)))
    requires plan.test.Some? && RangeMeansPredicate(h, keyOf, plan.test.value, bounds)
    requires EntriesExist(h, EntriesOf(h, keyOf, rids)) && Select(plan, RowsAt(h, rids)).error.None?
    ensures multiset(Select(plan, RowsAt(h, rids)).rows)
            == multiset(KeyedRows(h, EntriesOf(h, keyOf, rids), bounds, plan.projection))
               + multiset(OmittedRows(h, keyOf, plan.test.value, plan.projection, rids).rows)
  {
    if rids != [] {
      hide Select, KeyedRows, OmittedRows, EntriesOf, Project, KeyInRange;
      EntriesOfExist(h, keyOf, rids[1..]);
      FirstContribution(h, plan, keyOf, bounds, rids);
      SplitSelection(h, plan, keyOf, bounds, rids[1..]);
      var row := RowAt(h, rids[0]);
      var out := [Project(plan.projection, row)];
      BagSumStep(if plan.test.value(row) == Holds then out else [],
                 if keyOf(row).Some? && KeyInRange(keyOf(row).value, bounds) then out else [],
                 if keyOf(row).None? && plan.test.value(row) == Holds then out else [],
                 Select(plan, RowsAt(h, rids[1..])).rows,
                 KeyedRows(h, EntriesOf(h, keyOf, rids[1..]), bounds, plan.projection),
                 OmittedRows(h, keyOf, plan.test.value, plan.projection, rids[1..]).rows);
    }
  }

  /** Two results agree: the same error, or the same rows, each as often. */
  ghost predicate SameAnswer(a: Outcome, b: Outcome) {
    a.error == b.error && (a.error.None? ==> multiset(a.rows) == multiset(b.rows))
  }

  /** The central law.  On a quiescent, well-formed table, for any index holding
    * the backfilled entries in any order, the range scan gives the full answer:
    * the same error, or the same rows, each as often.  The full scan gives it
    * too unless it meets a chain that is too deep, so the two agree exactly when
    * it does not. */
  lemma RangeScanIsFullScan(h: Heap, plan: Plan, skipped: set<nat>, keyOf: KeyOf, bounds: Bounds,
                            entries: seq<Entry<Rid>>)
    requires WellFormed(h) && Quiescent(h, plan.view)
    requires AllFit(h, plan.projection) && SkippablePages(h, plan.view, skipped)
    requires plan.test.Some? && RangeMeansPredicate(h, keyOf, plan.test.value, bounds)
    requires multiset(entries) == multiset(EntriesOf(h, keyOf, Tails(h)))
    ensures EntriesExist(h, entries)
    ensures var full := ScanFrom(h, plan, skipped, 0, 0);
            var range := RangeOutcome(h, entries, keyOf, plan.test.value, bounds, plan.projection);
            && SameAnswer(range, FullAnswer(h, plan))
            && UpToDepth(full, FullAnswer(h, plan))
            && (SameAnswer(full, range) <==> full.error != Some(ChainTooDeep))
  {
    hide ScanFrom, KeyedRows, OmittedRows, Select, WellFormed, Quiescent, SkippablePages,
         RangeMeansPredicate, EntriesOf, TailsFrom, CurrentFrom;
    ScanSelectsCurrent(h, plan, skipped);
    FullAnswerErrors(h, plan);
    RangeIsFullAnswer(h, plan, keyOf, bounds, entries);
  }

  lemma RangeIsFullAnswer(h: Heap, plan: Plan, keyOf: KeyOf, bounds: Bounds, entries: seq<Entry<Rid>>)
    requires WellFormed(h) && Quiescent(h, plan.view) && AllFit(h, plan.projection)
    requires plan.test.Some? && RangeMeansPredicate(h, keyOf, plan.test.value, bounds)
    requires multiset(entries) == multiset(EntriesOf(h, keyOf, Tails(h)))
    ensures EntriesExist(h, entries)
    ensures SameAnswer(RangeOutcome(h, entries, keyOf, plan.test.value, bounds, plan.projection), FullAnswer(h, plan))
  {
    hide KeyedRows, OmittedRows, Select, WellFormed, Quiescent, RangeMeansPredicate, EntriesOf, TailsFrom, CurrentFrom;
    TailsAreCurrent(h, plan.view, 0, 0);
    SameError(h, plan, keyOf, bounds, Tails(h));
    EntriesOfExist(h, keyOf, Tails(h));
    var built := EntriesOf(h, keyOf, Tails(h));
    if Select(plan, RowsAt(h, Tails(h))).error.None? {
      SplitSelection(h, plan, keyOf, bounds, Tails(h));
    }
    assert EntriesExist(h, entries) by {
      forall e | e in entries ensures Has(h, e.row) && !IsDeleted(At(h, e.row)) {
        assert e in multiset(entries);
        assert e in built;
      }
    }
    KeyedRowsPermuted(h, entries, built, bounds, plan.projection);
  }

  lemma FullAnswerErrors(h: Heap, plan: Plan)
    requires WellFormed(h) && AllFit(h, plan.projection)
    ensures FullAnswer(h, plan).error != Some(ChainTooDeep)
  {
    CurrentFromExist(h, plan.view, 0, 0);
    SelectErrors(plan, CurrentRows(h, plan.view, 0, 0));
  }

  lemma {:induction false} SelectErrors(plan: Plan, rows: seq<Row>)
    requires forall row :: row in rows ==> Fits(plan.projection, row)
    ensures Select(plan, rows).error.None? || Select(plan, rows).error == Some(PredicateFailed)
  {
    if rows != [] {
      SelectErrors(plan, rows[1..]);
    }
  }

  /** They do part: after more than 64 rolled-back updates the full scan fails on
    * a row that the range scan still answers for. */
  lemma RangeScanSurvivesRollbacks(n: nat, row: Row, plan: Plan, skipped: set<nat>, keyOf: KeyOf, bounds: Bounds,
                                   entries: seq<Entry<Rid>>)
    requires n > MAX_CHAIN_DEPTH
    requires var h := RolledBackUpdates(n, row);
             && LinksBack(h) && Quiescent(h, plan.view)
             && AllFit(h, plan.projection) && SkippablePages(h, plan.view, skipped)
             && plan.test.Some? && RangeMeansPredicate(h, keyOf, plan.test.value, bounds)
             && multiset(entries) == multiset(EntriesOf(h, keyOf, Tails(h)))
    ensures var h := RolledBackUpdates(n, row);
            && EntriesExist(h, entries) && Fits(plan.projection, row)
            && ScanFrom(h, plan, skipped, 0, 0) == Outcome([], Some(ChainTooDeep))
            && SameAnswer(RangeOutcome(h, entries, keyOf, plan.test.value, bounds, plan.projection),
                          Select(plan, [row]))
  {
    hide ScanFrom, Select, RangeMeansPredicate, SkippablePages, EntriesOf, WellFormed, RolledBackUpdates, TailsFrom;
    var h := RolledBackUpdates(n, row);
    RolledBackShape(n, row);
    RollbacksCanBlockScan(n, row, plan, skipped);
    RangeIsFullAnswer(h, plan, keyOf, bounds, entries);
    RolledBackCurrent(n, row, plan.view);
    FirstVersion(n, row);
    assert CurrentRows(h, plan.view, 0, 0) == [row];
  }

  lemma FirstVersion(n: nat, row: Row)
    ensures Has(RolledBackUpdates(n, row), Rid(0, 0)) && RowAt(RolledBackUpdates(n, row), Rid(0, 0)) == row
  {
  }

  // ---------- with real keys ----------

  /** A row's indexed columns; nothing when the row is too short. */
  function Columns(indexes: seq<nat>, row: Row): Option<seq<Value>> {
    if forall i :: 0 <= i < |indexes| ==> indexes[i] < |row| then Some(Picked(row, indexes)) else None
  }

  /** `derived_key`. */
  function RowKey(types: seq<ColumnType>, indexes: seq<nat>, row: Row): Option<Bytes> {
    match Columns(indexes, row)
    case None => None
    case Some(values) => DeriveKey(types, values)
  }

  /** For a prefix constraint the sentinels realise, the hypothesis of the law
    * holds of real keys: it is enough that the predicate is the constraint. */
  lemma ConstraintRange(h: Heap, types: seq<ColumnType>, indexes: seq<nat>, test: Row -> Truth,
                        equal: seq<Value>, last: LastBound)
    requires RangeBounds(types, equal, last).Some?
    requires forall r :: Has(h, r) && RowKey(types, indexes, RowAt(h, r)).Some? ==>
               var values := Columns(indexes, RowAt(h, r)).value;
               |equal| < |values| && test(RowAt(h, r)) == if Meets(values, equal, last) then Holds else Fails
    ensures RangeMeansPredicate(h, row => RowKey(types, indexes, row), test, RangeBounds(types, equal, last).value)
  {
    forall r | Has(h, r) && RowKey(types, indexes, RowAt(h, r)).Some?
      ensures test(RowAt(h, r)) ==
              if KeyInRange(RowKey(types, indexes, RowAt(h, r)).value, RangeBounds(types, equal, last).value)
              then Holds else Fails
    {
      RangeIsConstraint(types, Columns(indexes, RowAt(h, r)).value, equal, last);
    }
  }

  // ---------- the executor ----------

  lemma {:induction false} KeyedRowsAreRows(h: Heap, entries: seq<Entry<Rid>>, bounds: Bounds, projection: seq<nat>)
    requires AllFit(h, projection) && EntriesExist(h, entries)
    ensures var rids := RowsInRange(entries, bounds);
            && (forall r :: r in rids ==> Has(h, r) && !IsDeleted(At(h, r)))
            && |KeyedRows(h, entries, bounds, projection)| == |rids|
            && (forall i :: 0 <= i < |rids| ==>
                  KeyedRows(h, entries, bounds, projection)[i] == Project(projection, RowAt(h, rids[i])))
  {
    hide KeyInRange, Project;
    if entries != [] {
      KeyedRowsAreRows(h, entries[1..], bounds, projection);
    }
  }

  class RangeScanner {
    const heap: Heap
    const index: Tree<Rid>
    const bounds: Bounds
    const omittedScan: bool
    const test: Option<Row -> Truth>
    const projection: seq<nat>
    const keyOf: KeyOf
    var rows: seq<Row>
    var cursor: nat
    var initialized: bool

    ghost predicate Valid()
      reads this
    {
      && AllFit(heap, projection) && IndexTree.Valid(index) && FullBounds(bounds)
      && EntriesExist(heap, Entries(index))
      && cursor <= |rows| && (!initialized ==> rows == [] && cursor == 0)
    }

    /** Everything the scan answers, from its start. */
    ghost function Answer(): Outcome
      requires Valid()
      reads this
    {
      if omittedScan && test.Some?
      then RangeOutcome(heap, Entries(index), keyOf, test.value, bounds, projection)
      else Outcome(KeyedRows(heap, Entries(index), bounds, projection), None)
    }

    ghost function Remaining(): Outcome
      requires Valid()
      reads this
    {
      if initialized then Outcome(rows[cursor..], None) else Answer()
    }

    constructor (h: Heap, tree: Tree<Rid>, range: Bounds, omitted: bool, p: Option<Row -> Truth>,
                 columns: seq<nat>, key: KeyOf)
      requires AllFit(h, columns) && IndexTree.Valid(tree) && FullBounds(range) && EntriesExist(h, Entries(tree))
      ensures Valid() && !initialized
      ensures heap == h && index == tree && bounds == range && omittedScan == omitted
      ensures test == p && projection == columns && keyOf == key
    {
      heap, index, bounds, omittedScan, test, projection, keyOf := h, tree, range, omitted, p, columns, key;
      rows, cursor, initialized := [], 0, false;
    }

    /** The rows behind the index entries in range. */
    method TreeRows() returns (found: seq<Row>)
      requires Valid()
      ensures found == KeyedRows(heap, Entries(index), bounds, projection)
    {
      var rids := ScanRange(index, bounds);
      KeyedRowsAreRows(heap, Entries(index), bounds, projection);
      found := [];
      for i := 0 to |rids|
        invariant |found| == i
        invariant forall j :: 0 <= j < i ==> found[j] == Project(projection, RowAt(heap, rids[j]))
      {
        found := found + [Project(projection, RowAt(heap, rids[i]))];
      }
    }

    /** `omitted_rows`: the living tails without a key, filtered. */
    method OmittedPass(p: Row -> Truth) returns (o: Outcome)
      requires Valid()
      ensures o.error.None? ==> o == OmittedRows(heap, keyOf, p, projection, Tails(heap))
      ensures o.error.Some? ==> o.error == OmittedRows(heap, keyOf, p, projection, Tails(heap)).error
    {
      hide IsPointed, LivingTails, VersionsFrom, TailsFrom, OmittedRows;
      var pointed, tails := CollectVersions(heap);
      TailsOfVersions(heap, 0, 0);
      VersionsExist(heap, 0, 0);
      VersionsDistinct(heap, 0, 0);
      NothingOmitted(heap, keyOf, p, projection);
      var found: seq<Row> := [];
      var seen: set<Rid> := {};
      ghost var done: seq<Rid> := [];
      for i := 0 to |tails|
        invariant forall r :: r in seen ==> exists j :: 0 <= j < i && tails[j].0 == r
        invariant done == LivingTails(heap, tails[..i])
        invariant forall r :: r in done ==> Has(heap, r) && !IsDeleted(At(heap, r))
        invariant OmittedRows(heap, keyOf, p, projection, done) == Outcome(found, None)
      {
        var (r, deleted) := tails[i];
        assert tails[i] in tails && tails[..i + 1] == tails[..i] + [tails[i]];
        LivingTailsSnoc(heap, tails[..i], tails[i]);
        if r in seen {
          assert false;
        }
        seen := seen + {r};
        if r !in pointed && !deleted {
          OmittedSnoc(heap, keyOf, p, projection, done, r);
          done := done + [r];
          var row := RowAt(heap, r);
          if keyOf(row).None? {
            match p(row)
            case Holds => found := found + [Project(projection, row)];
            case Fails =>
            case Errs =>
              LivingTailsPrefix(heap, tails, i + 1);
              OmittedErrorStays(heap, keyOf, p, projection, done, Tails(heap)[|done|..]);
              assert Tails(heap) == done + Tails(heap)[|done|..];
              return Outcome([], Some(PredicateFailed));
          }
        }
      }
      assert tails[..|tails|] == tails;
      return Outcome(found, None);
    }

    method Next() returns (step: Step)
      requires Valid()
      modifies this
      ensures step.Fault? || Valid()
      ensures step.Fault? ==> old(Remaining()).rows == [] && old(Remaining()).error == Some(step.error)
      ensures !step.Fault? ==> Peels(old(Remaining()), step, Remaining())
    {
      if !initialized {
        var found := TreeRows();
        if omittedScan && test.Some? {
          var omitted := OmittedPass(test.value);
          if omitted.error.Some? {
            rows := found;
            return Fault(omitted.error.value);
          }
          found := found + omitted.rows;
        }
        rows := found;
        initialized := true;
      }
      if cursor < |rows| {
        step := Yield(rows[cursor]);
        cursor := cursor + 1;
        return;
      }
      return Finished;
    }
  }

  lemma NothingOmitted(h: Heap, keyOf: KeyOf, test: Row -> Truth, projection: seq<nat>)
    requires AllFit(h, projection)
    ensures OmittedRows(h, keyOf, test, projection, []) == Outcome([], None)
    ensures LivingTails(h, []) == []
  {
  }

  lemma {:induction false} OmittedSnoc(h: Heap, keyOf: KeyOf, test: Row -> Truth, projection: seq<nat>,
                                       rids: seq<Rid>, r: Rid)
    requires AllFit(h, projection) && (forall x :: x in rids ==> Has(h, x) && !IsDeleted(At(h, x))) && Living(h, r)
    requires OmittedRows(h, keyOf, test, projection, rids).error.None?
    ensures var before := OmittedRows(h, keyOf, test, projection, rids);
            var row := RowAt(h, r);
            OmittedRows(h, keyOf, test, projection, rids + [r]) ==
            if keyOf(row).Some? then before
            else match test(row)
              case Holds => Outcome(before.rows + [Project(projection, row)], None)
              case Fails => before
              case Errs => Outcome(before.rows, Some(PredicateFailed))
  {
    hide Project;
    if rids == [] {
      assert [r][1..] == [];
    } else {
      assert (rids + [r])[1..] == rids[1..] + [r];
      OmittedSnoc(h, keyOf, test, projection, rids[1..], r);
    }
  }

  lemma {:induction false} OmittedErrorStays(h: Heap, keyOf: KeyOf, test: Row -> Truth, projection: seq<nat>,
                                             a: seq<Rid>, b: seq<Rid>)
    requires AllFit(h, projection) && (forall x :: x in a ==> Has(h, x) && !IsDeleted(At(h, x)))
    requires forall x :: x in b ==> Has(h, x) && !IsDeleted(At(h, x))
    requires OmittedRows(h, keyOf, test, projection, a).error.Some?
    ensures OmittedRows(h, keyOf, test, projection, a + b) == OmittedRows(h, keyOf, test, projection, a)
  {
    hide Project;
    assert (a + b)[1..] == a[1..] + b;
    var row := RowAt(h, a[0]);
    if keyOf(row).Some? || test(row) != Errs {
      OmittedErrorStays(h, keyOf, test, projection, a[1..], b);
    }
  }

  lemma {:induction false} LivingTailsPrefix(h: Heap, versions: seq<(Rid, bool)>, n: nat)
    requires n <= |versions|
    ensures LivingTails(h, versions[..n]) <= LivingTails(h, versions)
  {
    hide IsPointed;
    if n > 0 {
      LivingTailsPrefix(h, versions[1..], n - 1);
      assert versions[..n][1..] == versions[1..][..n - 1];
    }
  }
}
