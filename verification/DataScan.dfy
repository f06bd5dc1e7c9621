/** The full table scan of `src/executor/data_scan.rs`: a resumable walk over
  * the page chain that yields, slot by slot, the current version of every row.
  */
module DataScan {
  import opened Options
  import opened Values
  import opened Rows
  import opened Streams
  import opened Selections
  import opened VersionHeap

  /** What is asked of a scan besides the heap. */
  datatype Plan = Plan(view: View, test: Option<Row -> Truth>, projection: seq<nat>)

  /** `apply_projection`: an empty list keeps the whole row. */
  function Project(projection: seq<nat>, row: Row): Row
    requires Fits(projection, row)
  {
    Projected(projection, row)
  }

  predicate Fits(projection: seq<nat>, row: Row) {
    forall i :: 0 <= i < |projection| ==> projection[i] < |row|
  }

  ghost predicate AllFit(h: Heap, projection: seq<nat>) {
    forall r :: Living(h, r) ==> Fits(projection, RowAt(h, r))
  }

  function Judge(plan: Plan, row: Row): Truth {
    if plan.test.None? then Holds else plan.test.value(row)
  }

  // ---------- the scan as a list ----------

  /** The row a slot offers once nothing newer suppresses it. */
  function Offered(h: Heap, view: View, r: Rid): Option<Row> {
    if Has(h, r) && !IsDeleted(At(h, r)) && Visible(view, At(h, r)) then Some(RowAt(h, r)) else None
  }

  ghost function ScanFrom(h: Heap, plan: Plan, skipped: set<nat>, page: nat, slot: nat): Outcome
    requires AllFit(h, plan.projection)
    decreases |h| - page, if page < |h| then |h[page]| - slot else 0
  {
    if page >= |h| then Outcome([], None)
    else if slot >= |h[page]| then ScanFrom(h, plan, skipped, page + 1, 0)
    else
      var r := Rid(page, slot);
      match WalkFrom(h, plan.view, r)
      case TooDeep => Outcome([], Some(ChainTooDeep))
      case Hidden => ScanFrom(h, plan, skipped, page, slot + 1)
      case Open =>
        if page in skipped then ScanFrom(h, plan, skipped, page + 1, 0)
        else
          match Offered(h, plan.view, r)
          case None => ScanFrom(h, plan, skipped, page, slot + 1)
          case Some(row) =>
            match Judge(plan, row)
            case Holds => Prepend([Project(plan.projection, row)], ScanFrom(h, plan, skipped, page, slot + 1))
            case Fails => ScanFrom(h, plan, skipped, page, slot + 1)
            case Errs => Outcome([], Some(PredicateFailed))
  }

  /** The pushed-down cap: one passing row beyond it ends the scan. */
  function Capped(o: Outcome, room: Option<nat>): Outcome {
    if room.Some? && |o.rows| > room.value then Outcome(o.rows[..room.value], None) else o
  }

  /** It lets no more than that many rows through, and changes nothing below it. */
  lemma CappedRows(o: Outcome, cap: nat)
    ensures Capped(o, None) == o
    ensures |o.rows| <= cap ==> Capped(o, Some(cap)) == o
    ensures |Capped(o, Some(cap)).rows| <= cap && Capped(o, Some(cap)).rows <= o.rows
    ensures |o.rows| > cap ==> |Capped(o, Some(cap)).rows| == cap && Capped(o, Some(cap)).error == None
  {
  }

  // ---------- the reference: current versions in scan order ----------

  ghost function CurrentFrom(h: Heap, view: View, page: nat, slot: nat): seq<Rid>
    requires LinksBack(h)
    decreases |h| - page, if page < |h| then |h[page]| - slot else 0
  {
    if page >= |h| then []
    else if slot >= |h[page]| then CurrentFrom(h, view, page + 1, 0)
    else (if Current(h, view, Rid(page, slot)) then [Rid(page, slot)] else [])
         + CurrentFrom(h, view, page, slot + 1)
  }

  ghost function RowsAt(h: Heap, rids: seq<Rid>): seq<Row>
    requires forall r :: r in rids ==> Has(h, r)
  {
    seq(|rids|, i requires 0 <= i < |rids| => RowAt(h, rids[i]))
  }

  /** Filter and project a list of rows, stopping at a predicate error. */
  function Select(plan: Plan, rows: seq<Row>): Outcome
    requires forall row :: row in rows ==> Fits(plan.projection, row)
  {
    if rows == [] then Outcome([], None)
    else match Judge(plan, rows[0])
      case Holds => Prepend([Project(plan.projection, rows[0])], Select(plan, rows[1..]))
      case Fails => Select(plan, rows[1..])
      case Errs => Outcome([], Some(PredicateFailed))
  }

  /** Without a predicate every row is kept; otherwise a row for which it holds, and
    * an error ends the scan. */
  function FateOf(plan: Plan, row: Row): Fate {
    match plan.test
    case None => Keep
    case Some(test) =>
      match test(row)
      case Holds => Keep
      case Fails => Leave
      case Errs => Stop(PredicateFailed)
  }

  function Fates(plan: Plan, rows: seq<Row>): seq<Fate> {
    seq(|rows|, i requires 0 <= i < |rows| => FateOf(plan, rows[i]))
  }

  lemma {:induction false} SelectIsSifted(plan: Plan, rows: seq<Row>)
    requires forall row :: row in rows ==> Fits(plan.projection, row)
    ensures Select(plan, rows) == Sifted(rows, Fates(plan, rows), plan.projection, None)
  {
    if rows != [] {
      SelectIsSifted(plan, rows[1..]);
      assert Fates(plan, rows)[1..] == Fates(plan, rows[1..]);
    }
  }

  /** The answer to a list of rows, row by row and column by column. */
  lemma SelectAnswers(plan: Plan, rows: seq<Row>) returns (n: nat, ks: seq<nat>)
    requires forall row :: row in rows ==> Fits(plan.projection, row)
    ensures Answers(Select(plan, rows), rows, Fates(plan, rows), plan.projection, None, n, ks)
  {
    SelectIsSifted(plan, rows);
    n, ks := SiftedAnswers(rows, Fates(plan, rows), plan.projection, None);
  }

  lemma CurrentExists(h: Heap, view: View, r: Rid)
    requires LinksBack(h)
    ensures Current(h, view, r) ==> Has(h, r)
  {
  }

  lemma {:induction false} CurrentFromMembers(h: Heap, view: View, page: nat, slot: nat, r: Rid)
    requires LinksBack(h)
    ensures r in CurrentFrom(h, view, page, slot) <==>
            Current(h, view, r) && !Precedes(r, Rid(page, slot))
    decreases |h| - page, if page < |h| then |h[page]| - slot else 0
  {
    hide Current;
    CurrentExists(h, view, r);
    if page < |h| {
      if slot >= |h[page]| {
        CurrentFromMembers(h, view, page + 1, 0, r);
      } else {
        CurrentFromMembers(h, view, page, slot + 1, r);
      }
    }
  }

  /** Strictly increasing positions; in particular, no position twice. */
  ghost predicate InScanOrder(rids: seq<Rid>) {
    forall i, j :: 0 <= i < j < |rids| ==> Precedes(rids[i], rids[j])
  }

  lemma {:induction false} CurrentFromSorted(h: Heap, view: View, page: nat, slot: nat)
    requires LinksBack(h)
    ensures InScanOrder(CurrentFrom(h, view, page, slot))
    decreases |h| - page, if page < |h| then |h[page]| - slot else 0
  {
    if page < |h| {
      if slot >= |h[page]| {
        CurrentFromSorted(h, view, page + 1, 0);
      } else {
        CurrentFromSorted(h, view, page, slot + 1);
        var rest := CurrentFrom(h, view, page, slot + 1);
        forall i | 0 <= i < |rest| ensures Precedes(Rid(page, slot), rest[i]) {
          CurrentFromMembers(h, view, page, slot + 1, rest[i]);
        }
      }
    }
  }

  /** Sorted lists with the same members are the same. */
  lemma {:induction false} SameOrderedSet(a: seq<Rid>, b: seq<Rid>)
    requires InScanOrder(a) && InScanOrder(b) && (forall r :: r in a <==> r in b)
    ensures a == b
  {
    assert a != [] ==> a[0] in b;
    assert b != [] ==> b[0] in a;
    if a != [] && b != [] {
      assert a[0] == b[0];
      forall r ensures r in a[1..] <==> r in b[1..] {
        assert r in a[1..] ==> r in a && r != a[0];
        assert r in b[1..] ==> r in b && r != b[0];
      }
      SameOrderedSet(a[1..], b[1..]);
      assert a == [a[0]] + a[1..] && b == [b[0]] + b[1..];
    }
  }

  ghost predicate NoDeepWalk(h: Heap, view: View) {
    forall r :: Has(h, r) ==> WalkFrom(h, view, r) != TooDeep
  }

  /** Page summaries the scan may trust to skip a whole page. */
  ghost predicate SkippablePages(h: Heap, view: View, skipped: set<nat>) {
    forall r: Rid :: r.page in skipped ==> Offered(h, view, r).None?
  }

  lemma ShortSlotWalk(h: Heap, view: View, r: Rid)
    requires LinksBack(h) && !Has(h, r)
    ensures WalkFrom(h, view, r) == Open
  {
  }

  lemma CurrentByWalk(h: Heap, view: View, r: Rid)
    requires WellFormed(h) && WalkFrom(h, view, r) != TooDeep
    ensures Current(h, view, r) <==> WalkFrom(h, view, r) == Open && Offered(h, view, r).Some?
  {
    WalkIsSuppression(h, view, r);
  }

  lemma SelectCons(plan: Plan, row: Row, rest: seq<Row>)
    requires Fits(plan.projection, row) && forall r :: r in rest ==> Fits(plan.projection, r)
    ensures Select(plan, [row] + rest) ==
            match Judge(plan, row)
            case Holds => Prepend([Project(plan.projection, row)], Select(plan, rest))
            case Fails => Select(plan, rest)
            case Errs => Outcome([], Some(PredicateFailed))
  {
    assert ([row] + rest)[1..] == rest;
  }

  lemma CurrentFromExist(h: Heap, view: View, page: nat, slot: nat)
    requires LinksBack(h)
    ensures forall r :: r in CurrentFrom(h, view, page, slot) ==> Has(h, r) && !IsDeleted(At(h, r))
  {
    forall r | r in CurrentFrom(h, view, page, slot) ensures Has(h, r) && !IsDeleted(At(h, r)) {
      CurrentFromMembers(h, view, page, slot, r);
    }
  }

  ghost function CurrentRows(h: Heap, view: View, page: nat, slot: nat): seq<Row>
    requires LinksBack(h)
  {
    CurrentFromExist(h, view, page, slot);
    RowsAt(h, CurrentFrom(h, view, page, slot))
  }

  // ---------- where the scan stops ----------

  /** The first slot the scan reaches whose walk is too deep, or the end of the
    * heap. */
  ghost function ScanEnd(h: Heap, view: View, skipped: set<nat>, page: nat, slot: nat): Rid
    decreases |h| - page, if page < |h| then |h[page]| - slot else 0
  {
    if page >= |h| then Rid(|h|, 0)
    else if slot >= |h[page]| then ScanEnd(h, view, skipped, page + 1, 0)
    else
      match WalkFrom(h, view, Rid(page, slot))
      case TooDeep => Rid(page, slot)
      case Hidden => ScanEnd(h, view, skipped, page, slot + 1)
      case Open => if page in skipped then ScanEnd(h, view, skipped, page + 1, 0)
                   else ScanEnd(h, view, skipped, page, slot + 1)
  }

  lemma {:induction false} ScanEndBounds(h: Heap, view: View, skipped: set<nat>, page: nat, slot: nat)
    requires LinksBack(h) && page < |h|
    ensures var end := ScanEnd(h, view, skipped, page, slot);
            && !Precedes(end, Rid(page, slot))
            && (end == Rid(|h|, 0) || (Has(h, end) && WalkFrom(h, view, end) == TooDeep))
    decreases |h| - page, |h[page]| - slot
  {
    var here := Rid(page, slot);
    if slot < |h[page]| && !Has(h, here) {
      ShortSlotWalk(h, view, here);
    }
    hide WalkFrom;
    if page + 1 < |h| {
      ScanEndBounds(h, view, skipped, page + 1, 0);
    }
    if slot < |h[page]| {
      ScanEndBounds(h, view, skipped, page, slot + 1);
    }
  }

  /** On pages that are not skipped the scan stops at the first walk that is too
    * deep. */
  lemma {:induction false} ScanEndIsFirst(h: Heap, view: View, skipped: set<nat>, page: nat, slot: nat, r: Rid)
    requires LinksBack(h) && Has(h, r) && r.page !in skipped && !Precedes(r, Rid(page, slot))
    requires Precedes(r, ScanEnd(h, view, skipped, page, slot))
    ensures WalkFrom(h, view, r) != TooDeep
    decreases |h| - page, if page < |h| then |h[page]| - slot else 0
  {
    hide WalkFrom;
    if page < |h| && r != Rid(page, slot) {
      if slot >= |h[page]| || (WalkFrom(h, view, Rid(page, slot)) == Open && page in skipped) {
        ScanEndIsFirst(h, view, skipped, page + 1, 0, r);
      } else {
        ScanEndIsFirst(h, view, skipped, page, slot + 1, r);
      }
    }
  }

  /** The current versions from one position up to another. */
  ghost function CurrentUntil(h: Heap, view: View, page: nat, slot: nat, end: Rid): seq<Rid>
    requires LinksBack(h)
    decreases |h| - page, if page < |h| then |h[page]| - slot else 0
  {
    if page >= |h| || !Precedes(Rid(page, slot), end) then []
    else if slot >= |h[page]| then CurrentUntil(h, view, page + 1, 0, end)
    else (if Current(h, view, Rid(page, slot)) then [Rid(page, slot)] else [])
         + CurrentUntil(h, view, page, slot + 1, end)
  }

  lemma {:induction false} CurrentUntilMembers(h: Heap, view: View, page: nat, slot: nat, end: Rid, r: Rid)
    requires LinksBack(h)
    ensures r in CurrentUntil(h, view, page, slot, end) <==>
            Current(h, view, r) && !Precedes(r, Rid(page, slot)) && Precedes(r, end)
    decreases |h| - page, if page < |h| then |h[page]| - slot else 0
  {
    hide Current;
    CurrentExists(h, view, r);
    if page < |h| && Precedes(Rid(page, slot), end) {
      if slot >= |h[page]| {
        CurrentUntilMembers(h, view, page + 1, 0, end, r);
      } else {
        CurrentUntilMembers(h, view, page, slot + 1, end, r);
      }
    }
  }

  /** They are a prefix of all current versions, and all of them up to the end of
    * the heap. */
  lemma {:induction false} CurrentUntilIsPrefix(h: Heap, view: View, page: nat, slot: nat, end: Rid)
    requires LinksBack(h)
    ensures CurrentUntil(h, view, page, slot, end) <= CurrentFrom(h, view, page, slot)
    ensures !Precedes(end, Rid(|h|, 0)) ==> CurrentUntil(h, view, page, slot, end) == CurrentFrom(h, view, page, slot)
    decreases |h| - page, if page < |h| then |h[page]| - slot else 0
  {
    hide Current;
    if page < |h| {
      if slot >= |h[page]| {
        CurrentUntilIsPrefix(h, view, page + 1, 0, end);
      } else {
        CurrentUntilIsPrefix(h, view, page, slot + 1, end);
      }
    }
  }

  ghost function RowsUntil(h: Heap, view: View, page: nat, slot: nat, end: Rid): seq<Row>
    requires LinksBack(h)
  {
    CurrentUntilExist(h, view, page, slot, end);
    RowsAt(h, CurrentUntil(h, view, page, slot, end))
  }

  lemma CurrentUntilExist(h: Heap, view: View, page: nat, slot: nat, end: Rid)
    requires LinksBack(h)
    ensures forall r :: r in CurrentUntil(h, view, page, slot, end) ==> Has(h, r) && !IsDeleted(At(h, r))
  {
    forall r | r in CurrentUntil(h, view, page, slot, end) ensures Has(h, r) && !IsDeleted(At(h, r)) {
      CurrentUntilMembers(h, view, page, slot, end, r);
    }
  }

  lemma RowsUntilFit(h: Heap, view: View, page: nat, slot: nat, end: Rid, projection: seq<nat>)
    requires LinksBack(h) && AllFit(h, projection)
    ensures forall row :: row in RowsUntil(h, view, page, slot, end) ==> Fits(projection, row)
  {
    CurrentUntilExist(h, view, page, slot, end);
  }

  /** One slot at a time. */
  lemma RowsUntilStep(h: Heap, view: View, page: nat, slot: nat, end: Rid)
    requires LinksBack(h) && page < |h| && slot < |h[page]| && Precedes(Rid(page, slot), end)
    ensures Current(h, view, Rid(page, slot)) ==> Has(h, Rid(page, slot))
    ensures RowsUntil(h, view, page, slot, end) ==
            if Current(h, view, Rid(page, slot))
            then [RowAt(h, Rid(page, slot))] + RowsUntil(h, view, page, slot + 1, end)
            else RowsUntil(h, view, page, slot + 1, end)
  {
    var r, rest := Rid(page, slot), CurrentUntil(h, view, page, slot + 1, end);
    CurrentExists(h, view, r);
    CurrentUntilExist(h, view, page, slot, end);
    CurrentUntilExist(h, view, page, slot + 1, end);
    hide Current;
    if Current(h, view, r) {
      assert CurrentUntil(h, view, page, slot, end) == [r] + rest;
      assert RowsAt(h, [r] + rest) == [RowAt(h, r)] + RowsAt(h, rest);
    } else {
      assert CurrentUntil(h, view, page, slot, end) == rest;
    }
  }

  lemma {:induction false} SkippedPageHasNoCurrent(h: Heap, view: View, skipped: set<nat>, page: nat, slot: nat,
                                                   end: Rid)
    requires LinksBack(h) && SkippablePages(h, view, skipped) && page in skipped && page < |h|
    requires !Precedes(end, Rid(page + 1, 0))
    ensures CurrentUntil(h, view, page, slot, end) == CurrentUntil(h, view, page + 1, 0, end)
    decreases |h[page]| - slot
  {
    if slot < |h[page]| {
      SkippedPageHasNoCurrent(h, view, skipped, page, slot + 1, end);
      assert Offered(h, view, Rid(page, slot)).None?;
    }
  }

  // ---------- the whole scan ----------

  /** A result that ends with the over-deep error unless it failed before. */
  function CutAt(o: Outcome, tooDeep: bool): Outcome {
    if tooDeep && o.error.None? then Outcome(o.rows, Some(ChainTooDeep)) else o
  }

  /** The current rows up to `end`, filtered and projected. */
  ghost function SelectUntil(h: Heap, plan: Plan, page: nat, slot: nat, end: Rid): Outcome
    requires LinksBack(h) && AllFit(h, plan.projection)
  {
    RowsUntilFit(h, plan.view, page, slot, end, plan.projection);
    Select(plan, RowsUntil(h, plan.view, page, slot, end))
  }

  /** What the scan should return from a position on. */
  ghost function Expected(h: Heap, plan: Plan, skipped: set<nat>, page: nat, slot: nat): Outcome
    requires LinksBack(h) && AllFit(h, plan.projection)
  {
    var end := ScanEnd(h, plan.view, skipped, page, slot);
    CutAt(SelectUntil(h, plan, page, slot, end), end.page < |h|)
  }

  /** The scan filters and projects exactly the current versions, in scan order,
    * up to the first slot it reaches whose walk is too deep, where it fails;
    * whatever trustworthy pages it skips. */
  lemma {:induction false} ScanIsExpected(h: Heap, plan: Plan, skipped: set<nat>, page: nat, slot: nat)
    requires WellFormed(h) && AllFit(h, plan.projection) && SkippablePages(h, plan.view, skipped)
    ensures ScanFrom(h, plan, skipped, page, slot) == Expected(h, plan, skipped, page, slot)
    decreases |h| - page, if page < |h| then |h[page]| - slot else 0
  {
    if page < |h| {
      hide WellFormed, AllFit, SkippablePages;
      ScanIsExpected(h, plan, skipped, page + 1, 0);
      if slot >= |h[page]| {
        ExpectedPageEnd(h, plan, skipped, page, slot);
      } else {
        ScanIsExpected(h, plan, skipped, page, slot + 1);
        ExpectedSlot(h, plan, skipped, page, slot);
        hide Expected, WalkFrom;
      }
    }
  }

  lemma EndBeyond(h: Heap, view: View, skipped: set<nat>, page: nat)
    requires LinksBack(h) && page < |h|
    ensures !Precedes(ScanEnd(h, view, skipped, page + 1, 0), Rid(page + 1, 0))
  {
    if page + 1 < |h| {
      ScanEndBounds(h, view, skipped, page + 1, 0);
    }
  }

  lemma ExpectedPageEnd(h: Heap, plan: Plan, skipped: set<nat>, page: nat, slot: nat)
    requires LinksBack(h) && AllFit(h, plan.projection) && page < |h| && slot >= |h[page]|
    ensures Expected(h, plan, skipped, page, slot) == Expected(h, plan, skipped, page + 1, 0)
  {
    EndBeyond(h, plan.view, skipped, page);
    var end := ScanEnd(h, plan.view, skipped, page + 1, 0);
    assert CurrentUntil(h, plan.view, page, slot, end) == CurrentUntil(h, plan.view, page + 1, 0, end);
  }

  /** One slot of the expected result. */
  lemma ExpectedSlot(h: Heap, plan: Plan, skipped: set<nat>, page: nat, slot: nat)
    requires WellFormed(h) && AllFit(h, plan.projection) && SkippablePages(h, plan.view, skipped)
    requires page < |h| && slot < |h[page]|
    ensures var r := Rid(page, slot);
            Expected(h, plan, skipped, page, slot) ==
            match WalkFrom(h, plan.view, r)
            case TooDeep => Outcome([], Some(ChainTooDeep))
            case Hidden => Expected(h, plan, skipped, page, slot + 1)
            case Open =>
              if page in skipped then Expected(h, plan, skipped, page + 1, 0)
              else
                match Offered(h, plan.view, r)
                case None => Expected(h, plan, skipped, page, slot + 1)
                case Some(row) =>
                  match Judge(plan, row)
                  case Holds => Prepend([Project(plan.projection, row)], Expected(h, plan, skipped, page, slot + 1))
                  case Fails => Expected(h, plan, skipped, page, slot + 1)
                  case Errs => Outcome([], Some(PredicateFailed))
  {
    hide Current, WalkFrom, SelectUntil, SkippablePages, AllFit, Judge, Project;
    var r := Rid(page, slot);
    var end := ScanEnd(h, plan.view, skipped, page, slot);
    if WalkFrom(h, plan.view, r) == TooDeep {
      NothingUntil(h, plan, page, slot);
    } else {
      CurrentByWalk(h, plan.view, r);
      if page in skipped && WalkFrom(h, plan.view, r) == Open {
        EndBeyond(h, plan.view, skipped, page);
        SkippedUntil(h, plan, skipped, page, slot, end);
      } else {
        ScanEndBounds(h, plan.view, skipped, page, slot + 1);
        ExpectedOpenSlot(h, plan, page, slot, end);
      }
    }
  }

  lemma NothingUntil(h: Heap, plan: Plan, page: nat, slot: nat)
    requires LinksBack(h) && AllFit(h, plan.projection)
    ensures SelectUntil(h, plan, page, slot, Rid(page, slot)) == Outcome([], None)
  {
    assert RowsUntil(h, plan.view, page, slot, Rid(page, slot)) == [];
  }

  lemma SkippedUntil(h: Heap, plan: Plan, skipped: set<nat>, page: nat, slot: nat, end: Rid)
    requires LinksBack(h) && AllFit(h, plan.projection) && SkippablePages(h, plan.view, skipped)
    requires page in skipped && page < |h| && !Precedes(end, Rid(page + 1, 0))
    ensures SelectUntil(h, plan, page, slot, end) == SelectUntil(h, plan, page + 1, 0, end)
  {
    SkippedPageHasNoCurrent(h, plan.view, skipped, page, slot, end);
  }

  /** The slot's own row goes in front of what follows. */
  lemma ExpectedOpenSlot(h: Heap, plan: Plan, page: nat, slot: nat, end: Rid)
    requires LinksBack(h) && AllFit(h, plan.projection) && page < |h| && slot < |h[page]|
    requires Precedes(Rid(page, slot), end)
    ensures var r := Rid(page, slot);
            var rest := SelectUntil(h, plan, page, slot + 1, end);
            && (Current(h, plan.view, r) ==> Has(h, r) && !IsDeleted(At(h, r)))
            && SelectUntil(h, plan, page, slot, end) ==
               if !Current(h, plan.view, r) then rest
               else
                 match Judge(plan, RowAt(h, r))
                 case Holds => Prepend([Project(plan.projection, RowAt(h, r))], rest)
                 case Fails => rest
                 case Errs => Outcome([], Some(PredicateFailed))
  {
    RowsUntilFit(h, plan.view, page, slot, end, plan.projection);
    RowsUntilFit(h, plan.view, page, slot + 1, end, plan.projection);
    RowsUntilStep(h, plan.view, page, slot, end);
    hide Current, RowsUntil, Select;
    if Current(h, plan.view, Rid(page, slot)) {
      SelectCons(plan, RowAt(h, Rid(page, slot)), RowsUntil(h, plan.view, page, slot + 1, end));
    }
  }

  lemma {:induction false} SelectPrefix(plan: Plan, a: seq<Row>, b: seq<Row>)
    requires (forall r :: r in a ==> Fits(plan.projection, r)) && (forall r :: r in b ==> Fits(plan.projection, r))
    ensures Select(plan, a + b) ==
            if Select(plan, a).error.Some? then Select(plan, a) else Prepend(Select(plan, a).rows, Select(plan, b))
  {
    if a == [] {
      assert a + b == b;
    } else {
      assert (a + b)[1..] == a[1..] + b;
      SelectPrefix(plan, a[1..], b);
    }
  }

  /** A scan result against the full answer: all of it, or cut short by the
    * over-deep error after some of its rows. */
  predicate UpToDepth(o: Outcome, all: Outcome) {
    o == all || (o.error == Some(ChainTooDeep) && o.rows <= all.rows)
  }

  /** The whole answer: every current row, filtered and projected. */
  ghost function FullAnswer(h: Heap, plan: Plan): Outcome
    requires LinksBack(h) && AllFit(h, plan.projection)
  {
    CurrentFromExist(h, plan.view, 0, 0);
    Select(plan, CurrentRows(h, plan.view, 0, 0))
  }

  /** Never a wrong row: on any well-formed heap a scan gives the full answer, or
    * a prefix of its rows and then the over-deep error.  It is the full answer
    * when every slot's walk is short enough. */
  lemma ScanSelectsCurrent(h: Heap, plan: Plan, skipped: set<nat>)
    requires WellFormed(h) && AllFit(h, plan.projection) && SkippablePages(h, plan.view, skipped)
    ensures UpToDepth(ScanFrom(h, plan, skipped, 0, 0), FullAnswer(h, plan))
    ensures NoDeepWalk(h, plan.view) ==> ScanFrom(h, plan, skipped, 0, 0) == FullAnswer(h, plan)
  {
    var end := ScanEnd(h, plan.view, skipped, 0, 0);
    ScanIsExpected(h, plan, skipped, 0, 0);
    if |h| > 0 {
      ScanEndBounds(h, plan.view, skipped, 0, 0);
    }
    hide ScanFrom, WalkFrom, ScanEnd;
    UntilIsPartOfAll(h, plan, end);
    if end.page >= |h| {
      assert end == Rid(|h|, 0);
      CurrentUntilIsPrefix(h, plan.view, 0, 0, end);
    }
  }

  /** What the full answer holds: the projections of the current rows the predicate
    * keeps, in scan order, up to the first on which it fails. */
  lemma FullAnswerIs(h: Heap, plan: Plan) returns (n: nat, ks: seq<nat>)
    requires LinksBack(h) && AllFit(h, plan.projection)
    ensures forall r :: r in CurrentFrom(h, plan.view, 0, 0) ==> Has(h, r)
    ensures var rows := RowsAt(h, CurrentFrom(h, plan.view, 0, 0));
            Answers(FullAnswer(h, plan), rows, Fates(plan, rows), plan.projection, None, n, ks)
  {
    CurrentFromExist(h, plan.view, 0, 0);
    n, ks := SelectAnswers(plan, RowsAt(h, CurrentFrom(h, plan.view, 0, 0)));
  }

  lemma UntilIsPartOfAll(h: Heap, plan: Plan, end: Rid)
    requires LinksBack(h) && AllFit(h, plan.projection)
    ensures var part := SelectUntil(h, plan, 0, 0, end);
            part.rows <= FullAnswer(h, plan).rows && (part.error.Some? ==> part == FullAnswer(h, plan))
  {
    RowsUntilFit(h, plan.view, 0, 0, end, plan.projection);
    CurrentFromExist(h, plan.view, 0, 0);
    CurrentUntilExist(h, plan.view, 0, 0, end);
    CurrentUntilIsPrefix(h, plan.view, 0, 0, end);
    var some, all := CurrentUntil(h, plan.view, 0, 0, end), CurrentFrom(h, plan.view, 0, 0);
    var a, b := RowsAt(h, some), RowsAt(h, all[|some|..]);
    assert all == some + all[|some|..];
    assert RowsAt(h, all) == a + b;
    SelectPrefix(plan, a, b);
  }

  // ---------- how deep the walk goes ----------

  /** The first `n` recorded superseders above `v`, nearest first. */
  ghost function Superseders(h: Heap, v: Rid, n: nat): (up: seq<Rid>)
    ensures |up| <= n && forall r :: r in up ==> Has(h, r)
    decreases n
  {
    var m := SupersededMapOf(h);
    if n == 0 || v !in m then [] else [m[v].0] + Superseders(h, m[v].0, n - 1)
  }

  ghost predicate NoneSuppress(h: Heap, view: View, rids: seq<Rid>)
    requires forall r :: r in rids ==> Has(h, r)
  {
    forall r :: r in rids ==> !Suppresses(view, At(h, r))
  }

  lemma {:induction false} WalkByList(h: Heap, view: View, cur: Rid, depth: nat)
    requires Has(h, cur) && depth < MAX_CHAIN_DEPTH
    ensures var up := [cur] + Superseders(h, cur, MAX_CHAIN_DEPTH - depth);
            Walk(h, SupersededMapOf(h), view, cur, depth) == TooDeep <==>
            |up| == MAX_CHAIN_DEPTH + 1 - depth && NoneSuppress(h, view, up[..MAX_CHAIN_DEPTH - depth])
    decreases MAX_CHAIN_DEPTH - depth
  {
    var m := SupersededMapOf(h);
    var n := MAX_CHAIN_DEPTH - depth;
    if cur in m {
      var u := m[cur].0;
      var rest := [u] + Superseders(h, u, n - 1);
      assert Superseders(h, cur, n) == rest;
      hide Superseders, SupersededMapOf, Suppresses, NoneSuppress;
      NoneSuppressCons(h, view, cur, rest, n);
      if n > 1 {
        WalkByList(h, view, u, depth + 1);
      }
    }
  }

  lemma NoneSuppressCons(h: Heap, view: View, cur: Rid, rest: seq<Rid>, n: nat)
    requires Has(h, cur) && (forall r :: r in rest ==> Has(h, r)) && 0 < n
    ensures |rest| == n ==>
            (NoneSuppress(h, view, ([cur] + rest)[..n]) <==>
             !Suppresses(view, At(h, cur)) && NoneSuppress(h, view, rest[..n - 1]))
    ensures |rest| == n == 1 ==> NoneSuppress(h, view, rest[..0])
  {
    if |rest| == n {
      assert ([cur] + rest)[..n] == [cur] + rest[..n - 1];
      hide Suppresses;
    }
  }

  /** The scan gives up on a slot exactly when it has more than 64 superseders
    * and none of the nearest 64 suppresses it. */
  lemma TooDeepExactly(h: Heap, view: View, v: Rid)
    ensures var up := Superseders(h, v, MAX_CHAIN_DEPTH + 1);
            WalkFrom(h, view, v) == TooDeep <==>
            |up| == MAX_CHAIN_DEPTH + 1 && NoneSuppress(h, view, up[..MAX_CHAIN_DEPTH])
  {
    var m := SupersededMapOf(h);
    if v in m {
      WalkByList(h, view, m[v].0, 0);
    }
  }

  /** A row committed by transaction 1 and then updated `n` times by one
    * transaction that was rolled back. */
  function RolledBackUpdates(n: nat, row: Row): Heap {
    [seq(n + 1, i requires 0 <= i <= n =>
       if i == 0 then Version(Header(1, 1, None), row)
       else Version(Header(0, DELETED_TX, Some(Rid(0, i - 1))), row))]
  }

  /** Slot by slot, each version replaces the one before it. */
  ghost predicate LineOf(h: Heap, n: nat) {
    forall w, v :: Link(h, w, v) <==> w.page == v.page == 0 && w.slot == v.slot + 1 <= n
  }

  lemma RolledBackShape(n: nat, row: Row)
    ensures var h := RolledBackUpdates(n, row);
            WellFormed(h) && Settled(h) && LineOf(h, n)
  {
    var h := RolledBackUpdates(n, row);
    forall w, v ensures Link(h, w, v) <==> w.page == v.page == 0 && w.slot == v.slot + 1 <= n {
      if Has(h, w) && w.slot > 0 {
        assert At(h, w).next == Some(Rid(0, w.slot - 1));
      }
    }
  }

  lemma {:induction false} LineSuperseders(h: Heap, n: nat, i: nat, k: nat)
    requires LineOf(h, n) && i <= n
    ensures |Superseders(h, Rid(0, i), k)| == (if k <= n - i then k else n - i)
    ensures forall r :: r in Superseders(h, Rid(0, i), k) ==> r.page == 0 && i < r.slot <= n
    decreases k
  {
    LineMap(h, n, i);
    hide LineOf, SupersededMapOf;
    if k > 0 && i < n {
      LineSuperseders(h, n, i + 1, k - 1);
    }
  }

  lemma LineMap(h: Heap, n: nat, i: nat)
    requires LineOf(h, n) && i <= n
    ensures var m := SupersededMapOf(h);
            if i < n then Rid(0, i) in m && m[Rid(0, i)].0 == Rid(0, i + 1) else Rid(0, i) !in m
  {
    var m := SupersededMapOf(h);
    if i < n {
      assert Link(h, Rid(0, i + 1), Rid(0, i));
      assert Link(h, m[Rid(0, i)].0, Rid(0, i));
    } else {
      assert forall w :: !Link(h, w, Rid(0, i));
    }
  }

  /** Where no later version suppresses, the walk is too deep exactly when more
    * than 64 of them lie above the slot. */
  lemma LineWalk(h: Heap, n: nat, view: View, i: nat)
    requires LineOf(h, n) && i <= n
    requires forall r: Rid :: r.page == 0 && 0 < r.slot <= n ==> Has(h, r) && !Suppresses(view, At(h, r))
    ensures WalkFrom(h, view, Rid(0, i)) == TooDeep <==> n - i > MAX_CHAIN_DEPTH
  {
    hide Superseders, WalkFrom, LineOf, Suppresses;
    TooDeepExactly(h, view, Rid(0, i));
    LineSuperseders(h, n, i, MAX_CHAIN_DEPTH + 1);
    var up := Superseders(h, Rid(0, i), MAX_CHAIN_DEPTH + 1);
    if |up| == MAX_CHAIN_DEPTH + 1 {
      forall r | r in up[..MAX_CHAIN_DEPTH] ensures !Suppresses(view, At(h, r)) {
        assert r in up;
      }
    }
  }

  lemma RolledBackWalk(n: nat, row: Row, view: View, i: nat)
    requires i <= n
    ensures WalkFrom(RolledBackUpdates(n, row), view, Rid(0, i)) == TooDeep <==> n - i > MAX_CHAIN_DEPTH
  {
    hide WalkFrom, LineOf, WellFormed, Settled, RolledBackUpdates, Suppresses;
    var h := RolledBackUpdates(n, row);
    RolledBackShape(n, row);
    forall r: Rid | r.page == 0 && 0 < r.slot <= n ensures Has(h, r) && !Suppresses(view, At(h, r)) {
      RolledBackSlot(n, row, view, r);
    }
    LineWalk(h, n, view, i);
  }

  lemma RolledBackSlot(n: nat, row: Row, view: View, r: Rid)
    requires r.page == 0 && 0 < r.slot <= n
    ensures var h := RolledBackUpdates(n, row);
            Has(h, r) && IsDeleted(At(h, r)) && !Suppresses(view, At(h, r))
  {
  }

  /** The committed version is the only one left to see. */
  lemma RolledBackCurrent(n: nat, row: Row, view: View)
    requires LinksBack(RolledBackUpdates(n, row))
    ensures CurrentFrom(RolledBackUpdates(n, row), view, 0, 0) == if Visible(view, Header(1, 1, None)) then [Rid(0, 0)]
                                                                  else []
  {
    var h := RolledBackUpdates(n, row);
    var expected := if Visible(view, Header(1, 1, None)) then [Rid(0, 0)] else [];
    forall r ensures r in CurrentFrom(h, view, 0, 0) <==> r in expected {
      CurrentFromMembers(h, view, 0, 0, r);
      RolledBackIsCurrent(n, row, view, r);
    }
    CurrentFromSorted(h, view, 0, 0);
    SameOrderedSet(CurrentFrom(h, view, 0, 0), expected);
  }

  lemma RolledBackIsCurrent(n: nat, row: Row, view: View, r: Rid)
    requires LinksBack(RolledBackUpdates(n, row))
    ensures Current(RolledBackUpdates(n, row), view, r) <==> r == Rid(0, 0) && Visible(view, Header(1, 1, None))
  {
    var h := RolledBackUpdates(n, row);
    if Has(h, r) && r.slot > 0 {
      RolledBackSlot(n, row, view, r);
    }
    if r == Rid(0, 0) && Suppressed(h, view, r) {
      var w :| Newer(h, w, r) && Suppresses(view, At(h, w));
      NewerExists(h, w, r);
      RolledBackSlot(n, row, view, w);
    }
  }

  /** Rolling back more than 64 updates of a row makes every scan of its table
    * fail at that row; after up to 64 the row is read as if they had never been. */
  lemma RollbacksCanBlockScan(n: nat, row: Row, plan: Plan, skipped: set<nat>)
    requires AllFit(RolledBackUpdates(n, row), plan.projection)
    requires SkippablePages(RolledBackUpdates(n, row), plan.view, skipped)
    ensures Fits(plan.projection, row)
    ensures ScanFrom(RolledBackUpdates(n, row), plan, skipped, 0, 0) ==
            if n > MAX_CHAIN_DEPTH then Outcome([], Some(ChainTooDeep))
            else Select(plan, if Visible(plan.view, Header(1, 1, None)) then [row] else [])
  {
    var h := RolledBackUpdates(n, row);
    assert Has(h, Rid(0, 0)) && RowAt(h, Rid(0, 0)) == row && At(h, Rid(0, 0)) == Header(1, 1, None);
    RolledBackShape(n, row);
    RolledBackWalk(n, row, plan.view, 0);
    if n <= MAX_CHAIN_DEPTH {
      forall r | Has(h, r) ensures WalkFrom(h, plan.view, r) != TooDeep {
        RolledBackWalk(n, row, plan.view, r.slot);
      }
      hide ScanFrom, Select, WalkFrom, CurrentFrom, WellFormed;
      ScanSelectsCurrent(h, plan, skipped);
      RolledBackCurrent(n, row, plan.view);
      assert CurrentRows(h, plan.view, 0, 0) == if Visible(plan.view, Header(1, 1, None)) then [row] else [];
    }
  }

  // ---------- the executor ----------

  const MIN_CREATE_UNKNOWN := 0xFFFF_FFFF_FFFF_FFFF

  /** A page's visibility summary. */
  datatype PageVis = PageVis(minCreate: nat, allVisible: bool)

  predicate AllInvisibleFor(v: PageVis, highWater: nat) {
    v.minCreate != MIN_CREATE_UNKNOWN && v.minCreate > highWater
  }

  /** The summaries tell the truth about this reader. */
  ghost predicate Truthful(h: Heap, view: View, vis: map<nat, PageVis>) {
    forall r :: Has(h, r) && r.page in vis ==>
      && (vis[r.page].allVisible && !IsDeleted(At(h, r)) ==> Visible(view, At(h, r)))
      && (vis[r.page].minCreate != MIN_CREATE_UNKNOWN && !IsDeleted(At(h, r)) ==>
            vis[r.page].minCreate <= At(h, r).createTx)
  }

  /** Pages the reader skips because everything on them is too new for it. */
  function SkippedPages(view: View, vis: map<nat, PageVis>): set<nat> {
    if view.snapshot.None? then {}
    else set p | p in vis && AllInvisibleFor(vis[p], view.snapshot.value.highWater)
  }

  /** A reader's own id never exceeds its high-water mark. */
  predicate SaneView(view: View) {
    view.snapshot.Some? ==> view.snapshot.value.txId <= view.snapshot.value.highWater
  }

  /** Truthful summaries only ever skip pages that offer the reader nothing. */
  lemma TruthfulSkips(h: Heap, view: View, vis: map<nat, PageVis>)
    requires Truthful(h, view, vis) && SaneView(view)
    ensures SkippablePages(h, view, SkippedPages(view, vis))
  {
  }

  /** One pass over the chain, page by page and slot by slot. */
  method BuildSupersededMap(h: Heap) returns (m: SupersededMap)
    ensures m == SupersededMapOf(h)
  {
    m := map[];
    var page := 0;
    while page < |h|
      invariant 0 <= page <= |h|
      invariant m == MapUpTo(h, page, 0)
    {
      var slot := 0;
      while slot < |h[page]|
        invariant 0 <= slot <= |h[page]|
        invariant m == MapUpTo(h, page, slot)
      {
        m := AddLink(m, h, Rid(page, slot));
        slot := slot + 1;
      }
      page := page + 1;
    }
  }

  /** Every slot of the page is a committed, living version the snapshot sees. */
  ghost predicate AllVisibleTo(slots: seq<Slot>, s: Snapshot) {
    forall i :: 0 <= i < |slots| ==>
      && slots[i].Version? && !IsDeleted(slots[i].header)
      && IsVisible(s, slots[i].header.createTx, CommitOf(slots[i].header))
  }

  function Flagged(vis: map<nat, PageVis>, page: nat): map<nat, PageVis> {
    vis[page := if page in vis then vis[page].(allVisible := true) else PageVis(MIN_CREATE_UNKNOWN, true)]
  }

  /** Whether a page may be summarised as visible to this snapshot. */
  method CheckPageAllVisible(slots: seq<Slot>, s: Snapshot) returns (ok: bool)
    ensures ok <==> AllVisibleTo(slots, s)
  {
    for i := 0 to |slots|
      invariant forall j :: 0 <= j < i ==>
                  slots[j].Version? && !IsDeleted(slots[j].header)
                  && IsVisible(s, slots[j].header.createTx, CommitOf(slots[j].header))
    {
      if slots[i].Short? {
        return false;
      }
      var vh := slots[i].header;
      if CommitOf(vh).None? || IsDeleted(vh) || vh.createTx > s.highWater || vh.createTx in s.active {
        return false;
      }
    }
    return true;
  }

  /** What one look at a page tells the outer loop to do. */
  datatype PageAction = YieldValue(row: Row) | SkipSlot | LeavePage

  function LookAtPage(h: Heap, view: View, r: Rid, allVisible: bool, allInvisible: bool): PageAction
    requires r.page < |h|
  {
    if allInvisible || r.slot >= |h[r.page]| then LeavePage
    else match h[r.page][r.slot]
      case Short => SkipSlot
      case Version(vh, row) =>
        if IsDeleted(vh) then SkipSlot
        else if !allVisible && !Visible(view, vh) then SkipSlot
        else YieldValue(row)
  }

  /** What the walk decides about a slot before its page is read. */
  lemma ScanByWalk(h: Heap, plan: Plan, skipped: set<nat>, r: Rid)
    requires LinksBack(h) && AllFit(h, plan.projection) && r.page < |h|
    ensures r.slot >= |h[r.page]| ==> WalkFrom(h, plan.view, r) == Open
    ensures WalkFrom(h, plan.view, r) == TooDeep ==>
              ScanFrom(h, plan, skipped, r.page, r.slot) == Outcome([], Some(ChainTooDeep))
    ensures WalkFrom(h, plan.view, r) == Hidden ==>
              ScanFrom(h, plan, skipped, r.page, r.slot) == ScanFrom(h, plan, skipped, r.page, r.slot + 1)
  {
    if r.slot >= |h[r.page]| {
      ShortSlotWalk(h, plan.view, r);
    }
  }

  /** Reading the page, with the summaries' shortcuts, continues the scan. */
  lemma ScanByAction(h: Heap, plan: Plan, vis: map<nat, PageVis>, r: Rid)
    requires LinksBack(h) && AllFit(h, plan.projection) && Truthful(h, plan.view, vis)
    requires r.page < |h| && WalkFrom(h, plan.view, r) == Open
    ensures var skipped := SkippedPages(plan.view, vis);
            var action := LookAtPage(h, plan.view, r, r.page in vis && vis[r.page].allVisible, r.page in skipped);
            && (!action.LeavePage? ==> r.slot < |h[r.page]|)
            && (action.YieldValue? ==> Fits(plan.projection, action.row))
            && ScanFrom(h, plan, skipped, r.page, r.slot) ==
               (match action
                case LeavePage => ScanFrom(h, plan, skipped, r.page + 1, 0)
                case SkipSlot => ScanFrom(h, plan, skipped, r.page, r.slot + 1)
                case YieldValue(row) =>
                  match Judge(plan, row)
                  case Holds => Prepend([Project(plan.projection, row)],
                                        ScanFrom(h, plan, skipped, r.page, r.slot + 1))
                  case Fails => ScanFrom(h, plan, skipped, r.page, r.slot + 1)
                  case Errs => Outcome([], Some(PredicateFailed)))
  {
    if Living(h, r) {
      assert Fits(plan.projection, RowAt(h, r));
    }
  }

  lemma PeelCapped(row: Row, rest: Outcome, room: Option<nat>)
    ensures room == Some(0) ==> Peels(Capped(Prepend([row], rest), room), Finished, Outcome([], None))
    ensures room != Some(0) ==>
              Peels(Capped(Prepend([row], rest), room), Yield(row),
                    Capped(rest, if room.Some? then Some(room.value - 1) else None))
  {
    var all := Prepend([row], rest);
    assert all.rows[1..] == rest.rows;
    if room.Some? && |all.rows| > room.value > 0 {
      assert all.rows[..room.value][1..] == rest.rows[..room.value - 1];
    }
  }

  lemma PeelFault(e: Error, room: Option<nat>, after: Outcome)
    ensures Peels(Capped(Outcome([], Some(e)), room), Fault(e), after)
  {
  }

  lemma CappedNothing(room: Option<nat>)
    ensures Capped(Outcome([], None), room) == Outcome([], None)
  {
  }

  lemma ScanPastEnd(h: Heap, plan: Plan, skipped: set<nat>, page: nat)
    requires AllFit(h, plan.projection)
    ensures page >= |h| ==> ScanFrom(h, plan, skipped, page, 0) == Outcome([], None)
  {
  }

  class Scanner {
    const heap: Heap
    const plan: Plan
    const cap: Option<nat>
    var produced: nat
    var currentPage: Option<nat>
    var currentSlot: nat
    var superseded: Option<SupersededMap>
    var active: Option<set<nat>>
    var vis: map<nat, PageVis>

    ghost predicate Valid()
      reads this
    {
      && LinksBack(heap) && AllFit(heap, plan.projection) && SaneView(plan.view)
      && Truthful(heap, plan.view, vis)
      && (superseded.Some? ==> superseded.value == SupersededMapOf(heap))
      && (active.Some? ==> active.value == plan.view.active)
      && (currentPage.Some? ==> currentPage.value < |heap|)
      && (cap.Some? ==> produced <= cap.value)
    }

    /** Everything the scan will still produce. */
    ghost function Remaining(): Outcome
      requires Valid()
      reads this
    {
      if currentPage.None? then Outcome([], None)
      else Capped(ScanFrom(heap, plan, SkippedPages(plan.view, vis), currentPage.value, currentSlot),
                  if cap.Some? then Some(cap.value - produced) else None)
    }

    constructor (h: Heap, p: Plan, limit: Option<nat>, summaries: map<nat, PageVis>)
      requires LinksBack(h) && |h| > 0 && AllFit(h, p.projection)
      requires SaneView(p.view) && Truthful(h, p.view, summaries)
      ensures Valid() && heap == h && plan == p
      ensures Remaining() == Capped(ScanFrom(h, p, SkippedPages(p.view, summaries), 0, 0), limit)
    {
      heap, plan, cap := h, p, limit;
      produced, currentPage, currentSlot := 0, Some(0), 0;
      superseded, active, vis := None, None, summaries;
    }

    /** The bounded walk up the recorded superseders. */
    method SlotIsSuperseded(r: Rid) returns (result: WalkResult)
      requires Valid() && superseded.Some? && active.Some?
      ensures result == WalkFrom(heap, plan.view, r)
    {
      var m := superseded.value;
      var view := View(plan.view.snapshot, active.value);
      if r !in m {
        return Open;
      }
      var current := m[r].0;
      var depth := 0;
      while true
        invariant depth < MAX_CHAIN_DEPTH && Has(heap, current)
        invariant Walk(heap, m, view, current, depth) == WalkFrom(heap, plan.view, r)
        decreases MAX_CHAIN_DEPTH - depth
      {
        if Suppresses(view, At(heap, current)) {
          return Hidden;
        }
        if current !in m {
          return Open;
        }
        current := m[current].0;
        depth := depth + 1;
        if depth >= MAX_CHAIN_DEPTH {
          return TooDeep;
        }
      }
    }

    /** Remember that a page just read to its end is visible as a whole. */
    method SummarisePage(page: nat, allInvisible: bool)
      requires Valid() && page < |heap|
      modifies this`vis
      ensures Valid() && SkippedPages(plan.view, vis) == old(SkippedPages(plan.view, vis))
      ensures vis == old(vis) ||
              (vis == Flagged(old(vis), page) && plan.view.snapshot.Some?
               && AllVisibleTo(heap[page], plan.view.snapshot.value))
    {
      if plan.view.snapshot.Some? && !(page in vis && vis[page].allVisible) && !allInvisible {
        var ok := CheckPageAllVisible(heap[page], plan.view.snapshot.value);
        if ok {
          vis := Flagged(vis, page);
        }
      }
    }

    /** `yield_capped`: hand the row over, or end the scan at the cap. */
    method YieldCapped(row: Row) returns (step: Step)
      requires Valid()
      modifies this`produced, this`currentPage
      ensures Valid()
      ensures if cap.Some? && old(produced) >= cap.value
              then step == Finished && currentPage == None && produced == old(produced)
              else step == Yield(row) && currentPage == old(currentPage)
                   && produced == old(produced) + (if cap.Some? then 1 else 0)
    {
      if cap.None? {
        return Yield(row);
      }
      if produced >= cap.value {
        currentPage := None;
        return Finished;
      }
      produced := produced + 1;
      return Yield(row);
    }

    /** How far the scan still has to go: pages, then slots. */
    ghost function PagesLeft(): nat
      requires Valid()
      reads this
    {
      if currentPage.Some? then |heap| - currentPage.value else 0
    }

    ghost function SlotsLeft(): nat
      requires Valid()
      reads this
    {
      if currentPage.Some? && currentSlot <= |heap[currentPage.value]|
      then |heap[currentPage.value]| - currentSlot else 0
    }

    /** One round of the loop: settle the slot under the cursor, or leave the page. */
    method Advance() returns (step: Option<Step>)
      requires Valid() && superseded.Some? && active.Some? && currentPage.Some?
      modifies this`produced, this`currentPage, this`currentSlot, this`vis
      ensures Valid()
      ensures step.Some? ==> Peels(old(Remaining()), step.value, Remaining())
      ensures step.None? ==> Remaining() == old(Remaining())
      ensures step.None? ==> PagesLeft() < old(PagesLeft())
                             || (PagesLeft() == old(PagesLeft()) && SlotsLeft() < old(SlotsLeft()))
    {
      hide ScanFrom, WalkFrom, Truthful, LinksBack, AllFit, SkippedPages, LookAtPage, Judge, Project, Capped, Peels;
      ghost var room := if cap.Some? then Some(cap.value - produced) else None;
      var page := currentPage.value;
      var candidate := Rid(page, currentSlot);
      var walk := SlotIsSuperseded(candidate);
      ScanByWalk(heap, plan, SkippedPages(plan.view, vis), candidate);
      if walk == TooDeep {
        PeelFault(ChainTooDeep, room, Remaining());
        return Some(Fault(ChainTooDeep));
      }
      if walk == Hidden {
        currentSlot := currentSlot + 1;
        return None;
      }
      var allVisible := page in vis && vis[page].allVisible;
      var allInvisible := page in SkippedPages(plan.view, vis);
      ScanByAction(heap, plan, vis, candidate);
      match LookAtPage(heap, plan.view, candidate, allVisible, allInvisible)
      case LeavePage =>
        SummarisePage(page, allInvisible);
        ScanPastEnd(heap, plan, SkippedPages(plan.view, vis), page + 1);
        CappedNothing(room);
        if page + 1 < |heap| {
          currentPage, currentSlot := Some(page + 1), 0;
        } else {
          currentPage := None;
        }
        return None;
      case SkipSlot =>
        currentSlot := currentSlot + 1;
        return None;
      case YieldValue(row) =>
        currentSlot := currentSlot + 1;
        match Judge(plan, row)
        case Holds =>
          PeelCapped(Project(plan.projection, row),
                     ScanFrom(heap, plan, SkippedPages(plan.view, vis), page, currentSlot), room);
          var taken := YieldCapped(Project(plan.projection, row));
          return Some(taken);
        case Fails =>
          return None;
        case Errs =>
          PeelFault(PredicateFailed, room, Remaining());
          return Some(Fault(PredicateFailed));
    }

    /** The next row of the scan. */
    method Next() returns (step: Step)
      requires Valid()
      modifies this
      ensures Valid()
      ensures Peels(old(Remaining()), step, Remaining())
    {
      if superseded.None? {
        var m := BuildSupersededMap(heap);
        superseded := Some(m);
      }
      if active.None? {
        active := Some(plan.view.active);
      }
      while currentPage.Some?
        invariant Valid() && superseded.Some? && active.Some?
        invariant Remaining() == old(Remaining())
        decreases PagesLeft(), SlotsLeft()
      {
        var taken := Advance();
        if taken.Some? {
          return taken.value;
        }
      }
      return Finished;
    }
  }
}
