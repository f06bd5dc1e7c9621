/** NOT IN and NOT EXISTS (`src/executor/anti_join.rs`): what is emitted, the
  * cache of correlated subquery results, and the memory accounting.
  */
module AntiJoin {
  import opened Options
  import opened Values
  import opened Rows
  import opened Streams
  import opened Selections
  import opened QueryBudget

  /** Column positions of the conditions and of the correlated parameters;
    * `None` is a column that was not found.  `sub` is the correlated subquery as
    * a function of its parameter values; it is `None` when the executor was
    * given no plan to run, and the right side then counts as empty. */
  datatype Plan = Plan(
    leftColumns: seq<Option<nat>>,
    rightColumns: seq<Option<nat>>,
    projection: seq<nat>,
    params: seq<Option<nat>>,
    names: seq<seq<Byte>>,
    sub: Option<Row -> Outcome>)

  // ---------- keys and the decision ----------

  function KeyOf(row: Row, columns: seq<Option<nat>>): Option<Row> {
    if Null in ColumnValues(row, columns) then None else Some(ColumnValues(row, columns))
  }

  function RightKey(plan: Plan): Row -> Option<Row> {
    (row: Row) => KeyOf(row, plan.rightColumns)
  }

  function HasNullKey(plan: Plan, rights: seq<Row>): bool {
    exists row :: row in rights && KeyOf(row, plan.rightColumns).None?
  }

  /** What the executor remembers of the right rows. */
  datatype Table = Table(buckets: Buckets, hasRows: bool, hasNullKey: bool)

  function TableOf(plan: Plan, rights: seq<Row>): Table {
    Table(Grouped(RightKey(plan), rights), rights != [], HasNullKey(plan, rights))
  }

  /** The branches of the scan. */
  function Emits(plan: Plan, t: Table, left: Row): bool {
    if plan.leftColumns == [] then !t.hasRows
    else if t.hasNullKey then false
    else if !t.hasRows then true
    else KeyOf(left, plan.leftColumns).Some? && KeyOf(left, plan.leftColumns).value !in t.buckets
  }

  // ---------- three-valued NOT IN ----------

  datatype Tri = True | False | Unknown

  function And(a: Tri, b: Tri): Tri {
    if a == False || b == False then False else if a == True && b == True then True else Unknown
  }

  function Or(a: Tri, b: Tri): Tri {
    if a == True || b == True then True else if a == False && b == False then False else Unknown
  }

  type Equality = (Value, Value) -> bool

  function Differs(eq: Equality, a: Value, b: Value): Tri {
    if a == Null || b == Null then Unknown else if eq(a, b) then False else True
  }

  /** Two tuples differ if some component does. */
  function TupleDiffers(eq: Equality, a: Row, b: Row): Tri
    requires |a| == |b|
  {
    if a == [] then False else Or(Differs(eq, a[0], b[0]), TupleDiffers(eq, a[1..], b[1..]))
  }

  /** `left NOT IN rights` by the rules of three-valued logic. */
  function NotIn(eq: Equality, plan: Plan, left: Row, rights: seq<Row>): Tri
    requires |plan.leftColumns| == |plan.rightColumns|
  {
    if rights == [] then True
    else And(TupleDiffers(eq, ColumnValues(left, plan.leftColumns), ColumnValues(rights[0], plan.rightColumns)),
             NotIn(eq, plan, left, rights[1..]))
  }

  function Identical(): Equality {
    (a: Value, b: Value) => a == b
  }

  lemma {:induction false} NotInIsTrue(eq: Equality, plan: Plan, left: Row, rights: seq<Row>)
    requires |plan.leftColumns| == |plan.rightColumns|
    ensures NotIn(eq, plan, left, rights) == True <==>
            forall r :: r in rights ==>
              TupleDiffers(eq, ColumnValues(left, plan.leftColumns), ColumnValues(r, plan.rightColumns)) == True
  {
    if rights != [] {
      NotInIsTrue(eq, plan, left, rights[1..]);
      assert rights == [rights[0]] + rights[1..];
    }
  }

  lemma {:induction false} TupleDiffersIsTrue(eq: Equality, a: Row, b: Row)
    requires |a| == |b|
    ensures TupleDiffers(eq, a, b) == True <==>
            exists i :: 0 <= i < |a| && Differs(eq, a[i], b[i]) == True
  {
    if a != [] {
      TupleDiffersIsTrue(eq, a[1..], b[1..]);
      if TupleDiffers(eq, a[1..], b[1..]) == True {
        var i :| 0 <= i < |a[1..]| && Differs(eq, a[1..][i], b[1..][i]) == True;
        assert Differs(eq, a[i + 1], b[i + 1]) == True;
      }
      if j :| 0 < j < |a| && Differs(eq, a[j], b[j]) == True {
        assert Differs(eq, a[1..][j - 1], b[1..][j - 1]) == True;
      }
    }
  }

  /** Without NULLs, tuples differ exactly when they are not the same. */
  lemma NonNullTuples(a: Row, b: Row)
    requires |a| == |b| && Null !in a && Null !in b
    ensures TupleDiffers(Identical(), a, b) == True <==> a != b
  {
    TupleDiffersIsTrue(Identical(), a, b);
    if a != b {
      var i :| 0 <= i < |a| && a[i] != b[i];
      assert a[i] in a && b[i] in b;
      assert Differs(Identical(), a[i], b[i]) == True;
    }
  }

  ghost predicate NoNulls(plan: Plan, left: Row, rights: seq<Row>) {
    Null !in ColumnValues(left, plan.leftColumns) && !HasNullKey(plan, rights)
  }

  /** With one or more conditions the scan emits a row exactly when three-valued
    * NOT IN is TRUE and, unless the right side is empty, no key column of the
    * row or of the right side is NULL. */
  lemma EmitsExactly(plan: Plan, left: Row, rights: seq<Row>)
    requires |plan.leftColumns| == |plan.rightColumns| > 0
    ensures Emits(plan, TableOf(plan, rights), left) <==>
            NotIn(Identical(), plan, left, rights) == True && (rights == [] || NoNulls(plan, left, rights))
  {
    NotInIsTrue(Identical(), plan, left, rights);
    var l := ColumnValues(left, plan.leftColumns);
    if rights != [] && NoNulls(plan, left, rights) {
      GroupedKeys(RightKey(plan), rights, l);
      forall r | r in rights
        ensures TupleDiffers(Identical(), l, ColumnValues(r, plan.rightColumns)) == True <==>
                RightKey(plan)(r) != Some(l)
      {
        assert KeyOf(r, plan.rightColumns).Some?;
        NonNullTuples(l, ColumnValues(r, plan.rightColumns));
      }
    }
  }

  /** With one condition that is three-valued NOT IN itself: a NULL on either
    * side makes it UNKNOWN unless the right side is empty. */
  lemma SingleColumnNotIn(plan: Plan, left: Row, rights: seq<Row>)
    requires |plan.leftColumns| == |plan.rightColumns| == 1
    ensures Emits(plan, TableOf(plan, rights), left) <==> NotIn(Identical(), plan, left, rights) == True
  {
    EmitsExactly(plan, left, rights);
    NotInIsTrue(Identical(), plan, left, rights);
    if rights != [] && !NoNulls(plan, left, rights) {
      var r :| r in rights && (HasNullKey(plan, rights) && Null !in ColumnValues(left, plan.leftColumns) ==>
                               KeyOf(r, plan.rightColumns).None?);
      TupleDiffersIsTrue(Identical(), ColumnValues(left, plan.leftColumns), ColumnValues(r, plan.rightColumns));
    }
  }

  /** The executor takes several conditions, though the planner gives it one or
    * none.  Its treatment of NULL would not carry over: (1, 2) NOT IN ((3, NULL))
    * is TRUE, and the row would not be emitted. */
  lemma TwoColumnsOverReject()
    ensures var plan := Plan([Some(0), Some(1)], [Some(0), Some(1)], [], [], [], None);
            var left, rights := [Int(1), Int(2)], [[Int(3), Null]];
            NotIn(Identical(), plan, left, rights) == True && !Emits(plan, TableOf(plan, rights), left)
  {
    var plan := Plan([Some(0), Some(1)], [Some(0), Some(1)], [], [], [], None);
    var left, rights := [Int(1), Int(2)], [[Int(3), Null]];
    var l, r := ColumnValues(left, plan.leftColumns), ColumnValues(rights[0], plan.rightColumns);
    assert l[0] == Int(1) && r[0] == Int(3) && r[1] == Null;
    TupleDiffersIsTrue(Identical(), l, r);
    assert Differs(Identical(), l[0], r[0]) == True;
    NotInIsTrue(Identical(), plan, left, rights);
    assert rights[0] in rights && KeyOf(rights[0], plan.rightColumns).None?;
  }

  /** Values that compare equal in SQL and are different keys: an integer and the
    * float of the same value, or the two float zeros. */
  predicate LookAlike(a: Value, b: Value) {
    a != b && SqlEquals(a, b)
  }

  /** Measured by the engine's own equality, the answer is wrong exactly when no
    * NULL is involved, the row's value is not itself on the right side, and a
    * look-alike of it is. */
  lemma SqlEqualityNotIn(plan: Plan, left: Row, rights: seq<Row>)
    requires |plan.leftColumns| == |plan.rightColumns| == 1
    ensures var x := ColumnValues(left, plan.leftColumns)[0];
            var wrong := && NoNulls(plan, left, rights)
                         && (forall r :: r in rights ==> ColumnValues(r, plan.rightColumns)[0] != x)
                         && exists r :: r in rights && LookAlike(x, ColumnValues(r, plan.rightColumns)[0]);
            (Emits(plan, TableOf(plan, rights), left) <==> NotIn(SqlEquals, plan, left, rights) == True) <==> !wrong
  {
    var l := ColumnValues(left, plan.leftColumns);
    SingleColumnNotIn(plan, left, rights);
    NotInIsTrue(Identical(), plan, left, rights);
    NotInIsTrue(SqlEquals, plan, left, rights);
    forall r | r in rights
      ensures TupleDiffers(Identical(), l, ColumnValues(r, plan.rightColumns)) == True <==>
              (var s := ColumnValues(r, plan.rightColumns)[0]; l[0] != Null && s != Null && l[0] != s)
      ensures TupleDiffers(SqlEquals, l, ColumnValues(r, plan.rightColumns)) == True <==>
              (var s := ColumnValues(r, plan.rightColumns)[0]; l[0] != Null && s != Null && !SqlEquals(l[0], s))
    {
      OneComponent(Identical(), l, ColumnValues(r, plan.rightColumns));
      OneComponent(SqlEquals, l, ColumnValues(r, plan.rightColumns));
    }
  }

  lemma OneComponent(eq: Equality, a: Row, b: Row)
    requires |a| == |b| == 1
    ensures TupleDiffers(eq, a, b) == Differs(eq, a[0], b[0])
  {
    assert a[1..] == [] && b[1..] == [];
  }

  // ---------- the whole scan, without a cache ----------

  /** The right rows for one left row of a correlated subquery. */
  function RightsFor(plan: Plan): Row -> Outcome {
    (left: Row) =>
      if plan.sub.None? then Outcome([], None)
      else match ParamValues(plan.params, left)
        case None => Outcome([], Some(MissingColumn))
        case Some(values) => plan.sub.value(values)
  }

  /** Decide every left row on its own right rows, evaluated afresh. */
  function Filtered(plan: Plan, rightsOf: Row -> Outcome, lefts: Outcome): Outcome
    decreases |lefts.rows|
  {
    if lefts.rows == [] then lefts
    else
      var left := lefts.rows[0];
      var rights := rightsOf(left);
      if rights.error.Some? then Outcome([], rights.error)
      else Prepend(if Emits(plan, TableOf(plan, rights.rows), left) then [Projected(plan.projection, left)] else [],
                   Filtered(plan, rightsOf, Outcome(lefts.rows[1..], lefts.error)))
  }

  function Always(rights: Outcome): Row -> Outcome {
    (left: Row) => rights
  }

  /** Re-evaluating the subquery for every left row, or once if it is independent. */
  function AntiJoined(plan: Plan, lefts: Outcome, rights: Outcome): Outcome {
    if plan.params != [] then Filtered(plan, RightsFor(plan), lefts)
    else if rights.error.Some? then Outcome([], rights.error)
    else Filtered(plan, Always(rights), lefts)
  }

  /** The right side a left row is compared with: the same for all, or that of the
    * subquery for the values of its parameters in the row. */
  ghost function RightSide(plan: Plan, rights: Outcome, left: Row): Outcome {
    if plan.params == [] then rights
    else if plan.sub.None? then Outcome([], None)
    else if exists i :: 0 <= i < |plan.params| && plan.params[i].None? then Outcome([], Some(MissingColumn))
    else
      ColumnValuesAre(plan.params, left);
      var values :| HasColumns(plan.params, left, values);
      plan.sub.value(values)
  }

  /** NOT EXISTS, or NOT IN as far as the executor decides it. */
  ghost predicate Accepts(plan: Plan, left: Row, rights: seq<Row>)
    requires |plan.leftColumns| == |plan.rightColumns|
  {
    if plan.leftColumns == [] then rights == []
    else NotIn(Identical(), plan, left, rights) == True && (rights == [] || NoNulls(plan, left, rights))
  }

  ghost function FateOf(plan: Plan, rights: Outcome, left: Row): Fate
    requires |plan.leftColumns| == |plan.rightColumns|
  {
    var side := RightSide(plan, rights, left);
    if side.error.Some? then Stop(side.error.value) else if Accepts(plan, left, side.rows) then Keep else Leave
  }

  ghost function Fates(plan: Plan, rights: Outcome, lefts: seq<Row>): seq<Fate>
    requires |plan.leftColumns| == |plan.rightColumns|
  {
    seq(|lefts|, i requires 0 <= i < |lefts| => FateOf(plan, rights, lefts[i]))
  }

  lemma RightSideIs(plan: Plan, rights: Outcome, left: Row)
    ensures RightSide(plan, rights, left) == if plan.params == [] then rights else RightsFor(plan)(left)
  {
    ColumnValuesAre(plan.params, left);
    if plan.params != [] && plan.sub.Some? && ParamValues(plan.params, left).Some? {
      var values :| HasColumns(plan.params, left, values) && RightSide(plan, rights, left) == plan.sub.value(values);
      SameColumns(plan.params, left, values, ParamValues(plan.params, left).value);
    }
  }

  lemma FateIs(plan: Plan, rights: Outcome, left: Row)
    requires |plan.leftColumns| == |plan.rightColumns|
    ensures var side := if plan.params == [] then rights else RightsFor(plan)(left);
            FateOf(plan, rights, left) ==
            if side.error.Some? then Stop(side.error.value)
            else if Emits(plan, TableOf(plan, side.rows), left) then Keep else Leave
  {
    RightSideIs(plan, rights, left);
    if plan.leftColumns != [] {
      EmitsExactly(plan, left, RightSide(plan, rights, left).rows);
    }
  }

  lemma {:induction false} FilteredIsSifted(plan: Plan, rights: Outcome, lefts: Outcome)
    requires |plan.leftColumns| == |plan.rightColumns|
    ensures Filtered(plan, if plan.params == [] then Always(rights) else RightsFor(plan), lefts)
            == Sifted(lefts.rows, Fates(plan, rights, lefts.rows), plan.projection, lefts.error)
    decreases |lefts.rows|
  {
    if lefts.rows != [] {
      FateIs(plan, rights, lefts.rows[0]);
      hide FateOf, Emits, TableOf;
      FilteredIsSifted(plan, rights, Outcome(lefts.rows[1..], lefts.error));
      assert Fates(plan, rights, lefts.rows)[1..] == Fates(plan, rights, lefts.rows[1..]);
    }
  }

  /** The whole anti-join: an independent right side that fails is an error; else
    * the left rows accepted, in order and projected, up to the first one whose
    * right side fails. */
  lemma AntiJoinAnswers(plan: Plan, lefts: Outcome, rights: Outcome) returns (n: nat, ks: seq<nat>)
    requires |plan.leftColumns| == |plan.rightColumns|
    ensures var failed := plan.params == [] && rights.error.Some?;
            if failed then AntiJoined(plan, lefts, rights) == Outcome([], rights.error)
            else Answers(AntiJoined(plan, lefts, rights), lefts.rows, Fates(plan, rights, lefts.rows),
                         plan.projection, lefts.error, n, ks)
  {
    FilteredIsSifted(plan, rights, lefts);
    n, ks := SiftedAnswers(lefts.rows, Fates(plan, rights, lefts.rows), plan.projection, lefts.error);
  }

  /** NOT EXISTS: if no right side fails, exactly the left rows whose right side is
    * empty, in left order and projected. */
  lemma NotExistsIsExact(plan: Plan, lefts: Outcome, rights: Outcome) returns (ks: seq<nat>)
    requires plan.leftColumns == plan.rightColumns == [] && (plan.params == [] ==> rights.error.None?)
    requires forall left :: left in lefts.rows ==> RightSide(plan, rights, left).error.None?
    ensures AntiJoined(plan, lefts, rights).error == lefts.error
    ensures Enumerates(ks, set k | 0 <= k < |lefts.rows| && RightSide(plan, rights, lefts.rows[k]).rows == [])
    ensures AreProjections(plan.projection, lefts.rows, ks, AntiJoined(plan, lefts, rights).rows)
  {
    var n: nat;
    n, ks := AntiJoinAnswers(plan, lefts, rights);
    hide RightSide, AntiJoined, AreProjections;
    var fates := Fates(plan, rights, lefts.rows);
    forall k | 0 <= k < |lefts.rows|
      ensures fates[k] == if RightSide(plan, rights, lefts.rows[k]).rows == [] then Keep else Leave
    {
      assert lefts.rows[k] in lefts.rows;
    }
    assert n == |lefts.rows|;
    assert (set k | 0 <= k < n && fates[k].Keep?)
        == set k | 0 <= k < |lefts.rows| && RightSide(plan, rights, lefts.rows[k]).rows == [];
  }

  // ---------- the cache and what it weighs ----------

  type Cache = map<Row, seq<Row>>

  /** Only complete, successful results are in the cache. */
  ghost predicate Truthful(plan: Plan, cache: Cache) {
    plan.sub.Some? && forall values :: values in cache ==> plan.sub.value(values) == Outcome(cache[values], None)
  }

  function CacheEntryBytes(plan: Plan): (Row, seq<Row>) -> int {
    (values: Row, rows: seq<Row>) => ParamKeyBytes(plan.names, values) + RowsBytes(rows)
  }

  ghost function CacheBytes(plan: Plan, cache: Cache): int {
    MapSum(cache, CacheEntryBytes(plan))
  }

  lemma {:induction false} CacheBytesPositive(plan: Plan, cache: Cache)
    ensures CacheBytes(plan, cache) >= 0
    decreases |cache|
  {
    if cache != map[] {
      var k :| k in cache;
      MapSumSplit(cache, CacheEntryBytes(plan), k);
      CacheBytesPositive(plan, cache - {k});
    }
  }

  lemma CacheGrows(plan: Plan, cache: Cache, values: Row, rows: seq<Row>)
    requires values !in cache
    ensures CacheBytes(plan, cache[values := rows])
            == CacheBytes(plan, cache) + ParamKeyBytes(plan.names, values) + RowsBytes(rows)
  {
    MapSumSet(cache, CacheEntryBytes(plan), values, rows);
  }

  lemma GroupedTable(plan: Plan, rows: seq<Row>, row: Row)
    ensures var t, t' := TableOf(plan, rows), TableOf(plan, rows + [row]);
            var key := KeyOf(row, plan.rightColumns);
            t' == if key.None? then Table(t.buckets, true, true)
                  else Table(Inserted(t.buckets, key.value, row), true, t.hasNullKey)
  {
    GroupedSnoc(RightKey(plan), rows, row);
    if HasNullKey(plan, rows) {
      var r :| r in rows && KeyOf(r, plan.rightColumns).None?;
      assert r in rows + [row];
    }
    if KeyOf(row, plan.rightColumns).None? {
      assert row in rows + [row];
    }
  }

  // ---------- the executor ----------

  class Executor {
    const plan: Plan
    const left: Source
    const right: Source
    const budget: Budget
    var table: Table
    var cache: Cache
    var residency: nat
    var built: bool
    ghost var rights: seq<Row>
    ghost const others: nat

    /** The table is that of the right rows in force; a correlated executor has
      * charged exactly its current table and its cache. */
    ghost predicate Valid()
      reads this, budget
    {
      && left != right && budget.Valid()
      && (built ==> table == TableOf(plan, rights))
      && (plan.params != [] ==>
            && (plan.sub.Some? ==> Truthful(plan, cache))
            && (plan.sub.None? ==> rights == [])
            && (budget.limit > 0 ==> budget.used == others + residency + CacheBytes(plan, cache))
            && (built ==> residency == BucketsBytes(table.buckets))
            && (!built ==> residency == 0))
    }

    /** Everything the executor will still produce. */
    ghost function Remaining(): Outcome
      reads this, left, right
    {
      if plan.params == [] && built then Filtered(plan, Always(Outcome(rights, None)), RowsOf(left.items))
      else AntiJoined(plan, RowsOf(left.items), RowsOf(right.items))
    }

    constructor (p: Plan, lefts: Source, rightInput: Source, b: Budget)
      requires lefts != rightInput && b.Valid()
      ensures plan == p && left == lefts && right == rightInput && budget == b && Valid()
      ensures Remaining() == AntiJoined(p, RowsOf(lefts.items), RowsOf(rightInput.items))
    {
      plan, left, right, budget := p, lefts, rightInput, b;
      table, cache, residency, built := Table(map[], false, false), map[], 0, false;
      rights, others := [], b.used;
    }

    /** Put one right row into a table, if memory allows. */
    method AddRight(t: Table, row: Row) returns (t': Option<Table>, bytes: nat)
      requires budget.Valid()
      modifies budget
      ensures budget.Valid() && (t'.None? ==> budget.limit > 0)
      ensures t'.Some? ==>
              var key := KeyOf(row, plan.rightColumns);
              && t'.value == (if key.None? then Table(t.buckets, true, true)
                              else Table(Inserted(t.buckets, key.value, row), true, t.hasNullKey))
              && BucketsBytes(t'.value.buckets) == BucketsBytes(t.buckets) + bytes
              && budget.used == if budget.limit == 0 then old(budget.used) else old(budget.used) + bytes
    {
      var key := KeyOf(row, plan.rightColumns);
      if key.None? {
        return Some(Table(t.buckets, true, true)), 0;
      }
      var buckets, charged := budget.ChargeBucketInsert(t.buckets, key.value, row);
      if charged.None? {
        return None, 0;
      }
      return Some(Table(buckets, true, t.hasNullKey)), charged.value;
    }

    /** Build the table of a list of right rows, charging what it holds. */
    method BuildTable(rows: seq<Row>) returns (t: Option<Table>, bytes: nat)
      requires budget.Valid()
      modifies budget
      ensures budget.Valid() && (t.None? ==> budget.limit > 0)
      ensures t.Some? ==>
              && t.value == TableOf(plan, rows) && bytes == BucketsBytes(t.value.buckets)
              && budget.used == if budget.limit == 0 then old(budget.used) else old(budget.used) + bytes
    {
      var current := Table(map[], false, false);
      bytes := 0;
      for i := 0 to |rows|
        invariant budget.Valid() && current == TableOf(plan, rows[..i]) && bytes == BucketsBytes(current.buckets)
        invariant budget.used == if budget.limit == 0 then old(budget.used) else old(budget.used) + bytes
      {
        var next, more := AddRight(current, rows[i]);
        if next.None? {
          return None, 0;
        }
        GroupedTable(plan, rows[..i], rows[i]);
        assert rows[..i + 1] == rows[..i] + [rows[i]];
        current, bytes := next.value, bytes + more;
      }
      assert rows[..|rows|] == rows;
      return Some(current), bytes;
    }

    /** Read an independent right side to its end. */
    method ReadRight() returns (t: Table, error: Option<Error>, ghost taken: seq<Row>)
      requires budget.Valid() && left != right
      modifies right, budget
      ensures budget.Valid() && left.items == old(left.items)
      ensures error.None? ==> t == TableOf(plan, taken) && RowsOf(old(right.items)) == Outcome(taken, None)
      ensures error.Some? ==>
              (error == Some(MemoryExceeded) && budget.limit > 0) || error == RowsOf(old(right.items)).error
    {
      t, error, taken := Table(map[], false, false), None, [];
      assert Continues(right.items, taken, right.items);
      hide Continues;
      while true
        invariant budget.Valid() && left.items == old(left.items) && t == TableOf(plan, taken)
        invariant Continues(old(right.items), taken, right.items)
        decreases |right.items|
      {
        ContinuesStep(old(right.items), taken, right.items);
        var pulled := right.Next();
        match pulled {
          case Exhausted =>
            return t, None, taken;
          case Got(OtherItem) =>
          case Got(FaultItem(e)) =>
            return t, Some(e), taken;
          case Got(RowItem(row)) =>
            var next, _ := AddRight(t, row);
            if next.None? {
              return t, Some(MemoryExceeded), taken;
            }
            GroupedTable(plan, taken, row);
            t, taken := next.value, taken + [row];
        }
      }
    }

    /** The build phase: an independent right side is read once, a correlated
      * one is left for each row. */
    method Build() returns (error: Option<Error>)
      requires Valid() && !built
      modifies this, right, budget
      ensures error.None? ==> Valid() && built && Remaining() == old(Remaining())
      ensures error.Some? ==>
              (error == Some(MemoryExceeded) && budget.limit > 0) || old(Remaining()) == Outcome([], error)
    {
      if plan.params == [] {
        var t, failed, taken := ReadRight();
        if failed.Some? {
          return failed;
        }
        table, rights := t, taken;
      } else {
        table, rights := Table(map[], false, false), [];
      }
      built := true;
      return None;
    }

    /** Remember a complete result, if memory allows. */
    method Store(key: Row, rows: seq<Row>) returns (ok: bool)
      requires budget.Valid() && key !in cache && Truthful(plan, cache) && plan.sub.value(key) == Outcome(rows, None)
      modifies this`cache, budget
      ensures budget.Valid() && (!ok ==> budget.limit > 0)
      ensures ok ==>
              && Truthful(plan, cache)
              && (budget.limit > 0 ==>
                  budget.used - CacheBytes(plan, cache) == old(budget.used - CacheBytes(plan, cache)))
    {
      ok := budget.Charge(ParamKeyBytes(plan.names, key) + RowsBytes(rows));
      if ok {
        CacheGrows(plan, cache, key, rows);
        cache := cache[key := rows];
      }
    }

    /** The right rows for a left row of a correlated subquery: from the cache,
      * or evaluated and then stored. */
    method Rebuild(row: Row) returns (error: Option<Error>)
      requires Valid() && built && plan.params != [] && plan.sub.Some?
      modifies this, budget
      ensures error.None? ==> Valid() && built && RightsFor(plan)(row) == Outcome(rights, None)
      ensures error.Some? ==> (error == Some(MemoryExceeded) && budget.limit > 0) || RightsFor(plan)(row).error == error
    {
      var values := ParamValues(plan.params, row);
      if values.None? {
        return Some(MissingColumn);
      }
      CacheBytesPositive(plan, cache);
      var key := values.value;
      var result := if key in cache then Outcome(cache[key], None) else plan.sub.value(key);
      budget.Release(residency);
      residency := 0;
      var t, bytes := BuildTable(result.rows);
      if t.None? {
        return Some(MemoryExceeded);
      }
      if result.error.Some? {
        return result.error;
      }
      if key !in cache {
        var ok := Store(key, result.rows);
        if !ok {
          return Some(MemoryExceeded);
        }
      }
      table, rights, residency := t.value, result.rows, bytes;
      return None;
    }

    /** `next` peels the uncached definition, unless memory runs out. */
    method Next() returns (step: Step)
      requires Valid()
      modifies this, left, right, budget
      ensures step.Fault? || Valid()
      ensures (step == Fault(MemoryExceeded) && budget.limit > 0) || Peels(old(Remaining()), step, Remaining())
    {
      if !built {
        var error := Build();
        if error.Some? {
          return Fault(error.value);
        }
      }
      while true
        invariant Valid() && built && Remaining() == old(Remaining())
        decreases |left.items|
      {
        var pulled := left.Next();
        match pulled {
          case Exhausted =>
            return Finished;
          case Got(OtherItem) =>
          case Got(FaultItem(e)) =>
            return Fault(e);
          case Got(RowItem(row)) =>
            if plan.params != [] && plan.sub.Some? {
              var error := Rebuild(row);
              if error.Some? {
                return Fault(error.value);
              }
            }
            if Emits(plan, table, row) {
              return Yield(Projected(plan.projection, row));
            }
        }
      }
    }
  }
}
