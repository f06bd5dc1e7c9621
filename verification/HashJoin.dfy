/** The hash join (`src/executor/join.rs`), and its agreement with the INNER
  * nested loop of module NestedLoopJoin.
  */
module HashJoin {
  import opened Options
  import opened Values
  import opened Rows
  import opened Streams
  import opened QueryBudget
  import opened NestedLoopJoin

  /** One equality of the ON clause: a left and a right column position. */
  datatype Condition = Condition(left: nat, right: nat)

  datatype Plan = Plan(conditions: seq<Condition>, columns: seq<Column>)

  // ---------- keys ----------

  /** Hashing distinguishes the two float zeros, equality does not. */
  function Normal(v: Value): Value {
    if v.Float? && v.f.Zero? then Float(Zero(false)) else v
  }

  function LeftKey(plan: Plan, row: Row): Row {
    seq(|plan.conditions|, i requires 0 <= i < |plan.conditions| => Cell(Some(row), plan.conditions[i].left))
  }

  function RightKey(plan: Plan, row: Row): Row {
    seq(|plan.conditions|, i requires 0 <= i < |plan.conditions| => Cell(Some(row), plan.conditions[i].right))
  }

  /** No key where a component is NULL. */
  function HashKey(key: Row): Option<Row> {
    if Null in key then None else Some(seq(|key|, i requires 0 <= i < |key| => Normal(key[i])))
  }

  /** Every condition's columns are both non-NULL and equal up to the sign of zero. */
  predicate KeysAgree(plan: Plan, left: Row, right: Row) {
    forall i :: 0 <= i < |plan.conditions| ==>
      var l, r := Cell(Some(left), plan.conditions[i].left), Cell(Some(right), plan.conditions[i].right);
      l != Null && r != Null && Normal(l) == Normal(r)
  }

  /** The nested loop the hash join stands for. */
  function AsNestedLoop(plan: Plan): Join {
    Join(Inner, (l: Row, r: Row) => if KeysAgree(plan, l, r) then Holds else Fails, plan.columns)
  }

  lemma SameHashKey(plan: Plan, left: Row, right: Row)
    ensures KeysAgree(plan, left, right) <==>
            HashKey(LeftKey(plan, left)).Some? && HashKey(LeftKey(plan, left)) == HashKey(RightKey(plan, right))
  {
    var l, r := LeftKey(plan, left), RightKey(plan, right);
    if KeysAgree(plan, left, right) {
      assert forall i :: 0 <= i < |l| ==> l[i] != Null && r[i] != Null && Normal(l[i]) == Normal(r[i]);
      assert HashKey(l).value == HashKey(r).value;
    }
    if HashKey(l).Some? && HashKey(l) == HashKey(r) {
      forall i | 0 <= i < |plan.conditions|
        ensures var a, b := Cell(Some(left), plan.conditions[i].left), Cell(Some(right), plan.conditions[i].right);
                a != Null && b != Null && Normal(a) == Normal(b)
      {
        assert l[i] in l && r[i] in r;
        assert HashKey(l).value[i] == HashKey(r).value[i];
      }
    }
  }

  // ---------- buckets ----------

  function RightHash(plan: Plan): Row -> Option<Row> {
    (row: Row) => HashKey(RightKey(plan, row))
  }

  /** The hash table over the right rows, filled in their order. */
  function BucketsOf(plan: Plan, rights: seq<Row>): Buckets {
    Grouped(RightHash(plan), rights)
  }

  datatype HashTable = HashTable(buckets: Buckets)

  function TableOf(plan: Plan, rights: seq<Row>): HashTable {
    HashTable(BucketsOf(plan, rights))
  }

  lemma BucketsOfSnoc(plan: Plan, rights: seq<Row>, row: Row)
    ensures var key := RightHash(plan)(row);
            BucketsOf(plan, rights + [row])
            == if key.None? then BucketsOf(plan, rights) else Inserted(BucketsOf(plan, rights), key.value, row)
  {
    GroupedSnoc(RightHash(plan), rights, row);
  }

  function Bucket(m: Buckets, key: Option<Row>): seq<Row> {
    if key.Some? && key.value in m then m[key.value] else []
  }

  /** The output rows of a left row with the rows of its bucket from `from` on. */
  function FromBucket(plan: Plan, left: Row, bucket: seq<Row>, from: nat): seq<Row>
    decreases |bucket| - from
  {
    if from >= |bucket| then []
    else [OutputRow(AsNestedLoop(plan), Some(left), Some(bucket[from]))] + FromBucket(plan, left, bucket, from + 1)
  }

  function Probed(plan: Plan, lefts: Outcome, m: Buckets): Outcome
    decreases |lefts.rows|
  {
    if lefts.rows == [] then lefts
    else
      var left := lefts.rows[0];
      Prepend(FromBucket(plan, left, Bucket(m, HashKey(LeftKey(plan, left))), 0),
              Probed(plan, Outcome(lefts.rows[1..], lefts.error), m))
  }

  function HashJoined(plan: Plan, lefts: Outcome, rights: Outcome): Outcome {
    if rights.error.Some? then Outcome([], rights.error) else Probed(plan, lefts, BucketsOf(plan, rights.rows))
  }

  // ---------- refinement ----------

  lemma {:induction false} FromBucketSnoc(plan: Plan, left: Row, bucket: seq<Row>, row: Row, from: nat)
    requires from <= |bucket|
    ensures FromBucket(plan, left, bucket + [row], from)
            == FromBucket(plan, left, bucket, from) + [OutputRow(AsNestedLoop(plan), Some(left), Some(row))]
    decreases |bucket| - from
  {
    if from < |bucket| {
      FromBucketSnoc(plan, left, bucket, row, from + 1);
    }
  }

  lemma {:induction false} MatchingSnoc(j: Join, left: Row, rights: seq<Row>, row: Row)
    ensures Matching(j, left, rights + [row])
            == Matching(j, left, rights) + if j.test(left, row) == Holds then [OutputRow(j, Some(left), Some(row))]
                                           else []
  {
    if rights == [] {
      assert [] + [row] == [row] && [row][1..] == [];
    } else {
      assert (rights + [row])[1..] == rights[1..] + [row];
      MatchingSnoc(j, left, rights[1..], row);
    }
  }

  /** A later right row joins the bucket of its key and no other. */
  lemma BucketSnoc(plan: Plan, rights: seq<Row>, row: Row, key: Option<Row>)
    ensures Bucket(BucketsOf(plan, rights + [row]), key)
            == Bucket(BucketsOf(plan, rights), key) + if key.Some? && RightHash(plan)(row) == key then [row] else []
  {
    GroupedSnoc(RightHash(plan), rights, row);
    hide Grouped, HashKey, RightKey;
  }

  /** A left row's bucket holds exactly its matches, in right order. */
  lemma {:induction false} BucketIsMatching(plan: Plan, left: Row, rights: seq<Row>)
    ensures FromBucket(plan, left, Bucket(BucketsOf(plan, rights), HashKey(LeftKey(plan, left))), 0)
            == Matching(AsNestedLoop(plan), left, rights)
    decreases |rights|
  {
    var key := HashKey(LeftKey(plan, left));
    hide *;
    if rights == [] {
      EmptyBucket(plan, left, key);
    } else {
      var before, row := rights[..|rights| - 1], rights[|rights| - 1];
      assert rights == before + [row];
      TestIsKey(plan, left, row);
      BucketIsMatching(plan, left, before);
      MatchingSnoc(AsNestedLoop(plan), left, before, row);
      BucketSnoc(plan, before, row, key);
      FromBucketSnoc(plan, left, Bucket(BucketsOf(plan, before), key), row, 0);
      assert Bucket(BucketsOf(plan, before), key) + [] == Bucket(BucketsOf(plan, before), key);
      assert Matching(AsNestedLoop(plan), left, before) + [] == Matching(AsNestedLoop(plan), left, before);
    }
  }

  lemma EmptyBucket(plan: Plan, left: Row, key: Option<Row>)
    ensures FromBucket(plan, left, Bucket(BucketsOf(plan, []), key), 0) == Matching(AsNestedLoop(plan), left, []) == []
  {
  }

  lemma TestIsKey(plan: Plan, left: Row, row: Row)
    ensures var key := HashKey(LeftKey(plan, left));
            AsNestedLoop(plan).test(left, row) == Holds <==> key.Some? && RightHash(plan)(row) == key
  {
    SameHashKey(plan, left, row);
    hide KeysAgree, HashKey, LeftKey, RightKey;
  }

  /** The nested loop, one left row at a time. */
  lemma RestOneLeft(plan: Plan, lefts: Outcome, rights: seq<Row>)
    requires lefts.rows != []
    ensures var j := AsNestedLoop(plan);
            Rest(j, lefts, rights, {}, 0)
            == Prepend(Matching(j, lefts.rows[0], rights),
                       Rest(j, Outcome(lefts.rows[1..], lefts.error), rights, {}, 0))
  {
    var j, left := AsNestedLoop(plan), lefts.rows[0];
    assert TestsFine(j, [left], rights);
    PairsAreMatching(j, left, rights, 0);
    assert rights[0..] == rights;
    assert {} + Hits(j, left, rights, 0) == {};
    hide Pairs, Matching, Hits;
    assert Matching(j, left, rights) + [] == Matching(j, left, rights);
  }

  lemma ProbedStep(plan: Plan, lefts: Outcome, m: Buckets)
    ensures Probed(plan, lefts, m) ==
            if lefts.rows == [] then lefts
            else Prepend(FromBucket(plan, lefts.rows[0], Bucket(m, HashKey(LeftKey(plan, lefts.rows[0]))), 0),
                         Probed(plan, Outcome(lefts.rows[1..], lefts.error), m))
  {
  }

  lemma NoLeftRows(plan: Plan, lefts: Outcome, rights: seq<Row>)
    requires lefts.rows == []
    ensures Rest(AsNestedLoop(plan), lefts, rights, {}, 0) == lefts
  {
  }

  lemma {:induction false} ProbedIsRest(plan: Plan, lefts: Outcome, rights: seq<Row>)
    ensures Probed(plan, lefts, BucketsOf(plan, rights)) == Rest(AsNestedLoop(plan), lefts, rights, {}, 0)
    decreases |lefts.rows|
  {
    hide *;
    ProbedStep(plan, lefts, BucketsOf(plan, rights));
    if lefts.rows == [] {
      NoLeftRows(plan, lefts, rights);
    } else {
      BucketIsMatching(plan, lefts.rows[0], rights);
      RestOneLeft(plan, lefts, rights);
      ProbedIsRest(plan, Outcome(lefts.rows[1..], lefts.error), rights);
    }
  }

  /** The hash join is the INNER nested loop on "all condition columns non-NULL
    * and equal up to the sign of zero": same rows, same order, same error. */
  lemma HashJoinIsNestedLoop(plan: Plan, lefts: Outcome, rights: Outcome)
    ensures HashJoined(plan, lefts, rights) == Joined(AsNestedLoop(plan), lefts, rights)
  {
    if rights.error.None? {
      ProbedIsRest(plan, lefts, rights.rows);
    }
  }

  /** The hash join, row by row and column by column: exactly the pairs whose
    * condition columns are non-NULL and equal up to the sign of zero, by left and
    * then right position, with every column the one named of the side named. */
  lemma HashJoinOrigins(plan: Plan, lefts: seq<Row>, rights: seq<Row>) returns (os: seq<Origin>)
    ensures AllCombine(AsNestedLoop(plan), lefts, rights, os,
                       HashJoined(plan, Outcome(lefts, None), Outcome(rights, None)).rows)
    ensures InOrder(os)
    ensures forall o :: o in os <==>
              && o.left.Some? && o.right.Some? && o.left.value < |lefts| && o.right.value < |rights|
              && KeysAgree(plan, lefts[o.left.value], rights[o.right.value])
  {
    HashJoinIsNestedLoop(plan, Outcome(lefts, None), Outcome(rights, None));
    hide HashJoined, Joined, AllCombine, InOrder;
    os := JoinOrigins(AsNestedLoop(plan), lefts, rights);
  }

  /** Key equality is the engine's equality except that an integer never joins a
    * float of the same value. */
  lemma KeyEqualityIsSqlEquality(a: Value, b: Value)
    requires a != Null && b != Null
    ensures Normal(a) == Normal(b) <==>
            SqlEquals(a, b) && !(a.Int? && b.Float?) && !(a.Float? && b.Int?)
  {
  }

  // ---------- the executor ----------

  class Executor {
    const plan: Plan
    const left: Source
    const right: Source
    const budget: Budget
    ghost const others: nat
    var buckets: Buckets
    var built: bool
    var currentLeft: Option<Row>
    var matchKey: Option<Row>
    var rightIndex: nat

    /** A limited budget has been charged exactly the hash table. */
    ghost predicate Valid()
      reads this, budget
    {
      && left != right && budget.Valid()
      && (budget.limit > 0 ==> budget.used == others + BucketsBytes(buckets))
      && (!built ==> buckets == map[] && currentLeft.None?)
      && (currentLeft.Some? && rightIndex > 0 ==>
          matchKey.Some? && matchKey == HashKey(LeftKey(plan, currentLeft.value)))
    }

    /** Everything the executor will still produce. */
    ghost function Remaining(): Outcome
      reads this, left, right
    {
      if !built then HashJoined(plan, RowsOf(left.items), RowsOf(right.items))
      else if currentLeft.Some? then
        Prepend(FromBucket(plan, currentLeft.value, Bucket(buckets, HashKey(LeftKey(plan, currentLeft.value))),
                           rightIndex),
                Probed(plan, RowsOf(left.items), buckets))
      else Probed(plan, RowsOf(left.items), buckets)
    }

    constructor (p: Plan, lefts: Source, rights: Source, b: Budget)
      requires lefts != rights && b.Valid()
      ensures plan == p && left == lefts && right == rights && budget == b && Valid()
      ensures Remaining() == Joined(AsNestedLoop(p), RowsOf(lefts.items), RowsOf(rights.items))
    {
      plan, left, right, budget, others := p, lefts, rights, b, b.used;
      buckets, built, currentLeft, matchKey, rightIndex := map[], false, None, None, 0;
      new;
      HashJoinIsNestedLoop(p, RowsOf(lefts.items), RowsOf(rights.items));
    }

    /** Put one right row into the hash table, if memory allows. */
    method AddRight(t: HashTable, row: Row, ghost taken: seq<Row>) returns (t': Option<HashTable>)
      requires budget.Valid() && t == TableOf(plan, taken)
      modifies budget
      ensures budget.Valid() && (t'.None? ==> budget.limit > 0)
      ensures t'.Some? ==> t'.value == TableOf(plan, taken + [row])
      ensures t'.Some? && budget.limit > 0 ==>
              budget.used - BucketsBytes(t'.value.buckets) == old(budget.used) - BucketsBytes(t.buckets)
    {
      BucketsOfSnoc(plan, taken, row);
      var key := HashKey(RightKey(plan, row));
      if key.None? {
        return Some(t);
      }
      var inserted, bytes := budget.ChargeBucketInsert(t.buckets, key.value, row);
      if bytes.None? {
        return None;
      }
      return Some(HashTable(inserted));
    }

    /** Read the right input to its end. */
    method ReadRight() returns (t: HashTable, error: Option<Error>)
      requires budget.Valid() && left != right
      modifies right, budget
      ensures budget.Valid() && left.items == old(left.items)
      ensures error.None? ==>
              && RowsOf(old(right.items)).error.None? && t == TableOf(plan, RowsOf(old(right.items)).rows)
              && (budget.limit > 0 ==> budget.used == old(budget.used) + BucketsBytes(t.buckets))
      ensures error.Some? ==>
              (error == Some(MemoryExceeded) && budget.limit > 0) || error == RowsOf(old(right.items)).error
    {
      ghost var taken: seq<Row> := [];
      t := HashTable(map[]);
      assert Continues(right.items, taken, right.items);
      assert t == TableOf(plan, taken) && BucketsBytes(t.buckets) == 0;
      hide TableOf, BucketsBytes, Continues;
      while true
        invariant budget.Valid() && left.items == old(left.items) && t == TableOf(plan, taken)
        invariant budget.limit > 0 ==> budget.used == old(budget.used) + BucketsBytes(t.buckets)
        invariant Continues(old(right.items), taken, right.items)
        decreases |right.items|
      {
        ContinuesStep(old(right.items), taken, right.items);
        var pulled := right.Next();
        match pulled {
          case Exhausted =>
            return t, None;
          case Got(OtherItem) =>
          case Got(FaultItem(e)) =>
            return t, Some(e);
          case Got(RowItem(row)) =>
            var next := AddRight(t, row, taken);
            if next.None? {
              return t, Some(MemoryExceeded);
            }
            t, taken := next.value, taken + [row];
        }
      }
    }

    /** The build phase. */
    method BuildRight() returns (error: Option<Error>)
      requires Valid() && !built
      modifies this, right, budget
      ensures error.None? ==> Valid() && built && Remaining() == old(Remaining())
      ensures error.Some? ==>
              (error == Some(MemoryExceeded) && budget.limit > 0) || old(Remaining()) == Outcome([], error)
    {
      var t, failed := ReadRight();
      if failed.Some? {
        return failed;
      }
      buckets, built := t.buckets, true;
      return None;
    }

    /** One turn of the probe loop: a step to report, or `None` to go on. */
    method Probe() returns (step: Option<Step>)
      requires Valid() && built && currentLeft.Some?
      modifies this`currentLeft, this`matchKey, this`rightIndex
      ensures Valid()
      ensures step.Some? ==> Peels(old(Remaining()), step.value, Remaining())
      ensures step.None? ==> currentLeft.None? && Remaining() == old(Remaining())
    {
      hide Probed, OutputRow, HashKey, LeftKey;
      var row := currentLeft.value;
      if rightIndex == 0 {
        var key := HashKey(LeftKey(plan, row));
        if key.None? {
          currentLeft := None;
          return None;
        }
        matchKey := key;
      }
      if matchKey.value in buckets {
        var bucket := buckets[matchKey.value];
        if rightIndex < |bucket| {
          var out := OutputRow(AsNestedLoop(plan), Some(row), Some(bucket[rightIndex]));
          rightIndex := rightIndex + 1;
          return Some(Yield(out));
        }
      }
      currentLeft := None;
      return None;
    }

    /** `next` peels the join: draining it yields exactly the nested loop. */
    method Next() returns (step: Step)
      requires Valid()
      modifies this, left, right, budget
      ensures step.Fault? || Valid()
      ensures (step == Fault(MemoryExceeded) && budget.limit > 0) || Peels(old(Remaining()), step, Remaining())
    {
      if !built {
        var error := BuildRight();
        if error.Some? {
          return Fault(error.value);
        }
      }
      while true
        invariant Valid() && built && Remaining() == old(Remaining())
        decreases |left.items|, currentLeft.Some?
      {
        if currentLeft.None? {
          var pulled := left.Next();
          match pulled {
            case Exhausted =>
              return Finished;
            case Got(OtherItem) =>
              continue;
            case Got(FaultItem(e)) =>
              return Fault(e);
            case Got(RowItem(row)) =>
              currentLeft, rightIndex := Some(row), 0;
          }
        }
        var found := Probe();
        if found.Some? {
          return found.value;
        }
      }
    }
  }
}
