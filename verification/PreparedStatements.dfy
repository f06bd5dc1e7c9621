/** Prepared statements and schema changes (`src/database.rs`,
  * `src/pipeline.rs`).
  *
  * A schema change alters the catalog and then bumps the schema version.  A
  * prepared statement keeps a plan and the version read before that plan was
  * built; an execution reuses the plan while the version still matches and
  * plans again otherwise.  Executions of one statement are serialised; schema
  * changes interleave with every step.
  */
module PreparedStatements {

  /** Schema changes are numbered; a plan is known by the changes it reflects. */
  type Changes = set<nat>

  datatype Execution =
    | Idle
    | Mismatched(seen: Changes)
    | Planning(seen: Changes, base: Changes, stamp: nat, bumpedAtStamp: Changes)
    | Using(seen: Changes, plan: Changes)

  /** The plan the statement keeps, its stamp, and (for the proofs) the changes
    * whose bump that stamp counts. */
  datatype Kept = Nothing | Kept(plan: Changes, stamp: nat, bumpedAtStamp: Changes)

  datatype State = State(applied: Changes, bumped: Changes, version: nat, kept: Kept, execution: Execution)

  /** A change that fails bumps the version without ever being applied.  `seen`
    * records, at the version check of an execution, the changes bumped so far. */
  datatype Step =
    | Apply(change: nat)
    | Bump(change: nat)
    | Check
    | ReadStamp
    | FinishPlan(plan: Changes)
    | Give

  const INITIAL := State({}, {}, 0, Nothing, Idle)

  predicate Enabled(s: State, step: Step) {
    match step
    case Apply(c) => c !in s.applied && c !in s.bumped
    case Bump(c) => c !in s.bumped
    case Check => s.execution == Idle
    case ReadStamp => s.execution.Mismatched?
    case FinishPlan(plan) => s.execution.Planning? && s.execution.base <= plan <= s.applied
    case Give => true
  }

  /** Planning reads the catalog while it may still change: the plan reflects at
    * least what was applied when planning began.  `Give` ends an execution that
    * finished, failed to plan, or was dropped. */
  function Do(s: State, step: Step): State
    requires Enabled(s, step)
  {
    match step
    case Apply(c) => s.(applied := s.applied + {c})
    case Bump(c) => s.(bumped := s.bumped + {c}, version := s.version + 1)
    case Check =>
      s.(execution := if s.kept.Kept? && s.kept.stamp == s.version then Using(s.bumped, s.kept.plan)
                      else Mismatched(s.bumped))
    case ReadStamp => s.(execution := Planning(s.execution.seen, s.applied, s.version, s.bumped))
    case FinishPlan(plan) =>
      var e := s.execution;
      s.(kept := Kept(plan, e.stamp, e.bumpedAtStamp), execution := Using(e.seen, plan))
    case Give => s.(execution := Idle)
  }

  ghost predicate ValidRun(s: State, steps: seq<Step>)
    decreases |steps|
  {
    steps != [] ==> Enabled(s, steps[0]) && ValidRun(Do(s, steps[0]), steps[1..])
  }

  function Execute(s: State, steps: seq<Step>): State
    requires ValidRun(s, steps)
    decreases |steps|
  {
    if steps == [] then s else Execute(Do(s, steps[0]), steps[1..])
  }

  ghost predicate Inv(s: State) {
    && |s.bumped| == s.version
    && (s.kept.Kept? ==>
          && s.kept.bumpedAtStamp <= s.bumped && |s.kept.bumpedAtStamp| == s.kept.stamp
          && s.kept.bumpedAtStamp * s.applied <= s.kept.plan <= s.applied)
    && match s.execution
       case Idle => true
       case Mismatched(seen) => seen <= s.bumped
       case Planning(seen, base, stamp, bumpedAtStamp) =>
         seen <= bumpedAtStamp <= s.bumped && |bumpedAtStamp| == stamp && bumpedAtStamp * s.applied <= base <= s.applied
       case Using(seen, plan) => seen <= s.bumped && seen * s.applied <= plan <= s.applied
  }

  lemma SameSize(a: Changes, b: Changes)
    requires a <= b && |a| == |b|
    ensures a == b
  {
    assert b == a + (b - a);
  }

  lemma StepKeepsInv(s: State, step: Step)
    requires Inv(s) && Enabled(s, step)
    ensures Inv(Do(s, step))
  {
    match step
    case Check =>
      if s.kept.Kept? && s.kept.stamp == s.version {
        SameSize(s.kept.bumpedAtStamp, s.bumped);
      }
    case Apply(c) =>
      assert forall seen: Changes :: seen <= s.bumped ==> seen * (s.applied + {c}) == seen * s.applied;
    case _ =>
  }

  lemma {:induction false} RunKeepsInv(s: State, steps: seq<Step>)
    requires Inv(s) && ValidRun(s, steps)
    ensures Inv(Execute(s, steps))
    decreases |steps|
  {
    if steps != [] {
      StepKeepsInv(s, steps[0]);
      RunKeepsInv(Do(s, steps[0]), steps[1..]);
    }
  }

  /** In every interleaving, the plan an execution uses reflects every applied
    * change whose bump came before that execution's version check, and nothing
    * that was not applied. */
  lemma PlanIsNotStale(steps: seq<Step>)
    requires ValidRun(INITIAL, steps) && Execute(INITIAL, steps).execution.Using?
    ensures var s := Execute(INITIAL, steps);
            s.execution.seen * s.applied <= s.execution.plan <= s.applied
  {
    RunKeepsInv(INITIAL, steps);
  }

  /** The changes `seen` by an execution are those bumped before its check. */
  lemma {:induction false} SeenIsWhatWasBumped(s: State, before: seq<Step>, after: seq<Step>)
    requires ValidRun(s, before + [Check] + after) && Check !in after && Give !in after
    ensures ValidRun(s, before)
    ensures var end := Execute(s, before + [Check] + after).execution;
            !end.Idle? && end.seen == Execute(s, before).bumped
    decreases |before|
  {
    if before == [] {
      var steps := before + [Check] + after;
      assert steps == [Check] + after && steps[1..] == after;
      SeenStays(Do(s, Check), after);
    } else {
      var steps := before + [Check] + after;
      assert steps[0] == before[0] && steps[1..] == before[1..] + [Check] + after;
      SeenIsWhatWasBumped(Do(s, before[0]), before[1..], after);
    }
  }

  lemma {:induction false} SeenStays(s: State, steps: seq<Step>)
    requires ValidRun(s, steps) && Check !in steps && Give !in steps && !s.execution.Idle?
    ensures !Execute(s, steps).execution.Idle? && Execute(s, steps).execution.seen == s.execution.seen
    decreases |steps|
  {
    if steps != [] {
      assert steps[0] in steps;
      SeenStays(Do(s, steps[0]), steps[1..]);
    }
  }

  // ---------- changes that were applied and not bumped ----------

  /** The kept plan's stamp is the version: no bump has followed it. */
  predicate IsCurrent(s: State) {
    s.kept.Kept? && s.kept.stamp == s.version &&
    (s.execution.Idle? || (s.execution.Using? && s.execution.plan == s.kept.plan))
  }

  /** While no bump follows the kept plan's stamp, every execution uses that plan,
    * so a change applied meanwhile (its statement dropped before the bump) is
    * not reflected, however long it has been in the catalog. */
  lemma {:induction false} UnbumpedChangeGoesUnnoticed(s: State, steps: seq<Step>, change: nat)
    requires Inv(s) && IsCurrent(s) && ValidRun(s, steps) && (forall c :: Bump(c) !in steps) && change !in s.applied
    ensures var end := Execute(s, steps);
            && IsCurrent(end) && end.kept == s.kept
            && (end.execution.Using? ==> change !in end.execution.plan)
    decreases |steps|
  {
    if steps != [] {
      assert steps[0] in steps;
      StepKeepsInv(s, steps[0]);
      var s' := Do(s, steps[0]);
      assert IsCurrent(s') && s'.kept == s.kept;
      KeptStays(s', steps[1..]);
    }
  }

  lemma {:induction false} KeptStays(s: State, steps: seq<Step>)
    requires IsCurrent(s) && ValidRun(s, steps) && forall c :: Bump(c) !in steps
    ensures IsCurrent(Execute(s, steps)) && Execute(s, steps).kept == s.kept
    decreases |steps|
  {
    if steps != [] {
      assert steps[0] in steps;
      KeptStays(Do(s, steps[0]), steps[1..]);
    }
  }

  /** It does happen: apply a change, and the next execution runs without it. */
  lemma UnnoticedChange(s: State, change: nat)
    requires Inv(s) && IsCurrent(s) && s.execution.Idle? && Enabled(s, Apply(change))
    ensures var s' := Do(s, Apply(change));
            var end := Do(s', Check);
            end.execution == Using(s.bumped, s.kept.plan) && change in end.applied && change !in end.execution.plan
  {
  }

  /** What holds once change `b` has been bumped, in a state that had `then'`
    * applied and came to version `v`. */
  ghost predicate CaughtUp(s: State, b: nat, then': Changes, v: nat) {
    && then' <= s.applied && v <= s.version
    && (s.kept.Kept? && v <= s.kept.stamp ==> then' <= s.kept.plan)
    && match s.execution
       case Idle => true
       case Mismatched(_) => true
       case Planning(seen, base, stamp, _) => (b in seen ==> v <= stamp) && (v <= stamp ==> then' <= base)
       case Using(seen, plan) => b in seen ==> then' <= plan
  }

  lemma {:induction false} CaughtUpStays(s: State, steps: seq<Step>, b: nat, then': Changes, v: nat)
    requires CaughtUp(s, b, then', v) && ValidRun(s, steps)
    ensures CaughtUp(Execute(s, steps), b, then', v)
    decreases |steps|
  {
    if steps != [] {
      assert CaughtUp(Do(s, steps[0]), b, then', v);
      CaughtUpStays(Do(s, steps[0]), steps[1..], b, then', v);
    }
  }

  /** The next bump, whosever it is, catches up: every execution that checks the
    * version after it reflects all that was applied when it happened. */
  lemma NextBumpCatchesUp(before: seq<Step>, b: nat, after: seq<Step>)
    requires ValidRun(INITIAL, before) && Enabled(Execute(INITIAL, before), Bump(b))
    requires ValidRun(Do(Execute(INITIAL, before), Bump(b)), after)
    ensures var s := Execute(INITIAL, before);
            var end := Execute(Do(s, Bump(b)), after);
            end.execution.Using? && b in end.execution.seen ==> s.applied <= end.execution.plan
  {
    RunKeepsInv(INITIAL, before);
    var s := Execute(INITIAL, before);
    var s' := Do(s, Bump(b));
    StampsAreOld(s);
    assert CaughtUp(s', b, s.applied, s'.version);
    CaughtUpStays(s', after, b, s.applied, s'.version);
  }

  lemma StampsAreOld(s: State)
    requires Inv(s)
    ensures s.kept.Kept? ==> s.kept.stamp <= s.version
    ensures s.execution.Planning? ==> s.execution.stamp <= s.version
  {
    if s.kept.Kept? {
      SmallerSet(s.kept.bumpedAtStamp, s.bumped);
    }
    if s.execution.Planning? {
      SmallerSet(s.execution.bumpedAtStamp, s.bumped);
    }
  }

  lemma SmallerSet(a: Changes, b: Changes)
    requires a <= b
    ensures |a| <= |b|
  {
    assert b == a + (b - a);
  }
}
