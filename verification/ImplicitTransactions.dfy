/** Implicit transactions and the reclaim of abandoned ones (`src/database.rs`,
  * `src/pipeline.rs`, `src/transaction/manager.rs`).
  *
  * A write statement outside an explicit transaction begins its own, held by a
  * guard.  A statement that finishes disarms the guard; one that is dropped, or
  * fails to finish, leaves the transaction in a registry.  Reclaim passes drain
  * the registry and abort what is still active.  Statements and passes run
  * concurrently; a pass is itself part of a statement and can be dropped too.
  */
module ImplicitTransactions {
  import opened Options

  // ---------- the concurrent protocol ----------

  /** `Durable`: the commit record is on disk, the transaction still active. */
  datatype Phase = Running | Durable | Committed | Aborted

  /** One reclaim pass: drained and not looked at, found active and about to be
    * aborted, and failed to abort. */
  datatype Pass = Pass(todo: set<nat>, aborting: Option<nat>, failed: set<nat>)

  datatype State = State(
    phase: map<nat, Phase>,
    implicit: set<nat>,
    guarded: set<nat>,
    registry: set<nat>,
    passes: map<nat, Pass>,
    lost: set<nat>)

  datatype Step =
    | Begin(tx: nat, isImplicit: bool)
    | Persist(tx: nat)
    | FinishCommit(tx: nat)
    | AbortOwn(tx: nat)
    | Disarm(tx: nat)
    | Drop(tx: nat)
    | StartPass(pass: nat)
    | Look(pass: nat, tx: nat)
    | ReclaimAbort(pass: nat)
    | ReclaimFails(pass: nat)
    | EndPass(pass: nat)
    | DropPass(pass: nat)

  const INITIAL := State(map[], {}, {}, {}, map[], {})

  predicate IsActive(s: State, tx: nat) {
    tx in s.phase && (s.phase[tx] == Running || s.phase[tx] == Durable)
  }

  /** The statement or session that runs `tx` is still there. */
  predicate IsHeld(s: State, tx: nat) {
    tx in s.phase && (tx in s.implicit ==> tx in s.guarded)
  }

  function Held(p: Pass): set<nat> {
    p.todo + p.failed + if p.aborting.Some? then {p.aborting.value} else {}
  }

  predicate Enabled(s: State, step: Step) {
    match step
    case Begin(tx, _) => tx !in s.phase
    case Persist(tx) => IsHeld(s, tx) && s.phase[tx] == Running
    case FinishCommit(tx) => IsHeld(s, tx) && s.phase[tx] == Durable
    case AbortOwn(tx) => IsHeld(s, tx) && s.phase[tx] == Running
    case Disarm(tx) => tx in s.guarded && tx in s.phase && !IsActive(s, tx)
    case Drop(tx) => tx in s.guarded
    case StartPass(pass) => pass !in s.passes
    case Look(pass, tx) => pass in s.passes && s.passes[pass].aborting.None? && tx in s.passes[pass].todo
    case ReclaimAbort(pass) =>
      pass in s.passes && s.passes[pass].aborting.Some? && IsActive(s, s.passes[pass].aborting.value)
    case ReclaimFails(pass) => pass in s.passes && s.passes[pass].aborting.Some?
    case EndPass(pass) => pass in s.passes && s.passes[pass].aborting.None? && s.passes[pass].todo == {}
    case DropPass(pass) => pass in s.passes
  }

  function Do(s: State, step: Step): State
    requires Enabled(s, step)
  {
    match step
    case Begin(tx, isImplicit) =>
      var s' := s.(phase := s.phase[tx := Running]);
      if isImplicit then s'.(implicit := s.implicit + {tx}, guarded := s.guarded + {tx}) else s'
    case Persist(tx) => s.(phase := s.phase[tx := Durable])
    case FinishCommit(tx) => s.(phase := s.phase[tx := Committed])
    case AbortOwn(tx) => s.(phase := s.phase[tx := Aborted])
    case Disarm(tx) => s.(guarded := s.guarded - {tx})
    case Drop(tx) => s.(guarded := s.guarded - {tx}, registry := s.registry + {tx})
    case StartPass(pass) => s.(passes := s.passes[pass := Pass(s.registry, None, {})], registry := {})
    case Look(pass, tx) =>
      var p := s.passes[pass];
      var p' := p.(todo := p.todo - {tx}, aborting := if IsActive(s, tx) then Some(tx) else None);
      s.(passes := s.passes[pass := p'])
    case ReclaimAbort(pass) =>
      var p := s.passes[pass];
      s.(phase := s.phase[p.aborting.value := Aborted], passes := s.passes[pass := p.(aborting := None)])
    case ReclaimFails(pass) =>
      var p := s.passes[pass];
      s.(passes := s.passes[pass := p.(aborting := None, failed := p.failed + {p.aborting.value})])
    case EndPass(pass) => s.(registry := s.registry + s.passes[pass].failed, passes := s.passes - {pass})
    case DropPass(pass) => s.(lost := s.lost + Held(s.passes[pass]), passes := s.passes - {pass})
  }

  // ---------- the invariant ----------

  ghost predicate InPass(s: State, tx: nat) {
    exists p :: p in s.passes && tx in Held(s.passes[p])
  }

  /** Guard, registry, passes and lost are disjoint, and every active implicit
    * transaction is in one of them. */
  ghost predicate Inv(s: State) {
    && (forall tx :: tx in s.implicit && IsActive(s, tx) ==>
          tx in s.guarded || tx in s.registry || InPass(s, tx) || tx in s.lost)
    && s.guarded <= s.implicit && s.registry <= s.implicit && s.lost <= s.implicit
    && (forall tx :: tx in s.implicit ==> tx in s.phase)
    && s.guarded !! s.registry && s.guarded !! s.lost && s.registry !! s.lost
    && (forall p :: p in s.passes ==> PassApart(s, p))
    && (forall p, q :: p in s.passes && q in s.passes && p != q ==> Held(s.passes[p]) !! Held(s.passes[q]))
  }

  ghost predicate PassApart(s: State, p: nat)
    requires p in s.passes
  {
    var held := Held(s.passes[p]);
    held <= s.implicit && held !! s.guarded && held !! s.registry && held !! s.lost
  }

  lemma StatementStep(s: State, step: Step)
    requires Inv(s) && Enabled(s, step)
    requires step.Begin? || step.Persist? || step.FinishCommit? || step.AbortOwn? || step.Disarm? || step.Drop?
    ensures Inv(Do(s, step))
  {
    var s' := Do(s, step);
    assert s'.passes == s.passes;
    forall p | p in s'.passes ensures PassApart(s', p) {
      assert PassApart(s, p);
    }
    forall tx | tx in s'.implicit && IsActive(s', tx)
      ensures tx in s'.guarded || tx in s'.registry || InPass(s', tx) || tx in s'.lost
    {
      if tx in s.implicit && InPass(s, tx) {
        assert InPass(s', tx);
      }
    }
  }

  /** One pass changes what it holds, giving up only what is no longer active. */
  lemma PassChanges(s: State, s': State, q: nat)
    requires Inv(s) && q in s.passes && q in s'.passes
    requires s' == s.(phase := s'.phase, passes := s.passes[q := s'.passes[q]])
    requires s'.phase.Keys == s.phase.Keys && forall tx :: IsActive(s', tx) ==> IsActive(s, tx)
    requires Held(s'.passes[q]) <= Held(s.passes[q])
    requires forall tx :: tx in Held(s.passes[q]) && IsActive(s', tx) ==> tx in Held(s'.passes[q])
    ensures Inv(s')
  {
    assert PassApart(s, q);
    forall p | p in s'.passes ensures PassApart(s', p) {
      assert PassApart(s, p);
    }
    forall tx | tx in s'.implicit && IsActive(s', tx)
      ensures tx in s'.guarded || tx in s'.registry || InPass(s', tx) || tx in s'.lost
    {
      if InPass(s, tx) {
        var p :| p in s.passes && tx in Held(s.passes[p]);
        assert tx in Held(s'.passes[p]);
      }
    }
  }

  lemma PassStep(s: State, step: Step)
    requires Inv(s) && Enabled(s, step)
    requires step.Look? || step.ReclaimAbort? || step.ReclaimFails?
    ensures Inv(Do(s, step))
  {
    hide Inv;
    PassChanges(s, Do(s, step), step.pass);
  }

  lemma StartStep(s: State, q: nat)
    requires Inv(s) && q !in s.passes
    ensures Inv(Do(s, StartPass(q)))
  {
    var s' := Do(s, StartPass(q));
    assert Held(s'.passes[q]) == s.registry;
    forall p | p in s'.passes ensures PassApart(s', p) {
      if p != q {
        assert PassApart(s, p);
      }
    }
    forall p, r | p in s'.passes && r in s'.passes && p != r ensures Held(s'.passes[p]) !! Held(s'.passes[r]) {
      if p != q {
        assert PassApart(s, p);
      }
      if r != q {
        assert PassApart(s, r);
      }
    }
    forall tx | tx in s'.implicit && IsActive(s', tx)
      ensures tx in s'.guarded || tx in s'.registry || InPass(s', tx) || tx in s'.lost
    {
      if InPass(s, tx) {
        var p :| p in s.passes && tx in Held(s.passes[p]);
        assert tx in Held(s'.passes[p]);
      } else if tx in s.registry {
        assert tx in Held(s'.passes[q]);
      }
    }
  }

  lemma StopStep(s: State, step: Step)
    requires Inv(s) && Enabled(s, step) && (step.EndPass? || step.DropPass?)
    ensures Inv(Do(s, step))
  {
    var s' := Do(s, step);
    var q := step.pass;
    assert PassApart(s, q);
    assert step.EndPass? ==> Held(s.passes[q]) == s.passes[q].failed;
    forall p | p in s'.passes ensures PassApart(s', p) {
      assert PassApart(s, p);
      assert Held(s.passes[p]) !! Held(s.passes[q]);
    }
    forall tx | tx in s'.implicit && IsActive(s', tx)
      ensures tx in s'.guarded || tx in s'.registry || InPass(s', tx) || tx in s'.lost
    {
      if InPass(s, tx) {
        var p :| p in s.passes && tx in Held(s.passes[p]);
        if p != q {
          assert tx in Held(s'.passes[p]);
        }
      }
    }
  }

  lemma StepKeepsInv(s: State, step: Step)
    requires Inv(s) && Enabled(s, step)
    ensures Inv(Do(s, step))
  {
    hide Inv, Do;
    match step
    case StartPass(q) => StartStep(s, q);
    case Look(_, _) => PassStep(s, step);
    case ReclaimAbort(_) => PassStep(s, step);
    case ReclaimFails(_) => PassStep(s, step);
    case EndPass(_) => StopStep(s, step);
    case DropPass(_) => StopStep(s, step);
    case _ => StatementStep(s, step);
  }

  // ---------- whole runs ----------

  ghost predicate ValidRun(s: State, steps: seq<Step>)
    decreases |steps|
  {
    steps != [] ==> Enabled(s, steps[0]) && ValidRun(Do(s, steps[0]), steps[1..])
  }

  function Execute(s: State, steps: seq<Step>): State
    requires ValidRun(s, steps)
    decreases |steps|
  {
    if steps == [] then s else Execute(Do(s, steps[0]), steps[1..])
  }

  /** What a pass found active stays active until that pass aborts it. */
  ghost predicate NoRace(s: State) {
    forall p :: p in s.passes && s.passes[p].aborting.Some? ==> IsActive(s, s.passes[p].aborting.value)
  }

  lemma StepKeepsNoRace(s: State, step: Step)
    requires Inv(s) && NoRace(s) && Enabled(s, step)
    ensures NoRace(Do(s, step))
  {
    var s' := Do(s, step);
    forall p | p in s'.passes && s'.passes[p].aborting.Some?
      ensures IsActive(s', s'.passes[p].aborting.value)
    {
      if p in s.passes && s'.passes[p] == s.passes[p] {
        var tx := s.passes[p].aborting.value;
        assert PassApart(s, p) && tx in Held(s.passes[p]);
        if step.ReclaimAbort? {
          assert Held(s.passes[p]) !! Held(s.passes[step.pass]);
        }
      }
    }
  }

  /** Over every run: an active implicit transaction is under a live guard,
    * registered, in the hands of one pass, or was lost with a dropped pass; and
    * no pass ever tries to abort what is no longer active. */
  lemma {:induction false} RunKeepsInv(s: State, steps: seq<Step>)
    requires Inv(s) && NoRace(s) && ValidRun(s, steps)
    ensures Inv(Execute(s, steps)) && NoRace(Execute(s, steps))
    decreases |steps|
  {
    if steps != [] {
      StepKeepsInv(s, steps[0]);
      StepKeepsNoRace(s, steps[0]);
      hide Inv, NoRace, Do;
      RunKeepsInv(Do(s, steps[0]), steps[1..]);
    }
  }

  /** A reclaim pass aborts only transactions whose statement is gone and that
    * have not committed. */
  lemma ReclaimSparesTheLiving(steps: seq<Step>, pass: nat)
    requires ValidRun(INITIAL, steps)
    requires var s := Execute(INITIAL, steps); pass in s.passes && s.passes[pass].aborting.Some?
    ensures var s := Execute(INITIAL, steps);
            var tx := s.passes[pass].aborting.value;
            && Enabled(s, ReclaimAbort(pass)) && tx in s.implicit && tx !in s.guarded
            && tx in s.phase && s.phase[tx] != Committed && s.phase[tx] != Aborted
  {
    RunKeepsInv(INITIAL, steps);
    var s := Execute(INITIAL, steps);
    assert PassApart(s, pass) && s.passes[pass].aborting.value in Held(s.passes[pass]);
  }

  /** The step ends the transaction that way. */
  ghost predicate Ends(s: State, step: Step, tx: nat, phase: Phase)
    requires Enabled(s, step)
  {
    match phase
    case Committed => step == FinishCommit(tx)
    case Aborted => step == AbortOwn(tx) || (step.ReclaimAbort? && s.passes[step.pass].aborting == Some(tx))
    case _ => false
  }

  ghost predicate EndedBy(s: State, steps: seq<Step>, tx: nat, phase: Phase)
    requires ValidRun(s, steps)
    decreases |steps|
  {
    steps != [] && (Ends(s, steps[0], tx, phase) || EndedBy(Do(s, steps[0]), steps[1..], tx, phase))
  }

  /** Over every run from a state in which a transaction has not ended: it is
    * committed at the end exactly if its statement finished the commit, and
    * aborted exactly if its statement or a pass aborted it. */
  lemma {:induction false} EndsAsItWasEnded(s: State, steps: seq<Step>, tx: nat, phase: Phase)
    requires Inv(s) && NoRace(s) && ValidRun(s, steps) && (tx in s.phase ==> IsActive(s, tx))
    requires phase == Committed || phase == Aborted
    ensures tx in Execute(s, steps).phase && Execute(s, steps).phase[tx] == phase <==> EndedBy(s, steps, tx, phase)
    decreases |steps|
  {
    if steps != [] {
      var s' := Do(s, steps[0]);
      StepKeepsInv(s, steps[0]);
      StepKeepsNoRace(s, steps[0]);
      if tx in s'.phase && !IsActive(s', tx) {
        Settled(s', steps[1..], tx);
        NotEndedAgain(s', steps[1..], tx, phase);
      } else {
        EndsAsItWasEnded(s', steps[1..], tx, phase);
      }
    }
  }

  lemma {:induction false} NotEndedAgain(s: State, steps: seq<Step>, tx: nat, phase: Phase)
    requires Inv(s) && NoRace(s) && ValidRun(s, steps) && tx in s.phase && !IsActive(s, tx)
    ensures !EndedBy(s, steps, tx, phase)
    decreases |steps|
  {
    if steps != [] {
      StepKeepsInv(s, steps[0]);
      StepKeepsNoRace(s, steps[0]);
      NotEndedAgain(Do(s, steps[0]), steps[1..], tx, phase);
    }
  }

  lemma {:induction false} Settled(s: State, steps: seq<Step>, tx: nat)
    requires Inv(s) && NoRace(s) && ValidRun(s, steps) && tx in s.phase && !IsActive(s, tx)
    ensures tx in Execute(s, steps).phase && Execute(s, steps).phase[tx] == s.phase[tx]
    decreases |steps|
  {
    if steps != [] {
      StepKeepsInv(s, steps[0]);
      StepKeepsNoRace(s, steps[0]);
      assert Do(s, steps[0]).phase[tx] == s.phase[tx];
      Settled(Do(s, steps[0]), steps[1..], tx);
    }
  }

  /** Every pass that is dropped holds nothing active at that moment. */
  ghost predicate HarmlessDrops(s: State, steps: seq<Step>)
    requires ValidRun(s, steps)
    decreases |steps|
  {
    steps != [] ==>
      && (steps[0].DropPass? ==> forall tx :: tx in Held(s.passes[steps[0].pass]) ==> !IsActive(s, tx))
      && HarmlessDrops(Do(s, steps[0]), steps[1..])
  }

  ghost predicate NothingActiveLost(s: State) {
    forall tx :: tx in s.lost ==> !IsActive(s, tx)
  }

  lemma {:induction false} NothingLost(s: State, steps: seq<Step>)
    requires Inv(s) && NoRace(s) && NothingActiveLost(s) && ValidRun(s, steps) && HarmlessDrops(s, steps)
    ensures NothingActiveLost(Execute(s, steps))
    decreases |steps|
  {
    if steps != [] {
      StepKeepsInv(s, steps[0]);
      StepKeepsNoRace(s, steps[0]);
      assert NothingActiveLost(Do(s, steps[0]));
      hide Inv, NoRace, Do;
      NothingLost(Do(s, steps[0]), steps[1..]);
    }
  }

  /** What a dropped pass held is never aborted, committed or held again: a lost
    * transaction that is active stays active in every continuation. */
  lemma {:induction false} LostStaysActive(s: State, steps: seq<Step>, tx: nat)
    requires Inv(s) && NoRace(s) && ValidRun(s, steps) && tx in s.lost && IsActive(s, tx)
    ensures tx in Execute(s, steps).lost && IsActive(Execute(s, steps), tx)
    decreases |steps|
  {
    if steps != [] {
      StepKeepsInv(s, steps[0]);
      StepKeepsNoRace(s, steps[0]);
      var q := steps[0];
      assert q.ReclaimAbort? ==> PassApart(s, q.pass) && s.passes[q.pass].aborting.value in Held(s.passes[q.pass]);
      assert IsActive(Do(s, q), tx);
      LostStaysActive(Do(s, q), steps[1..], tx);
    }
  }

  /** A harmful drop leaves its transaction active for good. */
  lemma {:induction false} HarmfulDropLeavesActive(s: State, steps: seq<Step>) returns (tx: nat)
    requires Inv(s) && NoRace(s) && ValidRun(s, steps) && !HarmlessDrops(s, steps)
    ensures tx in Execute(s, steps).implicit && IsActive(Execute(s, steps), tx)
    decreases |steps|
  {
    var s' := Do(s, steps[0]);
    StepKeepsInv(s, steps[0]);
    StepKeepsNoRace(s, steps[0]);
    if HarmlessDrops(s', steps[1..]) {
      tx :| tx in Held(s.passes[steps[0].pass]) && IsActive(s, tx);
      LostStaysActive(s', steps[1..], tx);
      RunKeepsInv(s', steps[1..]);
    } else {
      tx := HarmfulDropLeavesActive(s', steps[1..]);
    }
  }

  /** Once every guard, registration and pass is gone, no implicit transaction is
    * left active if and only if every dropped pass held nothing active. */
  lemma NoneLeftActive(steps: seq<Step>)
    requires ValidRun(INITIAL, steps)
    requires var s := Execute(INITIAL, steps); s.guarded == {} && s.registry == {} && s.passes == map[]
    ensures (forall tx :: tx in Execute(INITIAL, steps).implicit ==> !IsActive(Execute(INITIAL, steps), tx))
            <==> HarmlessDrops(INITIAL, steps)
  {
    var s := Execute(INITIAL, steps);
    if HarmlessDrops(INITIAL, steps) {
      RunKeepsInv(INITIAL, steps);
      NothingLost(INITIAL, steps);
      assert forall tx :: !InPass(s, tx);
    } else {
      var tx := HarmfulDropLeavesActive(INITIAL, steps);
    }
  }

  function Abandoned(tx: nat): seq<Step> {
    [Begin(tx, true), Drop(tx), StartPass(0), Look(0, tx), DropPass(0)]
  }

  /** A dropped pass does leave a transaction active, with no guard, registration
    * or pass left, that no continuation reclaims. */
  lemma DroppedPassLosesTransaction(tx: nat, more: seq<Step>)
    ensures ValidRun(INITIAL, Abandoned(tx))
    ensures var s := Execute(INITIAL, Abandoned(tx));
            && IsActive(s, tx) && s.guarded == {} && s.registry == {} && s.passes == map[]
            && (ValidRun(s, more) ==> IsActive(Execute(s, more), tx))
  {
    AbandonedRun(tx);
    RunKeepsInv(INITIAL, Abandoned(tx));
    var s := Execute(INITIAL, Abandoned(tx));
    if ValidRun(s, more) {
      LostStaysActive(s, more, tx);
    }
  }

  lemma AbandonedRun(tx: nat)
    ensures ValidRun(INITIAL, Abandoned(tx))
    ensures var s := Execute(INITIAL, Abandoned(tx));
            IsActive(s, tx) && tx in s.lost && s.guarded == {} && s.registry == {} && s.passes == map[]
  {
    var steps := Abandoned(tx);
    var s1 := Do(INITIAL, steps[0]);
    var s2 := Do(s1, steps[1]);
    var s3 := Do(s2, steps[2]);
    var s4 := Do(s3, steps[3]);
    var s5 := Do(s4, steps[4]);
    hide Execute, ValidRun;
    OneStep(s4, steps, 4, s5);
    OneStep(s3, steps, 3, s5);
    OneStep(s2, steps, 2, s5);
    OneStep(s1, steps, 1, s5);
    OneStep(INITIAL, steps, 0, s5);
    assert s5.passes == map[];
  }

  /** Prefix a run with one step. */
  lemma OneStep(s: State, steps: seq<Step>, i: nat, end: State)
    requires i < |steps| && Enabled(s, steps[i])
    requires if i + 1 == |steps| then Do(s, steps[i]) == end
             else ValidRun(Do(s, steps[i]), steps[i + 1..]) && Execute(Do(s, steps[i]), steps[i + 1..]) == end
    ensures ValidRun(s, steps[i..]) && Execute(s, steps[i..]) == end
    ensures i == 0 ==> ValidRun(s, steps) && Execute(s, steps) == end
  {
    assert steps[i..][1..] == steps[i + 1..] && steps[0..] == steps;
    assert i + 1 == |steps| ==> steps[i + 1..] == [];
  }

  // ---------- durable and yet rolled back ----------

  function DroppedAfterFsync(tx: nat): seq<Step> {
    [Begin(tx, true), Persist(tx), Drop(tx), StartPass(0), Look(0, tx), ReclaimAbort(0)]
  }

  /** A statement dropped after its commit record reached the disk and before it
    * left the active set is rolled back in memory. */
  lemma DurableCommitCanBeReclaimed(tx: nat)
    ensures ValidRun(INITIAL, DroppedAfterFsync(tx))
    ensures tx in Execute(INITIAL, DroppedAfterFsync(tx)).phase
    ensures Execute(INITIAL, DroppedAfterFsync(tx)).phase[tx] == Aborted
  {
    var steps := DroppedAfterFsync(tx);
    var s1 := Do(INITIAL, steps[0]);
    var s2 := Do(s1, steps[1]);
    var s3 := Do(s2, steps[2]);
    var s4 := Do(s3, steps[3]);
    var s5 := Do(s4, steps[4]);
    var s6 := Do(s5, steps[5]);
    hide Execute, ValidRun;
    OneStep(s5, steps, 5, s6);
    OneStep(s4, steps, 4, s6);
    OneStep(s3, steps, 3, s6);
    OneStep(s2, steps, 2, s6);
    OneStep(s1, steps, 1, s6);
    OneStep(INITIAL, steps, 0, s6);
  }

  /** That window is the only one: a transaction whose statement is alive with
    * its commit record on disk ends rolled back only if the statement is dropped
    * before it finishes the commit. */
  lemma {:induction false} DurableLostOnlyByDrop(s: State, steps: seq<Step>, tx: nat) returns (i: nat)
    requires Inv(s) && NoRace(s) && ValidRun(s, steps)
    requires tx in s.guarded && tx in s.phase && s.phase[tx] == Durable
    requires tx in Execute(s, steps).phase && Execute(s, steps).phase[tx] == Aborted
    ensures i < |steps| && steps[i] == Drop(tx) && FinishCommit(tx) !in steps[..i]
    decreases |steps|
  {
    StepKeepsInv(s, steps[0]);
    StepKeepsNoRace(s, steps[0]);
    var s' := Do(s, steps[0]);
    if steps[0] == Drop(tx) {
      i := 0;
    } else {
      if steps[0] == FinishCommit(tx) {
        Settled(s', steps[1..], tx);
        assert false;
      }
      assert steps[0].ReclaimAbort? ==>
             PassApart(s, steps[0].pass) && s.passes[steps[0].pass].aborting.value in Held(s.passes[steps[0].pass]);
      var j := DurableLostOnlyByDrop(s', steps[1..], tx);
      i := j + 1;
      assert steps[..i] == [steps[0]] + steps[1..][..j];
    }
  }

  ghost predicate DroppedInWindow(steps: seq<Step>, tx: nat) {
    exists i :: 0 <= i < |steps| && steps[i] == Drop(tx) && FinishCommit(tx) !in steps[..i]
  }

  /** Without a drop still to come, the transaction can end rolled back. */
  ghost predicate CanBeRolledBack(s: State, tx: nat) {
    exists more :: ValidRun(s, more) && Drop(tx) !in more && RolledBack(Execute(s, more), tx)
  }

  predicate RolledBack(s: State, tx: nat) {
    tx in s.phase && s.phase[tx] == Aborted
  }

  lemma {:induction false} Continued(s: State, a: seq<Step>, b: seq<Step>)
    requires ValidRun(s, a) && ValidRun(Execute(s, a), b)
    ensures ValidRun(s, a + b) && Execute(s, a + b) == Execute(Execute(s, a), b)
    decreases |a|
  {
    hide Do, Enabled;
    if a == [] {
      assert a + b == b;
    } else {
      assert (a + b)[1..] == a[1..] + b;
      Continued(Do(s, a[0]), a[1..], b);
    }
  }

  /** One step first. */
  lemma After(s: State, step: Step, more: seq<Step>, tx: nat) returns (all: seq<Step>)
    requires Enabled(s, step) && step != Drop(tx)
    requires ValidRun(Do(s, step), more) && Drop(tx) !in more && RolledBack(Execute(Do(s, step), more), tx)
    ensures ValidRun(s, all) && Drop(tx) !in all && RolledBack(Execute(s, all), tx)
  {
    hide Do, Enabled;
    all := [step] + more;
    assert all[1..] == more;
  }

  lemma {:induction false} FreshPass(passes: set<nat>) returns (q: nat)
    ensures q !in passes && forall p :: p in passes ==> p < q
    decreases passes
  {
    if passes == {} {
      q := 0;
    } else {
      var p :| p in passes;
      var r := FreshPass(passes - {p});
      q := if p < r then r else p + 1;
      assert forall x :: x in passes ==> x == p || x in passes - {p};
    }
  }

  lemma ReclaimRegistered(s: State, tx: nat) returns (more: seq<Step>)
    requires Inv(s) && tx in s.registry && IsActive(s, tx)
    ensures ValidRun(s, more) && Drop(tx) !in more && RolledBack(Execute(s, more), tx)
  {
    var q := FreshPass(s.passes.Keys);
    var s1 := Do(s, StartPass(q));
    var s2 := Do(s1, Look(q, tx));
    var s3 := Do(s2, ReclaimAbort(q));
    assert RolledBack(s3, tx);
    hide Do, Inv, RolledBack;
    more := After(s2, ReclaimAbort(q), [], tx);
    more := After(s1, Look(q, tx), more, tx);
    more := After(s, StartPass(q), more, tx);
  }

  /** Whatever a pass is doing, what it holds can still be reclaimed: by it, or by
    * a later one if it failed. */
  lemma {:induction false} ReclaimHeld(s: State, q: nat, tx: nat) returns (more: seq<Step>)
    requires Inv(s) && NoRace(s) && q in s.passes && tx in Held(s.passes[q]) && IsActive(s, tx)
    ensures ValidRun(s, more) && Drop(tx) !in more && RolledBack(Execute(s, more), tx)
    decreases |s.passes[q].todo|, if s.passes[q].aborting.Some? then 1 else 0
  {
    var p := s.passes[q];
    if p.aborting == Some(tx) {
      assert RolledBack(Do(s, ReclaimAbort(q)), tx);
      hide Do, Inv;
      more := After(s, ReclaimAbort(q), [], tx);
    } else if p.aborting.None? && p.todo == {} {
      StepKeepsInv(s, EndPass(q));
      more := ReclaimRegistered(Do(s, EndPass(q)), tx);
      hide Do, Inv, RolledBack;
      more := After(s, EndPass(q), more, tx);
    } else {
      var step := if p.aborting.Some? then ReclaimFails(q) else var x :| x in p.todo; Look(q, x);
      StepKeepsInv(s, step);
      StepKeepsNoRace(s, step);
      more := ReclaimHeld(Do(s, step), q, tx);
      hide Do, Inv, NoRace, RolledBack;
      more := After(s, step, more, tx);
    }
  }

  lemma {:induction false} DroppedState(s: State, steps: seq<Step>, tx: nat)
    requires Inv(s) && NoRace(s) && ValidRun(s, steps) && tx in s.implicit && tx in s.phase
    requires if tx in s.guarded then s.phase[tx] == Durable && DroppedInWindow(steps, tx)
             else s.phase[tx] == Durable || s.phase[tx] == Aborted
    ensures var e := Execute(s, steps);
            && tx in e.implicit && tx !in e.guarded
            && tx in e.phase && (e.phase[tx] == Durable || e.phase[tx] == Aborted)
    decreases |steps|
  {
    if steps != [] {
      var s' := Do(s, steps[0]);
      StepKeepsInv(s, steps[0]);
      StepKeepsNoRace(s, steps[0]);
      if tx in s.guarded && steps[0] != Drop(tx) {
        var i :| 0 <= i < |steps| && steps[i] == Drop(tx) && FinishCommit(tx) !in steps[..i];
        assert steps[0] in steps[..i];
        assert steps[1..][i - 1] == Drop(tx) && forall x :: x in steps[1..][..i - 1] ==> x in steps[..i];
        assert DroppedInWindow(steps[1..], tx);
        assert steps[0].ReclaimAbort? ==>
               PassApart(s, steps[0].pass) && s.passes[steps[0].pass].aborting.value in Held(s.passes[steps[0].pass]);
      }
      DroppedState(s', steps[1..], tx);
    }
  }

  /** Exactly when: from any state in which the statement is alive with its commit
    * record on disk, after any run, the commit can be rolled back without a drop
    * still to come if and only if the statement was dropped before it finished
    * the commit, and no dropped pass has lost the transaction since. */
  lemma DurableRolledBackExactly(s: State, steps: seq<Step>, tx: nat)
    requires Inv(s) && NoRace(s) && ValidRun(s, steps)
    requires tx in s.guarded && tx in s.phase && s.phase[tx] == Durable
    ensures var e := Execute(s, steps);
            CanBeRolledBack(e, tx) <==> DroppedInWindow(steps, tx) && !(tx in e.lost && IsActive(e, tx))
  {
    var e := Execute(s, steps);
    RunKeepsInv(s, steps);
    if CanBeRolledBack(e, tx) {
      RolledBackWasDropped(s, steps, tx);
    }
    if DroppedInWindow(steps, tx) && !(tx in e.lost && IsActive(e, tx)) {
      DroppedState(s, steps, tx);
      DroppedCanBeRolledBack(e, tx);
    }
  }

  lemma RolledBackWasDropped(s: State, steps: seq<Step>, tx: nat)
    requires Inv(s) && NoRace(s) && ValidRun(s, steps) && Inv(Execute(s, steps)) && NoRace(Execute(s, steps))
    requires tx in s.guarded && tx in s.phase && s.phase[tx] == Durable && CanBeRolledBack(Execute(s, steps), tx)
    ensures var e := Execute(s, steps); DroppedInWindow(steps, tx) && !(tx in e.lost && IsActive(e, tx))
  {
    var e := Execute(s, steps);
    var more :| ValidRun(e, more) && Drop(tx) !in more && RolledBack(Execute(e, more), tx);
    if tx in e.lost && IsActive(e, tx) {
      LostStaysActive(e, more, tx);
    }
    hide Inv, NoRace;
    Continued(s, steps, more);
    var i := DurableLostOnlyByDrop(s, steps + more, tx);
    assert (steps + more)[..i] == steps[..i];
  }

  lemma DroppedCanBeRolledBack(e: State, tx: nat)
    requires Inv(e) && NoRace(e) && tx in e.implicit && tx !in e.guarded && tx in e.phase
    requires (e.phase[tx] == Durable && tx !in e.lost) || e.phase[tx] == Aborted
    ensures CanBeRolledBack(e, tx)
  {
    var more := [];
    if e.phase[tx] == Durable {
      if tx in e.registry {
        more := ReclaimRegistered(e, tx);
      } else {
        var q :| q in e.passes && tx in Held(e.passes[q]);
        more := ReclaimHeld(e, q, tx);
      }
    }
    assert ValidRun(e, more) && Drop(tx) !in more && RolledBack(Execute(e, more), tx);
  }

  // ---------- one reclaim pass, alone ----------

  /** How the calls of one write statement turn out: does the target table
    * exist, do creating the executor, executing, aborting, committing and the
    * checkpoint after the commit succeed. */
  datatype Fate = Fate(tableFound: bool, creates: bool, executes: bool, aborts: bool, commits: bool, checkpoints: bool)

  datatype Ending = Dropped | Failed | Done

  /** The registry, active set and committed transactions of one database. */
  class Database {
    var registry: set<nat>
    var active: set<nat>
    var committed: set<nat>
    var counter: nat

    constructor (activeAtStart: set<nat>, lastId: nat)
      ensures registry == {} && active == activeAtStart && committed == {} && counter == lastId
    {
      registry, active, committed, counter := {}, activeAtStart, {}, lastId;
    }

    /** `reclaim_abandoned_implicit_transactions`.  `drained` is the order in
      * which the hash set gives up its members; `broken` are the transactions
      * whose abort fails. */
    method ReclaimAbandoned(drained: seq<nat>, broken: set<nat>) returns (error: Option<nat>)
      requires forall tx :: tx in drained <==> tx in registry
      requires forall i, j :: 0 <= i < j < |drained| ==> drained[i] != drained[j]
      modifies this`registry, this`active
      ensures active == old(active) - (old(registry) - broken)
      ensures registry == old(registry) * old(active) * broken
      ensures error.None? <==> registry == {}
      ensures error.Some? ==> exists i :: 0 <= i < |drained| && drained[i] == error.value && error.value in registry
                                          && forall j :: 0 <= j < i ==> drained[j] !in registry
    {
      registry := {};
      var failed := {};
      error := None;
      for i := 0 to |drained|
        invariant registry == {}
        invariant failed == set tx | tx in drained[..i] && tx in old(active) && tx in broken
        invariant active == old(active) - ((set tx | tx in drained[..i]) - broken)
        invariant error.None? <==> failed == {}
        invariant error.Some? ==> exists k :: 0 <= k < i && drained[k] == error.value && error.value in failed
                                              && forall j :: 0 <= j < k ==> drained[j] !in failed
      {
        var tx := drained[i];
        assert drained[..i + 1] == drained[..i] + [tx];
        ghost var before := failed;
        if tx in active {
          if tx in broken {
            failed := failed + {tx};
            if error.None? {
              error := Some(tx);
            }
          } else {
            active := active - {tx};
          }
        }
        assert failed <= before + {tx};
        assert forall j :: 0 <= j < i ==> drained[j] != tx;
      }
      assert drained[..|drained|] == drained;
      registry := registry + failed;
      assert registry == old(registry) * old(active) * broken;
    }

    /** `disarm` was not reached: the guard's destructor registers the transaction. */
    method DropGuard(tx: nat, armed: bool)
      modifies this`registry
      ensures registry == if armed then old(registry) + {tx} else old(registry)
    {
      if armed {
        registry := registry + {tx};
      }
    }

    /** A write statement outside a transaction, dropped after `stop` of its
      * calls: reclaim, begin, find the table, create the executor, execute,
      * commit (or abort), and after the commit a second reclaim and the
      * checkpoint.  `meanwhile` are the transactions other statements abandoned
      * before that second reclaim.  However it goes, its own transaction does
      * not stay active without being registered, and it is committed exactly if
      * the commit was reached and succeeded.  A statement that fails or is
      * dropped after the commit registers a committed transaction, which is no
      * longer active and which reclaim therefore leaves alone. */
    method ExecuteDml(drained: seq<nat>, meanwhile: seq<nat>, broken: set<nat>, fate: Fate, stop: nat)
      returns (ending: Ending)
      requires forall tx :: tx in drained <==> tx in registry
      requires forall i, j :: 0 <= i < j < |drained| ==> drained[i] != drained[j]
      requires forall i, j :: 0 <= i < j < |meanwhile| ==> meanwhile[i] != meanwhile[j]
      requires counter + 1 !in registry && counter + 1 !in active && counter + 1 !in committed
      requires counter + 1 !in meanwhile
      modifies this
      ensures var tx := old(counter) + 1;
              && (tx in active ==> tx in registry)
              && (tx in committed ==> tx !in active)
              && (tx in committed <==> counter == tx && fate.creates && fate.executes && fate.commits && stop >= 6)
              && (ending == Done <==> tx in committed && fate.checkpoints && stop >= 7 && registry == {})
              && (ending == Done ==> tx !in registry)
              && (ending == Dropped ==> stop < 7)
      ensures forall tx :: tx != old(counter) + 1 ==> (tx in committed <==> tx in old(committed))
      ensures var reclaimed := old(registry)
                               + if old(counter) + 1 in committed && stop >= 7 then set tx | tx in meanwhile else {};
              forall tx :: tx != old(counter) + 1 && stop >= 1 ==>
                && (tx in active <==> tx in old(active) && !(tx in reclaimed && tx !in broken))
                && (tx in registry <==> tx in reclaimed && tx in old(active) && tx in broken)
      ensures stop == 0 ==> active == old(active) && registry == old(registry) && counter == old(counter)
    {
      if stop == 0 {
        return Dropped;
      }
      var error := ReclaimAbandoned(drained, broken);
      if error.Some? {
        return Failed;
      }
      if stop == 1 {
        return Dropped;
      }
      counter := counter + 1;
      var tx := counter;
      active := active + {tx};
      if stop <= 3 {
        DropGuard(tx, true);
        return Dropped;
      }
      if !fate.creates {
        ending := EndWithAbort(tx, fate, stop > 4);
        return;
      }
      if stop == 4 {
        DropGuard(tx, true);
        return Dropped;
      }
      if !fate.executes {
        ending := EndWithAbort(tx, fate, stop > 5);
        return;
      }
      if stop == 5 {
        DropGuard(tx, true);
        return Dropped;
      }
      if !fate.commits {
        DropGuard(tx, true);
        return Failed;
      }
      active := active - {tx};
      committed := committed + {tx};
      if stop == 6 {
        DropGuard(tx, true);
        return Dropped;
      }
      registry := registry + set other | other in meanwhile;
      error := ReclaimAbandoned(meanwhile, broken);
      var finished := error.None? && fate.checkpoints;
      DropGuard(tx, !finished);
      return if finished then Done else Failed;
    }

    /** A statement that failed aborts its transaction, if it knows the table and
      * is not dropped meanwhile; only a successful abort disarms the guard. */
    method EndWithAbort(tx: nat, fate: Fate, finishes: bool) returns (ending: Ending)
      modifies this`registry, this`active
      ensures ending == Failed || (ending == Dropped && !finishes)
      ensures if fate.tableFound && fate.aborts && finishes
              then active == old(active) - {tx} && registry == old(registry)
              else active == old(active) && registry == old(registry) + {tx}
    {
      var armed := true;
      if fate.tableFound {
        if !finishes {
          DropGuard(tx, true);
          return Dropped;
        }
        if fate.aborts {
          active := active - {tx};
          armed := false;
        }
      }
      DropGuard(tx, armed);
      return Failed;
    }
  }
}
