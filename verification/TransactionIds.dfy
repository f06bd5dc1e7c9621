/** Transaction ids across checkpoints, crashes and restarts
  * (`src/transaction/tx_id.rs`, `src/database.rs`, `src/wal/checkpoint.rs`,
  * `src/wal/writer.rs`, `src/wal/recovery.rs`).
  *
  * Ids are handed out by a counter in memory.  An id becomes part of history
  * when a log record that carries it is synced.  A checkpoint cuts the log at a
  * byte position taken first and keeps, in a site file, the counter read after
  * that position.  Nothing keeps two checkpoints apart.  A restart sets the
  * counter to the larger of the ids left in the log and the site's watermark.
  *
  * The results: every step that can make a durable id be handed out again, with
  * the exact condition under which it does; without one of these no run ever
  * hands an id out twice; and checkpoints that do not overlap are not among them.
  */
module TransactionIds {
  import opened Options
  import opened LogFile

  // ---------- the steps ----------

  datatype Stage = Positioned | Marked | LogSynced | SiteWritten | MarkWritten | LogCut

  /** A checkpoint in progress.  `stale`: another one has cut the log since this
    * one took its position. */
  datatype Checkpoint = Checkpoint(stage: Stage, at: nat, watermark: nat, stale: bool)

  /** `handedOut`: ids of this session.  `buffer`: records not written.  `disk`
    * survives a crash, `tail` is written after it and not synced.  `history`:
    * ids ever synced. */
  datatype State = State(
    running: bool,
    counter: nat,
    handedOut: set<nat>,
    buffer: seq<Frame>,
    disk: seq<Frame>,
    tail: seq<Frame>,
    site: Option<nat>,
    checkpoints: map<nat, Checkpoint>,
    history: set<nat>)

  /** Every step of a checkpoint names it.  A checkpoint can be given up between
    * any two of its steps, by an error or a caller that goes away. */
  datatype Step =
    | Allocate
    | Append(id: nat, size: Bytes)
    | Write(count: nat)
    | Sync
    | TakePosition(c: nat)
    | ReadCounter(c: nat)
    | SyncForSite(c: nat)
    | WriteSite(c: nat)
    | WriteMark(c: nat)
    | CutLog(c: nat)
    | WriteSiteAgain(c: nat)
    | GiveUp(c: nat)
    | FailWritingSite(c: nat)
    | Crash(bytes: nat)
    | CrashWritingSite(c: nat, bytes: nat)
    | CrashCuttingLog(c: nat, written: nat, bytes: nat)
    | Reopen

  const INITIAL := State(true, 0, {}, [], [], [], None, map[], {})

  predicate At(s: State, c: nat, stage: Stage) {
    c in s.checkpoints && s.checkpoints[c].stage == stage
  }

  /** An append may carry any id handed out in this session: begin, commit and
    * abort records all name their transaction. */
  predicate Enabled(s: State, step: Step) {
    (step.Reopen? <==> !s.running) &&
    match step
    case Append(id, _) => id in s.handedOut
    case Write(count) => count <= |s.buffer|
    case TakePosition(c) => c !in s.checkpoints
    case ReadCounter(c) => At(s, c, Positioned)
    case SyncForSite(c) => At(s, c, Marked)
    case WriteSite(c) => At(s, c, LogSynced)
    case WriteMark(c) => At(s, c, SiteWritten)
    case CutLog(c) => At(s, c, MarkWritten)
    case WriteSiteAgain(c) => At(s, c, LogCut)
    case GiveUp(c) => c in s.checkpoints
    case FailWritingSite(c) => At(s, c, LogSynced) || At(s, c, LogCut)
    case CrashWritingSite(c, _) => At(s, c, LogSynced) || At(s, c, LogCut)
    case CrashCuttingLog(c, _, _) => At(s, c, MarkWritten)
    case Reopen => Readable(s.disk)
    case _ => true
  }

  /** The whole file. */
  function Log(s: State): seq<Frame> {
    s.disk + s.tail
  }

  function OnDisk(s: State, disk: seq<Frame>): State {
    s.(disk := disk, tail := [], history := s.history + Ids(disk))
  }

  /** What survives a crash is durable by definition. */
  function Crashed(s: State, disk: seq<Frame>): State {
    OnDisk(s, disk).(running := false, counter := 0, handedOut := {}, buffer := [], checkpoints := map[])
  }

  function Moved(s: State, c: nat, stage: Stage): State
    requires c in s.checkpoints
  {
    s.(checkpoints := s.checkpoints[c := s.checkpoints[c].(stage := stage)])
  }

  /** After a cut the other checkpoints' positions are stale. */
  function Outdated(checkpoints: map<nat, Checkpoint>, c: nat): map<nat, Checkpoint>
    requires c in checkpoints
  {
    map d | d in checkpoints ::
      if d == c then checkpoints[c].(stage := LogCut, at := 0) else checkpoints[d].(stale := true)
  }

  /** What a crash leaves of the log while checkpoint `c` rewrites it. */
  function LeftByRewrite(s: State, c: nat, written: nat, bytes: nat): seq<Frame>
    requires c in s.checkpoints
  {
    Overwritten(Log(s), s.checkpoints[c].at, s.disk + Take(s.tail, bytes), written)
  }

  /** The counter a restart from these files begins with. */
  function Recovered(log: seq<Frame>, site: Option<nat>): nat {
    if site.Some? && MaxId(log) < site.value then site.value else MaxId(log)
  }

  /** A site file that was truncated and not written yet has no watermark. */
  function Do(s: State, step: Step): State
    requires Enabled(s, step)
  {
    match step
    case Allocate => s.(counter := s.counter + 1, handedOut := s.handedOut + {s.counter + 1})
    case Append(id, size) => s.(buffer := s.buffer + [Record(id, size)])
    case Write(count) => s.(buffer := s.buffer[count..], tail := s.tail + s.buffer[..count])
    case Sync => OnDisk(s, Log(s))
    case TakePosition(c) =>
      s.(checkpoints := s.checkpoints[c := Checkpoint(Positioned, Length(Log(s)), 0, false)])
    case ReadCounter(c) =>
      s.(checkpoints := s.checkpoints[c := s.checkpoints[c].(stage := Marked, watermark := s.counter)])
    case SyncForSite(c) => Moved(OnDisk(s, Log(s)), c, LogSynced)
    case WriteSite(c) => Moved(s.(site := Some(s.checkpoints[c].watermark)), c, SiteWritten)
    case WriteMark(c) => Moved(s.(tail := s.tail + [Mark]), c, MarkWritten)
    case CutLog(c) => OnDisk(s, Cut(Log(s), s.checkpoints[c].at)).(checkpoints := Outdated(s.checkpoints, c))
    case WriteSiteAgain(c) =>
      s.(site := Some(s.checkpoints[c].watermark), checkpoints := s.checkpoints - {c})
    case GiveUp(c) => s.(checkpoints := s.checkpoints - {c})
    case FailWritingSite(c) => s.(site := None, checkpoints := s.checkpoints - {c})
    case Crash(bytes) => Crashed(s, s.disk + Take(s.tail, bytes))
    case CrashWritingSite(c, bytes) => Crashed(s, s.disk + Take(s.tail, bytes)).(site := None)
    case CrashCuttingLog(c, written, bytes) => Crashed(s, LeftByRewrite(s, c, written, bytes))
    case Reopen => s.(running := true, counter := Recovered(s.disk, s.site))
  }

  ghost predicate ValidRun(s: State, steps: seq<Step>)
    decreases |steps|
  {
    steps != [] ==> Enabled(s, steps[0]) && ValidRun(Do(s, steps[0]), steps[1..])
  }

  function Execute(s: State, steps: seq<Step>): State
    requires ValidRun(s, steps)
    decreases |steps|
  {
    if steps == [] then s else Execute(Do(s, steps[0]), steps[1..])
  }

  // ---------- the invariant ----------

  /** A restart from these files does not hand these ids out again; files that
    * recovery refuses hand out nothing. */
  ghost predicate Covers(log: seq<Frame>, site: Option<nat>, ids: set<nat>) {
    Readable(log) ==> forall id :: id in ids ==> id <= Recovered(log, site)
  }

  /** A running session's counter is at or above every id it could meet. */
  ghost predicate CounterIsAhead(s: State) {
    && (forall id :: id in Ids(Log(s)) || id in Ids(s.buffer) || id in s.handedOut || id in s.history ==>
          id <= s.counter)
    && (s.site.Some? ==> s.site.value <= s.counter)
    && forall c :: c in s.checkpoints ==> s.checkpoints[c].watermark <= s.counter
  }

  /** The position is the end of a frame, and once the counter is read every id
    * above the watermark has its records after the position. */
  ghost predicate Sound(s: State, p: Checkpoint) {
    && Aligned(Log(s), p.at)
    && (!p.stage.Positioned? ==>
          && (forall id :: id in s.history ==> id <= p.watermark || id in Ids(Cut(s.disk, p.at)))
          && (forall id :: id in Ids(Log(s)) ==> id <= p.watermark || id in Ids(Cut(Log(s), p.at))))
    && (!p.stage.Positioned? && !p.stage.Marked? ==> Aligned(s.disk, p.at))
  }

  ghost predicate Aligned(log: seq<Frame>, at: nat) {
    exists k :: 0 <= k <= |log| && Length(log[..k]) == at
  }

  ghost predicate Inv(s: State) {
    && (!s.running ==> s.buffer == [] && s.tail == [] && s.handedOut == {} && s.checkpoints == map[])
    && (s.running ==> CounterIsAhead(s))
    && Covers(s.disk, s.site, s.history)
    && forall c :: c in s.checkpoints && !s.checkpoints[c].stale ==> Sound(s, s.checkpoints[c])
  }

  // ---------- what each step keeps ----------

  lemma AlignedGrows(log: seq<Frame>, more: seq<Frame>, at: nat)
    requires Aligned(log, at)
    ensures Aligned(log + more, at) && at <= Length(log)
  {
    var k :| 0 <= k <= |log| && Length(log[..k]) == at;
    assert (log + more)[..k] == log[..k];
    assert log == log[..k] + log[k..];
    LengthOfBoth(log[..k], log[k..]);
  }

  lemma AlignedAtEnd(log: seq<Frame>)
    ensures Aligned(log, Length(log)) && Aligned(log, 0) && Cut(log, 0) == log
  {
    assert log[..|log|] == log && log[..0] == [];
  }

  /** More is written at the end of the log. */
  lemma SoundGrows(s: State, p: Checkpoint, more: seq<Frame>, s': State)
    requires Sound(s, p) && s'.disk == s.disk && s'.tail == s.tail + more && s'.history == s.history
    ensures Sound(s', p)
  {
    var log := Log(s);
    assert Log(s') == log + more;
    AlignedGrows(log, more, p.at);
    CutOfBoth(log, more, p.at);
    IdsOfBoth(log, more);
    IdsOfBoth(Cut(log, p.at), more);
  }

  /** All of it is synced. */
  lemma SoundSynced(s: State, p: Checkpoint, s': State)
    requires Sound(s, p) && s'.disk == Log(s) && s'.tail == [] && s'.history == s.history + Ids(Log(s))
    ensures Sound(s', p) && (p.stage.Marked? ==> Sound(s', p.(stage := LogSynced)))
  {
    assert Log(s') == Log(s);
    CutOfBoth(s.disk, s.tail, p.at);
    IdsOfBoth(Cut(s.disk, p.at), s.tail);
  }

  lemma SyncKeeps(s: State)
    requires Inv(s) && s.running
    ensures Covers(Log(s), s.site, s.history + Ids(Log(s)))
  {
    IdsOfBoth(s.disk, s.tail);
  }

  lemma WriteKeeps(s: State, more: seq<Frame>)
    requires Inv(s) && s.running
    ensures Ids(Log(s.(tail := s.tail + more))) == Ids(Log(s)) + Ids(more)
  {
    assert Log(s.(tail := s.tail + more)) == Log(s) + more;
    IdsOfBoth(Log(s), more);
  }

  // ---------- the steps that can lose an id ----------

  /** The files a step leaves still lead a restart past every durable id.  Only
    * steps that replace a file can fail this. */
  ghost predicate Harmless(s: State, step: Step)
    requires Enabled(s, step)
  {
    match step
    case WriteSite(c) => Covers(s.disk, Some(s.checkpoints[c].watermark), s.history)
    case WriteSiteAgain(c) => Covers(s.disk, Some(s.checkpoints[c].watermark), s.history)
    case CutLog(c) => Covers(Cut(Log(s), s.checkpoints[c].at), s.site, s.history)
    case FailWritingSite(_) => Covers(s.disk, None, s.history)
    case CrashWritingSite(_, bytes) => Covers(s.disk + Take(s.tail, bytes), None, s.history)
    case CrashCuttingLog(c, written, bytes) => Covers(LeftByRewrite(s, c, written, bytes), s.site, s.history)
    case _ => true
  }

  lemma SessionStep(s: State, step: Step)
    requires Inv(s) && Enabled(s, step)
    requires step.Allocate? || step.Append? || step.TakePosition? || step.ReadCounter? || step.GiveUp?
    ensures Inv(Do(s, step))
  {
    var s' := Do(s, step);
    assert Log(s') == Log(s);
    if step.Append? {
      IdsOfBoth(s.buffer, [Record(step.id, step.size)]);
    }
    AlignedAtEnd(Log(s));
    forall c | c in s'.checkpoints && !s'.checkpoints[c].stale ensures Sound(s', s'.checkpoints[c]) {
      if c in s.checkpoints {
        assert Sound(s, s.checkpoints[c]);
      }
    }
  }

  lemma WriteStep(s: State, step: Step)
    requires Inv(s) && Enabled(s, step) && (step.Write? || step.WriteMark?)
    ensures Inv(Do(s, step))
  {
    var s' := Do(s, step);
    var more := if step.Write? then s.buffer[..step.count] else [Mark];
    WriteKeeps(s, more);
    if step.Write? {
      assert s.buffer == s.buffer[..step.count] + s.buffer[step.count..];
      IdsOfBoth(s.buffer[..step.count], s.buffer[step.count..]);
    } else {
      assert Ids([Mark]) == {};
    }
    forall c | c in s'.checkpoints && !s'.checkpoints[c].stale ensures Sound(s', s'.checkpoints[c]) {
      SoundGrows(s, s.checkpoints[c], more, s');
    }
  }

  lemma SyncStep(s: State, step: Step)
    requires Inv(s) && Enabled(s, step) && (step.Sync? || step.SyncForSite?)
    ensures Inv(Do(s, step))
  {
    var s' := Do(s, step);
    SyncKeeps(s);
    assert Log(s') == Log(s);
    forall c | c in s'.checkpoints && !s'.checkpoints[c].stale ensures Sound(s', s'.checkpoints[c]) {
      SoundSynced(s, s.checkpoints[c], s');
    }
  }

  lemma SiteStep(s: State, step: Step)
    requires Inv(s) && Enabled(s, step) && (step.WriteSite? || step.WriteSiteAgain? || step.FailWritingSite?)
    ensures Inv(Do(s, step)) <==> Harmless(s, step)
  {
    var s' := Do(s, step);
    assert Log(s') == Log(s);
    forall c | c in s'.checkpoints && !s'.checkpoints[c].stale ensures Sound(s', s'.checkpoints[c]) {
      assert Sound(s, s.checkpoints[c]);
    }
  }

  lemma CutStep(s: State, c: nat)
    requires Inv(s) && Enabled(s, CutLog(c))
    ensures Inv(Do(s, CutLog(c))) <==> Harmless(s, CutLog(c))
  {
    hide Length, Cut, Ids, Readable;
    var s', p := Do(s, CutLog(c)), s.checkpoints[c];
    IdsOfCut(Log(s), p.at);
    assert Log(s') == s'.disk == Cut(Log(s), p.at);
    CutOfBoth(s.disk, s.tail, p.at);
    IdsOfBoth(Cut(s.disk, p.at), s.tail);
    AlignedAtEnd(s'.disk);
    if !p.stale {
      assert Sound(s, p) && Sound(s', s'.checkpoints[c]);
    }
    assert forall d :: d in s'.checkpoints && d != c ==> s'.checkpoints[d].stale;
    assert CounterIsAhead(s');
  }

  lemma CrashStep(s: State, step: Step)
    requires Inv(s) && Enabled(s, step) && (step.Crash? || step.CrashWritingSite? || step.CrashCuttingLog?)
    ensures Inv(Do(s, step)) <==> Harmless(s, step)
  {
    if step.Crash? {
      IdsOfBoth(s.disk, Take(s.tail, step.bytes));
    }
  }

  /** The exact condition for every step: it keeps all durable ids covered if and
    * only if it is harmless. */
  lemma StepKeepsInvIff(s: State, step: Step)
    requires Inv(s) && Enabled(s, step)
    ensures Inv(Do(s, step)) <==> Harmless(s, step)
  {
    match step
    case Write(_) => WriteStep(s, step);
    case WriteMark(_) => WriteStep(s, step);
    case Sync => SyncStep(s, step);
    case SyncForSite(_) => SyncStep(s, step);
    case WriteSite(_) => SiteStep(s, step);
    case WriteSiteAgain(_) => SiteStep(s, step);
    case FailWritingSite(_) => SiteStep(s, step);
    case CutLog(c) => CutStep(s, c);
    case Crash(_) => CrashStep(s, step);
    case CrashWritingSite(_, _) => CrashStep(s, step);
    case CrashCuttingLog(_, _, _) => CrashStep(s, step);
    case Reopen => IdsOfBoth(s.disk, []);
    case _ => SessionStep(s, step);
  }

  // ---------- which of them do ----------

  /** A site that holds no watermark cannot lose one: the tear is harmless. */
  lemma FirstTearIsHarmless(s: State, step: Step)
    requires Inv(s) && Enabled(s, step) && (step.CrashWritingSite? || step.FailWritingSite?) && s.site.None?
    ensures Harmless(s, step)
  {
    if step.CrashWritingSite? {
      IdsOfBoth(s.disk, Take(s.tail, step.bytes));
    }
  }

  /** A checkpoint that no other has overtaken writes its site without harm. */
  lemma FreshSiteIsHarmless(s: State, step: Step)
    requires Inv(s) && Enabled(s, step) && (step.WriteSite? || step.WriteSiteAgain?)
    requires !s.checkpoints[step.c].stale
    ensures Harmless(s, step)
  {
    assert Sound(s, s.checkpoints[step.c]);
    IdsOfCut(s.disk, s.checkpoints[step.c].at);
  }

  /** It also cuts the log without harm, even if it crashes while doing so, unless
    * another one has since put a lower watermark into the site. */
  lemma FreshCutIsHarmless(s: State, step: Step)
    requires Inv(s) && Enabled(s, step) && (step.CutLog? || step.CrashCuttingLog?)
    requires var p := s.checkpoints[step.c]; !p.stale && s.site.Some? && p.watermark <= s.site.value
    ensures Harmless(s, step)
  {
    var p := s.checkpoints[step.c];
    assert Sound(s, p);
    if step.CutLog? {
      CutOfBoth(s.disk, s.tail, p.at);
      IdsOfBoth(Cut(s.disk, p.at), s.tail);
    } else {
      FreshRewriteKeeps(s, step);
    }
  }

  lemma FreshRewriteKeeps(s: State, step: Step)
    requires Inv(s) && Enabled(s, step) && step.CrashCuttingLog? && Sound(s, s.checkpoints[step.c])
    ensures var left := LeftByRewrite(s, step.c, step.written, step.bytes);
            Readable(left) ==> Ids(Cut(s.disk, s.checkpoints[step.c].at)) <= Ids(left)
  {
    var at, tail' := s.checkpoints[step.c].at, Take(s.tail, step.bytes);
    var k :| 0 <= k <= |s.disk| && Length(s.disk[..k]) == at;
    var gone, stays := s.disk[..k], s.disk[k..];
    assert s.disk == gone + stays;
    CutOfBoth(gone, stays, at);
    if Readable(LeftByRewrite(s, step.c, step.written, step.bytes)) {
      OverwrittenKeeps(gone, stays, s.tail, tail', step.written);
    }
  }

  /** Nor does it leave debris. */
  lemma FreshCutIsReadable(s: State, c: nat)
    requires Inv(s) && Enabled(s, CutLog(c)) && !s.checkpoints[c].stale && Readable(Log(s))
    ensures Readable(Do(s, CutLog(c)).disk)
  {
    assert Sound(s, s.checkpoints[c]);
    var log, at := Log(s), s.checkpoints[c].at;
    var k :| 0 <= k <= |log| && Length(log[..k]) == at;
    assert log == log[..k] + log[k..];
    CutOfBoth(log[..k], log[k..], at);
    IdsOfBoth(log[..k], log[k..]);
  }

  function Allocates(n: nat): seq<Step> {
    if n == 0 then [] else [Allocate] + Allocates(n - 1)
  }

  lemma {:induction false} AllocatesCountUp(s: State, n: nat)
    requires s.running
    ensures ValidRun(s, Allocates(n))
    ensures var end := Execute(s, Allocates(n)); end.counter == s.counter + n && end.history == s.history && end.running
    decreases n
  {
    if n > 0 {
      assert Allocates(n)[1..] == Allocates(n - 1);
      AllocatesCountUp(Do(s, Allocate), n - 1);
    }
  }

  /** The process ends, if it has not, and the database is opened again. */
  function Restarted(s: State): State
    requires Readable(s.disk)
  {
    var closed := if s.running then Do(s, Crash(0)) else s;
    assert s.running ==> closed.disk == s.disk + [] == s.disk;
    Do(closed, Reopen)
  }

  /** After a harmful step the next session, just by beginning transactions,
    * comes to hand out a durable id again. */
  lemma HarmfulStepReusesAnId(s: State, step: Step) returns (n: nat)
    requires Inv(s) && Enabled(s, step) && !Harmless(s, step)
    ensures var s' := Do(s, step);
            && Readable(s'.disk) && ValidRun(Restarted(s'), Allocates(n))
            && var end := Execute(Restarted(s'), Allocates(n));
               Enabled(end, Allocate) && Do(end, Allocate).counter in s.history
  {
    hide Length, Cut, Overwritten, Ids;
    var s' := Do(s, step);
    assert Readable(s'.disk) && !forall id :: id in s.history ==> id <= Recovered(s'.disk, s'.site);
    var id :| id in s.history && id > Recovered(s'.disk, s'.site);
    assert s'.disk + [] == s'.disk;
    var reopened := Restarted(s');
    assert reopened.counter == Recovered(s'.disk, s'.site);
    n := id - 1 - reopened.counter;
    AllocatesCountUp(reopened, n);
  }

  // ---------- every run ----------

  /** Every step of the run is harmless where it happens. */
  ghost predicate HarmlessRun(s: State, steps: seq<Step>)
    requires ValidRun(s, steps)
    decreases |steps|
  {
    steps != [] ==> Harmless(s, steps[0]) && HarmlessRun(Do(s, steps[0]), steps[1..])
  }

  lemma {:induction false} RunKeepsInv(s: State, steps: seq<Step>)
    requires Inv(s) && ValidRun(s, steps) && HarmlessRun(s, steps)
    ensures Inv(Execute(s, steps))
    decreases |steps|
  {
    if steps != [] {
      hide Inv, Do, Harmless, Enabled;
      StepKeepsInvIff(s, steps[0]);
      RunKeepsInv(Do(s, steps[0]), steps[1..]);
    }
  }

  /** The next id is above every id that ever had a durable record, and above
    * every id in the log or in use. */
  ghost predicate NextIsNew(s: State) {
    forall id :: id in s.history || id in Ids(Log(s)) || id in s.handedOut ==> id < s.counter + 1
  }

  /** Over every run of sessions, of checkpoints in any number and interleaving,
    * given up anywhere, and of crashes and restarts, whose steps are harmless:
    * each id handed out is new. */
  lemma IdsAreNeverReused(steps: seq<Step>)
    requires ValidRun(INITIAL, steps) && HarmlessRun(INITIAL, steps) && Execute(INITIAL, steps).running
    ensures NextIsNew(Execute(INITIAL, steps))
  {
    RunKeepsInv(INITIAL, steps);
  }

  /** And only over those: a run that stays harmless up to a harmful step can be
    * continued until it hands out a durable id again. */
  lemma HarmfulRunReusesAnId(steps: seq<Step>, step: Step) returns (n: nat)
    requires ValidRun(INITIAL, steps) && HarmlessRun(INITIAL, steps)
    requires Enabled(Execute(INITIAL, steps), step) && !Harmless(Execute(INITIAL, steps), step)
    ensures var s := Execute(INITIAL, steps);
            var s' := Do(s, step);
            && Readable(s'.disk) && ValidRun(Restarted(s'), Allocates(n))
            && var end := Execute(Restarted(s'), Allocates(n));
               Enabled(end, Allocate) && Do(end, Allocate).counter in s.history
  {
    RunKeepsInv(INITIAL, steps);
    n := HarmfulStepReusesAnId(Execute(INITIAL, steps), step);
  }

  // ---------- one checkpoint at a time ----------

  ghost predicate OneAtATime(s: State, steps: seq<Step>)
    requires ValidRun(s, steps)
    decreases |steps|
  {
    steps != [] ==>
      && (steps[0].TakePosition? ==> s.checkpoints == map[])
      && OneAtATime(Do(s, steps[0]), steps[1..])
  }

  /** Only the tears of the site file. */
  ghost predicate HarmlessTears(s: State, steps: seq<Step>)
    requires ValidRun(s, steps)
    decreases |steps|
  {
    steps != [] ==>
      && (steps[0].CrashWritingSite? || steps[0].FailWritingSite? ==> Harmless(s, steps[0]))
      && HarmlessTears(Do(s, steps[0]), steps[1..])
  }

  /** The one checkpoint in progress has not been overtaken, and once it has
    * written the site its watermark is there. */
  ghost predicate Alone(s: State) {
    && (forall c, d :: c in s.checkpoints && d in s.checkpoints ==> c == d)
    && forall c :: c in s.checkpoints ==>
         && !s.checkpoints[c].stale
         && (s.checkpoints[c].stage in {SiteWritten, MarkWritten, LogCut} ==>
             s.site == Some(s.checkpoints[c].watermark))
  }

  lemma AloneStep(s: State, step: Step)
    requires Alone(s) && Enabled(s, step) && (step.TakePosition? ==> s.checkpoints == map[])
    ensures Alone(Do(s, step))
  {
  }

  lemma AloneIsHarmless(s: State, step: Step)
    requires Inv(s) && Alone(s) && Enabled(s, step) && !step.CrashWritingSite? && !step.FailWritingSite?
    ensures Harmless(s, step)
  {
    if step.WriteSite? || step.WriteSiteAgain? {
      FreshSiteIsHarmless(s, step);
    }
    if step.CutLog? || step.CrashCuttingLog? {
      FreshCutIsHarmless(s, step);
    }
  }

  lemma {:induction false} AloneRunIsHarmless(s: State, steps: seq<Step>)
    requires Inv(s) && Alone(s) && ValidRun(s, steps) && OneAtATime(s, steps) && HarmlessTears(s, steps)
    ensures HarmlessRun(s, steps)
    decreases |steps|
  {
    if steps != [] {
      hide Inv, Do, Harmless, Enabled, Alone;
      if !steps[0].CrashWritingSite? && !steps[0].FailWritingSite? {
        AloneIsHarmless(s, steps[0]);
      }
      StepKeepsInvIff(s, steps[0]);
      AloneStep(s, steps[0]);
      AloneRunIsHarmless(Do(s, steps[0]), steps[1..]);
    }
  }

  /** Over every run whose checkpoints do not overlap, only a tear of the site
    * file can make an id be handed out again. */
  lemma SeparateCheckpointsReuseNothing(steps: seq<Step>)
    requires ValidRun(INITIAL, steps) && OneAtATime(INITIAL, steps) && HarmlessTears(INITIAL, steps)
    requires Execute(INITIAL, steps).running
    ensures NextIsNew(Execute(INITIAL, steps))
  {
    AloneRunIsHarmless(INITIAL, steps);
    IdsAreNeverReused(steps);
  }

  // ---------- runs that hand an id out twice ----------

  ghost predicate Leads(s: State, steps: seq<Step>, s': State) {
    ValidRun(s, steps) && Execute(s, steps) == s'
  }

  lemma OneStep(s: State, step: Step, s': State)
    requires Enabled(s, step) && Do(s, step) == s'
    ensures Leads(s, [step], s')
  {
    assert [step][1..] == [];
  }

  lemma {:induction false} Then(s: State, a: seq<Step>, s': State, b: seq<Step>, s'': State)
    requires Leads(s, a, s') && Leads(s', b, s'')
    ensures Leads(s, a + b, s'')
    decreases |a|
  {
    hide Do, Enabled;
    if a == [] {
      assert a + b == b;
    } else {
      assert (a + b)[1..] == a[1..] + b;
      Then(Do(s, a[0]), a[1..], s', b, s'');
    }
  }

  const RECORD_BYTES: Bytes := 25

  function Commit(id: nat): seq<Step> {
    [Allocate] + ([Append(id, RECORD_BYTES)] + ([Write(1)] + [Sync]))
  }

  lemma CommitRun(s: State, id: nat)
    requires s.running && s.buffer == s.tail == [] && id == s.counter + 1
    ensures var disk := s.disk + [Record(id, RECORD_BYTES)];
            Leads(s, Commit(id), OnDisk(s.(counter := id, handedOut := s.handedOut + {id}), disk))
  {
    var r := Record(id, RECORD_BYTES);
    var s1 := s.(counter := id, handedOut := s.handedOut + {id});
    var s2, s3, s4 := s1.(buffer := [r]), s1.(tail := [r]), OnDisk(s1, s.disk + [r]);
    OneStep(s, Allocate, s1);
    OneStep(s1, Append(id, RECORD_BYTES), s2);
    OneStep(s2, Write(1), s3);
    OneStep(s3, Sync, s4);
    hide Do, Enabled, Leads, OnDisk;
    Then(s2, [Write(1)], s3, [Sync], s4);
    Then(s1, [Append(id, RECORD_BYTES)], s2, [Write(1)] + [Sync], s4);
    Then(s, [Allocate], s1, [Append(id, RECORD_BYTES)] + ([Write(1)] + [Sync]), s4);
  }

  function Start(c: nat): seq<Step> {
    [TakePosition(c)] + ([ReadCounter(c)] + [SyncForSite(c)])
  }

  lemma StartRun(s: State, c: nat)
    requires s.running && s.tail == [] && c !in s.checkpoints
    ensures Leads(s, Start(c), OnDisk(s, s.disk).(
                    checkpoints := s.checkpoints[c := Checkpoint(LogSynced, Length(s.disk), s.counter, false)]))
  {
    var p := Checkpoint(LogSynced, Length(s.disk), s.counter, false);
    assert Log(s) == s.disk;
    var s1 := s.(checkpoints := s.checkpoints[c := p.(stage := Positioned, watermark := 0)]);
    var s2 := s.(checkpoints := s.checkpoints[c := p.(stage := Marked)]);
    var s3 := OnDisk(s, s.disk).(checkpoints := s.checkpoints[c := p]);
    OneStep(s, TakePosition(c), s1);
    OneStep(s1, ReadCounter(c), s2);
    OneStep(s2, SyncForSite(c), s3);
    hide Do, Enabled, Leads, OnDisk;
    Then(s1, [ReadCounter(c)], s2, [SyncForSite(c)], s3);
    Then(s, [TakePosition(c)], s1, [ReadCounter(c)] + [SyncForSite(c)], s3);
  }

  function Shorten(c: nat): seq<Step> {
    [WriteSite(c)] + ([WriteMark(c)] + [CutLog(c)])
  }

  /** A checkpoint that no record follows leaves its mark alone in the log. */
  lemma ShortenRun(s: State, c: nat)
    requires s.running && s.tail == [] && At(s, c, LogSynced) && s.checkpoints[c].at == Length(s.disk)
    ensures Leads(s, Shorten(c), s.(site := Some(s.checkpoints[c].watermark), disk := [Mark],
                                    checkpoints := Outdated(s.checkpoints, c)))
  {
    var s1 := Moved(s.(site := Some(s.checkpoints[c].watermark)), c, SiteWritten);
    var s2 := Moved(s1.(tail := [Mark]), c, MarkWritten);
    var s3 := s.(site := Some(s.checkpoints[c].watermark), disk := [Mark], checkpoints := Outdated(s.checkpoints, c));
    CutOfBoth(s.disk, [Mark], Length(s.disk));
    assert Cut(s.disk + [Mark], s2.checkpoints[c].at) == [Mark] by {
      StartsWithAll([Mark]);
    }
    assert Ids([Mark]) == {} && s.history + {} == s.history;
    hide Length, Cut, Ids;
    assert Outdated(s2.checkpoints, c) == s3.checkpoints;
    OneStep(s, WriteSite(c), s1);
    OneStep(s1, WriteMark(c), s2);
    OneStep(s2, CutLog(c), s3);
    hide Do, Enabled, Leads, Moved, Outdated;
    Then(s1, [WriteMark(c)], s2, [CutLog(c)], s3);
    Then(s, [WriteSite(c)], s1, [WriteMark(c)] + [CutLog(c)], s3);
  }

  /** Id 1 is committed and checkpoint 0 has started. */
  lemma FirstStarted()
    ensures Leads(INITIAL, Commit(1) + Start(0),
                  State(true, 1, {1}, [], [Record(1, RECORD_BYTES)], [], None,
                        map[0 := Checkpoint(LogSynced, RECORD_BYTES, 1, false)], {1}))
  {
    var disk := [Record(1, RECORD_BYTES)];
    var s1 := State(true, 1, {1}, [], disk, [], None, map[], {1});
    assert Ids(disk) == {1} by {
      assert disk[0] in disk;
    }
    assert INITIAL.disk + disk == disk && Length(disk) == RECORD_BYTES;
    CommitRun(INITIAL, 1);
    assert OnDisk(INITIAL.(counter := 1, handedOut := {1}), disk) == s1;
    StartRun(s1, 0);
    var s2 := OnDisk(s1, disk).(checkpoints := map[0 := Checkpoint(LogSynced, RECORD_BYTES, 1, false)]);
    hide Leads;
    Then(INITIAL, Commit(1), s1, Start(0), s2);
  }

  function TornRun(): seq<Step> {
    Commit(1) + Start(0) + Shorten(0) + ([CrashWritingSite(0, 0)] + [Reopen])
  }

  /** A torn site: id 1 is durable, the log is cut, the site is torn, and the next
    * id handed out is 1 again. */
  lemma TornSiteReusesAnId()
    ensures ValidRun(INITIAL, TornRun())
    ensures var s := Execute(INITIAL, TornRun()); s.running && 1 in s.history && Do(s, Allocate).counter == 1
  {
    var p := Checkpoint(LogSynced, RECORD_BYTES, 1, false);
    var s2 := State(true, 1, {1}, [], [Record(1, RECORD_BYTES)], [], None, map[0 := p], {1});
    FirstStarted();
    assert Length(s2.disk) == RECORD_BYTES;
    ShortenRun(s2, 0);
    var s3 := s2.(site := Some(1), disk := [Mark], checkpoints := map[0 := p.(stage := LogCut, at := 0)]);
    assert Outdated(s2.checkpoints, 0) == s3.checkpoints;
    TornEnd(s3);
    var s5 := State(true, 0, {}, [], [Mark], [], None, map[], {1});
    hide Leads, Outdated, Length, Ids;
    Then(INITIAL, Commit(1) + Start(0), s2, Shorten(0), s3);
    Then(INITIAL, Commit(1) + Start(0) + Shorten(0), s3, [CrashWritingSite(0, 0)] + [Reopen], s5);
    assert Leads(INITIAL, TornRun(), s5);
    LeadsTo(INITIAL, TornRun(), s5);
  }

  lemma LeadsTo(s: State, steps: seq<Step>, s': State)
    requires Leads(s, steps, s')
    ensures ValidRun(s, steps) && Execute(s, steps) == s'
  {
  }

  lemma TornEnd(s: State)
    requires s.running && s.disk == [Mark] && s.tail == [] && At(s, 0, LogCut) && s.history == {1}
    ensures Leads(s, [CrashWritingSite(0, 0)] + [Reopen], State(true, 0, {}, [], [Mark], [], None, map[], {1}))
  {
    var torn := State(false, 0, {}, [], [Mark], [], None, map[], {1});
    assert Ids([Mark]) == {} && [Mark] + [] == [Mark];
    OneStep(s, CrashWritingSite(0, 0), torn);
    OneStep(torn, Reopen, torn.(running := true));
    hide Leads, Do;
    Then(s, [CrashWritingSite(0, 0)], torn, [Reopen], torn.(running := true));
  }

  function OverlappingRun(): seq<Step> {
    Commit(1) + Start(0) + Commit(2) + Start(1) + Shorten(1) + ([WriteSiteAgain(1)] + ([WriteSite(0)] + EndAndOpen()))
  }

  function EndAndOpen(): seq<Step> {
    [Crash(0)] + [Reopen]
  }

  /** Overlapping checkpoints, and no crash in either: checkpoint 0 reads the
    * counter, id 2 is committed, checkpoint 1 runs from start to end, and then
    * checkpoint 0 writes its lower watermark over the other's.  The process ends,
    * and after the next start id 2 is handed out again. */
  lemma OverlapReusesAnId()
    ensures ValidRun(INITIAL, OverlappingRun())
    ensures var s := Execute(INITIAL, OverlappingRun()); s.running && 2 in s.history && Do(s, Allocate).counter == 2
  {
    var p, q := Checkpoint(LogSynced, RECORD_BYTES, 1, false), Checkpoint(LogSynced, 2 * RECORD_BYTES, 2, false);
    var r1, r2 := Record(1, RECORD_BYTES), Record(2, RECORD_BYTES);
    var s2 := State(true, 1, {1}, [], [r1], [], None, map[0 := p], {1});
    FirstStarted();
    SecondStarted();
    var s4 := State(true, 2, {1, 2}, [], [r1, r2], [], None, map[0 := p, 1 := q], {1, 2});
    OvertakenEnd();
    var s8 := State(true, 1, {}, [], [Mark], [], Some(1), map[], {1, 2});
    hide Leads;
    var rest := [WriteSiteAgain(1)] + ([WriteSite(0)] + EndAndOpen());
    Then(INITIAL, Commit(1) + Start(0), s2, Commit(2) + Start(1), s4);
    Then(INITIAL, Commit(1) + Start(0) + (Commit(2) + Start(1)), s4, Shorten(1) + rest, s8);
    assert OverlappingRun() == Commit(1) + Start(0) + (Commit(2) + Start(1)) + (Shorten(1) + rest);
  }

  lemma TwoRecords(a: nat, b: nat)
    ensures var log := [Record(a, RECORD_BYTES), Record(b, RECORD_BYTES)];
            Ids(log) == {a, b} && Length(log) == 2 * RECORD_BYTES
  {
    var r1, r2 := Record(a, RECORD_BYTES), Record(b, RECORD_BYTES);
    assert [r1, r2] == [r1] + [r2] && r1 in [r1, r2] && r2 in [r1, r2];
    LengthOfBoth([r1], [r2]);
  }

  lemma SecondStarted()
    ensures var p := Checkpoint(LogSynced, RECORD_BYTES, 1, false);
            var q := Checkpoint(LogSynced, 2 * RECORD_BYTES, 2, false);
            var r1, r2 := Record(1, RECORD_BYTES), Record(2, RECORD_BYTES);
            Leads(State(true, 1, {1}, [], [r1], [], None, map[0 := p], {1}), Commit(2) + Start(1),
                  State(true, 2, {1, 2}, [], [r1, r2], [], None, map[0 := p, 1 := q], {1, 2}))
  {
    hide Do, Enabled, Leads, Length, Ids, Commit, Start;
    var p, q := Checkpoint(LogSynced, RECORD_BYTES, 1, false), Checkpoint(LogSynced, 2 * RECORD_BYTES, 2, false);
    var r1, r2 := Record(1, RECORD_BYTES), Record(2, RECORD_BYTES);
    var s2 := State(true, 1, {1}, [], [r1], [], None, map[0 := p], {1});
    var s3 := State(true, 2, {1, 2}, [], [r1, r2], [], None, map[0 := p], {1, 2});
    TwoRecords(1, 2);
    CommitRun(s2, 2);
    assert [r1] + [r2] == [r1, r2];
    assert OnDisk(s2.(counter := 2, handedOut := {1} + {2}), [r1, r2]) == s3;
    StartRun(s3, 1);
    var s4 := State(true, 2, {1, 2}, [], [r1, r2], [], None, map[0 := p, 1 := q], {1, 2});
    assert OnDisk(s3, [r1, r2]).(checkpoints := s3.checkpoints[1 := q]) == s4;
    Then(s2, Commit(2), s3, Start(1), s4);
  }

  lemma OvertakenEnd()
    ensures var p := Checkpoint(LogSynced, RECORD_BYTES, 1, false);
            var q := Checkpoint(LogSynced, 2 * RECORD_BYTES, 2, false);
            var r1, r2 := Record(1, RECORD_BYTES), Record(2, RECORD_BYTES);
            Leads(State(true, 2, {1, 2}, [], [r1, r2], [], None, map[0 := p, 1 := q], {1, 2}),
                  Shorten(1) + ([WriteSiteAgain(1)] + ([WriteSite(0)] + EndAndOpen())),
                  State(true, 1, {}, [], [Mark], [], Some(1), map[], {1, 2}))
  {
    hide Do, Enabled, Leads, Length, Ids, Shorten, EndAndOpen;
    var p, q := Checkpoint(LogSynced, RECORD_BYTES, 1, false), Checkpoint(LogSynced, 2 * RECORD_BYTES, 2, false);
    var r1, r2 := Record(1, RECORD_BYTES), Record(2, RECORD_BYTES);
    var s4 := State(true, 2, {1, 2}, [], [r1, r2], [], None, map[0 := p, 1 := q], {1, 2});
    TwoRecords(1, 2);
    ShortenRun(s4, 1);
    var s5 := State(true, 2, {1, 2}, [], [Mark], [], Some(2),
                    map[0 := p.(stale := true), 1 := q.(stage := LogCut, at := 0)], {1, 2});
    assert Outdated(s4.checkpoints, 1) == s5.checkpoints;
    var s8 := State(true, 1, {}, [], [Mark], [], Some(1), map[], {1, 2});
    hide Outdated;
    OvertakenSite(s5, s8);
    Then(s4, Shorten(1), s5, [WriteSiteAgain(1)] + ([WriteSite(0)] + EndAndOpen()), s8);
  }

  lemma OvertakenSite(s5: State, s8: State)
    requires s5.running && s5.disk == [Mark] && s5.tail == [] && s5.history == {1, 2}
    requires At(s5, 0, LogSynced) && s5.checkpoints[0].watermark == 1 && At(s5, 1, LogCut)
    requires s8 == State(true, 1, {}, [], [Mark], [], Some(1), map[], {1, 2})
    ensures Leads(s5, [WriteSiteAgain(1)] + ([WriteSite(0)] + EndAndOpen()), s8)
  {
    var s6 := Do(s5, WriteSiteAgain(1));
    var s7 := Do(s6, WriteSite(0));
    OneStep(s5, WriteSiteAgain(1), s6);
    OneStep(s6, WriteSite(0), s7);
    ReopenedAtOne(s7);
    hide Leads, Do, Enabled, EndAndOpen;
    Then(s6, [WriteSite(0)], s7, EndAndOpen(), s8);
    Then(s5, [WriteSiteAgain(1)], s6, [WriteSite(0)] + EndAndOpen(), s8);
  }

  lemma ReopenedAtOne(s: State)
    requires s.running && s.disk == [Mark] && s.tail == [] && s.site == Some(1) && s.history == {1, 2}
    ensures Leads(s, EndAndOpen(), State(true, 1, {}, [], [Mark], [], Some(1), map[], {1, 2}))
  {
    var closed := State(false, 0, {}, [], [Mark], [], Some(1), map[], {1, 2});
    assert Ids([Mark]) == {} && [Mark] + [] == [Mark];
    OneStep(s, Crash(0), closed);
    OneStep(closed, Reopen, closed.(running := true, counter := 1));
    hide Leads, Do;
    Then(s, [Crash(0)], closed, [Reopen], closed.(running := true, counter := 1));
  }

  // ---------- the allocator ----------

  class Allocator {
    var counter: nat

    constructor ()
      ensures counter == 0
    {
      counter := 0;
    }

    method Allocate() returns (id: nat)
      modifies this
      ensures id == counter == old(counter) + 1
    {
      counter := counter + 1;
      id := counter;
    }

    /** `advance_past`: the compare-and-swap loop.  `others` are the values the
      * counter takes when a concurrent allocator wins the race before each of
      * this caller's attempts. */
    method AdvancePast(maxUsed: nat, others: seq<nat>)
      requires others != [] ==> others[0] > counter
      requires forall i, j :: 0 <= i < j < |others| ==> others[i] < others[j]
      modifies this
      ensures maxUsed <= counter && old(counter) <= counter
      ensures counter == maxUsed || counter == old(counter) || counter in others
    {
      var observed := counter;
      var attempts := 0;
      while observed < maxUsed
        invariant 0 <= attempts <= |others|
        invariant counter == observed >= old(counter)
        invariant observed == old(counter) || observed in others
        invariant attempts < |others| ==> others[attempts] > observed
        decreases |others| - attempts
      {
        if attempts < |others| {
          counter := others[attempts];
          observed := counter;
          attempts := attempts + 1;
        } else {
          counter := maxUsed;
          return;
        }
      }
    }
  }
}
