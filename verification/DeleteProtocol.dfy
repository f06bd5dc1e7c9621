/** The write order of `DELETE` (`src/executor/delete.rs`) and what readers see
  * of a statement in progress, abandoned, rolled back or committed.
  *
  * A delete appends an unlinked tombstone, registers it, links it to the row's
  * current version, then removes the row's index entries.  The statement can be
  * dropped between any two of these writes.  The results: until commit no scan
  * notices, whatever was executed and whether or not it is rolled back; after
  * commit exactly the deleted rows are gone.
  */
module DeleteProtocol {
  import opened Options
  import opened Values
  import opened Streams
  import opened VersionHeap
  import opened DataScan
  import opened TombstoneOverlay

  datatype Entry = Entry(key: seq<Byte>, rid: Rid)

  /** One table: its pages, the versions registered for the deleter, and its
    * indexes, the primary key's first.  An index may hold an entry twice. */
  datatype Store = Store(heap: Heap, registered: set<Rid>, indexes: seq<multiset<Entry>>)

  /** The key of a row in each index; a row may have no key in one. */
  type KeysOf = Row -> seq<Option<seq<Byte>>>

  /** One row to delete, and whether its tombstone needs a new page. */
  datatype Delete = Delete(rid: Rid, newPage: bool)

  // ---------- the writes of one delete ----------

  function NewSlot(h: Heap, newPage: bool): Rid {
    if newPage || |h| == 0 then Rid(|h|, 0) else Rid(|h| - 1, |h[|h| - 1]|)
  }

  function Append(h: Heap, slot: Slot, newPage: bool): Heap {
    if newPage || |h| == 0 then h + [[slot]] else h[|h| - 1 := h[|h| - 1] + [slot]]
  }

  function Tombstone(tx: nat, target: Option<Rid>): Slot {
    Version(Header(tx, DELETED_TX, target), [])
  }

  function Without(index: multiset<Entry>, key: Option<seq<Byte>>, rid: Rid): multiset<Entry> {
    if key.None? then index else index - multiset{Entry(key.value, rid)}
  }

  function With(index: multiset<Entry>, key: Option<seq<Byte>>, rid: Rid): multiset<Entry> {
    if key.None? then index else index + multiset{Entry(key.value, rid)}
  }

  function KeyAt(keys: seq<Option<seq<Byte>>>, i: nat): Option<seq<Byte>> {
    if i < |keys| then keys[i] else None
  }

  /** The first `n` indexes lose the row's entry. */
  function Cleaned(indexes: seq<multiset<Entry>>, keys: seq<Option<seq<Byte>>>, rid: Rid, n: nat)
    : seq<multiset<Entry>>
  {
    seq(|indexes|, i requires 0 <= i < |indexes| =>
      if i < n then Without(indexes[i], KeyAt(keys, i), rid) else indexes[i])
  }

  lemma CleanedStep(indexes: seq<multiset<Entry>>, keys: seq<Option<seq<Byte>>>, rid: Rid, i: nat)
    requires i < |indexes|
    ensures var c := Cleaned(indexes, keys, rid, i);
            c[i] == indexes[i] && Cleaned(indexes, keys, rid, i + 1) == c[i := Without(c[i], KeyAt(keys, i), rid)]
  {
  }

  /** Number of writes of a complete delete. */
  function Writes(s: Store): nat {
    3 + |s.indexes|
  }

  /** The table after the first `n` writes. */
  function After(s: Store, tx: nat, keysOf: KeysOf, d: Delete, n: nat): Store
    requires Has(s.heap, d.rid)
  {
    Store(
      if n == 0 then s.heap
      else Append(s.heap, Tombstone(tx, if n >= 3 then Some(d.rid) else None), d.newPage),
      if n >= 2 then s.registered + {NewSlot(s.heap, d.newPage)} else s.registered,
      Cleaned(s.indexes, keysOf(RowAt(s.heap, d.rid)), d.rid, if n >= 3 then n - 3 else 0))
  }

  /** A complete delete takes the row's entry out of every index that has a key for
    * it, once, and touches no other entry. */
  lemma CompleteDeleteUnindexes(s: Store, tx: nat, keysOf: KeysOf, d: Delete, i: nat, e: Entry)
    requires Has(s.heap, d.rid) && i < |s.indexes|
    ensures var after := After(s, tx, keysOf, d, Writes(s)).indexes;
            && |after| == |s.indexes|
            && after[i][e] ==
               if KeyAt(keysOf(RowAt(s.heap, d.rid)), i) == Some(e.key) && e.rid == d.rid && e in s.indexes[i]
               then s.indexes[i][e] - 1 else s.indexes[i][e]
  {
  }

  lemma AppendFacts(h: Heap, slot: Slot, newPage: bool)
    requires slot.Version?
    ensures var h', t := Append(h, slot, newPage), NewSlot(h, newPage);
            && Extends(h, h') && !Has(h, t) && Has(h', t) && At(h', t) == slot.header
            && (forall r :: Has(h', r) <==> Has(h, r) || r == t)
            && (forall r :: Has(h, r) ==> At(h', r) == At(h, r) && Precedes(r, t))
  {
    var h', t := Append(h, slot, newPage), NewSlot(h, newPage);
    forall p | 0 <= p < |h| ensures h[p] <= h'[p] {
    }
    forall r | Has(h, r) ensures Has(h', r) && At(h', r) == At(h, r) {
      OldSlots(h, h', r);
    }
  }

  lemma LinkingTombstone(h: Heap, tx: nat, rid: Rid, newPage: bool)
    ensures var h', t := Append(h, Tombstone(tx, None), newPage), NewSlot(h, newPage);
            && Has(h', t)
            && h'[t.page := h'[t.page][t.slot := Tombstone(tx, Some(rid))]]
               == Append(h, Tombstone(tx, Some(rid)), newPage)
  {
    var h', t := Append(h, Tombstone(tx, None), newPage), NewSlot(h, newPage);
    assert h'[t.page][t.slot := Tombstone(tx, Some(rid))] == Append(h, Tombstone(tx, Some(rid)), newPage)[t.page];
  }

  // ---------- what every write keeps ----------

  /** Over the table `h0` as it was: only tombstones of `tx` were added, and a
    * linked one is registered. */
  ghost predicate Safe(h0: Heap, s: Store, tx: nat) {
    && Overlay(h0, s.heap)
    && (forall t :: Has(s.heap, t) && !Has(h0, t) ==> At(s.heap, t).createTx == tx)
    && (forall t :: Has(s.heap, t) && !Has(h0, t) && At(s.heap, t).next.Some? ==> t in s.registered)
    && (forall t :: t in s.registered ==> Has(s.heap, t) && !Has(h0, t))
  }

  ghost predicate Fresh(h0: Heap, tx: nat) {
    tx != 0 && forall r :: Has(h0, r) ==> At(h0, r).createTx != tx
  }

  lemma ExtendsTrans(h0: Heap, h: Heap, h': Heap)
    requires Extends(h0, h) && Extends(h, h')
    ensures Extends(h0, h')
  {
    forall p | 0 <= p < |h0| ensures h0[p] <= h'[p] {
      assert h0[p] <= h[p] <= h'[p];
    }
  }

  lemma WriteKeepsSafe(h0: Heap, s: Store, tx: nat, keysOf: KeysOf, d: Delete, n: nat)
    requires WellFormed(h0) && Safe(h0, s, tx) && tx != 0 && IsStandingTail(s.heap, d.rid)
    ensures Safe(h0, After(s, tx, keysOf, d, n), tx)
    ensures forall v :: IsTarget(h0, After(s, tx, keysOf, d, n).heap, v)
                        <==> IsTarget(h0, s.heap, v) || (n >= 3 && v == d.rid)
  {
    var s' := After(s, tx, keysOf, d, n);
    if n > 0 {
      var slot := Tombstone(tx, if n >= 3 then Some(d.rid) else None);
      AppendFacts(s.heap, slot, d.newPage);
      AppendKeepsOverlay(h0, s.heap, slot, d);
      TargetsAfterAppend(h0, s.heap, slot, d);
    }
  }

  lemma TailBelow(h0: Heap, h: Heap, v: Rid)
    requires Overlay(h0, h) && IsStandingTail(h, v)
    ensures IsStandingTail(h0, v)
  {
    OldSlots(h0, h, v);
    forall w | Link(h0, w, v) ensures IsAborted(At(h0, w)) {
      OldSlots(h0, h, w);
      assert Link(h, w, v);
    }
  }

  lemma AppendKeepsOverlay(h0: Heap, h: Heap, slot: Slot, d: Delete)
    requires Overlay(h0, h) && IsStandingTail(h, d.rid) && slot.Version? && IsDeleted(slot.header)
    requires forall t :: Has(h, t) && !Has(h0, t) ==> !IsAborted(At(h, t))
    requires slot.header.next == None || slot.header.next == Some(d.rid)
    ensures Overlay(h0, Append(h, slot, d.newPage))
  {
    var h', new' := Append(h, slot, d.newPage), NewSlot(h, d.newPage);
    AppendFacts(h, slot, d.newPage);
    ExtendsTrans(h0, h, h');
    TailBelow(h0, h, d.rid);
    forall r | Has(h0, r) ensures Has(h, r) {
      OldSlots(h0, h, r);
    }
    forall w, v | Link(h', w, v) ensures Link(h, w, v) || (w == new' && v == d.rid) {
    }
  }

  lemma TargetsAfterAppend(h0: Heap, h: Heap, slot: Slot, d: Delete)
    requires Overlay(h0, h) && slot.Version?
    requires slot.header.next == None || slot.header.next == Some(d.rid)
    ensures forall v :: IsTarget(h0, Append(h, slot, d.newPage), v)
                        <==> IsTarget(h0, h, v) || slot.header.next == Some(v)
  {
    var h', new' := Append(h, slot, d.newPage), NewSlot(h, d.newPage);
    AppendFacts(h, slot, d.newPage);
    assert !Has(h0, new') by {
      if Has(h0, new') {
        OldSlots(h0, h, new');
      }
    }
    forall v ensures IsTarget(h0, h', v) <==> IsTarget(h0, h, v) || slot.header.next == Some(v) {
      if IsTarget(h0, h, v) {
        var t :| Link(h, t, v) && !Has(h0, t);
        assert Link(h', t, v);
      }
      if slot.header.next == Some(v) {
        assert Link(h', new', v);
      }
      if IsTarget(h0, h', v) {
        var t :| Link(h', t, v) && !Has(h0, t);
        assert t == new' || Link(h, t, v);
      }
    }
  }

  // ---------- whole statements ----------

  /** The deletes of a statement, executed completely and in order. */
  function Run(s: Store, tx: nat, keysOf: KeysOf, ds: seq<Delete>): Store
    requires ValidRun(s, tx, keysOf, ds)
    decreases |ds|
  {
    if ds == [] then s
    else Run(After(s, tx, keysOf, ds[0], Writes(s)), tx, keysOf, ds[1..])
  }

  /** Every delete finds its row where the primary-key index says it is: at a
    * living version nothing standing replaces. */
  ghost predicate ValidRun(s: Store, tx: nat, keysOf: KeysOf, ds: seq<Delete>)
    decreases |ds|
  {
    ds != [] ==>
      && IsStandingTail(s.heap, ds[0].rid)
      && ValidRun(After(s, tx, keysOf, ds[0], Writes(s)), tx, keysOf, ds[1..])
  }

  function Targets(ds: seq<Delete>): set<Rid> {
    set d | d in ds :: d.rid
  }

  lemma {:induction false} RunKeepsSafe(h0: Heap, s: Store, tx: nat, keysOf: KeysOf, ds: seq<Delete>)
    requires WellFormed(h0) && Safe(h0, s, tx) && tx != 0 && ValidRun(s, tx, keysOf, ds)
    ensures Safe(h0, Run(s, tx, keysOf, ds), tx)
    ensures forall v :: IsTarget(h0, Run(s, tx, keysOf, ds).heap, v) <==> IsTarget(h0, s.heap, v) || v in Targets(ds)
    decreases |ds|
  {
    if ds != [] {
      hide Safe, IsTarget, WellFormed, IsStandingTail;
      var s' := After(s, tx, keysOf, ds[0], Writes(s));
      WriteKeepsSafe(h0, s, tx, keysOf, ds[0], Writes(s));
      RunKeepsSafe(h0, s', tx, keysOf, ds[1..]);
      assert forall v :: v in Targets(ds) <==> v == ds[0].rid || v in Targets(ds[1..]);
    }
  }

  /** Some complete deletes, then the first `n` writes of one more. */
  function Prefix(s: Store, tx: nat, keysOf: KeysOf, ds: seq<Delete>, d: Delete, n: nat): Store
    requires ValidRun(s, tx, keysOf, ds + [d])
  {
    ValidPrefix(s, tx, keysOf, ds, d);
    After(Run(s, tx, keysOf, ds), tx, keysOf, d, n)
  }

  lemma {:induction false} ValidPrefix(s: Store, tx: nat, keysOf: KeysOf, ds: seq<Delete>, d: Delete)
    requires ValidRun(s, tx, keysOf, ds + [d])
    ensures ValidRun(s, tx, keysOf, ds) && IsStandingTail(Run(s, tx, keysOf, ds).heap, d.rid)
    decreases |ds|
  {
    if ds == [] {
      assert ds + [d] == [d];
    } else {
      assert (ds + [d])[1..] == ds[1..] + [d];
      ValidPrefix(After(s, tx, keysOf, ds[0], Writes(s)), tx, keysOf, ds[1..], d);
    }
  }

  lemma StartIsSafe(s: Store, tx: nat)
    requires WellFormed(s.heap) && s.registered == {}
    ensures Safe(s.heap, s, tx) && forall v :: !IsTarget(s.heap, s.heap, v)
  {
  }

  /** After every write of a statement, a linked tombstone is registered. */
  lemma LinkedIsRegistered(s: Store, tx: nat, keysOf: KeysOf, ds: seq<Delete>, d: Delete, n: nat, t: Rid)
    requires WellFormed(s.heap) && s.registered == {} && tx != 0 && ValidRun(s, tx, keysOf, ds + [d])
    ensures Safe(s.heap, Prefix(s, tx, keysOf, ds, d, n), tx)
    ensures var s' := Prefix(s, tx, keysOf, ds, d, n);
            Has(s'.heap, t) && !Has(s.heap, t) && At(s'.heap, t).next.Some? ==> t in s'.registered
    ensures forall v :: IsTarget(s.heap, Prefix(s, tx, keysOf, ds, d, n).heap, v) ==> v in Targets(ds + [d])
  {
    hide WellFormed, IsStandingTail, ValidRun, After;
    StartIsSafe(s, tx);
    ValidPrefix(s, tx, keysOf, ds, d);
    RunKeepsSafe(s.heap, s, tx, keysOf, ds);
    WriteKeepsSafe(s.heap, Run(s, tx, keysOf, ds), tx, keysOf, d, n);
    hide IsTarget, Safe;
    assert forall v :: v in Targets(ds) || v == d.rid ==> v in Targets(ds + [d]) by {
      assert forall e :: e in ds || e == d ==> e in ds + [d];
    }
  }

  // ---------- what readers see ----------

  /** A new transaction on a table that others may be writing to as well. */
  ghost predicate CleanStart(s: Store, tx: nat, plan: Plan) {
    && WellFormed(s.heap) && s.registered == {} && Fresh(s.heap, tx)
    && AllFit(s.heap, plan.projection)
  }

  /** The reader counts the deleter as committed: it was not active when the scan
    * started, or the snapshot was taken; or it is the reader's own transaction. */
  predicate Counts(view: View, tx: nat) {
    if view.snapshot.None? then tx !in view.active
    else tx == view.snapshot.value.txId || tx !in view.snapshot.value.active
  }

  /** The version was committed, for the reader too if it has a snapshot. */
  predicate IsCommittedFor(view: View, hd: Header) {
    && hd.createTx != 0 && hd.commitTx != UNSET_TX && hd.commitTx != DELETED_TX
    && (view.snapshot.Some? ==>
        hd.createTx <= view.snapshot.value.highWater && hd.createTx !in view.snapshot.value.active)
  }

  /** Every version to be deleted is. */
  ghost predicate Shown(h0: Heap, view: View, ds: seq<Delete>) {
    forall v :: v in Targets(ds) && Has(h0, v) ==> IsCommittedFor(view, At(h0, v))
  }

  lemma ShownTargets(h0: Heap, h: Heap, view: View, ds: seq<Delete>)
    requires Overlay(h0, h) && Shown(h0, view, ds) && forall v :: IsTarget(h0, h, v) ==> v in Targets(ds)
    ensures TargetsShow(h0, h, view)
  {
    forall x | IsTarget(h0, h, x) ensures Has(h0, x) && Suppresses(view, At(h0, x)) {
      assert IsStandingTail(h0, x) && IsCommittedFor(view, At(h0, x));
    }
  }

  lemma OverlayFits(h0: Heap, h: Heap, projection: seq<nat>)
    requires Overlay(h0, h) && AllFit(h0, projection)
    ensures AllFit(h, projection)
  {
    forall r | Has(h, r) && !IsDeleted(At(h, r)) ensures Fits(projection, RowAt(h, r)) {
      OldSlots(h0, h, r);
    }
  }

  /** What a scan says of the table `h0` as it was: the full answer of `h0`, or
    * some of its rows and the over-deep error; the full answer if no walk in `h0`
    * is too deep and what is being deleted is shown. */
  ghost predicate TellsOf(h0: Heap, plan: Plan, ds: seq<Delete>, o: Outcome)
    requires LinksBack(h0) && AllFit(h0, plan.projection)
  {
    && UpToDepth(o, FullAnswer(h0, plan))
    && (NoDeepWalk(h0, plan.view) && Shown(h0, plan.view, ds) ==> o == FullAnswer(h0, plan))
  }

  /** While the deleter is active for a reader, a scan tells of the table before
    * the statement, after any number of its writes, whoever else is writing. */
  lemma UncommittedDeleteIsInvisible(s: Store, tx: nat, keysOf: KeysOf, ds: seq<Delete>, d: Delete, n: nat,
                                     plan: Plan, skipped: set<nat>)
    requires CleanStart(s, tx, plan) && ValidRun(s, tx, keysOf, ds + [d]) && !Counts(plan.view, tx)
    requires SkippablePages(Prefix(s, tx, keysOf, ds, d, n).heap, plan.view, skipped)
    ensures AllFit(Prefix(s, tx, keysOf, ds, d, n).heap, plan.projection)
    ensures TellsOf(s.heap, plan, ds + [d], ScanFrom(Prefix(s, tx, keysOf, ds, d, n).heap, plan, skipped, 0, 0))
  {
    var h' := Prefix(s, tx, keysOf, ds, d, n).heap;
    LinkedIsRegistered(s, tx, keysOf, ds, d, n, d.rid);
    assert Safe(s.heap, Prefix(s, tx, keysOf, ds, d, n), tx);
    assert HasEffect(s.heap, h', plan.view, NoEffect);
    hide ScanFrom, Select, ValidRun, Prefix, NoDeepWalk, SkippablePages, CurrentFrom, AllFit, Shown, TargetsShow;
    OverlayFits(s.heap, h', plan.projection);
    ScanUnderOverlay(s.heap, h', plan, NoEffect, skipped);
    if Shown(s.heap, plan.view, ds + [d]) {
      ShownTargets(s.heap, h', plan.view, ds + [d]);
    }
  }

  /** What rollback does to the pages: every version of `tx` is neutralised,
    * provided some version of `tx` was registered. */
  function Neutralised(slot: Slot, tx: nat): Slot {
    if slot.Version? && slot.header.createTx == tx
    then Version(slot.header.(createTx := 0, commitTx := DELETED_TX), slot.row)
    else slot
  }

  function RolledBack(h: Heap, tx: nat): Heap {
    seq(|h|, p requires 0 <= p < |h| => seq(|h[p]|, i requires 0 <= i < |h[p]| => Neutralised(h[p][i], tx)))
  }

  lemma {:induction false} RolledBackChain(h: Heap, tx: nat, w: Rid, v: Rid)
    requires LinksBack(h) && LinksBack(RolledBack(h, tx))
    ensures Newer(RolledBack(h, tx), w, v) <==> Newer(h, w, v)
    decreases w.page, w.slot
  {
    RolledBackSlots(h, tx, w);
    if Has(h, w) && At(h, w).next.Some? {
      var x := At(h, w).next.value;
      assert Link(h, w, x);
      RolledBackChain(h, tx, x, v);
    }
  }

  lemma RolledBackSlots(h: Heap, tx: nat, r: Rid)
    ensures var h' := RolledBack(h, tx);
            && (Has(h', r) <==> Has(h, r))
            && (Has(h, r) ==>
                At(h', r) == if At(h, r).createTx == tx then At(h, r).(createTx := 0, commitTx := DELETED_TX)
                             else At(h, r))
  {
  }

  /** Whatever a transaction wrote, after its rollback every reader sees the table
    * as if it had written nothing: other transactions' versions that it may see
    * and that no version of another transaction suppresses. */
  lemma RolledBackReads(h: Heap, tx: nat, view: View, v: Rid)
    requires LinksBack(h) && tx != 0
    ensures LinksBack(RolledBack(h, tx))
    ensures Current(RolledBack(h, tx), view, v) <==>
            && Has(h, v) && At(h, v).createTx != tx && !IsDeleted(At(h, v)) && Visible(view, At(h, v))
            && !exists w :: Newer(h, w, v) && At(h, w).createTx != tx && Suppresses(view, At(h, w))
  {
    var h' := RolledBack(h, tx);
    forall r ensures (Has(h', r) <==> Has(h, r)) && (Has(h, r) ==> At(h', r).next == At(h, r).next) {
      RolledBackSlots(h, tx, r);
    }
    assert forall w, u :: Link(h', w, u) <==> Link(h, w, u);
    RolledBackSlots(h, tx, v);
    forall w ensures Newer(h', w, v) <==> Newer(h, w, v) {
      RolledBackChain(h, tx, w, v);
    }
    forall w | Newer(h, w, v)
      ensures Suppresses(view, At(h', w)) <==> At(h, w).createTx != tx && Suppresses(view, At(h, w))
    {
      RolledBackSlots(h, tx, w);
    }
  }

  lemma RolledBackOverlay(h0: Heap, s: Store, tx: nat, view: View)
    requires WellFormed(h0) && Safe(h0, s, tx) && Fresh(h0, tx)
    ensures Overlay(h0, RolledBack(s.heap, tx)) && HasEffect(h0, RolledBack(s.heap, tx), view, NoEffect)
  {
    var h, h' := s.heap, RolledBack(s.heap, tx);
    forall r ensures Has(h', r) <==> Has(h, r) {
    }
    forall r | Has(h, r)
      ensures At(h', r).next == At(h, r).next
      ensures !Has(h0, r) ==> At(h', r) == Header(0, DELETED_TX, At(h, r).next)
    {
    }
    assert forall w, v :: Link(h', w, v) <==> Link(h, w, v);
    forall p | 0 <= p < |h0| ensures h0[p] <= h'[p] {
      assert h0[p] <= h[p];
      forall i | 0 <= i < |h0[p]| ensures h'[p][i] == h0[p][i] {
        assert h[p][i] == h0[p][i];
        if h0[p][i].Version? {
          assert Has(h0, Rid(p, i));
        }
      }
    }
  }

  /** A statement dropped after any number of writes and then reclaimed leaves the
    * scans of every reader telling of the table as it was, whoever else is
    * writing: with a registered version all of the deleter's versions are
    * neutralised, and without one no tombstone is linked. */
  lemma ReclaimedDeleteIsInvisible(s: Store, tx: nat, keysOf: KeysOf, ds: seq<Delete>, d: Delete, n: nat,
                                   plan: Plan, skipped: set<nat>)
    requires CleanStart(s, tx, plan) && ValidRun(s, tx, keysOf, ds + [d])
    requires SkippablePages(ReclaimedHeap(Prefix(s, tx, keysOf, ds, d, n), tx), plan.view, skipped)
    ensures AllFit(ReclaimedHeap(Prefix(s, tx, keysOf, ds, d, n), tx), plan.projection)
    ensures TellsOf(s.heap, plan, ds + [d],
                    ScanFrom(ReclaimedHeap(Prefix(s, tx, keysOf, ds, d, n), tx), plan, skipped, 0, 0))
  {
    var s' := Prefix(s, tx, keysOf, ds, d, n);
    var h' := ReclaimedHeap(s', tx);
    LinkedIsRegistered(s, tx, keysOf, ds, d, n, d.rid);
    assert Safe(s.heap, s', tx);
    hide ScanFrom, Select, ValidRun, Prefix, NoDeepWalk, SkippablePages, AllFit, CurrentFrom, Shown, TargetsShow;
    if s'.registered == {} {
      OverlayFits(s.heap, h', plan.projection);
      assert forall v :: !IsTarget(s.heap, h', v);
      var effect := if Counts(plan.view, tx) then Deletes else NoEffect;
      assert HasEffect(s.heap, h', plan.view, effect);
      ScanUnderOverlay(s.heap, h', plan, effect, skipped);
      AllSurvive(s.heap, h', CurrentFrom(s.heap, plan.view, 0, 0));
    } else {
      RolledBackOverlay(s.heap, s', tx, plan.view);
      OverlayFits(s.heap, h', plan.projection);
      ScanUnderOverlay(s.heap, h', plan, NoEffect, skipped);
    }
    if Shown(s.heap, plan.view, ds + [d]) {
      ReclaimedTargets(s.heap, s', tx, ds + [d]);
      ShownTargets(s.heap, h', plan.view, ds + [d]);
    }
  }

  /** Rollback links nothing. */
  lemma ReclaimedTargets(h0: Heap, s: Store, tx: nat, ds: seq<Delete>)
    requires forall v :: IsTarget(h0, s.heap, v) ==> v in Targets(ds)
    ensures forall v :: IsTarget(h0, ReclaimedHeap(s, tx), v) ==> v in Targets(ds)
  {
    var h' := ReclaimedHeap(s, tx);
    forall v | IsTarget(h0, h', v) ensures IsTarget(h0, s.heap, v) {
      var t :| Link(h', t, v) && !Has(h0, t);
      assert Link(s.heap, t, v);
    }
  }

  function ReclaimedHeap(s: Store, tx: nat): Heap {
    if s.registered == {} then s.heap else RolledBack(s.heap, tx)
  }

  lemma {:induction false} AllSurvive(h0: Heap, h: Heap, rids: seq<Rid>)
    requires LinksBack(h0) && forall v :: !IsTarget(h0, h, v)
    ensures Survivors(h0, h, rids) == rids
  {
    hide IsTarget;
    if rids != [] {
      AllSurvive(h0, h, rids[1..]);
    }
  }

  /** The row of `v` is deleted: `v` or a newer version of it is. */
  ghost predicate IsGone(h0: Heap, gone: set<Rid>, v: Rid)
    requires LinksBack(h0)
  {
    exists x :: x in gone && (x == v || Newer(h0, x, v))
  }

  /** The versions of rows that were not deleted, in their order. */
  ghost function Remaining(h0: Heap, rids: seq<Rid>, gone: set<Rid>): seq<Rid>
    requires LinksBack(h0)
  {
    if rids == [] then []
    else (if IsGone(h0, gone, rids[0]) then [] else [rids[0]]) + Remaining(h0, rids[1..], gone)
  }

  /** What remains, by membership; where the deleted versions are shown, a reader
    * misses those and no others. */
  lemma {:induction false} RemainingMembers(h0: Heap, view: View, rids: seq<Rid>, ds: seq<Delete>)
    requires LinksBack(h0)
    ensures forall r :: r in Remaining(h0, rids, Targets(ds)) <==> r in rids && !IsGone(h0, Targets(ds), r)
    ensures (forall r :: r in rids ==> Current(h0, view, r)) && Shown(h0, view, ds) ==>
            forall r :: r in Remaining(h0, rids, Targets(ds)) <==> r in rids && r !in Targets(ds)
    decreases |rids|
  {
    if rids != [] {
      if Current(h0, view, rids[0]) && Shown(h0, view, ds) {
        GoneIsDeleted(h0, view, ds, rids[0]);
      }
      hide IsGone, LinksBack, Current, Shown, Targets;
      RemainingMembers(h0, view, rids[1..], ds);
    }
  }

  lemma GoneIsDeleted(h0: Heap, view: View, ds: seq<Delete>, v: Rid)
    requires LinksBack(h0) && Current(h0, view, v) && Shown(h0, view, ds)
    ensures IsGone(h0, Targets(ds), v) <==> v in Targets(ds)
  {
    if IsGone(h0, Targets(ds), v) {
      var x :| x in Targets(ds) && (x == v || Newer(h0, x, v));
      if x != v {
        assert Suppressed(h0, view, v);
      }
    }
  }

  lemma {:induction false} SurvivorsRemain(h0: Heap, h: Heap, rids: seq<Rid>, gone: set<Rid>)
    requires LinksBack(h0) && forall v :: IsTarget(h0, h, v) <==> v in gone
    ensures Survivors(h0, h, rids) == Remaining(h0, rids, gone)
  {
    if rids != [] {
      assert IsDoomed(h0, h, rids[0]) <==> IsGone(h0, gone, rids[0]);
      hide IsTarget, IsDoomed, IsGone, LinksBack;
      SurvivorsRemain(h0, h, rids[1..], gone);
    }
  }

  /** After commit exactly the deleted rows are gone, for every reader that counts
    * the deleter as committed (and a scan of what is left is as complete as the
    * depth of its chains allows). */
  lemma CommittedDelete(s: Store, tx: nat, keysOf: KeysOf, ds: seq<Delete>, plan: Plan, skipped: set<nat>)
    requires CleanStart(s, tx, plan) && ValidRun(s, tx, keysOf, ds) && Counts(plan.view, tx)
    requires SkippablePages(Run(s, tx, keysOf, ds).heap, plan.view, skipped)
    ensures AllFit(Run(s, tx, keysOf, ds).heap, plan.projection)
    ensures var kept := Remaining(s.heap, CurrentFrom(s.heap, plan.view, 0, 0), Targets(ds));
            && (forall r :: r in kept ==> Has(s.heap, r) && !IsDeleted(At(s.heap, r)))
            && var o := ScanFrom(Run(s, tx, keysOf, ds).heap, plan, skipped, 0, 0);
               && UpToDepth(o, Select(plan, RowsAt(s.heap, kept)))
               && (NoDeepWalk(s.heap, plan.view) && Shown(s.heap, plan.view, ds) ==>
                   o == Select(plan, RowsAt(s.heap, kept)))
  {
    var h' := Run(s, tx, keysOf, ds).heap;
    StartIsSafe(s, tx);
    RunKeepsSafe(s.heap, s, tx, keysOf, ds);
    assert HasEffect(s.heap, h', plan.view, Deletes);
    hide ScanFrom, Select, ValidRun, Run, NoDeepWalk, SkippablePages, AllFit, CurrentFrom, Shown, TargetsShow;
    OverlayFits(s.heap, h', plan.projection);
    ScanUnderOverlay(s.heap, h', plan, Deletes, skipped);
    SurvivorsRemain(s.heap, h', CurrentFrom(s.heap, plan.view, 0, 0), Targets(ds));
    if Shown(s.heap, plan.view, ds) {
      ShownTargets(s.heap, h', plan.view, ds);
    }
  }
}
