/** What a snapshot sees (`src/transaction/snapshot.rs`,
  * `src/executor/data_scan.rs`), by transaction ids alone.
  *
  * A snapshot should go on seeing what was committed when it was taken, and its
  * own writes.  The results: what others write meanwhile changes nothing for it,
  * updates and inserts always, deletes if and only if the deleter was active when
  * the snapshot was taken; a transaction sees its own inserts and deletes, and an
  * updated row twice.
  */
module SnapshotReads {
  import opened Options
  import opened Values
  import opened Streams
  import opened VersionHeap
  import opened DataScan
  import opened TombstoneOverlay

  /** The version is another transaction's, which had not finished when the
    * snapshot was taken, or it was rolled back. */
  predicate WrittenSince(s: Snapshot, hd: Header) {
    if hd.createTx == 0 then IsDeleted(hd)
    else hd.createTx != s.txId && (hd.createTx > s.highWater || hd.createTx in s.active)
  }

  /** All that was added to `h0`. */
  ghost predicate OnlySince(s: Snapshot, h0: Heap, h: Heap) {
    && Extends(h0, h) && LinksBack(h0) && LinksBack(h)
    && forall t :: Has(h, t) && !Has(h0, t) ==> WrittenSince(s, At(h, t))
  }

  /** A delete by a transaction that began after the snapshot. */
  predicate IsLateDelete(s: Snapshot, hd: Header) {
    IsDeleted(hd) && hd.createTx != 0 && hd.createTx !in s.active
  }

  /** Such a delete was added to a row that the snapshot sees. */
  ghost predicate DeletedLate(h0: Heap, h: Heap, view: View, v: Rid)
    requires LinksBack(h) && view.snapshot.Some?
  {
    exists t :: Newer(h, t, v) && !Has(h0, t) && IsLateDelete(view.snapshot.value, At(h, t))
  }

  lemma {:induction false} OldChain(h0: Heap, h: Heap, w: Rid, v: Rid)
    requires Extends(h0, h) && LinksBack(h0) && LinksBack(h) && Has(h0, w)
    ensures Newer(h, w, v) <==> Newer(h0, w, v)
    decreases w.page, w.slot
  {
    OldSlots(h0, h, w);
    if At(h0, w).next.Some? {
      var x := At(h0, w).next.value;
      assert Link(h0, w, x) && Link(h, w, x);
      OldChain(h0, h, x, v);
    }
  }

  lemma SuppressedSince(h0: Heap, h: Heap, view: View, v: Rid)
    requires view.snapshot.Some? && OnlySince(view.snapshot.value, h0, h) && Has(h0, v)
    ensures Suppressed(h, view, v) <==> Suppressed(h0, view, v) || DeletedLate(h0, h, view, v)
  {
    if Suppressed(h0, view, v) {
      var w :| Newer(h0, w, v) && Suppresses(view, At(h0, w));
      OldChain(h0, h, w, v);
      OldSlots(h0, h, w);
      assert Newer(h, w, v) && Suppresses(view, At(h, w));
    }
    if Suppressed(h, view, v) {
      var w :| Newer(h, w, v) && Suppresses(view, At(h, w));
      if Has(h0, w) {
        OldChain(h0, h, w, v);
        OldSlots(h0, h, w);
      }
    }
    if DeletedLate(h0, h, view, v) {
      var t :| Newer(h, t, v) && !Has(h0, t) && IsLateDelete(view.snapshot.value, At(h, t));
      assert Suppresses(view, At(h, t));
    }
  }

  /** The versions a snapshot sees of the grown table: those it saw, without the
    * rows deleted late. */
  lemma CurrentSince(h0: Heap, h: Heap, view: View, v: Rid)
    requires view.snapshot.Some? && OnlySince(view.snapshot.value, h0, h)
    ensures Current(h, view, v) <==> Current(h0, view, v) && !DeletedLate(h0, h, view, v)
  {
    if Has(h0, v) {
      OldSlots(h0, h, v);
      SuppressedSince(h0, h, view, v);
    }
  }

  ghost predicate NoneDeletedLate(h0: Heap, h: Heap, view: View)
    requires LinksBack(h0) && LinksBack(h) && view.snapshot.Some?
  {
    forall v :: Current(h0, view, v) ==> !DeletedLate(h0, h, view, v)
  }

  /** Whatever others insert, update, delete, commit or roll back after a snapshot
    * was taken, it sees the same versions if and only if no row it sees is
    * deleted by a transaction that began later. */
  lemma SnapshotIsStableExactly(h0: Heap, h: Heap, view: View)
    requires view.snapshot.Some? && OnlySince(view.snapshot.value, h0, h)
    ensures CurrentFrom(h, view, 0, 0) == CurrentFrom(h0, view, 0, 0) <==> NoneDeletedLate(h0, h, view)
  {
    forall v
      ensures v in CurrentFrom(h, view, 0, 0) <==> v in CurrentFrom(h0, view, 0, 0) && !DeletedLate(h0, h, view, v)
      ensures v in CurrentFrom(h0, view, 0, 0) <==> Current(h0, view, v)
    {
      CurrentFromMembers(h, view, 0, 0, v);
      CurrentFromMembers(h0, view, 0, 0, v);
      CurrentSince(h0, h, view, v);
    }
    CurrentFromSorted(h, view, 0, 0);
    CurrentFromSorted(h0, view, 0, 0);
    hide DeletedLate, CurrentFrom, Current;
    if NoneDeletedLate(h0, h, view) {
      SameOrderedSet(CurrentFrom(h, view, 0, 0), CurrentFrom(h0, view, 0, 0));
    }
  }

  /** So if every delete is by a transaction that was active then, a statement with
    * the snapshot has the same full answer before and after. */
  lemma SnapshotAnswerIsStable(h0: Heap, h: Heap, plan: Plan)
    requires plan.view.snapshot.Some? && OnlySince(plan.view.snapshot.value, h0, h)
    requires AllFit(h0, plan.projection) && AllFit(h, plan.projection)
    requires forall t :: Has(h, t) && !Has(h0, t) ==> !IsLateDelete(plan.view.snapshot.value, At(h, t))
    ensures FullAnswer(h, plan) == FullAnswer(h0, plan)
  {
    SnapshotIsStableExactly(h0, h, plan.view);
    var rids := CurrentFrom(h0, plan.view, 0, 0);
    CurrentFromExist(h0, plan.view, 0, 0);
    CurrentFromExist(h, plan.view, 0, 0);
    forall r | r in rids ensures RowAt(h, r) == RowAt(h0, r) {
      OldSlots(h0, h, r);
    }
    assert RowsAt(h, rids) == RowsAt(h0, rids);
  }

  /** A row of transaction 1, and one version that replaces it. */
  function Replaced(row: Row, newer: Slot): Heap {
    [[Version(Header(1, 1, None), row), newer]]
  }

  /** It fails: a delete by a transaction that began after the snapshot hides the
    * row, though an update by the same transaction does not. */
  lemma LateDeleteHidesRow(row: Row, row': Row)
    ensures var view := View(Some(Snapshot(0, 8, {})), {});
            var deleted := Replaced(row, Version(Header(9, DELETED_TX, Some(Rid(0, 0))), []));
            var updated := Replaced(row, Version(Header(9, 9, Some(Rid(0, 0))), row'));
            && LinksBack(deleted) && LinksBack(updated)
            && CurrentFrom(deleted, view, 0, 0) == []
            && CurrentFrom(updated, view, 0, 0) == [Rid(0, 0)]
  {
    var view := View(Some(Snapshot(0, 8, {})), {});
    OneReplaced(row, Version(Header(9, DELETED_TX, Some(Rid(0, 0))), []), view);
    OneReplaced(row, Version(Header(9, 9, Some(Rid(0, 0))), row'), view);
  }

  lemma OneReplaced(row: Row, newer: Slot, view: View)
    requires newer.Version? && newer.header.next == Some(Rid(0, 0))
    ensures var h := Replaced(row, newer);
            && LinksBack(h)
            && CurrentFrom(h, view, 0, 0) ==
               (if Visible(view, Header(1, 1, None)) && !Suppresses(view, newer.header) then [Rid(0, 0)] else [])
               + (if !IsDeleted(newer.header) && Visible(view, newer.header) then [Rid(0, 1)] else [])
  {
    var h := Replaced(row, newer);
    assert forall w, v :: Link(h, w, v) <==> w == Rid(0, 1) && v == Rid(0, 0);
    assert forall w, v :: Newer(h, w, v) ==> w == Rid(0, 1) && v == Rid(0, 0);
    assert Newer(h, Rid(0, 1), Rid(0, 0));
    assert Suppressed(h, view, Rid(0, 0)) <==> Suppresses(view, newer.header);
    assert !Suppressed(h, view, Rid(0, 1));
    hide Visible, Suppresses;
    assert CurrentFrom(h, view, 1, 0) == [] && CurrentFrom(h, view, 0, 2) == [];
    assert CurrentFrom(h, view, 0, 1)
        == if !IsDeleted(newer.header) && Visible(view, newer.header) then [Rid(0, 1)] else [];
  }

  // ---------- a transaction's own writes ----------

  /** A transaction sees what it wrote and has not replaced or deleted. */
  lemma ReadsOwnWrites(h: Heap, view: View, v: Rid)
    requires LinksBack(h) && view.snapshot.Some? && Has(h, v) && (forall w :: !Newer(h, w, v))
    requires At(h, v).createTx == view.snapshot.value.txId && At(h, v).commitTx == UNSET_TX
    ensures Current(h, view, v)
  {
  }

  /** A row that a transaction deletes is gone for it, whoever made it and whatever
    * else is in progress. */
  lemma OwnDeleteHides(h: Heap, view: View, t: Rid, v: Rid)
    requires LinksBack(h) && view.snapshot.Some? && Newer(h, t, v) && IsDeleted(At(h, t))
    requires At(h, t).createTx == view.snapshot.value.txId != 0
    ensures !Current(h, view, v)
  {
    assert Suppresses(view, At(h, t));
  }

  /** A row that a transaction updates is there twice for it: the new version shows,
    * and does not hide the old one before the commit. */
  lemma OwnUpdateIsReadTwice(row: Row, row': Row)
    ensures var h := Replaced(row, Version(Header(2, UNSET_TX, Some(Rid(0, 0))), row'));
            && WellFormed(h)
            && CurrentFrom(h, View(Some(Snapshot(2, 2, {2})), {2}), 0, 0) == [Rid(0, 0), Rid(0, 1)]
  {
    var view := View(Some(Snapshot(2, 2, {2})), {2});
    var newer := Version(Header(2, UNSET_TX, Some(Rid(0, 0))), row');
    OneReplaced(row, newer, view);
    var h := Replaced(row, newer);
    assert forall w, v :: Link(h, w, v) <==> w == Rid(0, 1) && v == Rid(0, 0);
  }
}
