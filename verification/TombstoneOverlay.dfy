/** Tombstones appended on top of a table (`src/executor/delete.rs`,
  * `src/transaction/manager.rs`): what a scan sees of the heap
  * below them while their deleter is active, rolled back, or committed.
  */
module TombstoneOverlay {
  import opened Options
  import opened Values
  import opened Streams
  import opened VersionHeap
  import opened DataScan

  // ---------- a heap with the tombstones of one deleter on top ----------

  /** Every slot of `h0` is still in `h`, unchanged. */
  ghost predicate Extends(h0: Heap, h: Heap) {
    && |h0| <= |h|
    && forall p :: 0 <= p < |h0| ==> h0[p] <= h[p]
  }

  /** A version no standing version replaces. */
  ghost predicate IsStandingTail(h: Heap, v: Rid) {
    && Has(h, v) && !IsDeleted(At(h, v))
    && forall w :: Link(h, w, v) ==> IsAborted(At(h, w))
  }

  /** `h` is `h0` plus tombstones: each points nowhere, or to a living tail of
    * `h0`, no two of them to the same one. */
  ghost predicate Overlay(h0: Heap, h: Heap) {
    && Extends(h0, h) && LinksBack(h)
    && (forall t :: Has(h, t) && !Has(h0, t) ==> IsDeleted(At(h, t)))
    && (forall t, v :: Has(h, t) && !Has(h0, t) && Link(h, t, v) ==> IsStandingTail(h0, v))
    && (forall t, t', v :: Link(h, t, v) && Link(h, t', v) && !Has(h0, t) && !Has(h0, t') ==> t == t')
  }

  /** The versions that linked tombstones of the overlay delete. */
  ghost predicate IsTarget(h0: Heap, h: Heap, v: Rid) {
    exists t :: Link(h, t, v) && !Has(h0, t)
  }

  lemma OldSlots(h0: Heap, h: Heap, r: Rid)
    requires Extends(h0, h) && Has(h0, r)
    ensures Has(h, r) && At(h, r) == At(h0, r) && RowAt(h, r) == RowAt(h0, r)
  {
    assert h0[r.page] == h[r.page][..|h0[r.page]|];
  }

  /** How the overlay's tombstones look to a reader. */
  datatype Effect = NoEffect | Deletes

  ghost predicate HasEffect(h0: Heap, h: Heap, view: View, effect: Effect) {
    forall t :: Has(h, t) && !Has(h0, t) ==> (Suppresses(view, At(h, t)) <==> effect == Deletes)
  }

  lemma {:induction false} OldNewer(h0: Heap, h: Heap, w: Rid, v: Rid)
    requires WellFormed(h0) && Overlay(h0, h) && Has(h0, w)
    ensures Newer(h, w, v) <==> Newer(h0, w, v)
    decreases w.page, w.slot
  {
    OldSlots(h0, h, w);
    if At(h0, w).next.Some? {
      var x := At(h0, w).next.value;
      assert Link(h0, w, x) && Link(h, w, x);
      OldNewer(h0, h, x, v);
    }
  }

  /** Nothing points to a tombstone of the overlay. */
  lemma {:induction false} TombstonesOnTop(h0: Heap, h: Heap, w: Rid, t: Rid)
    requires WellFormed(h0) && Overlay(h0, h) && Newer(h, w, t)
    ensures Has(h0, t)
    decreases w.page, w.slot
  {
    var x := At(h, w).next.value;
    assert Link(h, w, x);
    if Has(h0, w) {
      OldSlots(h0, h, w);
      assert Link(h0, w, x);
    }
    assert Has(h0, x);
    if x != t {
      TombstonesOnTop(h0, h, x, t);
    }
  }

  /** A linked tombstone deletes this version or a newer one of the row. */
  ghost predicate IsDoomed(h0: Heap, h: Heap, v: Rid)
    requires LinksBack(h0)
  {
    exists x :: IsTarget(h0, h, x) && (x == v || Newer(h0, x, v))
  }

  /** Any reader sees the old heap, minus the rows deleted if the tombstones count
    * for it. */
  lemma CurrentUnderOverlay(h0: Heap, h: Heap, view: View, effect: Effect, v: Rid)
    requires WellFormed(h0) && Overlay(h0, h) && HasEffect(h0, h, view, effect)
    ensures Current(h, view, v) <==>
            Current(h0, view, v) && (effect == Deletes ==> !IsDoomed(h0, h, v))
  {
    if Has(h0, v) {
      OldSlots(h0, h, v);
      SuppressedUnderOverlay(h0, h, view, effect, v);
    }
  }

  lemma SuppressedUnderOverlay(h0: Heap, h: Heap, view: View, effect: Effect, v: Rid)
    requires WellFormed(h0) && Overlay(h0, h) && HasEffect(h0, h, view, effect) && Has(h0, v)
    ensures Suppressed(h, view, v) <==>
            Suppressed(h0, view, v) || (effect == Deletes && IsDoomed(h0, h, v))
  {
    if Suppressed(h0, view, v) {
      var w :| Newer(h0, w, v) && Suppresses(view, At(h0, w));
      OldNewer(h0, h, w, v);
      OldSlots(h0, h, w);
      assert Newer(h, w, v) && Suppresses(view, At(h, w));
    }
    if effect == Deletes && IsDoomed(h0, h, v) {
      var x :| IsTarget(h0, h, x) && (x == v || Newer(h0, x, v));
      var t :| Link(h, t, x) && !Has(h0, t);
      if x != v {
        OldNewer(h0, h, x, v);
      }
      assert Newer(h, t, v) && Suppresses(view, At(h, t));
    }
    if Suppressed(h, view, v) {
      var w :| Newer(h, w, v) && Suppresses(view, At(h, w));
      if Has(h0, w) {
        OldNewer(h0, h, w, v);
        OldSlots(h0, h, w);
      } else {
        var x := At(h, w).next.value;
        assert Link(h, w, x) && IsTarget(h0, h, x);
        if x != v {
          OldNewer(h0, h, x, v);
        }
      }
    }
  }

  /** The reader takes every deleted version as its row's newest, as a reader
    * without a snapshot does where what is deleted was committed. */
  ghost predicate TargetsShow(h0: Heap, h: Heap, view: View) {
    forall x :: IsTarget(h0, h, x) ==> Has(h0, x) && Suppresses(view, At(h0, x))
  }

  /** Then what a reader sees of a row is deleted only if it is deleted itself. */
  lemma DoomedIsTarget(h0: Heap, h: Heap, view: View, v: Rid)
    requires LinksBack(h0) && TargetsShow(h0, h, view) && Current(h0, view, v)
    ensures IsDoomed(h0, h, v) <==> IsTarget(h0, h, v)
  {
  }

  lemma SettledTargetsShow(h0: Heap, h: Heap, view: View)
    requires WellFormed(h0) && Overlay(h0, h) && Settled(h0) && view.snapshot.None?
    ensures TargetsShow(h0, h, view)
  {
    forall x | IsTarget(h0, h, x) ensures Has(h0, x) && Suppresses(view, At(h0, x)) {
      assert IsStandingTail(h0, x);
    }
  }

  // ---------- the scan over an overlay ----------

  lemma OverlayIsWellFormed(h0: Heap, h: Heap)
    requires WellFormed(h0) && Overlay(h0, h)
    ensures WellFormed(h)
  {
    forall w | Has(h, w) && Has(h0, w) ensures At(h, w) == At(h0, w) {
      OldSlots(h0, h, w);
    }
    forall w, v | Link(h, w, v) && !Has(h0, w) ensures Has(h0, v) && At(h, v) == At(h0, v) {
      OldSlots(h0, h, v);
    }
    forall w, v | Link(h, w, v) && Has(h0, w) ensures Link(h0, w, v) {
    }
    forall w, w', v | Link(h, w, v) && Link(h, w', v) && !IsAborted(At(h, w)) && !IsAborted(At(h, w'))
      ensures w == w'
    {
    }
  }

  /** Where the recorded pointer of `v` is an old slot, it is the one recorded before. */
  lemma OldPointerStays(h0: Heap, h: Heap, v: Rid)
    requires WellFormed(h0) && Overlay(h0, h) && v in SupersededMapOf(h) && Has(h0, SupersededMapOf(h)[v].0)
    ensures v in SupersededMapOf(h0) && SupersededMapOf(h0)[v].0 == SupersededMapOf(h)[v].0
  {
    var u := SupersededMapOf(h)[v].0;
    OldSlots(h0, h, u);
    assert Link(h0, u, v);
    var b := SupersededMapOf(h0)[v].0;
    OldSlots(h0, h, b);
    assert Link(h, b, v) && NoBetter(h, b, u) && NoBetter(h0, u, b);
  }

  lemma {:induction false} WalkUnderOverlay(h0: Heap, h: Heap, view: View, cur: Rid, depth: nat)
    requires WellFormed(h0) && Overlay(h0, h) && TargetsShow(h0, h, view)
    requires Has(h0, cur) && Has(h, cur) && depth < MAX_CHAIN_DEPTH
    requires Walk(h, SupersededMapOf(h), view, cur, depth) == TooDeep
    ensures Walk(h0, SupersededMapOf(h0), view, cur, depth) == TooDeep
    decreases MAX_CHAIN_DEPTH - depth
  {
    OldSlots(h0, h, cur);
    var u := SupersededMapOf(h)[cur].0;
    assert Link(h, u, cur);
    if !Has(h0, u) {
      assert false;
    }
    OldPointerStays(h0, h, cur);
    if depth + 1 < MAX_CHAIN_DEPTH {
      WalkUnderOverlay(h0, h, view, u, depth + 1);
    }
  }

  /** Tombstones on versions the reader takes as newest never make a walk too
    * deep: where one is, it was before. */
  lemma NoDeeper(h0: Heap, h: Heap, view: View, r: Rid)
    requires WellFormed(h0) && Overlay(h0, h) && TargetsShow(h0, h, view)
    requires Has(h, r) && WalkFrom(h, view, r) == TooDeep
    ensures Has(h0, r) && WalkFrom(h0, view, r) == TooDeep
  {
    var m := SupersededMapOf(h);
    var u := m[r].0;
    assert Link(h, u, r) && Newer(h, u, r);
    TombstonesOnTop(h0, h, u, r);
    if Has(h0, u) {
      OldPointerStays(h0, h, r);
      WalkUnderOverlay(h0, h, view, u, 0);
    } else if u in m {
      assert Newer(h, m[u].0, u);
      TombstonesOnTop(h0, h, m[u].0, u);
    }
  }

  lemma NoneDeeper(h0: Heap, h: Heap, view: View)
    requires WellFormed(h0) && Overlay(h0, h) && TargetsShow(h0, h, view)
    ensures NoDeepWalk(h0, view) ==> NoDeepWalk(h, view)
  {
    hide WalkFrom, TargetsShow;
    if NoDeepWalk(h0, view) {
      forall r | Has(h, r) ensures WalkFrom(h, view, r) != TooDeep {
        if WalkFrom(h, view, r) == TooDeep {
          NoDeeper(h0, h, view, r);
        }
      }
    }
  }

  /** The recorded superseders over the overlay are those below it, perhaps cut
    * short by one tombstone that takes the place of the rest. */
  lemma {:induction false} SupersedersUnderOverlay(h0: Heap, h: Heap, v: Rid, n: nat)
    requires WellFormed(h0) && Overlay(h0, h) && Has(h0, v)
    ensures var up, up0 := Superseders(h, v, n), Superseders(h0, v, n);
            up == up0 || (up != [] && |up| <= |up0| + 1 && up[..|up| - 1] == up0[..|up| - 1])
    decreases n
  {
    hide Overlay, WellFormed, SupersededMapOf;
    if n > 0 {
      PointersUnderOverlay(h0, h, v);
      var m := SupersededMapOf(h);
      if v in m && Has(h0, m[v].0) {
        SupersedersUnderOverlay(h0, h, m[v].0, n - 1);
      }
    }
  }

  lemma PointersUnderOverlay(h0: Heap, h: Heap, v: Rid)
    requires WellFormed(h0) && Overlay(h0, h)
    ensures var m, m0 := SupersededMapOf(h), SupersededMapOf(h0);
            && (v in m0 ==> v in m)
            && (v in m && Has(h0, m[v].0) ==> v in m0 && m0[v].0 == m[v].0)
            && (v in m && !Has(h0, m[v].0) ==> m[v].0 !in m)
  {
    var m, m0 := SupersededMapOf(h), SupersededMapOf(h0);
    if v in m0 {
      OldSlots(h0, h, m0[v].0);
      assert Link(h, m0[v].0, v);
    }
    if v in m {
      if Has(h0, m[v].0) {
        OldPointerStays(h0, h, v);
      } else if m[v].0 in m {
        assert Newer(h, m[m[v].0].0, m[v].0);
        TombstonesOnTop(h0, h, m[m[v].0].0, m[v].0);
      }
    }
  }

  /** On any heap and for any reader, tombstones lengthen a walk by one step at
    * most: where it is too deep, it had gone 64 steps without an answer before. */
  lemma DeeperByOne(h0: Heap, h: Heap, view: View, r: Rid)
    requires WellFormed(h0) && Overlay(h0, h) && Has(h, r) && WalkFrom(h, view, r) == TooDeep
    ensures Has(h0, r) && |Superseders(h0, r, MAX_CHAIN_DEPTH)| == MAX_CHAIN_DEPTH
    ensures NoneSuppress(h0, view, Superseders(h0, r, MAX_CHAIN_DEPTH))
  {
    TooDeepIsOld(h0, h, view, r);
    NearestUnderOverlay(h0, h, view, r, MAX_CHAIN_DEPTH);
    hide *;
    TooDeepExactly(h, view, r);
  }

  lemma NearestUnderOverlay(h0: Heap, h: Heap, view: View, r: Rid, n: nat)
    requires WellFormed(h0) && Overlay(h0, h) && Has(h0, r)
    ensures var up := Superseders(h, r, n + 1);
            |up| == n + 1 && NoneSuppress(h, view, up[..n]) ==>
            |Superseders(h0, r, n)| == n && NoneSuppress(h0, view, Superseders(h0, r, n))
  {
    hide *;
    var up, up0 := Superseders(h, r, n + 1), Superseders(h0, r, n + 1);
    if |up| == n + 1 && NoneSuppress(h, view, up[..n]) {
      SupersedersUnderOverlay(h0, h, r, n + 1);
      SupersedersPrefix(h0, r, n);
      CutShort(up, up0, n);
      assert Superseders(h0, r, n) == up0[..n] == up[..n];
      StillNoneSuppress(h0, h, view, up[..n]);
    }
  }

  lemma CutShort(up: seq<Rid>, up0: seq<Rid>, n: nat)
    requires |up| == n + 1
    requires up == up0 || (|up| <= |up0| + 1 && up[..|up| - 1] == up0[..|up| - 1])
    ensures |up0| >= n && up[..n] == up0[..n]
  {
  }

  lemma TooDeepIsOld(h0: Heap, h: Heap, view: View, r: Rid)
    requires WellFormed(h0) && Overlay(h0, h) && Has(h, r) && WalkFrom(h, view, r) == TooDeep
    ensures Has(h0, r)
  {
    var u := SupersededMapOf(h)[r].0;
    assert Newer(h, u, r);
    TombstonesOnTop(h0, h, u, r);
  }

  lemma StillNoneSuppress(h0: Heap, h: Heap, view: View, rids: seq<Rid>)
    requires Overlay(h0, h) && forall r :: r in rids ==> Has(h0, r) && Has(h, r)
    requires NoneSuppress(h, view, rids)
    ensures NoneSuppress(h0, view, rids)
  {
    forall r | r in rids ensures At(h, r) == At(h0, r) {
      OldSlots(h0, h, r);
    }
  }

  lemma {:induction false} SupersedersPrefix(h: Heap, v: Rid, n: nat)
    ensures var up := Superseders(h, v, n + 1);
            Superseders(h, v, n) == if |up| <= n then up else up[..n]
    decreases n
  {
    var m := SupersededMapOf(h);
    if n > 0 && v in m {
      SupersedersPrefix(h, m[v].0, n - 1);
    }
  }

  /** A row updated `n` times by transaction 2, which is still active, and perhaps
    * the tombstone of transaction 3 on the last of these versions. */
  function UncommittedUpdates(n: nat, deleted: bool, row: Row): Heap {
    [seq(if deleted then n + 2 else n + 1, i requires 0 <= i =>
       if i == 0 then Version(Header(1, 1, None), row)
       else if i <= n then Version(Header(2, UNSET_TX, Some(Rid(0, i - 1))), row)
       else Version(Header(3, DELETED_TX, Some(Rid(0, n))), []))]
  }

  lemma UncommittedShape(n: nat, deleted: bool, row: Row)
    ensures var h, last := UncommittedUpdates(n, deleted, row), if deleted then n + 1 else n;
            && WellFormed(h) && LineOf(h, last)
            && forall r: Rid :: r.page == 0 && 0 < r.slot <= last ==>
                 Has(h, r) && !Suppresses(View(None, {2, 3}), At(h, r))
  {
    var h, last := UncommittedUpdates(n, deleted, row), if deleted then n + 1 else n;
    forall w, v ensures Link(h, w, v) <==> w.page == v.page == 0 && w.slot == v.slot + 1 <= last {
      if Has(h, w) && w.slot > 0 {
        assert At(h, w).next == Some(Rid(0, w.slot - 1));
      }
    }
  }

  /** It does happen: an uncommitted tombstone on a version that is not committed
    * either makes a walk too deep that was not. */
  lemma TombstoneCanDeepen(row: Row)
    ensures var h0 := UncommittedUpdates(MAX_CHAIN_DEPTH, false, row);
            var h := UncommittedUpdates(MAX_CHAIN_DEPTH, true, row);
            var view := View(None, {2, 3});
            && WellFormed(h0) && Overlay(h0, h) && HasEffect(h0, h, view, NoEffect)
            && WalkFrom(h0, view, Rid(0, 0)) != TooDeep && WalkFrom(h, view, Rid(0, 0)) == TooDeep
  {
    var n: nat := MAX_CHAIN_DEPTH;
    var h0, h, view := UncommittedUpdates(n, false, row), UncommittedUpdates(n, true, row), View(None, {2, 3});
    UncommittedShape(n, false, row);
    UncommittedShape(n, true, row);
    UncommittedOverlay(n, row);
    hide WalkFrom, LineOf, WellFormed, Overlay, HasEffect, UncommittedUpdates, Suppresses;
    LineWalk(h0, n, view, 0);
    LineWalk(h, n + 1, view, 0);
  }

  lemma UncommittedOverlay(n: nat, row: Row)
    ensures var h0, h := UncommittedUpdates(n, false, row), UncommittedUpdates(n, true, row);
            Overlay(h0, h) && HasEffect(h0, h, View(None, {2, 3}), NoEffect)
  {
    var h0, h := UncommittedUpdates(n, false, row), UncommittedUpdates(n, true, row);
    UncommittedShape(n, false, row);
    UncommittedShape(n, true, row);
    assert forall r :: Has(h, r) && !Has(h0, r) ==> r == Rid(0, n + 1);
    assert IsStandingTail(h0, Rid(0, n)) by {
      assert !IsDeleted(At(h0, Rid(0, n)));
    }
  }

  /** The current versions without the rows that the overlay deletes. */
  ghost function Survivors(h0: Heap, h: Heap, rids: seq<Rid>): seq<Rid>
    requires LinksBack(h0)
  {
    if rids == [] then []
    else (if IsDoomed(h0, h, rids[0]) then [] else [rids[0]]) + Survivors(h0, h, rids[1..])
  }

  lemma {:induction false} SurvivorsAre(h0: Heap, h: Heap, rids: seq<Rid>)
    requires LinksBack(h0) && InScanOrder(rids)
    ensures InScanOrder(Survivors(h0, h, rids))
    ensures forall r :: r in Survivors(h0, h, rids) <==> r in rids && !IsDoomed(h0, h, r)
  {
    hide IsDoomed, LinksBack;
    if rids != [] {
      SurvivorsAre(h0, h, rids[1..]);
      assert forall r :: r in rids <==> r == rids[0] || r in rids[1..];
      var rest := Survivors(h0, h, rids[1..]);
      forall i | 0 <= i < |rest| ensures Precedes(rids[0], rest[i]) {
        assert rest[i] in rids[1..];
      }
    }
  }

  /** What a scan over the overlay lists, as positions. */
  lemma CurrentListUnderOverlay(h0: Heap, h: Heap, view: View, effect: Effect)
    requires WellFormed(h0) && Overlay(h0, h) && HasEffect(h0, h, view, effect)
    ensures CurrentFrom(h, view, 0, 0) ==
            if effect == NoEffect then CurrentFrom(h0, view, 0, 0)
            else Survivors(h0, h, CurrentFrom(h0, view, 0, 0))
  {
    var before := CurrentFrom(h0, view, 0, 0);
    CurrentFromSorted(h0, view, 0, 0);
    CurrentFromSorted(h, view, 0, 0);
    SurvivorsAre(h0, h, before);
    forall r
      ensures r in CurrentFrom(h, view, 0, 0) <==> r in before && (effect == Deletes ==> !IsDoomed(h0, h, r))
    {
      CurrentFromMembers(h, view, 0, 0, r);
      CurrentFromMembers(h0, view, 0, 0, r);
      CurrentUnderOverlay(h0, h, view, effect, r);
    }
    hide CurrentFrom, Survivors, IsDoomed, Overlay, HasEffect;
    SameOrderedSet(CurrentFrom(h, view, 0, 0), if effect == NoEffect then before else Survivors(h0, h, before));
  }

  /** The rows a scan returns over the overlay: those of the heap below, in the
    * same order, minus the rows deleted if the tombstones count, unless it meets
    * a chain that is too deep. */
  lemma ScanUnderOverlay(h0: Heap, h: Heap, plan: Plan, effect: Effect, skipped: set<nat>)
    requires WellFormed(h0) && Overlay(h0, h) && HasEffect(h0, h, plan.view, effect)
    requires AllFit(h0, plan.projection) && AllFit(h, plan.projection) && SkippablePages(h, plan.view, skipped)
    ensures var kept := Kept(h0, h, plan.view, effect);
            && (forall r :: r in kept ==> Has(h0, r) && !IsDeleted(At(h0, r)))
            && UpToDepth(ScanFrom(h, plan, skipped, 0, 0), Select(plan, RowsAt(h0, kept)))
            && (NoDeepWalk(h0, plan.view) && TargetsShow(h0, h, plan.view) ==>
                ScanFrom(h, plan, skipped, 0, 0) == Select(plan, RowsAt(h0, kept)))
  {
    hide ScanFrom, Select, Overlay, TargetsShow, NoDeepWalk, SkippablePages, HasEffect, FullAnswer, Kept;
    KeptRows(h0, h, plan, effect);
    OverlayIsWellFormed(h0, h);
    if TargetsShow(h0, h, plan.view) {
      NoneDeeper(h0, h, plan.view);
    }
    ScanSelectsCurrent(h, plan, skipped);
  }

  /** What is left to see over the tombstones. */
  ghost function Kept(h0: Heap, h: Heap, view: View, effect: Effect): seq<Rid>
    requires LinksBack(h0)
  {
    var before := CurrentFrom(h0, view, 0, 0);
    if effect == NoEffect then before else Survivors(h0, h, before)
  }

  lemma KeptRows(h0: Heap, h: Heap, plan: Plan, effect: Effect)
    requires WellFormed(h0) && Overlay(h0, h)
    requires HasEffect(h0, h, plan.view, effect) && AllFit(h0, plan.projection) && AllFit(h, plan.projection)
    ensures var kept := Kept(h0, h, plan.view, effect);
            && (forall r :: r in kept ==> Has(h0, r) && !IsDeleted(At(h0, r)))
            && FullAnswer(h, plan) == Select(plan, RowsAt(h0, kept))
  {
    CurrentListUnderOverlay(h0, h, plan.view, effect);
    var kept := CurrentFrom(h, plan.view, 0, 0);
    CurrentFromExist(h, plan.view, 0, 0);
    hide Select, Overlay, WellFormed, HasEffect, CurrentFrom, Survivors;
    forall r | r in kept ensures Has(h0, r) && At(h0, r) == At(h, r) && RowAt(h0, r) == RowAt(h, r) {
      KeptAreOld(h0, h, plan.view, effect, r);
    }
    assert RowsAt(h, kept) == RowsAt(h0, kept);
  }

  lemma KeptAreOld(h0: Heap, h: Heap, view: View, effect: Effect, r: Rid)
    requires WellFormed(h0) && Overlay(h0, h) && HasEffect(h0, h, view, effect)
    requires r in CurrentFrom(h, view, 0, 0)
    ensures Has(h, r) && Has(h0, r) && At(h0, r) == At(h, r) && RowAt(h0, r) == RowAt(h, r)
  {
    CurrentFromMembers(h, view, 0, 0, r);
    CurrentUnderOverlay(h0, h, view, effect, r);
    OldSlots(h0, h, r);
  }
}
