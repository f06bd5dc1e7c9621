/** Row versions on append-only data pages (`src/transaction/version_chain.rs`,
  * `src/transaction/snapshot.rs`) and the superseded-version walk of
  * `src/executor/data_scan.rs`.
  *
  * A heap is a table's page chain; a page is addressed by its position in the
  * chain and a slot by its position in the page.  Every version may point to
  * the older version of the same row it replaces.
  */
module VersionHeap {
  import opened Options
  import opened Values

  const UNSET_TX := 0xFFFF_FFFF_FFFF_FFFF
  const DELETED_TX := 0xFFFF_FFFF_FFFF_FFFE
  const MAX_CHAIN_DEPTH := 64

  datatype Rid = Rid(page: nat, slot: nat)

  datatype Header = Header(createTx: nat, commitTx: nat, next: Option<Rid>)

  function CommitOf(h: Header): Option<nat> {
    if h.commitTx == UNSET_TX then None else Some(h.commitTx)
  }

  predicate IsDeleted(h: Header) {
    h.commitTx == DELETED_TX
  }

  predicate IsAborted(h: Header) {
    h.createTx == 0
  }

  /** A slot too short for a version header is skipped by every reader. */
  datatype Slot = Short | Version(header: Header, row: Row)

  type Heap = seq<seq<Slot>>

  predicate Has(h: Heap, r: Rid) {
    r.page < |h| && r.slot < |h[r.page]| && h[r.page][r.slot].Version?
  }

  function At(h: Heap, r: Rid): Header
    requires Has(h, r)
  {
    h[r.page][r.slot].header
  }

  function RowAt(h: Heap, r: Rid): Row
    requires Has(h, r)
  {
    h[r.page][r.slot].row
  }

  predicate Living(h: Heap, r: Rid) {
    Has(h, r) && !IsDeleted(At(h, r))
  }

  /** Scan order, which is also write order. */
  predicate Precedes(a: Rid, b: Rid) {
    a.page < b.page || (a.page == b.page && a.slot < b.slot)
  }

  /** Version `w` replaces version `v`. */
  predicate Link(h: Heap, w: Rid, v: Rid) {
    Has(h, w) && At(h, w).next == Some(v)
  }

  // ---------- well-formed heaps ----------

  /** Append-only pages: a version only ever points to one written before it. */
  ghost predicate LinksBack(h: Heap) {
    forall w, v :: Link(h, w, v) ==> Has(h, v) && Precedes(v, w)
  }

  /** What writers and rollback maintain: rolled-back versions are tombstoned,
    * nothing standing points to one, and at most one standing version replaces
    * any version. */
  ghost predicate WellFormed(h: Heap) {
    && LinksBack(h)
    && (forall w :: Has(h, w) && IsAborted(At(h, w)) ==> IsDeleted(At(h, w)))
    && (forall w, v :: Link(h, w, v) && !IsAborted(At(h, w)) ==> Has(h, v) && !IsAborted(At(h, v)))
    && (forall w, w', v :: Link(h, w, v) && Link(h, w', v) && !IsAborted(At(h, w)) && !IsAborted(At(h, w')) ==> w == w')
  }

  /** No write of a living row is in flight: what is not a tombstone is committed. */
  ghost predicate Settled(h: Heap) {
    forall v :: Has(h, v) && !IsDeleted(At(h, v)) ==> CommitOf(At(h, v)).Some?
  }

  /** `w` is a later version of the row that `v` is a version of. */
  ghost predicate Newer(h: Heap, w: Rid, v: Rid)
    requires LinksBack(h)
    decreases w.page, w.slot
  {
    Has(h, w) && At(h, w).next.Some? &&
    (assert Link(h, w, At(h, w).next.value);
     At(h, w).next.value == v || Newer(h, At(h, w).next.value, v))
  }

  lemma {:induction false} NewerExists(h: Heap, w: Rid, v: Rid)
    requires LinksBack(h) && Newer(h, w, v)
    ensures Has(h, v) && Precedes(v, w)
    decreases w.page, w.slot
  {
    var x := At(h, w).next.value;
    assert Link(h, w, x);
    if x != v {
      NewerExists(h, x, v);
    }
  }

  lemma {:induction false} NewerStep(h: Heap, w: Rid, u: Rid, v: Rid)
    requires LinksBack(h) && Newer(h, w, u) && Link(h, u, v)
    ensures Newer(h, w, v)
    decreases w.page, w.slot
  {
    var x := At(h, w).next.value;
    assert Link(h, w, x);
    if x == u {
      assert Newer(h, u, v);
    } else {
      NewerStep(h, x, u, v);
    }
  }

  /** On the way up from `v` to a standing version, the first step is standing too. */
  lemma {:induction false} FirstStep(h: Heap, w: Rid, v: Rid) returns (u: Rid)
    requires WellFormed(h) && Newer(h, w, v) && !IsAborted(At(h, w))
    ensures Link(h, u, v) && !IsAborted(At(h, u)) && (w == u || Newer(h, w, u))
    decreases w.page, w.slot
  {
    var x := At(h, w).next.value;
    assert Link(h, w, x);
    if x == v {
      u := w;
    } else {
      u := FirstStep(h, x, v);
    }
  }

  // ---------- one row, one chain ----------

  /** The first version of the row: follow the links to the end. */
  ghost function Root(h: Heap, v: Rid): Rid
    requires LinksBack(h) && Has(h, v)
    decreases v.page, v.slot
  {
    if At(h, v).next.None? then v
    else (assert Link(h, v, At(h, v).next.value); Root(h, At(h, v).next.value))
  }

  ghost function Depth(h: Heap, v: Rid): nat
    requires LinksBack(h) && Has(h, v)
    decreases v.page, v.slot
  {
    if At(h, v).next.None? then 0
    else (assert Link(h, v, At(h, v).next.value); 1 + Depth(h, At(h, v).next.value))
  }

  lemma {:induction false} NewerSameRoot(h: Heap, w: Rid, v: Rid)
    requires LinksBack(h) && Newer(h, w, v)
    ensures Has(h, w) && Has(h, v) && Root(h, w) == Root(h, v)
    decreases w.page, w.slot
  {
    var x := At(h, w).next.value;
    assert Link(h, w, x);
    if x != v {
      NewerSameRoot(h, x, v);
    }
  }

  /** Standing versions of one row form a single line. */
  lemma {:induction false} ChainIsLinear(h: Heap, v: Rid, w: Rid)
    requires WellFormed(h) && Has(h, v) && Has(h, w)
    requires !IsAborted(At(h, v)) && !IsAborted(At(h, w)) && Root(h, v) == Root(h, w)
    ensures v == w || Newer(h, v, w) || Newer(h, w, v)
    decreases Depth(h, v) + Depth(h, w)
  {
    if v != w {
      if Depth(h, v) < Depth(h, w) {
        var x := At(h, w).next.value;
        assert Link(h, w, x);
        ChainIsLinear(h, v, x);
        if Newer(h, v, x) {
          DepthGrows(h, v, x);
        }
      } else if At(h, v).next.Some? {
        var y := At(h, v).next.value;
        assert Link(h, v, y);
        ChainIsLinear(h, y, w);
        if Newer(h, w, y) {
          var u := FirstStep(h, w, y);
          assert u == v;
        }
      }
    }
  }

  lemma {:induction false} DepthGrows(h: Heap, w: Rid, v: Rid)
    requires LinksBack(h) && Newer(h, w, v)
    ensures Has(h, w) && Has(h, v) && Depth(h, v) < Depth(h, w)
    decreases w.page, w.slot
  {
    var x := At(h, w).next.value;
    assert Link(h, w, x);
    if x != v {
      DepthGrows(h, x, v);
    }
  }

  // ---------- who sees what ----------

  datatype Snapshot = Snapshot(txId: nat, highWater: nat, active: set<nat>)

  predicate IsVisible(s: Snapshot, createTx: nat, commit: Option<nat>) {
    commit.Some? && createTx <= s.highWater && createTx !in s.active
  }

  predicate IsVisibleSelf(s: Snapshot, createTx: nat, commit: Option<nat>) {
    createTx == s.txId && commit.None?
  }

  /** A reader: its snapshot, if any, and the transactions active at scan start. */
  datatype View = View(snapshot: Option<Snapshot>, active: set<nat>)

  /** The scan's visibility test on a version that is not a tombstone. */
  predicate Visible(view: View, h: Header) {
    view.snapshot.None?
    || IsVisible(view.snapshot.value, h.createTx, CommitOf(h))
    || IsVisibleSelf(view.snapshot.value, h.createTx, CommitOf(h))
  }

  /** `superseder_suppresses`. */
  predicate Suppresses(view: View, h: Header) {
    if h.createTx == 0 then false
    else if IsDeleted(h) then
      match view.snapshot
      case None => h.createTx !in view.active
      case Some(s) => h.createTx == s.txId || h.createTx !in s.active
    else
      match CommitOf(h)
      case None => false
      case Some(_) =>
        match view.snapshot
        case None => true
        case Some(s) => IsVisible(s, h.createTx, CommitOf(h))
  }

  /** Some later version of the row suppresses `v`. */
  ghost predicate Suppressed(h: Heap, view: View, v: Rid)
    requires LinksBack(h)
  {
    exists w :: Newer(h, w, v) && Suppresses(view, At(h, w))
  }

  /** The reference answer: a living, visible version that nothing newer suppresses. */
  ghost predicate Current(h: Heap, view: View, v: Rid)
    requires LinksBack(h)
  {
    Has(h, v) && !IsDeleted(At(h, v)) && Visible(view, At(h, v)) && !Suppressed(h, view, v)
  }

  /** A row has at most one current version, unless the later one is not
    * committed: it shows without hiding the earlier one. */
  lemma OneCurrentPerRow(h: Heap, view: View, v: Rid, w: Rid)
    requires WellFormed(h)
    requires Current(h, view, v) && Current(h, view, w) && Root(h, v) == Root(h, w)
    ensures || v == w
            || (Newer(h, w, v) && CommitOf(At(h, w)).None?)
            || (Newer(h, v, w) && CommitOf(At(h, v)).None?)
    ensures Settled(h) ==> v == w
  {
    ChainIsLinear(h, v, w);
    assert CommitOf(At(h, w)).Some? ==> Suppresses(view, At(h, w));
    assert CommitOf(At(h, v)).Some? ==> Suppresses(view, At(h, v));
  }

  // ---------- the superseded map ----------

  type SupersededMap = map<Rid, (Rid, nat)>

  /** Record one link; of two, the later creator wins, and of equal creators the
    * one met later. */
  function AddLink(m: SupersededMap, h: Heap, w: Rid): SupersededMap
    requires w.page < |h| && w.slot < |h[w.page]|
  {
    if !Has(h, w) || At(h, w).next.None? then m
    else
      var target := At(h, w).next.value;
      if target in m && m[target].1 > At(h, w).createTx then m
      else m[target := (w, At(h, w).createTx)]
  }

  /** The map after every slot before (page, slot). */
  ghost function MapUpTo(h: Heap, page: nat, slot: nat): SupersededMap
    requires page <= |h| && (page == |h| ==> slot == 0) && (page < |h| ==> slot <= |h[page]|)
    decreases page, slot
  {
    if slot > 0 then AddLink(MapUpTo(h, page, slot - 1), h, Rid(page, slot - 1))
    else if page > 0 then MapUpTo(h, page - 1, |h[page - 1]|)
    else map[]
  }

  /** `w` is not a better recorded pointer than `best`. */
  ghost predicate NoBetter(h: Heap, w: Rid, best: Rid)
    requires Has(h, w) && Has(h, best)
  {
    w == best || At(h, w).createTx < At(h, best).createTx
    || (At(h, w).createTx == At(h, best).createTx && Precedes(w, best))
  }

  /** What the map holds: for every version pointed to from before `end`, the
    * best pointer. */
  ghost predicate MapsBestPointers(h: Heap, m: SupersededMap, end: Rid) {
    && (forall v :: v in m ==> Link(h, m[v].0, v) && Precedes(m[v].0, end) && m[v].1 == At(h, m[v].0).createTx)
    && (forall w, v :: Link(h, w, v) && Precedes(w, end) ==> v in m && Has(h, m[v].0) && NoBetter(h, w, m[v].0))
  }

  lemma {:induction false} MapUpToBest(h: Heap, page: nat, slot: nat)
    requires page <= |h| && (page == |h| ==> slot == 0) && (page < |h| ==> slot <= |h[page]|)
    ensures MapsBestPointers(h, MapUpTo(h, page, slot), Rid(page, slot))
    decreases page, slot
  {
    if slot > 0 {
      MapUpToBest(h, page, slot - 1);
      AddLinkBest(h, MapUpTo(h, page, slot - 1), Rid(page, slot - 1));
    } else if page > 0 {
      MapUpToBest(h, page - 1, |h[page - 1]|);
      var m := MapUpTo(h, page, slot);
      forall w, v | Link(h, w, v) && Precedes(w, Rid(page, 0))
        ensures v in m && Has(h, m[v].0) && NoBetter(h, w, m[v].0)
      {
        assert Precedes(w, Rid(page - 1, |h[page - 1]|));
      }
    }
  }

  lemma AddLinkBest(h: Heap, m: SupersededMap, w: Rid)
    requires w.page < |h| && w.slot < |h[w.page]| && MapsBestPointers(h, m, w)
    ensures MapsBestPointers(h, AddLink(m, h, w), Rid(w.page, w.slot + 1))
  {
    var m' := AddLink(m, h, w);
    var end := Rid(w.page, w.slot + 1);
    forall u, v | Link(h, u, v) && Precedes(u, end)
      ensures v in m' && Has(h, m'[v].0) && NoBetter(h, u, m'[v].0)
    {
      if u != w {
        assert Precedes(u, w);
      }
    }
  }

  /** The finished map: every version that is pointed to, with its best pointer. */
  ghost function SupersededMapOf(h: Heap): (m: SupersededMap)
    ensures forall v :: v in m ==> Link(h, m[v].0, v)
    ensures forall w, v :: Link(h, w, v) ==> v in m && Has(h, m[v].0) && NoBetter(h, w, m[v].0)
  {
    MapUpToBest(h, |h|, 0);
    assert forall w, v :: Link(h, w, v) ==> Precedes(w, Rid(|h|, 0));
    MapUpTo(h, |h|, 0)
  }

  /** A standing pointer beats every rolled-back one. */
  lemma StandingPointerWins(h: Heap, u: Rid, v: Rid)
    requires WellFormed(h) && Link(h, u, v) && !IsAborted(At(h, u))
    ensures v in SupersededMapOf(h) && SupersededMapOf(h)[v].0 == u
  {
    var best := SupersededMapOf(h)[v].0;
    assert Link(h, best, v) && NoBetter(h, u, best);
  }

  // ---------- the walk ----------

  datatype WalkResult = Hidden | Open | TooDeep

  /** From superseder `cur`, already `depth` steps up: the loop of `slot_is_superseded`. */
  function Walk(h: Heap, m: SupersededMap, view: View, cur: Rid, depth: nat): WalkResult
    requires depth < MAX_CHAIN_DEPTH && Has(h, cur)
    requires forall v :: v in m ==> Has(h, m[v].0)
    decreases MAX_CHAIN_DEPTH - depth
  {
    if Suppresses(view, At(h, cur)) then Hidden
    else if cur !in m then Open
    else if depth + 1 >= MAX_CHAIN_DEPTH then TooDeep
    else Walk(h, m, view, m[cur].0, depth + 1)
  }

  ghost function WalkFrom(h: Heap, view: View, v: Rid): WalkResult {
    var m := SupersededMapOf(h);
    if v in m then Walk(h, m, view, m[v].0, 0) else Open
  }

  lemma {:induction false} WalkHidden(h: Heap, view: View, cur: Rid, depth: nat)
    requires WellFormed(h) && Has(h, cur) && depth < MAX_CHAIN_DEPTH
    requires Walk(h, SupersededMapOf(h), view, cur, depth) == Hidden
    ensures exists w :: (w == cur || Newer(h, w, cur)) && Has(h, w) && Suppresses(view, At(h, w))
    decreases MAX_CHAIN_DEPTH - depth
  {
    var m := SupersededMapOf(h);
    if !Suppresses(view, At(h, cur)) {
      var u := m[cur].0;
      WalkHidden(h, view, u, depth + 1);
      var w :| (w == u || Newer(h, w, u)) && Has(h, w) && Suppresses(view, At(h, w));
      if w == u {
        assert Newer(h, w, cur);
      } else {
        NewerStep(h, w, u, cur);
      }
    }
  }

  lemma {:induction false} WalkOpen(h: Heap, view: View, cur: Rid, depth: nat, w: Rid)
    requires WellFormed(h) && Has(h, cur) && depth < MAX_CHAIN_DEPTH
    requires Walk(h, SupersededMapOf(h), view, cur, depth) == Open
    requires w == cur || Newer(h, w, cur)
    ensures !Suppresses(view, At(h, w))
    decreases MAX_CHAIN_DEPTH - depth
  {
    if w != cur && Suppresses(view, At(h, w)) {
      var u := FirstStep(h, w, cur);
      StandingPointerWins(h, u, cur);
      WalkOpen(h, view, u, depth + 1, w);
    }
  }

  /** The bounded walk over recorded pointers answers the chain question, or
    * gives up; it never answers wrongly. */
  lemma WalkIsSuppression(h: Heap, view: View, v: Rid)
    requires WellFormed(h)
    ensures WalkFrom(h, view, v) == Hidden ==> Suppressed(h, view, v)
    ensures WalkFrom(h, view, v) == Open ==> !Suppressed(h, view, v)
  {
    var m := SupersededMapOf(h);
    if WalkFrom(h, view, v) == Hidden {
      var u := m[v].0;
      WalkHidden(h, view, u, 0);
      var w :| (w == u || Newer(h, w, u)) && Has(h, w) && Suppresses(view, At(h, w));
      if w == u {
        assert Newer(h, w, v);
      } else {
        NewerStep(h, w, u, v);
      }
    } else if WalkFrom(h, view, v) == Open && Suppressed(h, view, v) {
      var w :| Newer(h, w, v) && Suppresses(view, At(h, w));
      var u := FirstStep(h, w, v);
      StandingPointerWins(h, u, v);
      WalkOpen(h, view, u, 0, w);
    }
  }
}
