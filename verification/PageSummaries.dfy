/** The page summaries are one map for all readers (`src/storage/buffer_pool.rs`,
  * `src/storage/page_visibility.rs`): what a reader or a writer records there is
  * trusted by every other reader.
  *
  * The results: for which readers a flag set by one snapshot is true, with those
  * taken later always among them; when an insertion keeps a page's least creator
  * true; and a reader that is misled in each of the other cases.
  */
module PageSummaries {
  import opened Options
  import opened Values
  import opened VersionHeap
  import opened DataScan

  // ---------- a page marked visible ----------

  /** The summary of one page is true for a reader. */
  ghost predicate HoldsFor(slots: seq<Slot>, view: View, v: PageVis) {
    forall i :: 0 <= i < |slots| && slots[i].Version? && !IsDeleted(slots[i].header) ==>
      && (v.allVisible ==> Visible(view, slots[i].header))
      && (v.minCreate != MIN_CREATE_UNKNOWN ==> v.minCreate <= slots[i].header.createTx)
  }

  /** Page by page, that is what the scan needs. */
  lemma TruthfulByPage(h: Heap, view: View, vis: map<nat, PageVis>)
    ensures Truthful(h, view, vis) <==> forall p :: p in vis && p < |h| ==> HoldsFor(h[p], view, vis[p])
  {
    if forall p :: p in vis && p < |h| ==> HoldsFor(h[p], view, vis[p]) {
      forall r | Has(h, r) && r.page in vis
        ensures vis[r.page].allVisible && !IsDeleted(At(h, r)) ==> Visible(view, At(h, r))
        ensures vis[r.page].minCreate != MIN_CREATE_UNKNOWN && !IsDeleted(At(h, r)) ==>
                vis[r.page].minCreate <= At(h, r).createTx
      {
        assert HoldsFor(h[r.page], view, vis[r.page]) && h[r.page][r.slot].Version?;
      }
    }
    if Truthful(h, view, vis) {
      forall p, i | p in vis && p < |h| && 0 <= i < |h[p]| && h[p][i].Version? && !IsDeleted(h[p][i].header)
        ensures vis[p].allVisible ==> Visible(view, h[p][i].header)
        ensures vis[p].minCreate != MIN_CREATE_UNKNOWN ==> vis[p].minCreate <= h[p][i].header.createTx
      {
        assert Has(h, Rid(p, i));
      }
    }
  }

  /** Every writer on the page had committed for this reader too. */
  ghost predicate SeesWriters(slots: seq<Slot>, view: View) {
    view.snapshot.Some? ==>
      forall i :: 0 <= i < |slots| && slots[i].Version? ==>
        var tx := slots[i].header.createTx;
        tx <= view.snapshot.value.highWater && tx !in view.snapshot.value.active
  }

  /** A flag set for one snapshot is true for another reader exactly if that reader
    * sees every writer on the page. */
  lemma FlagHoldsExactly(slots: seq<Slot>, s: Snapshot, view: View)
    requires AllVisibleTo(slots, s)
    ensures HoldsFor(slots, view, PageVis(MIN_CREATE_UNKNOWN, true)) <==> SeesWriters(slots, view)
  {
  }

  /** A snapshot taken later: its mark is no lower, and of the transactions it
    * lists as active those known earlier were active then. */
  predicate TakenLater(s: Snapshot, s': Snapshot) {
    s.highWater <= s'.highWater && forall tx :: tx in s'.active && tx <= s.highWater ==> tx in s.active
  }

  lemma LaterReadersSeeWriters(slots: seq<Slot>, s: Snapshot, view: View)
    requires AllVisibleTo(slots, s) && (view.snapshot.Some? ==> TakenLater(s, view.snapshot.value))
    ensures SeesWriters(slots, view)
  {
  }

  /** An older reader is misled: a page with one row of transaction 5 is flagged
    * for a statement that began after its commit, and a statement that began
    * before it then reads the row without being allowed to see it. */
  lemma OlderReaderIsMisled(row: Row)
    ensures var h := [[Version(Header(5, 5, None), row)]];
            var later, earlier := Snapshot(0, 5, {}), View(Some(Snapshot(0, 4, {})), {});
            && AllVisibleTo(h[0], later) && !Current(h, earlier, Rid(0, 0))
            && LookAtPage(h, earlier, Rid(0, 0), true, false) == YieldValue(row)
  {
  }

  // ---------- the least creator on a page ----------

  /** `clear_all_visible` and `update_visibility_on_insert`. */
  function Inserted(v: Option<PageVis>, tx: nat): PageVis {
    var known := if v.Some? then v.value.minCreate else MIN_CREATE_UNKNOWN;
    PageVis(if known < tx then known else tx, false)
  }

  /** The page's entry, if it has one, and if it names a creator, names the least. */
  ghost predicate NamesLeast(slots: seq<Slot>, v: Option<PageVis>) {
    v.Some? && v.value.minCreate != MIN_CREATE_UNKNOWN ==>
      forall i :: 0 <= i < |slots| && slots[i].Version? && !IsDeleted(slots[i].header) ==>
        v.value.minCreate <= slots[i].header.createTx
  }

  /** An insertion keeps the entry true exactly if it named a creator before, or no
    * living version on the page is older than the inserted one. */
  lemma InsertKeepsLeastExactly(slots: seq<Slot>, v: Option<PageVis>, tx: nat, row: Row)
    requires NamesLeast(slots, v) && tx < MIN_CREATE_UNKNOWN && (v.Some? ==> v.value.minCreate <= MIN_CREATE_UNKNOWN)
    ensures var slots' := slots + [Version(Header(tx, UNSET_TX, None), row)];
            NamesLeast(slots', Some(Inserted(v, tx))) <==>
            || (v.Some? && v.value.minCreate != MIN_CREATE_UNKNOWN)
            || forall i :: 0 <= i < |slots| && slots[i].Version? && !IsDeleted(slots[i].header) ==>
                 tx <= slots[i].header.createTx
  {
    var slots' := slots + [Version(Header(tx, UNSET_TX, None), row)];
    assert forall i :: 0 <= i < |slots| ==> slots'[i] == slots[i];
    assert slots'[|slots|].header.createTx == tx;
  }

  /** The first insertion after a restart names only itself: a row that was
    * committed before is skipped by every reader that began before the insertion. */
  lemma OldRowIsSkipped(row: Row, row': Row)
    ensures var h := [[Version(Header(1, 1, None), row), Version(Header(9, UNSET_TX, None), row')]];
            var view := View(Some(Snapshot(0, 8, {})), {});
            && LinksBack(h) && Current(h, view, Rid(0, 0))
            && SkippedPages(view, map[0 := Inserted(None, 9)]) == {0}
  {
    var h := [[Version(Header(1, 1, None), row), Version(Header(9, UNSET_TX, None), row')]];
    assert forall w, v :: !Link(h, w, v);
  }
}
