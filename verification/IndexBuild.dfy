/** `CREATE INDEX` backfill (`src/executor/create_index.rs`) and the secondary
  * index range scan (`src/executor/index_range_scan.rs`).
  *
  * Both recompute "the current version of a row" on their own, from the set of
  * versions some standing version points to.  The results: on a quiescent table
  * they agree with the full scan, and a range scan over a backfilled index,
  * with the rows the index cannot hold patched in, returns exactly the rows of
  * the full scan under the same predicate.
  */
module IndexBuild {
  import opened Options
  import opened Values
  import opened Streams
  import opened VersionHeap
  import opened DataScan
  import opened KeyEncoding
  import opened IndexTree

  // ---------- chain tails ----------

  /** Some version that was not rolled back points to `v`. */
  ghost predicate IsPointed(h: Heap, v: Rid) {
    exists w :: Link(h, w, v) && !IsAborted(At(h, w))
  }

  /** The living versions nothing standing points to, in scan order. */
  ghost function TailsFrom(h: Heap, page: nat, slot: nat): seq<Rid>
    decreases |h| - page, if page < |h| then |h[page]| - slot else 0
  {
    if page >= |h| then []
    else if slot >= |h[page]| then TailsFrom(h, page + 1, 0)
    else
      var r := Rid(page, slot);
      (if Has(h, r) && !IsDeleted(At(h, r)) && !IsPointed(h, r) then [r] else [])
      + TailsFrom(h, page, slot + 1)
  }

  /** Nothing in flight: no snapshot, living versions committed, no creator active. */
  ghost predicate Quiescent(h: Heap, view: View) {
    && view.snapshot.None? && Settled(h)
    && forall w :: Has(h, w) ==> At(h, w).createTx !in view.active
  }

  /** In a quiescent table being pointed to is the same as being suppressed. */
  lemma PointedIsSuppressed(h: Heap, view: View, v: Rid)
    requires WellFormed(h) && Quiescent(h, view)
    ensures IsPointed(h, v) <==> Suppressed(h, view, v)
  {
    if IsPointed(h, v) {
      var w :| Link(h, w, v) && !IsAborted(At(h, w));
      assert Newer(h, w, v) && Suppresses(view, At(h, w));
    }
    if Suppressed(h, view, v) {
      var w :| Newer(h, w, v) && Suppresses(view, At(h, w));
      var u := FirstStep(h, w, v);
    }
  }

  /** The tails of the backfill and of the omitted-row pass are the versions the
    * full scan yields, in the same order. */
  lemma {:induction false} TailsAreCurrent(h: Heap, view: View, page: nat, slot: nat)
    requires WellFormed(h) && Quiescent(h, view)
    ensures TailsFrom(h, page, slot) == CurrentFrom(h, view, page, slot)
    decreases |h| - page, if page < |h| then |h[page]| - slot else 0
  {
    if page < |h| {
      if slot >= |h[page]| {
        TailsAreCurrent(h, view, page + 1, 0);
      } else {
        TailsAreCurrent(h, view, page, slot + 1);
        PointedIsSuppressed(h, view, Rid(page, slot));
      }
    }
  }

  lemma {:induction false} TailsExist(h: Heap, page: nat, slot: nat)
    ensures forall r :: r in TailsFrom(h, page, slot) ==> Has(h, r) && !IsDeleted(At(h, r))
    decreases |h| - page, if page < |h| then |h[page]| - slot else 0
  {
    if page < |h| {
      if slot >= |h[page]| {
        TailsExist(h, page + 1, 0);
      } else {
        TailsExist(h, page, slot + 1);
      }
    }
  }

  /** One pass over the chain: which versions exist, whether they are tombstones,
    * and which of them a standing version points to. */
  ghost function VersionsFrom(h: Heap, page: nat, slot: nat): seq<(Rid, bool)>
    decreases |h| - page, if page < |h| then |h[page]| - slot else 0
  {
    if page >= |h| then []
    else if slot >= |h[page]| then VersionsFrom(h, page + 1, 0)
    else
      var r := Rid(page, slot);
      (if Has(h, r) then [(r, IsDeleted(At(h, r)))] else []) + VersionsFrom(h, page, slot + 1)
  }

  ghost predicate PointedBefore(h: Heap, pointed: set<Rid>, end: Rid) {
    forall v :: v in pointed <==> exists w :: Link(h, w, v) && !IsAborted(At(h, w)) && Precedes(w, end)
  }

  function AddPointed(h: Heap, pointed: set<Rid>, r: Rid): set<Rid> {
    if Has(h, r) && !IsAborted(At(h, r)) && At(h, r).next.Some?
    then pointed + {At(h, r).next.value} else pointed
  }

  lemma PointedNone(h: Heap)
    ensures PointedBefore(h, {}, Rid(0, 0))
  {
  }

  lemma PointedStep(h: Heap, pointed: set<Rid>, r: Rid)
    requires PointedBefore(h, pointed, r)
    ensures PointedBefore(h, AddPointed(h, pointed, r), Rid(r.page, r.slot + 1))
  {
    var end := Rid(r.page, r.slot + 1);
    assert forall w :: Precedes(w, end) <==> Precedes(w, r) || w == r;
    var after := AddPointed(h, pointed, r);
    forall v ensures v in after <==> exists w :: Link(h, w, v) && !IsAborted(At(h, w)) && Precedes(w, end) {
      if exists w :: Link(h, w, v) && !IsAborted(At(h, w)) && Precedes(w, end) {
        var w :| Link(h, w, v) && !IsAborted(At(h, w)) && Precedes(w, end);
        assert w == r || Precedes(w, r);
      }
      if v in pointed {
        var w :| Link(h, w, v) && !IsAborted(At(h, w)) && Precedes(w, r);
        assert Precedes(w, end);
      } else if v in after {
        assert Link(h, r, v) && Precedes(r, end);
      }
    }
  }

  lemma PointedPageEnd(h: Heap, pointed: set<Rid>, page: nat)
    requires page < |h| && PointedBefore(h, pointed, Rid(page, |h[page]|))
    ensures PointedBefore(h, pointed, Rid(page + 1, 0))
  {
    assert forall w :: Has(h, w) ==> (Precedes(w, Rid(page, |h[page]|)) <==> Precedes(w, Rid(page + 1, 0)));
  }

  lemma PointedAll(h: Heap, pointed: set<Rid>)
    requires PointedBefore(h, pointed, Rid(|h|, 0))
    ensures forall v :: v in pointed <==> IsPointed(h, v)
  {
    assert forall w :: Has(h, w) ==> Precedes(w, Rid(|h|, 0));
  }

  lemma VersionsStep(h: Heap, page: nat, slot: nat)
    requires page < |h| && slot < |h[page]|
    ensures VersionsFrom(h, page, slot)
            == (if Has(h, Rid(page, slot)) then [(Rid(page, slot), IsDeleted(At(h, Rid(page, slot))))] else [])
               + VersionsFrom(h, page, slot + 1)
  {
  }

  lemma VersionsPageEnd(h: Heap, page: nat)
    ensures page < |h| ==> VersionsFrom(h, page, |h[page]|) == VersionsFrom(h, page + 1, 0)
    ensures VersionsFrom(h, |h|, 0) == []
  {
  }

  /** The page loop shared by the backfill and the omitted-row pass. */
  method CollectVersions(h: Heap) returns (pointed: set<Rid>, slots: seq<(Rid, bool)>)
    ensures forall v :: v in pointed <==> IsPointed(h, v)
    ensures slots == VersionsFrom(h, 0, 0)
  {
    hide PointedBefore, IsPointed, VersionsFrom, AddPointed;
    pointed, slots := {}, [];
    PointedNone(h);
    var page := 0;
    while page < |h|
      invariant 0 <= page <= |h|
      invariant PointedBefore(h, pointed, Rid(page, 0))
      invariant slots + VersionsFrom(h, page, 0) == VersionsFrom(h, 0, 0)
    {
      var slot := 0;
      while slot < |h[page]|
        invariant 0 <= slot <= |h[page]|
        invariant PointedBefore(h, pointed, Rid(page, slot))
        invariant slots + VersionsFrom(h, page, slot) == VersionsFrom(h, 0, 0)
      {
        var r := Rid(page, slot);
        PointedStep(h, pointed, r);
        VersionsStep(h, page, slot);
        pointed := AddPointed(h, pointed, r);
        if Has(h, r) {
          slots := slots + [(r, IsDeleted(At(h, r)))];
        }
        slot := slot + 1;
      }
      PointedPageEnd(h, pointed, page);
      VersionsPageEnd(h, page);
      page := page + 1;
    }
    PointedAll(h, pointed);
    VersionsPageEnd(h, page);
  }

  // ---------- the backfill ----------

  type KeyOf = Row -> Option<Bytes>

  /** The entries a list of versions contributes to the index. */
  ghost function EntriesOf(h: Heap, keyOf: KeyOf, rids: seq<Rid>): seq<Entry<Rid>>
    requires forall r :: r in rids ==> Has(h, r)
  {
    if rids == [] then []
    else
      var key := keyOf(RowAt(h, rids[0]));
      (if key.Some? then [Entry(key.value, rids[0])] else []) + EntriesOf(h, keyOf, rids[1..])
  }

  ghost function Tails(h: Heap): (tails: seq<Rid>)
    ensures forall r :: r in tails ==> Has(h, r) && !IsDeleted(At(h, r))
  {
    TailsExist(h, 0, 0);
    TailsFrom(h, 0, 0)
  }

  /** Slots of the heap at or after a position, with their deletion marks. */
  ghost predicate AreSlots(h: Heap, versions: seq<(Rid, bool)>, from: Rid) {
    forall x :: x in versions ==> Has(h, x.0) && x.1 == IsDeleted(At(h, x.0)) && !Precedes(x.0, from)
  }

  lemma SlotsStep(h: Heap, rest: seq<(Rid, bool)>, r: Rid)
    requires AreSlots(h, rest, Rid(r.page, r.slot + 1))
    ensures AreSlots(h, rest, r)
    ensures Has(h, r) ==> AreSlots(h, [(r, IsDeleted(At(h, r)))] + rest, r)
  {
  }

  lemma SlotsFromEarlier(h: Heap, versions: seq<(Rid, bool)>, from: Rid, earlier: Rid)
    requires AreSlots(h, versions, from) && Precedes(earlier, from)
    ensures AreSlots(h, versions, earlier)
  {
  }

  lemma {:induction false} VersionsExist(h: Heap, page: nat, slot: nat)
    ensures AreSlots(h, VersionsFrom(h, page, slot), Rid(page, slot))
    decreases |h| - page, if page < |h| then |h[page]| - slot else 0
  {
    if page < |h| {
      hide AreSlots;
      if slot >= |h[page]| {
        VersionsExist(h, page + 1, 0);
        SlotsFromEarlier(h, VersionsFrom(h, page + 1, 0), Rid(page + 1, 0), Rid(page, slot));
      } else {
        VersionsExist(h, page, slot + 1);
        VersionsStep(h, page, slot);
        SlotsStep(h, VersionsFrom(h, page, slot + 1), Rid(page, slot));
        hide VersionsFrom;
        assert [] + VersionsFrom(h, page, slot + 1) == VersionsFrom(h, page, slot + 1);
      }
    }
  }

  lemma {:induction false} VersionsDistinct(h: Heap, page: nat, slot: nat)
    ensures DistinctRids(VersionsFrom(h, page, slot))
    decreases |h| - page, if page < |h| then |h[page]| - slot else 0
  {
    if page < |h| {
      if slot >= |h[page]| {
        VersionsDistinct(h, page + 1, 0);
      } else {
        VersionsDistinct(h, page, slot + 1);
        VersionsStep(h, page, slot);
        VersionsExist(h, page, slot + 1);
        hide VersionsFrom, AreSlots, DistinctRids;
        var rest := VersionsFrom(h, page, slot + 1);
        assert [] + rest == rest;
        if Has(h, Rid(page, slot)) {
          DistinctCons(h, rest, Rid(page, slot));
        }
      }
    }
  }

  lemma DistinctCons(h: Heap, rest: seq<(Rid, bool)>, r: Rid)
    requires AreSlots(h, rest, Rid(r.page, r.slot + 1)) && DistinctRids(rest) && Has(h, r)
    ensures DistinctRids([(r, IsDeleted(At(h, r)))] + rest)
  {
    forall i | 0 <= i < |rest| ensures rest[i].0 != r {
      assert rest[i] in rest;
    }
  }

  /** The living tails among the versions met are the table's tails. */
  lemma {:induction false} TailsOfVersions(h: Heap, page: nat, slot: nat)
    ensures TailsFrom(h, page, slot) == LivingTails(h, VersionsFrom(h, page, slot))
    decreases |h| - page, if page < |h| then |h[page]| - slot else 0
  {
    hide IsPointed;
    if page < |h| {
      if slot >= |h[page]| {
        TailsOfVersions(h, page + 1, 0);
      } else {
        TailsOfVersions(h, page, slot + 1);
        VersionsStep(h, page, slot);
        var all, rest := VersionsFrom(h, page, slot), VersionsFrom(h, page, slot + 1);
        if Has(h, Rid(page, slot)) {
          assert all[1..] == rest;
        } else {
          assert all == rest;
        }
      }
    }
  }

  ghost predicate DistinctRids(versions: seq<(Rid, bool)>) {
    forall i, j :: 0 <= i < j < |versions| ==> versions[i].0 != versions[j].0
  }

  ghost function LivingTails(h: Heap, versions: seq<(Rid, bool)>): seq<Rid> {
    if versions == [] then []
    else (if !versions[0].1 && !IsPointed(h, versions[0].0) then [versions[0].0] else [])
         + LivingTails(h, versions[1..])
  }

  lemma {:induction false} LivingTailsSnoc(h: Heap, versions: seq<(Rid, bool)>, x: (Rid, bool))
    ensures LivingTails(h, versions + [x])
            == LivingTails(h, versions) + (if !x.1 && !IsPointed(h, x.0) then [x.0] else [])
  {
    hide IsPointed;
    if versions == [] {
      assert [x][1..] == [];
    } else {
      LivingTailsSnoc(h, versions[1..], x);
      var all := versions + [x];
      assert all[0] == versions[0] && all[1..] == versions[1..] + [x];
      var head := if !versions[0].1 && !IsPointed(h, versions[0].0) then [versions[0].0] else [];
      assert LivingTails(h, all) == head + LivingTails(h, all[1..]);
      assert LivingTails(h, versions) == head + LivingTails(h, versions[1..]);
    }
  }

  lemma {:induction false} EntriesOfSnoc(h: Heap, keyOf: KeyOf, rids: seq<Rid>, r: Rid)
    requires (forall x :: x in rids ==> Has(h, x)) && Has(h, r)
    ensures var key := keyOf(RowAt(h, r));
            EntriesOf(h, keyOf, rids + [r])
            == EntriesOf(h, keyOf, rids) + (if key.Some? then [Entry(key.value, r)] else [])
  {
    if rids == [] {
      assert [r][1..] == [];
    } else {
      EntriesOfSnoc(h, keyOf, rids[1..], r);
      assert (rids + [r])[1..] == rids[1..] + [r];
    }
  }

  /** `backfill_tree`: one entry per living tail whose row has a key, in scan
    * order; the result lists the entries as they are inserted. */
  method Backfill(h: Heap, keyOf: KeyOf) returns (inserted: seq<Entry<Rid>>)
    ensures inserted == EntriesOf(h, keyOf, Tails(h))
  {
    hide IsPointed, EntriesOf, LivingTails, VersionsFrom, TailsFrom;
    var pointed, slots := CollectVersions(h);
    TailsOfVersions(h, 0, 0);
    VersionsExist(h, 0, 0);
    VersionsDistinct(h, 0, 0);
    NoTailsNoEntries(h, keyOf);
    inserted := [];
    var seen: set<Rid> := {};
    ghost var done: seq<Rid> := [];
    for i := 0 to |slots|
      invariant forall r :: r in seen ==> exists j :: 0 <= j < i && slots[j].0 == r
      invariant done == LivingTails(h, slots[..i]) && forall r :: r in done ==> Has(h, r)
      invariant inserted == EntriesOf(h, keyOf, done)
    {
      var (r, deleted) := slots[i];
      assert slots[i] in slots && slots[..i + 1] == slots[..i] + [slots[i]];
      LivingTailsSnoc(h, slots[..i], slots[i]);
      if r in seen {
        assert false;
      }
      seen := seen + {r};
      if r !in pointed && !deleted {
        EntriesOfSnoc(h, keyOf, done, r);
        done := done + [r];
        var key := keyOf(RowAt(h, r));
        if key.Some? {
          inserted := inserted + [Entry(key.value, r)];
        }
      }
    }
    assert slots[..|slots|] == slots;
  }

  lemma NoTailsNoEntries(h: Heap, keyOf: KeyOf)
    ensures LivingTails(h, []) == [] && EntriesOf(h, keyOf, []) == []
  {
  }
}
