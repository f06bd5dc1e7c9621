/** Rollback of an abandoned delete (`src/transaction/manager.rs`): every
  * version of the transaction is neutralised, and the index entries of the row
  * it replaced are put back.
  *
  * The versions come out of the registry in the order of a hash set.  The
  * results: the pages end up the same in every order; the indexes do if and
  * only if no version's entries can be put back on behalf of two versions; and
  * for a statement of deletes dropped after any number of writes, in any order,
  * the indexes come back exactly unless it was dropped between a link and an
  * index removal, when one entry comes back once too often.
  */
module Rollback {
  import opened Options
  import opened Values
  import opened VersionHeap
  import opened TombstoneOverlay
  import opened DeleteProtocol

  // ---------- rolling back ----------

  const MAX_TOMBSTONE_CHAIN_WALK := 64

  /** From a tombstone's predecessor: the first version another transaction
    * made, unless it is a tombstone itself. */
  function RestoreTarget(h: Heap, tx: nat, cur: Option<Rid>, steps: nat): Option<Rid>
    decreases steps
  {
    if cur.None? || steps == 0 || !Has(h, cur.value) then None
    else if At(h, cur.value).createTx == tx then RestoreTarget(h, tx, At(h, cur.value).next, steps - 1)
    else if IsDeleted(At(h, cur.value)) then None
    else cur
  }

  lemma {:induction false} RestoreTargetLives(h: Heap, tx: nat, cur: Option<Rid>, steps: nat)
    ensures RestoreTarget(h, tx, cur, steps).Some? ==>
            var v := RestoreTarget(h, tx, cur, steps).value;
            Has(h, v) && !IsDeleted(At(h, v)) && At(h, v).createTx != tx
    decreases steps
  {
    if cur.Some? && steps > 0 && Has(h, cur.value) {
      RestoreTargetLives(h, tx, At(h, cur.value).next, steps - 1);
    }
  }

  function MarkAborted(h: Heap, t: Rid): Heap
    requires Has(h, t)
  {
    h[t.page := h[t.page][t.slot := Version(At(h, t).(createTx := 0, commitTx := DELETED_TX), RowAt(h, t))]]
  }

  function Restored(indexes: seq<multiset<Entry>>, keys: seq<Option<seq<Byte>>>, rid: Rid): seq<multiset<Entry>> {
    seq(|indexes|, i requires 0 <= i < |indexes| => With(indexes[i], KeyAt(keys, i), rid))
  }

  /** One registered version that no index points to is rolled back. */
  function RollBackOne(s: Store, tx: nat, keysOf: KeysOf, t: Rid): Store
    requires Has(s.heap, t)
  {
    var target := RestoreTarget(s.heap, tx, At(s.heap, t).next, MAX_TOMBSTONE_CHAIN_WALK);
    RestoreTargetLives(s.heap, tx, At(s.heap, t).next, MAX_TOMBSTONE_CHAIN_WALK);
    Store(MarkAborted(s.heap, t), s.registered,
          if target.None? then s.indexes else Restored(s.indexes, keysOf(RowAt(s.heap, target.value)), target.value))
  }

  lemma MarkKeepsSlots(h: Heap, t: Rid)
    requires Has(h, t)
    ensures forall r :: Has(MarkAborted(h, t), r) <==> Has(h, r)
  {
  }

  /** All of them, in the order the registry's hash set happens to list them. */
  function RollBackAll(s: Store, tx: nat, keysOf: KeysOf, order: seq<Rid>): Store
    requires forall t :: t in order ==> Has(s.heap, t)
    decreases |order|
  {
    if order == [] then s
    else
      MarkKeepsSlots(s.heap, order[0]);
      RollBackAll(RollBackOne(s, tx, keysOf, order[0]), tx, keysOf, order[1..])
  }

  lemma {:induction false} RollBackAllSlots(s: Store, tx: nat, keysOf: KeysOf, order: seq<Rid>)
    requires forall t :: t in order ==> Has(s.heap, t)
    ensures var h' := RollBackAll(s, tx, keysOf, order).heap;
            && |h'| == |s.heap|
            && (forall p :: 0 <= p < |h'| ==> |h'[p]| == |s.heap[p]|)
            && (forall p: nat, i: nat :: p < |h'| && i < |h'[p]| ==>
                  h'[p][i] == if Rid(p, i) in order
                              then Version(s.heap[p][i].header.(createTx := 0, commitTx := DELETED_TX),
                                           s.heap[p][i].row)
                              else s.heap[p][i])
    decreases |order|
  {
    hide RestoreTarget, Restored;
    if order != [] {
      MarkKeepsSlots(s.heap, order[0]);
      RollBackAllSlots(RollBackOne(s, tx, keysOf, order[0]), tx, keysOf, order[1..]);
    }
  }

  /** In any order, the pages end up with all versions of `tx` neutralised. */
  lemma RollBackNeutralises(s: Store, tx: nat, keysOf: KeysOf, order: seq<Rid>)
    requires forall t :: t in order <==> Has(s.heap, t) && At(s.heap, t).createTx == tx
    ensures RollBackAll(s, tx, keysOf, order).heap == RolledBack(s.heap, tx)
  {
    RollBackAllSlots(s, tx, keysOf, order);
    hide RollBackAll;
    var h' := RollBackAll(s, tx, keysOf, order).heap;
    forall p | 0 <= p < |h'| ensures h'[p] == RolledBack(s.heap, tx)[p] {
      forall i | 0 <= i < |h'[p]| ensures h'[p][i] == Neutralised(s.heap[p][i], tx) {
        assert Has(s.heap, Rid(p, i)) <==> s.heap[p][i].Version?;
      }
    }
  }

  // ---------- what a rollback adds to each index ----------

  /** Versions of `tx` are those it created and did not yet neutralise. */
  predicate Own(h: Heap, tx: nat, t: Rid) {
    Has(h, t) && At(h, t).createTx == tx
  }

  function EntryOf(keys: seq<Option<seq<Byte>>>, i: nat, rid: Rid): multiset<Entry> {
    With(multiset{}, KeyAt(keys, i), rid)
  }

  function Target(h: Heap, tx: nat, t: Rid): Option<Rid>
    requires Has(h, t)
  {
    RestoreTarget(h, tx, At(h, t).next, MAX_TOMBSTONE_CHAIN_WALK)
  }

  /** The entry that rolling back `t` puts into index `i`, if any. */
  function Restores(h: Heap, tx: nat, keysOf: KeysOf, t: Rid, i: nat): multiset<Entry>
    requires Has(h, t)
  {
    RestoreTargetLives(h, tx, At(h, t).next, MAX_TOMBSTONE_CHAIN_WALK);
    var target := Target(h, tx, t);
    if target.None? then multiset{} else EntryOf(keysOf(RowAt(h, target.value)), i, target.value)
  }

  /** What rolling back in this order adds to index `i`, step by step. */
  function Added(h: Heap, tx: nat, keysOf: KeysOf, order: seq<Rid>, i: nat): multiset<Entry>
    requires forall t :: t in order ==> Has(h, t)
    decreases |order|
  {
    if order == [] then multiset{}
    else
      MarkKeepsSlots(h, order[0]);
      Restores(h, tx, keysOf, order[0], i) + Added(MarkAborted(h, order[0]), tx, keysOf, order[1..], i)
  }

  lemma {:induction false} RollBackAdds(s: Store, tx: nat, keysOf: KeysOf, order: seq<Rid>)
    requires forall t :: t in order ==> Has(s.heap, t)
    ensures var back := RollBackAll(s, tx, keysOf, order).indexes;
            && |back| == |s.indexes|
            && forall i :: 0 <= i < |back| ==> back[i] == s.indexes[i] + Added(s.heap, tx, keysOf, order, i)
    decreases |order|
  {
    if order != [] {
      hide RestoreTarget, MarkAborted, KeyAt;
      MarkKeepsSlots(s.heap, order[0]);
      var s' := RollBackOne(s, tx, keysOf, order[0]);
      RollBackAdds(s', tx, keysOf, order[1..]);
      forall i | 0 <= i < |s.indexes|
        ensures s'.indexes[i] == s.indexes[i] + Restores(s.heap, tx, keysOf, order[0], i)
      {
      }
    }
  }

  /** What the versions would add if each were rolled back first. */
  function Sum(h: Heap, tx: nat, keysOf: KeysOf, order: seq<Rid>, i: nat): multiset<Entry>
    requires forall t :: t in order ==> Has(h, t)
    decreases |order|
  {
    if order == [] then multiset{}
    else Restores(h, tx, keysOf, order[0], i) + Sum(h, tx, keysOf, order[1..], i)
  }

  lemma {:induction false} SumWithout(h: Heap, tx: nat, keysOf: KeysOf, order: seq<Rid>, i: nat, k: nat)
    requires k < |order| && forall t :: t in order ==> Has(h, t)
    ensures Sum(h, tx, keysOf, order, i)
         == Restores(h, tx, keysOf, order[k], i) + Sum(h, tx, keysOf, order[..k] + order[k + 1..], i)
    decreases |order|
  {
    hide Restores;
    var rest := order[..k] + order[k + 1..];
    if k == 0 {
      assert rest == order[1..];
    } else {
      SumWithout(h, tx, keysOf, order[1..], i, k - 1);
      assert rest[1..] == order[1..][..k - 1] + order[1..][k..];
    }
  }

  lemma {:induction false} SumPermutes(h: Heap, tx: nat, keysOf: KeysOf, a: seq<Rid>, b: seq<Rid>, i: nat)
    requires multiset(a) == multiset(b)
    requires forall t :: t in a ==> Has(h, t)
    ensures forall t :: t in b ==> Has(h, t)
    ensures Sum(h, tx, keysOf, a, i) == Sum(h, tx, keysOf, b, i)
    decreases |a|
  {
    hide Restores;
    assert |a| == |multiset(a)| == |multiset(b)| == |b|;
    forall t | t in b ensures Has(h, t) {
      assert t in multiset(b);
    }
    if a != [] {
      var k := TakeFromBoth(a, b);
      assert a[..0] + a[1..] == a[1..];
      SumPermutes(h, tx, keysOf, a[1..], b[..k] + b[k + 1..], i);
      SumWithout(h, tx, keysOf, b, i, k);
    }
  }

  // ---------- when the order is irrelevant ----------

  /** `h` is `h0` with the versions in `done` neutralised. */
  ghost predicate Marked(h0: Heap, h: Heap, done: set<Rid>) {
    && (forall r :: Has(h, r) <==> Has(h0, r))
    && forall r :: Has(h, r) ==>
         && RowAt(h, r) == RowAt(h0, r)
         && At(h, r) == if r in done then At(h0, r).(createTx := 0, commitTx := DELETED_TX) else At(h0, r)
  }

  lemma MarkOne(h0: Heap, h: Heap, done: set<Rid>, t: Rid)
    requires Marked(h0, h, done) && Has(h, t)
    ensures Marked(h0, MarkAborted(h, t), done + {t})
  {
    var h' := MarkAborted(h, t);
    MarkKeepsSlots(h, t);
    forall r | Has(h', r)
      ensures RowAt(h', r) == RowAt(h, r)
      ensures At(h', r) == if r == t then At(h, r).(createTx := 0, commitTx := DELETED_TX) else At(h, r)
    {
    }
  }

  /** Neutralising versions of `tx` can only make a walk find nothing. */
  lemma {:induction false} MarkedTarget(h0: Heap, h: Heap, done: set<Rid>, tx: nat, cur: Option<Rid>, steps: nat)
    requires Marked(h0, h, done) && tx != 0 && forall t :: t in done ==> Own(h0, tx, t)
    ensures RestoreTarget(h, tx, cur, steps) in {RestoreTarget(h0, tx, cur, steps), None}
    ensures cur.Some? && !Own(h0, tx, cur.value) ==>
            RestoreTarget(h, tx, cur, steps) == RestoreTarget(h0, tx, cur, steps)
    decreases steps
  {
    if cur.Some? && steps > 0 && Has(h, cur.value) && At(h, cur.value).createTx == tx {
      MarkedTarget(h0, h, done, tx, At(h, cur.value).next, steps - 1);
    }
  }

  /** Only a version whose own predecessor is one of the transaction's too can
    * put back what that predecessor puts back; none of these does. */
  ghost predicate RestoredOnce(h: Heap, tx: nat, keysOf: KeysOf, indexes: nat) {
    forall t, i: nat {:trigger Restores(h, tx, keysOf, t, i)} ::
      Own(h, tx, t) && At(h, t).next.Some? && Own(h, tx, At(h, t).next.value) && i < indexes ==>
        Restores(h, tx, keysOf, t, i) == multiset{}
  }

  lemma MarkedRestores(h0: Heap, h: Heap, done: set<Rid>, tx: nat, keysOf: KeysOf, indexes: nat, t: Rid, i: nat)
    requires Marked(h0, h, done) && tx != 0 && forall r :: r in done ==> Own(h0, tx, r)
    requires RestoredOnce(h0, tx, keysOf, indexes) && Own(h0, tx, t) && t !in done && i < indexes
    ensures Has(h, t) && Restores(h, tx, keysOf, t, i) == Restores(h0, tx, keysOf, t, i)
  {
    var next := At(h0, t).next;
    MarkedTarget(h0, h, done, tx, next, MAX_TOMBSTONE_CHAIN_WALK);
    RestoreTargetLives(h0, tx, next, MAX_TOMBSTONE_CHAIN_WALK);
    RestoreTargetLives(h, tx, next, MAX_TOMBSTONE_CHAIN_WALK);
    hide RestoreTarget, EntryOf;
    assert Restores(h0, tx, keysOf, t, i) == Restores(h0, tx, keysOf, t, i);
    if next.Some? && Own(h0, tx, next.value) {
      assert Restores(h0, tx, keysOf, t, i) == multiset{};
    }
  }

  ghost predicate NoRepeats(order: seq<Rid>) {
    forall a, b :: 0 <= a < b < |order| ==> order[a] != order[b]
  }

  lemma {:induction false} AddedIsSum(h0: Heap, h: Heap, done: set<Rid>, tx: nat, keysOf: KeysOf, indexes: nat,
                                      order: seq<Rid>, i: nat)
    requires Marked(h0, h, done) && tx != 0 && forall r :: r in done ==> Own(h0, tx, r)
    requires RestoredOnce(h0, tx, keysOf, indexes) && i < indexes
    requires NoRepeats(order) && forall t :: t in order ==> Has(h, t) && Has(h0, t) && Own(h0, tx, t) && t !in done
    ensures Added(h, tx, keysOf, order, i) == Sum(h0, tx, keysOf, order, i)
    decreases |order|
  {
    if order != [] {
      hide RestoredOnce, MarkAborted, Restores;
      MarkedRestores(h0, h, done, tx, keysOf, indexes, order[0], i);
      MarkOne(h0, h, done, order[0]);
      hide Marked;
      AddedIsSum(h0, MarkAborted(h, order[0]), done + {order[0]}, tx, keysOf, indexes, order[1..], i);
    }
  }

  /** If the versions of `tx` have no entry in common to put back, the indexes
    * do not depend on the order in which they are rolled back. */
  lemma RollBackOrderIrrelevant(s: Store, tx: nat, keysOf: KeysOf, order: seq<Rid>, order': seq<Rid>)
    requires tx != 0 && RestoredOnce(s.heap, tx, keysOf, |s.indexes|)
    requires NoRepeats(order) && NoRepeats(order') && multiset(order) == multiset(order')
    requires forall t :: t in order ==> Has(s.heap, t) && Own(s.heap, tx, t)
    ensures forall t :: t in order' ==> Has(s.heap, t) && Own(s.heap, tx, t)
    ensures RollBackAll(s, tx, keysOf, order).indexes == RollBackAll(s, tx, keysOf, order').indexes
  {
    forall t | t in order' ensures Has(s.heap, t) && Own(s.heap, tx, t) {
      assert t in multiset(order');
    }
    hide Restores, RestoredOnce, RollBackAll;
    RollBackAdds(s, tx, keysOf, order);
    RollBackAdds(s, tx, keysOf, order');
    forall i | 0 <= i < |s.indexes|
      ensures Added(s.heap, tx, keysOf, order, i) == Added(s.heap, tx, keysOf, order', i)
    {
      AddedIsSum(s.heap, s.heap, {}, tx, keysOf, |s.indexes|, order, i);
      AddedIsSum(s.heap, s.heap, {}, tx, keysOf, |s.indexes|, order', i);
      SumPermutes(s.heap, tx, keysOf, order, order', i);
    }
  }

  /** In particular where the transaction only deleted rows it did not write. */
  lemma OnlyForeignPredecessors(h: Heap, tx: nat, keysOf: KeysOf, indexes: nat)
    requires forall t, v :: Own(h, tx, t) && Link(h, t, v) ==> !Own(h, tx, v)
    ensures RestoredOnce(h, tx, keysOf, indexes)
  {
    forall t | Own(h, tx, t) && At(h, t).next.Some?
      ensures !Own(h, tx, At(h, t).next.value)
    {
      assert Own(h, tx, At(h, t).next.value) ==> Link(h, t, At(h, t).next.value);
    }
  }

  // ---------- when it is not ----------

  lemma {:induction false} MoreSteps(h: Heap, tx: nat, cur: Option<Rid>, steps: nat)
    requires RestoreTarget(h, tx, cur, steps).Some?
    ensures RestoreTarget(h, tx, cur, steps + 1) == RestoreTarget(h, tx, cur, steps)
    decreases steps
  {
    if At(h, cur.value).createTx == tx {
      MoreSteps(h, tx, At(h, cur.value).next, steps - 1);
    }
  }

  /** A walk goes back in the file, so it does not meet what comes later. */
  lemma {:induction false} TargetBelow(h: Heap, tx: nat, t: Rid, cur: Option<Rid>, steps: nat)
    requires LinksBack(h) && Has(h, t) && (cur.Some? && Has(h, cur.value) ==> Precedes(cur.value, t))
    ensures RestoreTarget(MarkAborted(h, t), tx, cur, steps) == RestoreTarget(h, tx, cur, steps)
    decreases steps
  {
    var h' := MarkAborted(h, t);
    MarkKeepsSlots(h, t);
    if cur.Some? && steps > 0 && Has(h, cur.value) {
      var v := cur.value;
      assert At(h', v) == At(h, v);
      if At(h, v).createTx == tx {
        var next := At(h, v).next;
        assert next.Some? && Has(h, next.value) ==> Link(h, v, next.value);
        TargetBelow(h, tx, t, next, steps - 1);
      }
    }
  }

  lemma MarksCommute(h: Heap, a: Rid, b: Rid)
    requires Has(h, a) && Has(h, b) && a != b
    ensures Has(MarkAborted(h, a), b) && Has(MarkAborted(h, b), a)
    ensures MarkAborted(MarkAborted(h, a), b) == MarkAborted(MarkAborted(h, b), a)
  {
    var x, y := MarkAborted(MarkAborted(h, a), b), MarkAborted(MarkAborted(h, b), a);
    forall p | 0 <= p < |h| ensures x[p] == y[p] {
      assert forall k :: 0 <= k < |h[p]| ==> x[p][k] == y[p][k];
    }
  }

  lemma AddedTwo(h: Heap, tx: nat, keysOf: KeysOf, a: Rid, b: Rid, rest: seq<Rid>, i: nat)
    requires Has(h, a) && Has(h, b) && forall t :: t in rest ==> Has(h, t)
    ensures var ha := MarkAborted(h, a);
            && Has(ha, b)
            && (forall t :: t in rest ==> Has(MarkAborted(ha, b), t))
            && Added(h, tx, keysOf, [a, b] + rest, i)
               == Restores(h, tx, keysOf, a, i) + Restores(ha, tx, keysOf, b, i)
                  + Added(MarkAborted(ha, b), tx, keysOf, rest, i)
  {
    hide Restores;
    MarkKeepsSlots(h, a);
    MarkKeepsSlots(MarkAborted(h, a), b);
    hide MarkAborted;
    assert ([a, b] + rest)[1..] == [b] + rest && ([b] + rest)[1..] == rest;
  }

  /** A version with entries to put back whose predecessor is the transaction's
    * own too: rolled back before it, it puts the same entries back once more
    * than rolled back after it. */
  lemma RollBackOrderMatters(h: Heap, tx: nat, keysOf: KeysOf, t: Rid, o: Rid, rest: seq<Rid>, i: nat)
    requires LinksBack(h) && tx != 0 && Own(h, tx, t) && Own(h, tx, o) && Link(h, t, o)
    requires Restores(h, tx, keysOf, t, i) != multiset{} && forall r :: r in rest ==> Has(h, r)
    ensures Added(h, tx, keysOf, [t, o] + rest, i)
         == Added(h, tx, keysOf, [o, t] + rest, i) + Restores(h, tx, keysOf, t, i)
  {
    AddedTwo(h, tx, keysOf, t, o, rest, i);
    AddedTwo(h, tx, keysOf, o, t, rest, i);
    MarksCommute(h, t, o);
    NewerFirst(h, tx, keysOf, t, o, i);
    OlderFirst(h, tx, keysOf, t, o, i);
  }

  lemma NewerFirst(h: Heap, tx: nat, keysOf: KeysOf, t: Rid, o: Rid, i: nat)
    requires LinksBack(h) && Own(h, tx, t) && Own(h, tx, o) && Link(h, t, o)
    requires Restores(h, tx, keysOf, t, i) != multiset{}
    ensures Has(MarkAborted(h, t), o)
    ensures Restores(MarkAborted(h, t), tx, keysOf, o, i) == Restores(h, tx, keysOf, o, i)
            == Restores(h, tx, keysOf, t, i)
  {
    var h', next := MarkAborted(h, t), At(h, o).next;
    MarkKeepsSlots(h, t);
    assert next.Some? && Has(h, next.value) ==> Link(h, o, next.value);
    TargetBelow(h, tx, t, next, MAX_TOMBSTONE_CHAIN_WALK);
    MoreSteps(h, tx, next, MAX_TOMBSTONE_CHAIN_WALK - 1);
    RestoreTargetLives(h, tx, next, MAX_TOMBSTONE_CHAIN_WALK);
    assert RowAt(h', Target(h, tx, o).value) == RowAt(h, Target(h, tx, o).value);
  }

  lemma OlderFirst(h: Heap, tx: nat, keysOf: KeysOf, t: Rid, o: Rid, i: nat)
    requires LinksBack(h) && tx != 0 && Has(h, t) && Own(h, tx, o) && Link(h, t, o)
    ensures Has(MarkAborted(h, o), t) && Restores(MarkAborted(h, o), tx, keysOf, t, i) == multiset{}
  {
    var h' := MarkAborted(h, o);
    MarkKeepsSlots(h, o);
    assert At(h', t).next == Some(o) && At(h', o) == At(h, o).(createTx := 0, commitTx := DELETED_TX);
  }

  // ---------- exactly when ----------

  /** The registry as one iteration lists it: every version of `tx`, once. */
  ghost predicate Lists(h: Heap, tx: nat, order: seq<Rid>) {
    NoRepeats(order) && forall t :: t in order <==> Has(h, t) && Own(h, tx, t)
  }

  lemma {:induction false} CountInList(order: seq<Rid>, t: Rid)
    requires NoRepeats(order)
    ensures multiset(order)[t] == if t in order then 1 else 0
    decreases |order|
  {
    if order != [] {
      CountInList(order[1..], t);
      assert order == [order[0]] + order[1..];
    }
  }

  lemma ListsPermute(h: Heap, tx: nat, a: seq<Rid>, b: seq<Rid>)
    requires Lists(h, tx, a) && Lists(h, tx, b)
    ensures multiset(a) == multiset(b)
  {
    forall t ensures multiset(a)[t] == multiset(b)[t] {
      CountInList(a, t);
      CountInList(b, t);
    }
  }

  lemma TakenOut(order: seq<Rid>, t: Rid) returns (rest: seq<Rid>)
    requires NoRepeats(order) && t in order
    ensures NoRepeats(rest) && forall r :: r in rest <==> r in order && r != t
  {
    var a :| 0 <= a < |order| && order[a] == t;
    rest := order[..a] + order[a + 1..];
    assert forall k :: 0 <= k < |rest| ==> rest[k] == order[if k < a then k else k + 1];
    forall r | r in order && r != t ensures r in rest {
      var k :| 0 <= k < |order| && order[k] == r;
      assert rest[if k < a then k else k - 1] == r;
    }
  }

  /** Two versions of a list moved to its front. */
  lemma ToFront(h: Heap, tx: nat, order: seq<Rid>, t: Rid, o: Rid) returns (rest: seq<Rid>)
    requires Lists(h, tx, order) && t in order && o in order && t != o
    ensures Lists(h, tx, [t, o] + rest) && Lists(h, tx, [o, t] + rest)
  {
    hide Own;
    var rest' := TakenOut(order, t);
    rest := TakenOut(rest', o);
  }

  ghost predicate OrderIrrelevant(s: Store, tx: nat, keysOf: KeysOf) {
    forall a, b :: Lists(s.heap, tx, a) && Lists(s.heap, tx, b) ==>
      RollBackAll(s, tx, keysOf, a).indexes == RollBackAll(s, tx, keysOf, b).indexes
  }

  /** The indexes after a rollback are the same in every order of the registry
    * if and only if no version of `tx` with a predecessor of `tx` has entries
    * to put back. */
  lemma OrderIrrelevantExactly(s: Store, tx: nat, keysOf: KeysOf, order: seq<Rid>)
    requires LinksBack(s.heap) && tx != 0 && Lists(s.heap, tx, order)
    ensures OrderIrrelevant(s, tx, keysOf) <==> RestoredOnce(s.heap, tx, keysOf, |s.indexes|)
  {
    if RestoredOnce(s.heap, tx, keysOf, |s.indexes|) {
      forall a, b | Lists(s.heap, tx, a) && Lists(s.heap, tx, b)
        ensures RollBackAll(s, tx, keysOf, a).indexes == RollBackAll(s, tx, keysOf, b).indexes
      {
        ListsPermute(s.heap, tx, a, b);
        RollBackOrderIrrelevant(s, tx, keysOf, a, b);
      }
    } else {
      var t, i: nat :|
        && Own(s.heap, tx, t) && At(s.heap, t).next.Some? && Own(s.heap, tx, At(s.heap, t).next.value)
        && i < |s.indexes| && Restores(s.heap, tx, keysOf, t, i) != multiset{};
      OrdersDiffer(s, tx, keysOf, order, t, i);
    }
  }

  lemma OrdersDiffer(s: Store, tx: nat, keysOf: KeysOf, order: seq<Rid>, t: Rid, i: nat)
    requires LinksBack(s.heap) && tx != 0 && Lists(s.heap, tx, order)
    requires Own(s.heap, tx, t) && At(s.heap, t).next.Some? && Own(s.heap, tx, At(s.heap, t).next.value)
    requires i < |s.indexes| && Restores(s.heap, tx, keysOf, t, i) != multiset{}
    ensures !OrderIrrelevant(s, tx, keysOf)
  {
    hide Restores, Added, RollBackAll;
    var o := At(s.heap, t).next.value;
    assert Link(s.heap, t, o);
    var rest := ToFront(s.heap, tx, order, t, o);
    var a, b := [t, o] + rest, [o, t] + rest;
    RollBackOrderMatters(s.heap, tx, keysOf, t, o, rest, i);
    RollBackAdds(s, tx, keysOf, a);
    RollBackAdds(s, tx, keysOf, b);
    assert RollBackAll(s, tx, keysOf, a).indexes[i] != RollBackAll(s, tx, keysOf, b).indexes[i];
  }

  /** A row, its update by transaction 2, and that transaction's tombstone. */
  function UpdatedThenDeleted(row: Row, row': Row): Heap {
    [[Version(Header(1, 1, None), row), Version(Header(2, UNSET_TX, Some(Rid(0, 0))), row'),
      Tombstone(2, Some(Rid(0, 1)))]]
  }

  /** Rolling back an update followed by a delete of the row: oldest first, the
    * row's entry comes back once; newest first, it comes back twice. */
  lemma UpdateThenDelete(row: Row, row': Row, keysOf: KeysOf, index: multiset<Entry>, key: seq<Byte>)
    requires KeyAt(keysOf(row), 0) == Some(key)
    ensures var s, e := Store(UpdatedThenDeleted(row, row'), {Rid(0, 2)}, [index]), multiset{Entry(key, Rid(0, 0))};
            && RollBackAll(s, 2, keysOf, [Rid(0, 1), Rid(0, 2)]).indexes == [index + e]
            && RollBackAll(s, 2, keysOf, [Rid(0, 2), Rid(0, 1)]).indexes == [index + e + e]
  {
  }

  // ---------- the indexes of an abandoned statement ----------

  /** The row is in every index that has a key for it. */
  ghost predicate IsIndexed(s: Store, keysOf: KeysOf, rid: Rid)
    requires Has(s.heap, rid)
  {
    forall i {:trigger s.indexes[i]} :: 0 <= i < |s.indexes| ==>
      var key := KeyAt(keysOf(RowAt(s.heap, rid)), i);
      key.Some? ==> Entry(key.value, rid) in s.indexes[i]
  }

  /** The indexes once the reclaimer is done: it does nothing if no version was
    * registered. */
  function ReclaimedIndexes(s: Store, tx: nat, keysOf: KeysOf, order: seq<Rid>): seq<multiset<Entry>>
    requires forall t :: t in order ==> Has(s.heap, t)
  {
    if s.registered == {} then s.indexes else RollBackAll(s, tx, keysOf, order).indexes
  }

  /** Part of a statement is done: its tombstones are `made`, and putting back
    * what they stand for gives the indexes at the start. */
  ghost predicate Balanced(s0: Store, s: Store, tx: nat, keysOf: KeysOf, made: seq<Rid>) {
    && Extends(s0.heap, s.heap) && Lists(s.heap, tx, made)
    && (forall r :: Has(s.heap, r) && r !in made ==> Has(s0.heap, r))
    && (forall t :: t in made ==> Has(s.heap, t) && Direct(s.heap, tx, t))
    && |s.indexes| == |s0.indexes|
    && forall i :: 0 <= i < |s.indexes| ==> s.indexes[i] + Sum(s.heap, tx, keysOf, made, i) == s0.indexes[i]
  }

  /** A standing tombstone, unlinked or linked to another transaction's version. */
  predicate Direct(h: Heap, tx: nat, t: Rid) {
    && Has(h, t) && IsDeleted(At(h, t)) && !IsAborted(At(h, t))
    && (At(h, t).next.Some? ==> Has(h, At(h, t).next.value) && !Own(h, tx, At(h, t).next.value))
  }

  lemma {:induction false} SumAfterAppend(h: Heap, h': Heap, tx: nat, keysOf: KeysOf, made: seq<Rid>, i: nat)
    requires Extends(h, h') && forall t :: t in made ==> Has(h, t) && Direct(h, tx, t)
    ensures forall t :: t in made ==> Has(h', t) && Direct(h', tx, t)
    ensures Sum(h', tx, keysOf, made, i) == Sum(h, tx, keysOf, made, i)
    decreases |made|
  {
    if made != [] {
      hide EntryOf;
      var t := made[0];
      assert t in made;
      OldSlots(h, h', t);
      if At(h, t).next.Some? {
        OldSlots(h, h', At(h, t).next.value);
      }
      assert Restores(h', tx, keysOf, t, i) == Restores(h, tx, keysOf, t, i);
      SumAfterAppend(h, h', tx, keysOf, made[1..], i);
    }
  }

  lemma {:induction false} SumOfTwo(h: Heap, tx: nat, keysOf: KeysOf, made: seq<Rid>, t: Rid, i: nat)
    requires Has(h, t) && forall r :: r in made ==> Has(h, r)
    ensures Sum(h, tx, keysOf, made + [t], i) == Sum(h, tx, keysOf, made, i) + Restores(h, tx, keysOf, t, i)
  {
    SumWithout(h, tx, keysOf, made + [t], i, |made|);
    assert (made + [t])[..|made|] + (made + [t])[|made| + 1..] == made;
  }

  /** Nothing stands for a row that no standing version replaces. */
  lemma {:induction false} NotInSum(h: Heap, tx: nat, keysOf: KeysOf, made: seq<Rid>, rid: Rid, key: seq<Byte>, i: nat)
    requires (forall t :: t in made ==> Has(h, t) && Direct(h, tx, t)) && IsStandingTail(h, rid)
    ensures Entry(key, rid) !in Sum(h, tx, keysOf, made, i)
    decreases |made|
  {
    if made != [] {
      var t := made[0];
      assert t in made;
      NotInSum(h, tx, keysOf, made[1..], rid, key, i);
      assert At(h, t).next == Some(rid) ==> Link(h, t, rid);
      assert Entry(key, rid) !in Restores(h, tx, keysOf, t, i);
    }
  }

  /** The tombstones of one more delete after `n` of its writes. */
  function Made(h: Heap, made: seq<Rid>, d: Delete, n: nat): seq<Rid> {
    if n == 0 then made else made + [NewSlot(h, d.newPage)]
  }

  lemma TombstoneRestores(s: Store, tx: nat, keysOf: KeysOf, d: Delete, n: nat, i: nat)
    requires tx != 0 && IsStandingTail(s.heap, d.rid) && !Own(s.heap, tx, d.rid) && n > 0
    ensures var h', t := After(s, tx, keysOf, d, n).heap, NewSlot(s.heap, d.newPage);
            && Extends(s.heap, h') && Direct(h', tx, t) && Own(h', tx, t)
            && Restores(h', tx, keysOf, t, i)
               == if n < 3 then multiset{} else EntryOf(keysOf(RowAt(s.heap, d.rid)), i, d.rid)
  {
    var h' := After(s, tx, keysOf, d, n).heap;
    AppendFacts(s.heap, Tombstone(tx, if n >= 3 then Some(d.rid) else None), d.newPage);
    OldSlots(s.heap, h', d.rid);
  }

  lemma MadeByWrites(s0: Store, s: Store, tx: nat, keysOf: KeysOf, made: seq<Rid>, d: Delete, n: nat)
    requires Balanced(s0, s, tx, keysOf, made) && IsStandingTail(s.heap, d.rid) && tx != 0
    ensures !Own(s.heap, tx, d.rid) && Has(s0.heap, d.rid) && RowAt(s0.heap, d.rid) == RowAt(s.heap, d.rid)
    ensures var h', made' := After(s, tx, keysOf, d, n).heap, Made(s.heap, made, d, n);
            && Extends(s0.heap, h') && Lists(h', tx, made')
            && (forall r :: Has(h', r) && r !in made' ==> Has(s0.heap, r))
            && (forall t :: t in made' ==> Has(h', t) && Direct(h', tx, t))
  {
    hide Sum;
    assert d.rid !in made;
    OldSlots(s0.heap, s.heap, d.rid);
    if n > 0 {
      var h', t := After(s, tx, keysOf, d, n).heap, NewSlot(s.heap, d.newPage);
      TombstoneRestores(s, tx, keysOf, d, n, 0);
      AppendFacts(s.heap, Tombstone(tx, if n >= 3 then Some(d.rid) else None), d.newPage);
      SumAfterAppend(s.heap, h', tx, keysOf, made, 0);
      ExtendsTrans(s0.heap, s.heap, h');
    }
  }

  /** Index `i` after `n` writes and what the tombstones stand for: the index at
    * the start, and once more the entry not yet removed from it. */
  lemma WritesBalance(s0: Store, s: Store, tx: nat, keysOf: KeysOf, made: seq<Rid>, d: Delete, n: nat, i: nat)
    requires Balanced(s0, s, tx, keysOf, made) && IsStandingTail(s.heap, d.rid) && tx != 0
    requires Has(s0.heap, d.rid) && IsIndexed(s0, keysOf, d.rid) && i < |s0.indexes|
    ensures var s', made' := After(s, tx, keysOf, d, n), Made(s.heap, made, d, n);
            && (forall t :: t in made' ==> Has(s'.heap, t))
            && s'.indexes[i] + Sum(s'.heap, tx, keysOf, made', i)
               == s0.indexes[i] + Left(keysOf(RowAt(s0.heap, d.rid)), d.rid, n, i)
  {
    var s', made', keys := After(s, tx, keysOf, d, n), Made(s.heap, made, d, n), keysOf(RowAt(s0.heap, d.rid));
    MadeByWrites(s0, s, tx, keysOf, made, d, n);
    if n > 0 {
      TombstoneRestores(s, tx, keysOf, d, n, i);
      SumAfterAppend(s.heap, s'.heap, tx, keysOf, made, i);
      SumOfTwo(s'.heap, tx, keysOf, made, NewSlot(s.heap, d.newPage), i);
    }
    if KeyAt(keys, i).Some? {
      NotInSum(s.heap, tx, keysOf, made, d.rid, KeyAt(keys, i).value, i);
    }
    hide Sum, Restores, IsStandingTail, Lists, Direct;
    RemovedAndBack(s0.indexes[i], s.indexes[i], Sum(s.heap, tx, keysOf, made, i), KeyAt(keys, i), d.rid);
  }

  /** The entry a delete of the row has still to remove from index `i` after
    * `n` writes, if it is linked. */
  function Left(keys: seq<Option<seq<Byte>>>, rid: Rid, n: nat, i: nat): multiset<Entry> {
    if n >= 3 && i >= n - 3 then EntryOf(keys, i, rid) else multiset{}
  }

  lemma RemovedAndBack(start: multiset<Entry>, index: multiset<Entry>, rest: multiset<Entry>, key: Option<seq<Byte>>,
                       rid: Rid)
    requires index + rest == start
    requires key.Some? ==> Entry(key.value, rid) in start && Entry(key.value, rid) !in rest
    ensures Without(index, key, rid) + (rest + With(multiset{}, key, rid)) == start
    ensures index + (rest + With(multiset{}, key, rid)) == start + With(multiset{}, key, rid)
    ensures index + (rest + multiset{}) == start
  {
    if key.Some? {
      assert start[Entry(key.value, rid)] == index[Entry(key.value, rid)];
    }
  }

  /** The rows the deletes find are indexed at the start. */
  ghost predicate AllIndexed(s: Store, keysOf: KeysOf, ds: seq<Delete>) {
    forall d :: d in ds && Has(s.heap, d.rid) ==> IsIndexed(s, keysOf, d.rid)
  }

  lemma {:induction false} RunBalances(s0: Store, s: Store, tx: nat, keysOf: KeysOf, made: seq<Rid>, ds: seq<Delete>)
    returns (made': seq<Rid>)
    requires Balanced(s0, s, tx, keysOf, made) && tx != 0 && ValidRun(s, tx, keysOf, ds) && AllIndexed(s0, keysOf, ds)
    ensures Balanced(s0, Run(s, tx, keysOf, ds), tx, keysOf, made')
    ensures s.registered != {} || ds != [] ==> Run(s, tx, keysOf, ds).registered != {}
    decreases |ds|
  {
    made' := made;
    if ds != [] {
      var s' := After(s, tx, keysOf, ds[0], Writes(s));
      made' := Made(s.heap, made, ds[0], Writes(s));
      assert NewSlot(s.heap, ds[0].newPage) in s'.registered;
      CompleteDeleteBalances(s0, s, tx, keysOf, made, ds[0]);
      hide Balanced, After, IsStandingTail;
      assert AllIndexed(s0, keysOf, ds[1..]);
      made' := RunBalances(s0, s', tx, keysOf, made', ds[1..]);
    }
  }

  lemma CompleteDeleteBalances(s0: Store, s: Store, tx: nat, keysOf: KeysOf, made: seq<Rid>, d: Delete)
    requires Balanced(s0, s, tx, keysOf, made) && IsStandingTail(s.heap, d.rid) && tx != 0
    requires Has(s0.heap, d.rid) ==> IsIndexed(s0, keysOf, d.rid)
    ensures Balanced(s0, After(s, tx, keysOf, d, Writes(s)), tx, keysOf, Made(s.heap, made, d, Writes(s)))
  {
    MadeByWrites(s0, s, tx, keysOf, made, d, Writes(s));
    var s', made' := After(s, tx, keysOf, d, Writes(s)), Made(s.heap, made, d, Writes(s));
    forall i | 0 <= i < |s.indexes|
      ensures s'.indexes[i] + Sum(s'.heap, tx, keysOf, made', i) == s0.indexes[i]
    {
      WritesBalance(s0, s, tx, keysOf, made, d, Writes(s), i);
    }
  }

  /** A statement is dropped after some complete deletes and `n` writes of one
    * more, and rolled back in any order of the registry.  Every index comes back
    * as it was, with one more copy of the last row's entry if the row's tombstone
    * was linked and the entry not removed yet. */
  lemma IndexesReclaimed(s: Store, tx: nat, keysOf: KeysOf, ds: seq<Delete>, d: Delete, n: nat, order: seq<Rid>)
    requires s.registered == {} && Fresh(s.heap, tx) && ValidRun(s, tx, keysOf, ds + [d])
    requires AllIndexed(s, keysOf, ds + [d]) && Lists(Prefix(s, tx, keysOf, ds, d, n).heap, tx, order)
    ensures Has(s.heap, d.rid)
    ensures var back := ReclaimedIndexes(Prefix(s, tx, keysOf, ds, d, n), tx, keysOf, order);
            && |back| == |s.indexes|
            && forall i :: 0 <= i < |back| ==> back[i] == s.indexes[i] + Left(keysOf(RowAt(s.heap, d.rid)), d.rid, n, i)
  {
    ValidPrefix(s, tx, keysOf, ds, d);
    assert Balanced(s, s, tx, keysOf, []);
    assert AllIndexed(s, keysOf, ds) && d in ds + [d];
    var made := RunBalances(s, s, tx, keysOf, [], ds);
    var run := Run(s, tx, keysOf, ds);
    var s', made' := After(run, tx, keysOf, d, n), Made(run.heap, made, d, n);
    MadeByWrites(s, run, tx, keysOf, made, d, n);
    if s'.registered == {} {
      assert ds == [] && n < 2;
    } else {
      RollBackAdds(s', tx, keysOf, order);
      forall i | 0 <= i < |s.indexes|
        ensures Added(s'.heap, tx, keysOf, order, i) == Sum(s'.heap, tx, keysOf, made', i)
      {
        AllAdded(s'.heap, tx, keysOf, made', order, |s.indexes|, i);
      }
      forall i | 0 <= i < |s.indexes|
        ensures s'.indexes[i] + Sum(s'.heap, tx, keysOf, made', i)
             == s.indexes[i] + Left(keysOf(RowAt(s.heap, d.rid)), d.rid, n, i)
      {
        WritesBalance(s, run, tx, keysOf, made, d, n, i);
      }
    }
  }

  lemma AllAdded(h: Heap, tx: nat, keysOf: KeysOf, made: seq<Rid>, order: seq<Rid>, indexes: nat, i: nat)
    requires tx != 0 && Lists(h, tx, made) && Lists(h, tx, order) && i < indexes
    requires forall t :: t in made ==> Has(h, t) && Direct(h, tx, t)
    ensures Added(h, tx, keysOf, order, i) == Sum(h, tx, keysOf, made, i)
  {
    hide Added, Sum, Restores;
    OnlyForeignPredecessors(h, tx, keysOf, indexes);
    AddedIsSum(h, h, {}, tx, keysOf, indexes, order, i);
    ListsPermute(h, tx, order, made);
    SumPermutes(h, tx, keysOf, order, made, i);
  }

  /** So the indexes are restored exactly if and only if the last delete was not
    * linked yet or no index is left from which an entry was to be removed. */
  lemma IndexesRestoredExactly(s: Store, tx: nat, keysOf: KeysOf, ds: seq<Delete>, d: Delete, n: nat, order: seq<Rid>)
    requires s.registered == {} && Fresh(s.heap, tx) && ValidRun(s, tx, keysOf, ds + [d])
    requires AllIndexed(s, keysOf, ds + [d]) && Lists(Prefix(s, tx, keysOf, ds, d, n).heap, tx, order)
    ensures Has(s.heap, d.rid)
    ensures var keys := keysOf(RowAt(s.heap, d.rid));
            ReclaimedIndexes(Prefix(s, tx, keysOf, ds, d, n), tx, keysOf, order) == s.indexes <==>
            n < 3 || forall i {:trigger KeyAt(keys, i)} :: n - 3 <= i < |s.indexes| ==> KeyAt(keys, i).None?
  {
    IndexesReclaimed(s, tx, keysOf, ds, d, n, order);
    hide ReclaimedIndexes, Prefix, ValidRun, AllIndexed, Lists;
    var back := ReclaimedIndexes(Prefix(s, tx, keysOf, ds, d, n), tx, keysOf, order);
    var keys := keysOf(RowAt(s.heap, d.rid));
    forall i | 0 <= i < |s.indexes|
      ensures back[i] == s.indexes[i] <==> n < 3 || i < n - 3 || KeyAt(keys, i).None?
    {
      var left := Left(keys, d.rid, n, i);
      assert |s.indexes[i] + left| == |s.indexes[i]| + |left|;
    }
    if back != s.indexes {
      var i :| 0 <= i < |s.indexes| && back[i] != s.indexes[i];
      assert KeyAt(keys, i).Some?;
    }
  }
}
