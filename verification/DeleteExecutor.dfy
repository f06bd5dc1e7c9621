/** The delete executor and the reclaimer as they change one table
  * (`src/executor/delete.rs`, `src/transaction/manager.rs`). */
module DeleteExecutor {
  import opened Options
  import opened Values
  import opened VersionHeap
  import opened DeleteProtocol
  import opened Rollback

  /** One table and the transaction that deletes from it. */
  class Table {
    var heap: Heap
    var registered: set<Rid>
    var indexes: seq<multiset<Entry>>
    const tx: nat
    const keysOf: KeysOf

    constructor (s: Store, deleter: nat, keys: KeysOf)
      ensures Contents() == s && tx == deleter && keysOf == keys
    {
      heap, registered, indexes, tx, keysOf := s.heap, s.registered, s.indexes, deleter, keys;
    }

    ghost function Contents(): Store
      reads this
    {
      Store(heap, registered, indexes)
    }

    /** Remove the row's entry from the first `count` indexes, if not dropped first. */
    method RemoveEntries(keys: seq<Option<seq<Byte>>>, rid: Rid, count: nat, stop: nat) returns (done: bool)
      requires count <= |indexes|
      modifies this`indexes
      ensures done <==> count <= stop
      ensures indexes == Cleaned(old(indexes), keys, rid, if done then count else stop)
    {
      ghost var before := indexes;
      assert Cleaned(before, keys, rid, 0) == before;
      hide Without, KeyAt;
      for i := 0 to count
        invariant i <= stop && |indexes| == |before| && indexes == Cleaned(before, keys, rid, i)
      {
        if i == stop {
          return false;
        }
        CleanedStep(before, keys, rid, i);
        indexes := indexes[i := Without(indexes[i], KeyAt(keys, i), rid)];
      }
      return true;
    }

    /** `delete_row`, dropped after `stop` writes if it needs more.  `found` is
      * what the primary-key search for `key` returned; the slot it names may be
      * missing, and then there is no tombstone to write. */
    method DeleteRow(key: seq<Byte>, found: Option<Rid>, newPage: bool, stop: nat) returns (affected: Option<nat>)
      requires |indexes| > 0
      requires found.Some? && Has(heap, found.value) ==> KeyAt(keysOf(RowAt(heap, found.value)), 0) == Some(key)
      modifies this
      ensures found.None? ==> affected == Some(0) && Contents() == old(Contents())
      ensures found.Some? && Has(old(heap), found.value) ==>
              && Contents() == After(old(Contents()), tx, keysOf, Delete(found.value, newPage), stop)
              && affected == (if stop < Writes(old(Contents())) then None else Some(1))
      ensures found.Some? && !Has(old(heap), found.value) ==>
              && heap == old(heap)
              && registered == (if stop >= 1 then old(registered) + {found.value} else old(registered))
              && indexes == (if stop >= 2 then old(indexes)[0 := Without(old(indexes)[0], Some(key), found.value)]
                             else old(indexes))
              && affected == (if stop < 2 then None else Some(1))
    {
      if found.None? {
        return Some(0);
      }
      var rid := found.value;
      var present := Has(heap, rid);
      var keys := [Some(key)];
      var recorded, left := rid, stop;
      if present {
        keys := keysOf(RowAt(heap, rid));
        if left == 0 {
          assert Cleaned(indexes, keys, rid, 0) == indexes;
          return None;
        }
        recorded := NewSlot(heap, newPage);
        heap := Append(heap, Tombstone(tx, None), newPage);
        left := left - 1;
      }
      if left == 0 {
        assert Cleaned(indexes, keys, rid, 0) == indexes;
        return None;
      }
      registered := registered + {recorded};
      left := left - 1;
      if present {
        if left == 0 {
          assert Cleaned(indexes, keys, rid, 0) == indexes;
          return None;
        }
        LinkingTombstone(old(heap), tx, rid, newPage);
        heap := heap[recorded.page := heap[recorded.page][recorded.slot := Tombstone(tx, Some(rid))]];
        left := left - 1;
      }
      var done := RemoveEntries(keys, rid, if present then |indexes| else 1, left);
      assert !present && done ==> indexes == old(indexes)[0 := Without(old(indexes)[0], Some(key), rid)];
      assert !present && !done ==> indexes == old(indexes);
      if !done {
        return None;
      }
      assert present ==> Cleaned(old(indexes), keys, rid, stop - 3) == Cleaned(old(indexes), keys, rid, |indexes|);
      return Some(1);
    }

    /** Rollback: nothing without a registered version, else every version of
      * the transaction, in the order the registry lists them. */
    method RollBack(order: seq<Rid>)
      requires forall t :: t in order ==> Has(heap, t)
      modifies this
      ensures var s := if old(registered) == {} then old(Contents())
                       else RollBackAll(old(Contents()), tx, keysOf, order);
              Contents() == s.(registered := {})
    {
      if registered != {} {
        ghost var s := Contents();
        for i := 0 to |order|
          invariant forall t :: t in order ==> Has(heap, t)
          invariant RollBackAll(Contents(), tx, keysOf, order[i..]) == RollBackAll(s, tx, keysOf, order)
        {
          var t := order[i];
          assert order[i..][1..] == order[i + 1..];
          ghost var s' := RollBackOne(Contents(), tx, keysOf, t);
          var target := RestoreTarget(heap, tx, At(heap, t).next, MAX_TOMBSTONE_CHAIN_WALK);
          if target.Some? {
            RestoreTargetLives(heap, tx, At(heap, t).next, MAX_TOMBSTONE_CHAIN_WALK);
            indexes := Restored(indexes, keysOf(RowAt(heap, target.value)), target.value);
          }
          MarkKeepsSlots(heap, t);
          heap := MarkAborted(heap, t);
          assert Contents() == s';
        }
      }
      registered := {};
    }
  }
}
