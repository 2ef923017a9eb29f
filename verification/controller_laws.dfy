/**
  Properties that relate several controller calls: what a read observes after a
  write, what repeating a write does, and the primary-key invariant the writes
  keep.
 */
module ControllerLaws {
  import opened TaskModel
  import opened TaskStore
  import opened TasksController

  /** An id the table does not hold is NotFound for read, update and delete alike,
      and none of them touches the table. */
  lemma AbsentIdIsNotFound(store: Store, id: int, patch: TaskItem)
    requires id !in store && patch.id == id
    ensures GetTask(store, id) == Outcome(NotFound, store)
    ensures UpdateTask(store, id, patch) == Outcome(NotFound, store)
    ensures DeleteTask(store, id) == Outcome(NotFound, store)
  {
  }

  /** A mismatched body id is rejected the same way whatever the two tables hold. */
  lemma MismatchIgnoresStore(s1: Store, s2: Store, id: int, patch: TaskItem)
    requires id != patch.id
    ensures UpdateTask(s1, id, patch).response == UpdateTask(s2, id, patch).response
    ensures UpdateTask(s1, id, patch).store == s1
  {
  }

  /** Sending the same update twice leaves the table as sending it once. */
  lemma UpdateIdempotent(store: Store, id: int, patch: TaskItem)
    ensures var once := UpdateTask(store, id, patch);
            UpdateTask(once.store, id, patch) == once
  {
    if id == patch.id && id in store {
      MergeIdempotent(store[id], patch);
    }
  }

  /** A read after a successful update returns the merged row. */
  lemma GetAfterUpdate(store: Store, id: int, patch: TaskItem)
    requires UpdateTask(store, id, patch).response == NoContent
    ensures GetTask(UpdateTask(store, id, patch).store, id).response == Ok(Merge(store[id], patch))
  {
  }

  /** A read of any other id is unaffected by an update. */
  lemma GetOtherAfterUpdate(store: Store, id: int, patch: TaskItem, other: int)
    requires other != id
    ensures GetTask(UpdateTask(store, id, patch).store, other) == GetTask(store, other).(store := UpdateTask(store, id, patch).store)
  {
  }

  /** A read after a delete of the same id is NotFound. */
  lemma GetAfterDelete(store: Store, id: int)
    ensures GetTask(DeleteTask(store, id).store, id).response == NotFound
  {
  }

  /** Deleting twice: the second call reports NotFound and changes nothing. */
  lemma DeleteTwice(store: Store, id: int)
    ensures var once := DeleteTask(store, id);
            DeleteTask(once.store, id) == Outcome(NotFound, once.store)
  {
  }

  /** A delete of one id leaves reads of every other id as they were. */
  lemma GetOtherAfterDelete(store: Store, id: int, other: int)
    requires other != id
    ensures GetTask(DeleteTask(store, id).store, other).response == GetTask(store, other).response
  {
  }

  /** A read of the new id after a create returns the payload under that id. */
  lemma GetAfterCreate(store: Store, item: TaskItem, newId: int)
    requires newId !in store
    ensures GetTask(CreateTask(store, item, newId).store, newId).response == Ok(item.(id := newId))
  {
  }

  /** Every write keeps each row stored under its own id. */
  lemma WritesKeepWellKeyed(store: Store, id: int, patch: TaskItem, item: TaskItem, newId: int)
    requires WellKeyed(store)
    requires newId !in store
    ensures WellKeyed(UpdateTask(store, id, patch).store)
    ensures WellKeyed(DeleteTask(store, id).store)
    ensures WellKeyed(CreateTask(store, item, newId).store)
  {
  }

  /** In a table whose rows sit under their own ids, a read returns a task
      carrying the requested id. */
  lemma GetReturnsRequestedId(store: Store, id: int)
    requires WellKeyed(store)
    requires id in store
    ensures GetTask(store, id).response.item.id == id
  {
  }

  /** The listing after a create holds exactly one more row: the created one. */
  lemma ContentsAfterCreate(store: Store, item: TaskItem, newId: int)
    requires newId !in store
    ensures Contents(CreateTask(store, item, newId).store) == Contents(store) + multiset{item.(id := newId)}
  {
    ContentsInsert(store, newId, item.(id := newId));
  }

  /** The listing after a successful delete lacks exactly the removed row. */
  lemma ContentsAfterDelete(store: Store, id: int)
    requires id in store
    ensures Contents(DeleteTask(store, id).store) + multiset{store[id]} == Contents(store)
  {
    ContentsRemove(store, id);
  }

  /** The listing after a successful update swaps the old row for the merged one. */
  lemma ContentsAfterUpdate(store: Store, id: int, patch: TaskItem)
    requires UpdateTask(store, id, patch).response == NoContent
    ensures Contents(UpdateTask(store, id, patch).store) + multiset{store[id]}
         == Contents(store) + multiset{Merge(store[id], patch)}
  {
    ContentsReplace(store, id, Merge(store[id], patch));
  }

  /** The payloads as stored: each one under the id assigned to it. */
  function Assigned(items: seq<TaskItem>, ids: seq<int>): (r: seq<TaskItem>)
    requires |ids| == |items|
    ensures |r| == |items|
    ensures forall i :: 0 <= i < |r| ==> r[i] == items[i].(id := ids[i])
  {
    if |items| == 0 then [] else [items[0].(id := ids[0])] + Assigned(items[1..], ids[1..])
  }

  /** Ids the database may hand out to a run of creates: distinct and unused. */
  predicate FreshIds(store: Store, ids: seq<int>) {
    && (forall i :: 0 <= i < |ids| ==> ids[i] !in store)
    && (forall i, j :: 0 <= i < j < |ids| ==> ids[i] != ids[j])
  }

  /** The table after creating `items` in order, the i-th under `ids[i]`. */
  function CreateAll(store: Store, items: seq<TaskItem>, ids: seq<int>): (s: Store)
    requires |ids| == |items|
    requires FreshIds(store, ids)
    ensures |s| == |store| + |items|
    ensures Contents(s) == Contents(store) + multiset(Assigned(items, ids))
    decreases |items|
  {
    if |items| == 0 then store
    else
      var next := CreateTask(store, items[0], ids[0]).store;
      assert FreshIds(next, ids[1..]);
      ContentsAfterCreate(store, items[0], ids[0]);
      CreateAll(next, items[1..], ids[1..])
  }

  /** Starting from an empty table, N creates list exactly the N created rows. */
  lemma ListAfterCreates(items: seq<TaskItem>, ids: seq<int>)
    requires |ids| == |items|
    requires FreshIds(map[], ids)
    ensures |CreateAll(map[], items, ids)| == |items|
    ensures Contents(CreateAll(map[], items, ids)) == multiset(Assigned(items, ids))
    ensures forall i :: 0 <= i < |items| ==> items[i].(id := ids[i]) in CreateAll(map[], items, ids).Values
  {
    var s := CreateAll(map[], items, ids);
    assert Contents(map[]) == multiset{};
    forall i | 0 <= i < |items|
      ensures items[i].(id := ids[i]) in s.Values
    {
      assert Assigned(items, ids)[i] == items[i].(id := ids[i]);
      ContentsMembership(s, items[i].(id := ids[i]));
    }
  }
}
