/**
  The persistence collaborator, reduced to what the controller observes of it:
  a table of tasks keyed by their integer id. `FindAsync(id)` is a lookup,
  `Add` an insertion under a fresh key and `Remove` a key removal. Reading the
  whole table yields its rows in an unspecified order, so the table's contents
  are described as a multiset.
 */
module TaskStore {
  import opened TaskModel

  type Store = map<int, TaskItem>

  /** Every row is stored under its own id, as a primary key is. */
  ghost predicate WellKeyed(store: Store) {
    forall k :: k in store ==> store[k].id == k
  }

  /** A non-empty table has a key. */
  lemma SomeKey(store: Store)
    requires |store| > 0
    ensures exists k :: k in store
  {
    if forall k :: k !in store {
      assert false;
    }
  }

  /** Every value of the table is stored under some key. */
  lemma ValueHasKey(store: Store, item: TaskItem)
    requires item in store.Values
    ensures exists k :: k in store && store[k] == item
  {
    if forall k :: k in store ==> store[k] != item {
      assert false;
    }
  }

  /** Some key of a non-empty table, fixed once so that definitions agree on it. */
  ghost function PickKey(store: Store): (k: int)
    requires |store| > 0
    ensures k in store
  {
    SomeKey(store);
    var key :| key in store; key
  }

  /** The rows of the table, without order, counted with multiplicity. */
  ghost function Contents(store: Store): multiset<TaskItem>
    decreases |store|
  {
    if |store| == 0 then multiset{}
    else
      var k := PickKey(store);
      assert |store - {k}| < |store| by { assert (store - {k}).Keys < store.Keys; }
      multiset{store[k]} + Contents(store - {k})
  }

  /** Removing a key of the table removes exactly its row from the contents,
      whichever key it is. */
  lemma {:induction false} ContentsRemove(store: Store, k: int)
    requires k in store
    ensures Contents(store) == multiset{store[k]} + Contents(store - {k})
    decreases |store|
  {
    var p := PickKey(store);
    if p != k {
      var withoutP := store - {p};
      var withoutK := store - {k};
      var withoutBoth := withoutP - {k};
      assert withoutP.Keys < store.Keys;
      assert withoutK.Keys < store.Keys;
      assert withoutK - {p} == withoutBoth;
      var a, b := multiset{store[p]}, multiset{store[k]};
      var tail := Contents(withoutBoth);
      assert Contents(store) == a + Contents(withoutP);
      ContentsRemove(withoutP, k);
      assert Contents(withoutP) == b + tail;
      ContentsRemove(withoutK, p);
      assert Contents(withoutK) == a + tail;
      assert a + (b + tail) == b + (a + tail);
    }
  }

  /** Adding a row under a fresh key adds exactly that row to the contents. */
  lemma ContentsInsert(store: Store, k: int, item: TaskItem)
    requires k !in store
    ensures Contents(store[k := item]) == Contents(store) + multiset{item}
  {
    ContentsRemove(store[k := item], k);
    assert store[k := item] - {k} == store;
  }

  /** Overwriting the row at an existing key swaps that one row in the contents. */
  lemma ContentsReplace(store: Store, k: int, item: TaskItem)
    requires k in store
    ensures Contents(store[k := item]) + multiset{store[k]} == Contents(store) + multiset{item}
  {
    var updated := store[k := item];
    assert updated - {k} == store - {k} by {
      assert (updated - {k}).Keys == (store - {k}).Keys;
    }
    ContentsRemove(store, k);
    ContentsRemove(updated, k);
    MultisetSwap(Contents(store - {k}), store[k], item);
  }

  /** Adding `a` to a bag that has gained `b` equals adding `b` to the bag that gained `a`. */
  lemma MultisetSwap(others: multiset<TaskItem>, a: TaskItem, b: TaskItem)
    ensures (multiset{b} + others) + multiset{a} == (multiset{a} + others) + multiset{b}
  {
  }

  /** The contents hold one row per key. */
  lemma {:induction false} ContentsSize(store: Store)
    ensures |Contents(store)| == |store|
    decreases |store|
  {
    if |store| > 0 {
      var k := PickKey(store);
      assert (store - {k}).Keys < store.Keys;
      ContentsSize(store - {k});
    }
  }

  /** A task is among the contents exactly when some key maps to it. */
  lemma {:induction false} ContentsMembership(store: Store, item: TaskItem)
    ensures item in Contents(store) <==> item in store.Values
    decreases |store|
  {
    if |store| > 0 {
      var k := PickKey(store);
      var rest := store - {k};
      assert rest.Keys < store.Keys;
      ContentsMembership(rest, item);
      assert store.Values == rest.Values + {store[k]} by {
        forall v | v in store.Values ensures v in rest.Values + {store[k]} {
          ValueHasKey(store, v);
          var j :| j in store && store[j] == v;
          if j != k { assert j in rest && rest[j] == v; }
        }
      }
    }
  }
}
