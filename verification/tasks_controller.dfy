/**
  The five endpoints of the task controller, each a pure step from the current
  table (and the request's arguments) to a response and the next table.

  Saving changes is taken to succeed; the response kinds stand for the HTTP
  results the framework renders (200 with a body, 201, 204, 400, 404).
 */
module TasksController {
  import opened TaskModel
  import opened TaskStore

  datatype Response =
    | Ok(item: TaskItem)              // 200 with one task
    | OkList(items: seq<TaskItem>)    // 200 with every task
    | Created(item: TaskItem)         // 201 with the created task
    | NoContent                       // 204
    | BadRequest(message: string)     // 400 with a message
    | NotFound                        // 404

  datatype Outcome = Outcome(response: Response, store: Store)

  /** GET api/tasks/{id}: the row stored under `id`, or NotFound. */
  function GetTask(store: Store, id: int): (o: Outcome)
    ensures o.store == store
    ensures o.response.Ok? <==> id in store
    ensures o.response.Ok? ==> o.response.item == store[id]
    ensures !o.response.Ok? ==> o.response == NotFound
  {
    if id in store then Outcome(Ok(store[id]), store)
    else Outcome(NotFound, store)
  }

  /** GET api/tasks: every row, in whatever order the table yields them. */
  method GetTasks(store: Store) returns (o: Outcome)
    ensures o.store == store
    ensures o.response.OkList?
    ensures multiset(o.response.items) == Contents(store)
  {
    var items: seq<TaskItem> := [];
    var rest := store;
    while |rest| > 0
      invariant multiset(items) + Contents(rest) == Contents(store)
      decreases |rest|
    {
      SomeKey(rest);
      var k :| k in rest;
      ContentsRemove(rest, k);
      assert (rest - {k}).Keys < rest.Keys;
      items := items + [rest[k]];
      rest := rest - {k};
    }
    o := Outcome(OkList(items), store);
  }

  /** POST api/tasks: the row is inserted under the key the database assigns,
      here `newId`, which the database guarantees is not in use. */
  function CreateTask(store: Store, item: TaskItem, newId: int): (o: Outcome)
    requires newId !in store
    ensures o.response.Created? && o.response.item.id == newId
    ensures o.response.item == item.(id := newId)
    ensures o.store.Keys == store.Keys + {newId}
    ensures o.store[newId] == o.response.item
    ensures forall k :: k in store ==> o.store[k] == store[k]
  {
    var stored := item.(id := newId);
    Outcome(Created(stored), store[newId := stored])
  }

  /** PUT api/tasks/{id}: reject a body whose id differs from the path, then
      reject an unknown id, then apply the partial update. */
  function UpdateTask(store: Store, id: int, patch: TaskItem): (o: Outcome)
    // the id check comes first, whatever the table holds
    ensures id != patch.id ==> o == Outcome(BadRequest("Task ID mismatch."), store)
    ensures id == patch.id && id !in store ==> o == Outcome(NotFound, store)
    ensures o.response == NoContent <==> id == patch.id && id in store
    ensures o.response == NoContent ==>
      && o.store.Keys == store.Keys
      && o.store[id] == Merge(store[id], patch)
      && (forall k :: k in store && k != id ==> o.store[k] == store[k])
  {
    if id != patch.id then
      Outcome(BadRequest("Task ID mismatch."), store)
    else if id !in store then
      Outcome(NotFound, store)
    else
      Outcome(NoContent, store[id := Merge(store[id], patch)])
  }

  /** DELETE api/tasks/{id}: NotFound, or the row removed. */
  function DeleteTask(store: Store, id: int): (o: Outcome)
    ensures id !in store ==> o == Outcome(NotFound, store)
    ensures id in store ==> o.response == NoContent
    ensures id in store ==> o.store.Keys == store.Keys - {id}
    ensures forall k :: k in o.store ==> o.store[k] == store[k]
  {
    if id !in store then Outcome(NotFound, store)
    else Outcome(NoContent, store - {id})
  }
}
