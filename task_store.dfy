/** The state of the task controller as a value, one function per controller action
    giving the new state and the HTTP-level response, and the properties the actions
    keep: id order and freshness, error cases that change nothing, and the frame of
    every update. */
module TaskStore {
  import opened Models

  const NotFoundMessage: string := "Task not found."
  const EmptyDescriptionMessage: string := "Description cannot be empty."

  /** The response of an action, in place of the ASP.NET `ActionResult`s. `Created`
      carries the id of the GetById route it points at, as `CreatedAtAction` does. */
  datatype Response =
    | Ok(task: TaskItem)
    | OkList(items: seq<TaskItem>)
    | Created(routeId: int, task: TaskItem)
    | NoContent
    | NotFound(message: string)
    | BadRequest(message: string)

  /** The in-memory list of tasks and the next id to hand out. */
  datatype Store = Store(tasks: seq<TaskItem>, nextId: int)

  /** The state at process start: an empty list and a counter at 1. */
  const Initial: Store := Store([], 1)

  /** A new state together with the response the action returns. */
  datatype Outcome = Outcome(store: Store, response: Response)

  /** The store invariant: the counter is positive, every id lies in [1, nextId),
      and ids strictly increase along the list, so they are pairwise distinct and
      the list is in creation order. */
  predicate Invariant(s: Store)
  {
    && s.nextId >= 1
    && (forall i :: 0 <= i < |s.tasks| ==> 1 <= s.tasks[i].id < s.nextId)
    && (forall i, j :: 0 <= i < j < |s.tasks| ==> s.tasks[i].id < s.tasks[j].id)
  }

  predicate HasId(tasks: seq<TaskItem>, id: int)
  {
    exists i :: 0 <= i < |tasks| && tasks[i].id == id
  }

  /** The index `tasks.FirstOrDefault(t => t.Id == id)` lands on: the first task
      with that id, or None when there is none. */
  function FirstIndexOf(tasks: seq<TaskItem>, id: int): (r: Option<nat>)
    ensures r.Some? ==> r.value < |tasks| && tasks[r.value].id == id
    ensures r.Some? ==> forall j :: 0 <= j < r.value ==> tasks[j].id != id
    ensures r.None? <==> !HasId(tasks, id)
    decreases |tasks|
  {
    if |tasks| == 0 then None
    else if tasks[0].id == id then Some(0)
    else
      match FirstIndexOf(tasks[1..], id)
      case None =>
        assert forall j :: 1 <= j < |tasks| ==> tasks[j] == tasks[1..][j - 1];
        None
      case Some(k) => Some(k + 1)
  }

  /** Under the invariant the first task with an id is the only one with it. */
  lemma FirstIndexIsOnly(s: Store, id: int)
    requires Invariant(s)
    ensures match FirstIndexOf(s.tasks, id)
            case None => true
            case Some(i) => forall j :: 0 <= j < |s.tasks| && s.tasks[j].id == id ==> j == i
  {
  }

  /** GET /api/tasks: the whole list, in order, with no change of state. */
  function GetAll(s: Store): (o: Outcome)
    ensures o.store == s
    ensures o.response.OkList? && o.response.items == s.tasks
  {
    Outcome(s, OkList(s.tasks))
  }

  /** GET /api/tasks/{id}: the task with that id, or NotFound; never a change of state. */
  function GetById(s: Store, id: int): (o: Outcome)
    ensures o.store == s
    ensures o.response.Ok? <==> HasId(s.tasks, id)
    ensures o.response.Ok? ==> o.response.task in s.tasks && o.response.task.id == id
    ensures o.response.Ok? ==> o.response.task == s.tasks[FirstIndexOf(s.tasks, id).value]
    ensures !o.response.Ok? ==> o.response == NotFound(NotFoundMessage)
  {
    match FirstIndexOf(s.tasks, id)
    case None => Outcome(s, NotFound(NotFoundMessage))
    case Some(i) => Outcome(s, Ok(s.tasks[i]))
  }

  /** POST /api/tasks. A null, empty or all-white-space description is refused with
      no change of state. Otherwise the task gets the counter's value as its id, is
      not completed whatever the body said, keeps its description untrimmed, and is
      appended after every earlier task; the counter goes up by one. */
  function Create(s: Store, body: TaskBody): (o: Outcome)
    ensures IsNullOrWhiteSpace(body.description) <==> o.response.BadRequest?
    ensures o.response.BadRequest? ==>
              o == Outcome(s, BadRequest(EmptyDescriptionMessage))
    ensures !o.response.BadRequest? ==>
              && o.response.Created?
              && o.response.routeId == o.response.task.id == s.nextId
              && o.response.task.description == body.description.value
              && !o.response.task.isCompleted
              && o.store.nextId == s.nextId + 1
              && |o.store.tasks| == |s.tasks| + 1
              && o.store.tasks[..|s.tasks|] == s.tasks
              && o.store.tasks[|s.tasks|] == o.response.task
    ensures Invariant(s) ==> Invariant(o.store) && !HasId(s.tasks, s.nextId)
  {
    if IsNullOrWhiteSpace(body.description) then
      Outcome(s, BadRequest(EmptyDescriptionMessage))
    else
      var task := TaskItem(s.nextId, body.description.value, false);
      Outcome(Store(s.tasks + [task], s.nextId + 1), Created(task.id, task))
  }

  /** PUT /api/tasks/{id}. An absent id gives NotFound with no change of state.
      Otherwise only the description of the found task changes, to exactly the
      given text (even an empty one); its id and flag, every other task, the list
      order and the counter stay as they were. */
  function Update(s: Store, id: int, description: string): (o: Outcome)
    ensures !HasId(s.tasks, id) <==> o.response.NotFound?
    ensures o.response.NotFound? ==> o == Outcome(s, NotFound(NotFoundMessage))
    ensures !o.response.NotFound? ==>
              && o.response == NoContent
              && o.store.nextId == s.nextId
              && |o.store.tasks| == |s.tasks|
              && forall j :: 0 <= j < |s.tasks| ==>
                   o.store.tasks[j].id == s.tasks[j].id
                   && o.store.tasks[j].isCompleted == s.tasks[j].isCompleted
    ensures !o.response.NotFound? ==>
              var i := FirstIndexOf(s.tasks, id).value;
              && o.store.tasks[i].description == description
              && forall j :: 0 <= j < |s.tasks| && j != i ==> o.store.tasks[j] == s.tasks[j]
    ensures Invariant(s) ==> Invariant(o.store)
  {
    match FirstIndexOf(s.tasks, id)
    case None => Outcome(s, NotFound(NotFoundMessage))
    case Some(i) =>
      Outcome(Store(s.tasks[i := s.tasks[i].(description := description)], s.nextId), NoContent)
  }

  /** PUT /api/tasks/{id}/toggle. An absent id gives NotFound with no change of
      state; otherwise exactly the found task's completion flag is negated. */
  function Toggle(s: Store, id: int): (o: Outcome)
    ensures !HasId(s.tasks, id) <==> o.response.NotFound?
    ensures o.response.NotFound? ==> o == Outcome(s, NotFound(NotFoundMessage))
    ensures !o.response.NotFound? ==>
              && o.response == NoContent
              && o.store.nextId == s.nextId
              && |o.store.tasks| == |s.tasks|
              && forall j :: 0 <= j < |s.tasks| ==>
                   o.store.tasks[j].id == s.tasks[j].id
                   && o.store.tasks[j].description == s.tasks[j].description
    ensures !o.response.NotFound? ==>
              var i := FirstIndexOf(s.tasks, id).value;
              && o.store.tasks[i].isCompleted == !s.tasks[i].isCompleted
              && forall j :: 0 <= j < |s.tasks| && j != i ==> o.store.tasks[j] == s.tasks[j]
    ensures Invariant(s) ==> Invariant(o.store)
  {
    match FirstIndexOf(s.tasks, id)
    case None => Outcome(s, NotFound(NotFoundMessage))
    case Some(i) =>
      Outcome(Store(s.tasks[i := s.tasks[i].(isCompleted := !s.tasks[i].isCompleted)], s.nextId), NoContent)
  }

  /** DELETE /api/tasks/{id}. An absent id gives NotFound with no change of state;
      otherwise the found task is removed, the others keep their relative order and
      the counter is left alone, so the id is not handed out again. */
  function Delete(s: Store, id: int): (o: Outcome)
    ensures !HasId(s.tasks, id) <==> o.response.NotFound?
    ensures o.response.NotFound? ==> o == Outcome(s, NotFound(NotFoundMessage))
    ensures !o.response.NotFound? ==>
              var i := FirstIndexOf(s.tasks, id).value;
              && o.response == NoContent
              && o.store.nextId == s.nextId
              && |o.store.tasks| == |s.tasks| - 1
              && (forall j :: 0 <= j < i ==> o.store.tasks[j] == s.tasks[j])
              && (forall j :: i <= j < |o.store.tasks| ==> o.store.tasks[j] == s.tasks[j + 1])
    ensures Invariant(s) ==> Invariant(o.store)
  {
    match FirstIndexOf(s.tasks, id)
    case None => Outcome(s, NotFound(NotFoundMessage))
    case Some(i) => Outcome(Store(s.tasks[..i] + s.tasks[i + 1..], s.nextId), NoContent)
  }

  /** Under the invariant, Update changes the task that has the id and no other. */
  lemma UpdateChangesOnlyThatId(s: Store, id: int, description: string)
    requires Invariant(s) && HasId(s.tasks, id)
    ensures var t := Update(s, id, description).store.tasks;
            forall j :: 0 <= j < |s.tasks| ==>
              t[j] == if s.tasks[j].id == id then s.tasks[j].(description := description) else s.tasks[j]
  {
  }

  /** Under the invariant, Toggle flips the task that has the id and no other. */
  lemma ToggleChangesOnlyThatId(s: Store, id: int)
    requires Invariant(s) && HasId(s.tasks, id)
    ensures var t := Toggle(s, id).store.tasks;
            forall j :: 0 <= j < |s.tasks| ==>
              t[j] == if s.tasks[j].id == id then s.tasks[j].(isCompleted := !s.tasks[j].isCompleted) else s.tasks[j]
  {
  }

  /** Under the invariant, Delete keeps exactly the tasks whose id differs. */
  lemma DeleteRemovesOnlyThatId(s: Store, id: int)
    requires Invariant(s)
    ensures var t := Delete(s, id).store.tasks;
            forall x :: x in t <==> x in s.tasks && x.id != id
  {
  }

  /** One request to the controller, after routing and body binding. */
  datatype Request =
    | GetAllRequest
    | GetByIdRequest(id: int)
    | CreateRequest(body: TaskBody)
    | UpdateRequest(id: int, description: string)
    | ToggleRequest(id: int)
    | DeleteRequest(id: int)

  /** Dispatch one request to its action. Failed requests and reads leave the state
      as it was, and the counter never goes down. */
  function Handle(s: Store, req: Request): (o: Outcome)
    ensures o.response.NotFound? || o.response.BadRequest? ==> o.store == s
    ensures req.GetAllRequest? || req.GetByIdRequest? ==> o.store == s
    ensures o.store.nextId == s.nextId || o.store.nextId == s.nextId + 1
    ensures Invariant(s) ==> Invariant(o.store)
  {
    match req
    case GetAllRequest => GetAll(s)
    case GetByIdRequest(id) => GetById(s, id)
    case CreateRequest(body) => Create(s, body)
    case UpdateRequest(id, d) => Update(s, id, d)
    case ToggleRequest(id) => Toggle(s, id)
    case DeleteRequest(id) => Delete(s, id)
  }

  /** The state after handling the requests one after the other. */
  function Run(s: Store, reqs: seq<Request>): (r: Store)
    ensures r.nextId >= s.nextId
    ensures Invariant(s) ==> Invariant(r)
    decreases |reqs|
  {
    if reqs == [] then s else Run(Handle(s, reqs[0]).store, reqs[1..])
  }

  /** One request never brings back an id that is below the counter and absent. */
  lemma HandleKeepsIdAbsent(s: Store, req: Request, id: int)
    requires id < s.nextId && !HasId(s.tasks, id)
    ensures !HasId(Handle(s, req).store.tasks, id)
  {
  }

  /** Ids are never reused: an id below the counter that is not in the list (for
      instance one whose task was deleted) is not in the list after any further
      requests. */
  lemma {:induction false} IdNeverReused(s: Store, reqs: seq<Request>, id: int)
    requires id < s.nextId && !HasId(s.tasks, id)
    ensures !HasId(Run(s, reqs).tasks, id)
    decreases |reqs|
  {
    if reqs != [] {
      HandleKeepsIdAbsent(s, reqs[0], id);
      IdNeverReused(Handle(s, reqs[0]).store, reqs[1..], id);
    }
  }

  /** After a successful delete the id is gone for good: whatever requests follow,
      GetById, Update, Toggle and Delete on it answer NotFound. */
  lemma DeletedIdStaysNotFound(s: Store, id: int, reqs: seq<Request>, description: string)
    requires Invariant(s) && HasId(s.tasks, id)
    ensures Delete(s, id).response == NoContent
    ensures var r := Run(Delete(s, id).store, reqs);
            && GetById(r, id).response == NotFound(NotFoundMessage)
            && Update(r, id, description) == Outcome(r, NotFound(NotFoundMessage))
            && Toggle(r, id) == Outcome(r, NotFound(NotFoundMessage))
            && Delete(r, id) == Outcome(r, NotFound(NotFoundMessage))
  {
    var d := Delete(s, id).store;
    var i := FirstIndexOf(s.tasks, id).value;
    FirstIndexIsOnly(s, id);
    IdNeverReused(d, reqs, id);
  }

  /** Toggling the same id twice restores the state and answers the same both times. */
  lemma ToggleTwice(s: Store, id: int)
    ensures var o := Toggle(s, id);
            Toggle(o.store, id) == Outcome(s, o.response)
  {
  }

  /** The bound bodies of a series of POST requests. */
  function CreateRequests(bodies: seq<TaskBody>): seq<Request>
  {
    seq(|bodies|, k requires 0 <= k < |bodies| => CreateRequest(bodies[k]))
  }

  /** Creating tasks one after another appends them in that order with consecutive
      ids starting at the counter, so listing shows them in creation order. */
  lemma {:induction false} CreatesAppendInOrder(s: Store, bodies: seq<TaskBody>)
    requires forall k :: 0 <= k < |bodies| ==> !IsNullOrWhiteSpace(bodies[k].description)
    ensures var r := Run(s, CreateRequests(bodies));
            && r.nextId == s.nextId + |bodies|
            && |r.tasks| == |s.tasks| + |bodies|
            && r.tasks[..|s.tasks|] == s.tasks
            && forall k :: |s.tasks| <= k < |r.tasks| ==>
                 && r.tasks[k].id == s.nextId + (k - |s.tasks|)
                 && Some(r.tasks[k].description) == bodies[k - |s.tasks|].description
                 && !r.tasks[k].isCompleted
    decreases |bodies|
  {
    if bodies != [] {
      var s1 := Create(s, bodies[0]).store;
      assert CreateRequests(bodies)[1..] == CreateRequests(bodies[1..]);
      CreatesAppendInOrder(s1, bodies[1..]);
      var r := Run(s1, CreateRequests(bodies[1..]));
      assert Run(s, CreateRequests(bodies)) == r;
      assert r.tasks[..|s.tasks|] == r.tasks[..|s1.tasks|][..|s.tasks|];
      assert r.tasks[|s.tasks|] == r.tasks[..|s1.tasks|][|s.tasks|];
    }
  }

  /** Create, delete, create from the initial state gives ids 1 and then 2. */
  lemma CreateDeleteCreate(a: TaskBody, b: TaskBody)
    requires !IsNullOrWhiteSpace(a.description) && !IsNullOrWhiteSpace(b.description)
    ensures var o1 := Create(Initial, a);
            var o2 := Delete(o1.store, 1);
            var o3 := Create(o2.store, b);
            && o1.response.Created? && o1.response.task.id == 1
            && o2.response == NoContent && o2.store.tasks == []
            && o3.response.Created? && o3.response.task.id == 2
  {
  }

  /** Create refuses empty and blank descriptions and stores a padded one untrimmed,
      not completed even when the body says it is. */
  lemma CreateValidation(s: Store)
    ensures Create(s, TaskBody(0, None, false)).response == BadRequest(EmptyDescriptionMessage)
    ensures Create(s, TaskBody(0, Some(""), false)).response == BadRequest(EmptyDescriptionMessage)
    ensures Create(s, TaskBody(0, Some("   "), false)).response == BadRequest(EmptyDescriptionMessage)
    ensures Create(s, TaskBody(7, Some(" buy milk "), true)).response
            == Created(s.nextId, TaskItem(s.nextId, " buy milk ", false))
  {
    assert !IsWhiteSpace(" buy milk "[1]);
  }

  /** The life of one task: create, toggle, update, read, delete, read again. */
  lemma Scenario()
    ensures var o1 := Create(Initial, TaskBody(0, Some("write spec"), false));
            var o2 := Toggle(o1.store, 1);
            var o3 := Update(o2.store, 1, "write spec v2");
            var o4 := GetById(o3.store, 1);
            var o5 := Delete(o4.store, 1);
            var o6 := GetById(o5.store, 1);
            && o1.response == Created(1, TaskItem(1, "write spec", false))
            && o2.response == NoContent && o3.response == NoContent
            && o4.response == Ok(TaskItem(1, "write spec v2", true))
            && o5.response == NoContent
            && o6.response == NotFound(NotFoundMessage)
  {
    var o1 := Create(Initial, TaskBody(0, Some("write spec"), false));
    assert !IsWhiteSpace("write spec"[0]);
    assert o1.store.tasks == [TaskItem(1, "write spec", false)];
  }
}
