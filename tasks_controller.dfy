/** The controller itself: the list and the counter as fields updated in place, and
    one method per HTTP action, each proved to do what the matching function of
    `TaskStore` says. */
module Controllers {
  import opened Models
  import opened TaskStore

  /** The linear search behind `tasks.FirstOrDefault(t => t.Id == id)`. */
  method FindIndex(tasks: seq<TaskItem>, id: int) returns (r: Option<nat>)
    ensures r == FirstIndexOf(tasks, id)
  {
    var i := 0;
    while i < |tasks|
      invariant 0 <= i <= |tasks|
      invariant forall j :: 0 <= j < i ==> tasks[j].id != id
    {
      if tasks[i].id == id {
        return Some(i);
      }
      i := i + 1;
    }
    return None;
  }

  /** The task list and the id counter, initialised as at process start. */
  class TasksController {
    var tasks: seq<TaskItem>
    var nextId: int

    /** The fields as a `TaskStore.Store` value. */
    function State(): Store
      reads this
    {
      Store(tasks, nextId)
    }

    predicate Valid()
      reads this
    {
      Invariant(State())
    }

    constructor ()
      ensures Valid() && State() == Initial
    {
      tasks := [];
      nextId := 1;
    }

    method GetAll() returns (r: Response)
      ensures r == TaskStore.GetAll(State()).response
    {
      r := OkList(tasks);
    }

    method GetById(id: int) returns (r: Response)
      ensures r == TaskStore.GetById(State(), id).response
    {
      var found := FindIndex(tasks, id);
      match found
      case None =>
        r := NotFound(NotFoundMessage);
      case Some(i) =>
        r := Ok(tasks[i]);
    }

    method Create(body: TaskBody) returns (r: Response)
      requires Valid()
      modifies this
      ensures Valid()
      ensures Outcome(State(), r) == TaskStore.Create(old(State()), body)
    {
      if IsNullOrWhiteSpace(body.description) {
        return BadRequest(EmptyDescriptionMessage);
      }
      var task := TaskItem(nextId, body.description.value, false);
      nextId := nextId + 1;
      tasks := tasks + [task];
      r := Created(task.id, task);
    }

    method Update(id: int, description: string) returns (r: Response)
      requires Valid()
      modifies this
      ensures Valid()
      ensures Outcome(State(), r) == TaskStore.Update(old(State()), id, description)
    {
      var found := FindIndex(tasks, id);
      match found
      case None =>
        r := NotFound(NotFoundMessage);
      case Some(i) =>
        tasks := tasks[i := tasks[i].(description := description)];
        r := NoContent;
    }

    method Toggle(id: int) returns (r: Response)
      requires Valid()
      modifies this
      ensures Valid()
      ensures Outcome(State(), r) == TaskStore.Toggle(old(State()), id)
    {
      var found := FindIndex(tasks, id);
      match found
      case None =>
        r := NotFound(NotFoundMessage);
      case Some(i) =>
        tasks := tasks[i := tasks[i].(isCompleted := !tasks[i].isCompleted)];
        r := NoContent;
    }

    method Delete(id: int) returns (r: Response)
      requires Valid()
      modifies this
      ensures Valid()
      ensures Outcome(State(), r) == TaskStore.Delete(old(State()), id)
    {
      var found := FindIndex(tasks, id);
      match found
      case None =>
        r := NotFound(NotFoundMessage);
      case Some(i) =>
        tasks := tasks[..i] + tasks[i + 1..];
        r := NoContent;
    }
  }

  /** A caller's view: create, delete, create on a fresh controller gives ids 1 and 2,
      and the deleted id is not found afterwards. */
  method CreateDeleteCreateClient(a: TaskBody, b: TaskBody)
    requires !IsNullOrWhiteSpace(a.description) && !IsNullOrWhiteSpace(b.description)
  {
    var c := new TasksController();
    var r1 := c.Create(a);
    assert r1.Created? && r1.task.id == 1;
    var r2 := c.Delete(1);
    assert r2 == NoContent;
    var r3 := c.Create(b);
    assert r3.Created? && r3.task.id == 2;
    var r4 := c.GetById(1);
    assert r4 == NotFound(NotFoundMessage);
  }
}
