/** The task handlers. Each one runs its guards in the source's order and
    returns at the first that fails, before any write; `caller` is the
    `req.user` the authentication middleware attached. */
module TaskController {
  import opened Common
  import opened Database
  import opened Http
  import TaskModel

  const BodyRequired := "Task body is required"
  const TaskNotFound := "Task not found"
  const AccessDenied := "Access denied"

  /** `createTask`: the owner is always the caller, whatever the request
      body says. A caller whose user row is gone is refused by the foreign
      key, and the error goes to the error middleware. */
  method CreateTask(db: Db, caller: Identity, body: Option<string>) returns (out: Outcome)
    requires db.Valid()
    modifies db
    ensures db.Valid()
    ensures Blank(body) ==> out == Reply(Fail(400, BodyRequired)) && unchanged(db)
    ensures !Blank(body) ==>
      && db.users == old(db.users) && db.userOrder == old(db.userOrder)
      && db.nextUserId == old(db.nextUserId) && db.nextTaskId == old(db.nextTaskId) + 1
    ensures !Blank(body) && caller.id in old(db.users) ==>
      var id := old(db.nextTaskId);
      && id !in old(db.tasks)
      && db.tasks == old(db.tasks)[id := TaskRow(body.value, caller.id)]
      && db.taskOrder == old(db.taskOrder) + [id]
      && out == Reply(Response(201, TaskBody(Some("Task created successfully"), TaskModel.Join(db, id))))
    ensures !Blank(body) && caller.id !in old(db.users) ==>
      && out == Forward(ToServerError(ForeignKeyViolation("tasks", "tasks_userid_fkey")))
      && db.tasks == old(db.tasks) && db.taskOrder == old(db.taskOrder)
  {
    if Blank(body) {
      return Reply(Fail(400, BodyRequired));
    }
    var created := TaskModel.Create(db, body.value, caller.id);
    if created.Err? {
      return Forward(ToServerError(created.error));
    }
    var task := TaskModel.FindById(db, created.value);
    out := Reply(Response(201, TaskBody(Some("Task created successfully"), task.value)));
  }

  /** `getAllTasks`: an administrator sees every task, anyone else exactly
      their own; both lists are newest first and `count` is their length. */
  method GetAllTasks(db: Db, caller: Identity) returns (out: Outcome)
    requires db.Valid()
    ensures var tasks := if caller.role == Admin then TaskModel.FindAll(db) else TaskModel.FindByUserId(db, caller.id);
      out == Reply(Response(200, TaskListBody(tasks, |tasks|)))
    ensures out.Reply? && out.response.status == 200 && out.response.body.TaskListBody?
    ensures out.response.body.count == |out.response.body.tasks|
    ensures caller.role == Admin ==>
      && |out.response.body.tasks| == |db.tasks| == |db.taskOrder|
      && (forall i :: 0 <= i < |db.taskOrder| ==>
            out.response.body.tasks[i] == TaskModel.Join(db, db.taskOrder[|db.taskOrder| - 1 - i]))
      && forall t :: t in db.tasks ==> exists v :: v in out.response.body.tasks && v.id == t
    ensures caller.role != Admin ==>
      out.response.body.tasks == TaskModel.OwnedBy(TaskModel.FindAll(db), caller.id)
    ensures caller.role != Admin ==>
      && (forall v :: v in out.response.body.tasks ==> v.userId == caller.id && v.id in db.tasks)
      && (forall t :: t in db.tasks && db.tasks[t].userId == caller.id ==>
            exists v :: v in out.response.body.tasks && v.id == t)
  {
    var tasks;
    if caller.role == Admin {
      tasks := TaskModel.FindAll(db);
      TaskModel.FindAllIsEveryTaskNewestFirst(db);
      Database.ListsCardinality(db.taskOrder, db.tasks.Keys);
    } else {
      tasks := TaskModel.FindByUserId(db, caller.id);
      TaskModel.FindByUserIdIsOwnersTasks(db, caller.id);
    }
    out := Reply(Response(200, TaskListBody(tasks, |tasks|)));
  }

  /** The ownership test `parseInt(task.userId) !== parseInt(req.user.id)`
      as the code reads the row: `task.userId` is present only if the row
      has the key `userId`, and an absent key parses to NaN, which equals no
      id. */
  predicate MayAccessAsRead(caller: Identity, rowKeys: set<string>, ownerId: int) {
    caller.role == Admin || ("userId" in rowKeys && caller.id == ownerId)
  }

  /** PostgreSQL reports the unquoted column `userId` as `userid`, so with
      the keys of a real `Task.findById` row the test refuses an owner who is
      not an administrator, whom `MayAccess` admits. */
  lemma OwnerRefusedAsWritten(caller: Identity, ownerId: int)
    requires caller.role == Basic && caller.id == ownerId
    ensures MayAccess(caller, ownerId)
    ensures !MayAccessAsRead(caller, ResultKeys(TaskViewColumns), ownerId)
  {
    MixedCaseNameIsNoKey(TaskViewColumns, "userId", 4);
  }

  /** `getTaskById`: an absent task is 404 for every caller; only then is
      ownership checked. */
  method GetTaskById(db: Db, caller: Identity, id: int) returns (out: Outcome)
    requires db.Valid()
    ensures id !in db.tasks ==> out == Reply(Fail(404, TaskNotFound))
    ensures id in db.tasks && !MayAccess(caller, db.tasks[id].userId) ==>
      out == Reply(Fail(403, AccessDenied))
    ensures id in db.tasks && MayAccess(caller, db.tasks[id].userId) ==>
      out == Reply(Response(200, TaskBody(None, TaskModel.Join(db, id))))
  {
    var task := TaskModel.FindById(db, id);
    if task.None? {
      return Reply(Fail(404, TaskNotFound));
    }
    if !MayAccess(caller, task.value.userId) {
      return Reply(Fail(403, AccessDenied));
    }
    out := Reply(Response(200, TaskBody(None, task.value)));
  }

  /** `updateTask`: the body is checked before the lookup, so a blank body
      is 400 even for an absent id; then 404, then 403. Success rewrites the
      body of that one task and nothing else. */
  method UpdateTask(db: Db, caller: Identity, id: int, body: Option<string>) returns (out: Outcome)
    requires db.Valid()
    modifies db
    ensures db.Valid()
    ensures Blank(body) ==> out == Reply(Fail(400, BodyRequired)) && unchanged(db)
    ensures !Blank(body) && id !in old(db.tasks) ==> out == Reply(Fail(404, TaskNotFound)) && unchanged(db)
    ensures !Blank(body) && id in old(db.tasks) && !MayAccess(caller, old(db.tasks)[id].userId) ==>
      out == Reply(Fail(403, AccessDenied)) && unchanged(db)
    ensures !Blank(body) && id in old(db.tasks) && MayAccess(caller, old(db.tasks)[id].userId) ==>
      && db.tasks == old(db.tasks)[id := TaskRow(body.value, old(db.tasks)[id].userId)]
      && db.users == old(db.users) && db.taskOrder == old(db.taskOrder) && db.userOrder == old(db.userOrder)
      && db.nextUserId == old(db.nextUserId) && db.nextTaskId == old(db.nextTaskId)
      && out == Reply(Response(200, TaskBody(Some("Task updated successfully"), TaskModel.Join(db, id))))
  {
    if Blank(body) {
      return Reply(Fail(400, BodyRequired));
    }
    var task := TaskModel.FindById(db, id);
    if task.None? {
      return Reply(Fail(404, TaskNotFound));
    }
    if !MayAccess(caller, task.value.userId) {
      return Reply(Fail(403, AccessDenied));
    }
    var _ := TaskModel.Update(db, id, body.value);
    var updated := TaskModel.FindById(db, id);
    out := Reply(Response(200, TaskBody(Some("Task updated successfully"), updated.value)));
  }

  /** `deleteTask`: 404, then 403; success removes exactly that task and
      answers with a message, not the task. */
  method DeleteTask(db: Db, caller: Identity, id: int) returns (out: Outcome)
    requires db.Valid()
    modifies db
    ensures db.Valid()
    ensures id !in old(db.tasks) ==> out == Reply(Fail(404, TaskNotFound)) && unchanged(db)
    ensures id in old(db.tasks) && !MayAccess(caller, old(db.tasks)[id].userId) ==>
      out == Reply(Fail(403, AccessDenied)) && unchanged(db)
    ensures id in old(db.tasks) && MayAccess(caller, old(db.tasks)[id].userId) ==>
      && db.tasks == old(db.tasks) - {id}
      && db.taskOrder == Restrict(old(db.taskOrder), db.tasks.Keys)
      && db.users == old(db.users) && db.userOrder == old(db.userOrder)
      && db.nextUserId == old(db.nextUserId) && db.nextTaskId == old(db.nextTaskId)
      && out == Reply(Response(200, MessageBody(Some("Task deleted successfully"))))
  {
    var task := TaskModel.FindById(db, id);
    if task.None? {
      return Reply(Fail(404, TaskNotFound));
    }
    if !MayAccess(caller, task.value.userId) {
      return Reply(Fail(403, AccessDenied));
    }
    var _ := TaskModel.Delete(db, id);
    out := Reply(Response(200, MessageBody(Some("Task deleted successfully"))));
  }

  /** A task the owner has deleted is "not found" afterwards. */
  method DeleteThenGet(db: Db, caller: Identity, id: int) returns (deleted: Outcome, fetched: Outcome)
    requires db.Valid() && id in db.tasks && db.tasks[id].userId == caller.id
    modifies db
    ensures deleted == Reply(Response(200, MessageBody(Some("Task deleted successfully"))))
    ensures fetched == Reply(Fail(404, TaskNotFound))
  {
    deleted := DeleteTask(db, caller, id);
    fetched := GetTaskById(db, caller, id);
  }
}
