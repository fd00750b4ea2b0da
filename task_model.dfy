/** `Task`: the statements the task handlers run against the tasks table. */
module TaskModel {
  import opened Common
  import opened Database

  /** `Task.create`: `INSERT INTO tasks (body, userId) ... RETURNING id`. The
      id comes from the sequence, which advances even when the foreign key
      then rejects the row. */
  method Create(db: Db, body: string, userId: int) returns (r: Result<int>)
    requires db.Valid()
    modifies db
    ensures db.Valid()
    ensures db.users == old(db.users) && db.userOrder == old(db.userOrder)
    ensures db.nextUserId == old(db.nextUserId) && db.nextTaskId == old(db.nextTaskId) + 1
    ensures userId in old(db.users) ==>
      && r == Ok(old(db.nextTaskId))
      && r.value !in old(db.tasks)
      && db.tasks == old(db.tasks)[r.value := TaskRow(body, userId)]
      && db.taskOrder == old(db.taskOrder) + [r.value]
    ensures userId !in old(db.users) ==>
      && r == Err(ForeignKeyViolation("tasks", "tasks_userid_fkey"))
      && db.tasks == old(db.tasks) && db.taskOrder == old(db.taskOrder)
  {
    var id := db.nextTaskId;
    db.nextTaskId := id + 1;
    if userId !in db.users {
      return Err(ForeignKeyViolation("tasks", "tasks_userid_fkey"));
    }
    db.tasks := db.tasks[id := TaskRow(body, userId)];
    db.taskOrder := db.taskOrder + [id];
    r := Ok(id);
  }

  /** The task `id` survives the join with its owner. */
  predicate Joined(db: Db, id: int)
    reads db
  {
    id in db.tasks && db.tasks[id].userId in db.users
  }

  function Join(db: Db, id: int): (v: TaskView)
    requires Joined(db, id)
    reads db
    ensures v.id == id && v.body == db.tasks[id].body && v.userId == db.tasks[id].userId
    ensures v.username == db.users[v.userId].username
    ensures v.firstName == db.users[v.userId].firstName && v.lastName == db.users[v.userId].lastName
  {
    var t := db.tasks[id];
    var u := db.users[t.userId];
    TaskView(id, t.body, t.userId, u.username, u.firstName, u.lastName)
  }

  /** `Task.findById`: the joined row, or nothing. */
  function FindById(db: Db, id: int): (r: Option<TaskView>)
    reads db
    ensures r.Some? <==> Joined(db, id)
    ensures r.Some? ==> r.value == Join(db, id)
  {
    if Joined(db, id) then Some(Join(db, id)) else None
  }

  /** Because every task's owner exists, the join drops no task. */
  lemma FindByIdFindsEveryTask(db: Db, id: int)
    requires db.Valid()
    ensures FindById(db, id).Some? <==> id in db.tasks
  {
  }

  /** Whether the query returns the row of task `x`: joined, and owned by
      `owner` when the query filters on `t.userId`. */
  predicate Kept(db: Db, x: int, owner: Option<int>)
    reads db
  {
    Joined(db, x) && (owner.Some? ==> db.tasks[x].userId == owner.value)
  }

  /** The ids of `ids` whose row the query returns, in the order of `ids`. */
  function Select(db: Db, ids: seq<int>, owner: Option<int>): (r: seq<int>)
    reads db
    ensures |r| <= |ids|
    ensures forall x :: x in r <==> x in ids && Kept(db, x, owner)
  {
    if ids == [] then []
    else
      var rest := Select(db, ids[1..], owner);
      var x := ids[0];
      if Kept(db, x, owner) then [x] + rest
      else rest
  }

  /** The query returns each kept id as often as `ids` lists it, and no
      other id. */
  lemma {:induction false} SelectCounts(db: Db, ids: seq<int>, owner: Option<int>, x: int)
    ensures multiset(Select(db, ids, owner))[x] == if Kept(db, x, owner) then multiset(ids)[x] else 0
  {
    if ids != [] {
      assert ids == [ids[0]] + ids[1..];
      SelectCounts(db, ids[1..], owner, x);
    }
  }

  lemma SelectCons(db: Db, x: int, rest: seq<int>, owner: Option<int>)
    ensures Select(db, [x] + rest, owner) == (if Kept(db, x, owner) then [x] else []) + Select(db, rest, owner)
  {
    assert ([x] + rest)[0] == x && ([x] + rest)[1..] == rest;
  }

  /** Selecting from a concatenation selects from each part, in order. */
  lemma {:induction false} SelectConcat(db: Db, a: seq<int>, b: seq<int>, owner: Option<int>)
    ensures Select(db, a + b, owner) == Select(db, a, owner) + Select(db, b, owner)
    decreases |a|
  {
    if a == [] {
      assert a + b == b;
    } else {
      var x, tail := a[0], a[1..];
      var head := if Kept(db, x, owner) then [x] else [];
      assert a == [x] + tail && a + b == [x] + (tail + b);
      calc {
        Select(db, a + b, owner);
        { SelectCons(db, x, tail + b, owner); }
        head + Select(db, tail + b, owner);
        { SelectConcat(db, tail, b, owner); }
        head + (Select(db, tail, owner) + Select(db, b, owner));
        (head + Select(db, tail, owner)) + Select(db, b, owner);
        { SelectCons(db, x, tail, owner); }
        Select(db, a, owner) + Select(db, b, owner);
      }
    }
  }

  function JoinAll(db: Db, ids: seq<int>): (r: seq<TaskView>)
    requires forall x :: x in ids ==> Joined(db, x)
    reads db
    ensures |r| == |ids|
    ensures forall i :: 0 <= i < |ids| ==> r[i] == Join(db, ids[i])
  {
    if ids == [] then [] else [Join(db, ids[0])] + JoinAll(db, ids[1..])
  }

  /** `Task.findAll`: every joined row, newest first. */
  function FindAll(db: Db): seq<TaskView>
    reads db
  {
    JoinAll(db, Select(db, Reverse(db.taskOrder), None))
  }

  /** `Task.findByUserId`: the joined rows with `t.userId = userId`, newest
      first. */
  function FindByUserId(db: Db, userId: int): seq<TaskView>
    reads db
  {
    JoinAll(db, Select(db, Reverse(db.taskOrder), Some(userId)))
  }

  lemma {:induction false} SelectKeepsJoined(db: Db, ids: seq<int>)
    requires forall x :: x in ids ==> Joined(db, x)
    ensures Select(db, ids, None) == ids
  {
    if ids != [] {
      SelectKeepsJoined(db, ids[1..]);
    }
  }

  /** `findAll` returns every task, the most recently inserted first. */
  lemma FindAllIsEveryTaskNewestFirst(db: Db)
    requires Lists(db.taskOrder, db.tasks.Keys) && OwnersExist(db.tasks, db.users)
    ensures |FindAll(db)| == |db.taskOrder|
    ensures forall i :: 0 <= i < |db.taskOrder| ==>
      FindAll(db)[i] == Join(db, db.taskOrder[|db.taskOrder| - 1 - i])
    ensures forall t :: t in db.tasks ==> exists i :: 0 <= i < |FindAll(db)| && FindAll(db)[i].id == t
  {
    var rev := Reverse(db.taskOrder);
    SelectKeepsJoined(db, rev);
    forall t | t in db.tasks
      ensures exists i :: 0 <= i < |FindAll(db)| && FindAll(db)[i].id == t
    {
      var j :| 0 <= j < |db.taskOrder| && db.taskOrder[j] == t;
      var i := |db.taskOrder| - 1 - j;
      assert rev[i] == t;
      assert FindAll(db)[i].id == t;
    }
  }

  /** The views of `vs` owned by `userId`, in the order of `vs`. */
  function OwnedBy(vs: seq<TaskView>, userId: int): (r: seq<TaskView>)
    ensures forall v :: v in r <==> v in vs && v.userId == userId
  {
    if vs == [] then []
    else if vs[0].userId == userId then [vs[0]] + OwnedBy(vs[1..], userId)
    else OwnedBy(vs[1..], userId)
  }

  /** Each view of the owner stays as often as `vs` has it; no other view
      stays. */
  lemma {:induction false} OwnedByCounts(vs: seq<TaskView>, userId: int, v: TaskView)
    ensures multiset(OwnedBy(vs, userId))[v] == if v.userId == userId then multiset(vs)[v] else 0
  {
    if vs != [] {
      assert vs == [vs[0]] + vs[1..];
      OwnedByCounts(vs[1..], userId, v);
    }
  }

  /** Filtering a concatenation filters each part, in order. */
  lemma {:induction false} OwnedByConcat(a: seq<TaskView>, b: seq<TaskView>, userId: int)
    ensures OwnedBy(a + b, userId) == OwnedBy(a, userId) + OwnedBy(b, userId)
  {
    if a == [] {
      assert a + b == b;
    } else {
      var x := a[0];
      assert (a + b)[0] == x && (a + b)[1..] == a[1..] + b;
      OwnedByConcat(a[1..], b, userId);
      var oa, ob := OwnedBy(a[1..], userId), OwnedBy(b, userId);
      if x.userId == userId {
        assert OwnedBy(a + b, userId) == [x] + (oa + ob) == ([x] + oa) + ob;
      }
    }
  }

  lemma {:induction false} SelectOwnedBy(db: Db, ids: seq<int>, userId: int)
    ensures JoinAll(db, Select(db, ids, Some(userId))) == OwnedBy(JoinAll(db, Select(db, ids, None)), userId)
  {
    if ids != [] {
      SelectOwnedBy(db, ids[1..], userId);
      var all := Select(db, ids, None);
      if Joined(db, ids[0]) {
        assert JoinAll(db, all) == [Join(db, ids[0])] + JoinAll(db, Select(db, ids[1..], None));
        assert JoinAll(db, all)[1..] == JoinAll(db, Select(db, ids[1..], None));
      }
    }
  }

  /** Every row the owner query returns is a stored task of that owner. */
  lemma SelectedRowsAreOwners(db: Db, ids: seq<int>, userId: int)
    ensures forall v :: v in JoinAll(db, Select(db, ids, Some(userId))) ==> v.userId == userId && v.id in db.tasks
  {
    var sel := Select(db, ids, Some(userId));
    var rows := JoinAll(db, sel);
    forall v | v in rows ensures v.userId == userId && v.id in db.tasks {
      var i :| 0 <= i < |rows| && rows[i] == v;
      assert sel[i] in sel;
    }
  }

  /** Every listed, joined task of the owner is among the returned rows. */
  lemma OwnersRowsAreSelected(db: Db, ids: seq<int>, userId: int, t: int)
    requires t in ids && Joined(db, t) && db.tasks[t].userId == userId
    ensures exists k :: 0 <= k < |JoinAll(db, Select(db, ids, Some(userId)))| &&
                        JoinAll(db, Select(db, ids, Some(userId)))[k].id == t
  {
    var sel := Select(db, ids, Some(userId));
    assert t in sel;
    var k :| 0 <= k < |sel| && sel[k] == t;
    assert JoinAll(db, sel)[k].id == t;
  }

  /** `findByUserId` is `findAll` restricted to one owner, in the same
      newest-first order: exactly that user's tasks. */
  lemma FindByUserIdIsOwnersTasks(db: Db, userId: int)
    requires Lists(db.taskOrder, db.tasks.Keys) && OwnersExist(db.tasks, db.users)
    ensures FindByUserId(db, userId) == OwnedBy(FindAll(db), userId)
    ensures forall v :: v in FindByUserId(db, userId) ==> v.userId == userId && v.id in db.tasks
    ensures forall t :: t in db.tasks && db.tasks[t].userId == userId ==>
      exists i :: 0 <= i < |FindByUserId(db, userId)| && FindByUserId(db, userId)[i].id == t
  {
    var rev := Reverse(db.taskOrder);
    var mine := FindByUserId(db, userId);
    assert mine == JoinAll(db, Select(db, rev, Some(userId)));
    SelectOwnedBy(db, rev, userId);
    SelectedRowsAreOwners(db, rev, userId);
    forall t | t in db.tasks && db.tasks[t].userId == userId
      ensures exists i :: 0 <= i < |mine| && mine[i].id == t
    {
      var j :| 0 <= j < |db.taskOrder| && db.taskOrder[j] == t;
      assert rev[|db.taskOrder| - 1 - j] == t;
      assert Joined(db, t);
      OwnersRowsAreSelected(db, rev, userId, t);
    }
  }

  /** `Task.update`: `UPDATE tasks SET body = $1 WHERE id = $2`, reporting
      whether a row was affected. */
  method Update(db: Db, id: int, body: string) returns (affected: bool)
    requires db.Valid()
    modifies db
    ensures db.Valid()
    ensures affected == (id in old(db.tasks))
    ensures db.tasks == if affected then old(db.tasks)[id := old(db.tasks)[id].(body := body)]
                        else old(db.tasks)
    ensures db.users == old(db.users) && db.userOrder == old(db.userOrder)
    ensures db.taskOrder == old(db.taskOrder)
    ensures db.nextUserId == old(db.nextUserId) && db.nextTaskId == old(db.nextTaskId)
  {
    affected := id in db.tasks;
    if affected {
      db.tasks := db.tasks[id := db.tasks[id].(body := body)];
    }
  }

  /** `Task.delete`: `DELETE FROM tasks WHERE id = $1`, reporting whether a
      row was affected. */
  method Delete(db: Db, id: int) returns (affected: bool)
    requires db.Valid()
    modifies db
    ensures db.Valid()
    ensures affected == (id in old(db.tasks))
    ensures db.tasks == old(db.tasks) - {id}
    ensures db.taskOrder == Restrict(old(db.taskOrder), db.tasks.Keys)
    ensures db.users == old(db.users) && db.userOrder == old(db.userOrder)
    ensures db.nextUserId == old(db.nextUserId) && db.nextTaskId == old(db.nextTaskId)
  {
    affected := id in db.tasks;
    db.tasks := db.tasks - {id};
    db.taskOrder := Restrict(db.taskOrder, db.tasks.Keys);
    RestrictLists(old(db.taskOrder), old(db.tasks.Keys), db.tasks.Keys);
  }
}
