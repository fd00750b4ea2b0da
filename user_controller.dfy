/** The user handlers. Reading or updating a user is open to that user and
    to administrators, and that check runs before the lookup, so a stranger
    gets 403 even for an id that does not exist. */
module UserController {
  import opened Common
  import opened Database
  import opened Http
  import UserModel

  const AccessDenied := "Access denied"
  const UserNotFound := "User not found"
  const EmailTaken := "Email already exists"

  /** Some user other than `id` holds this email. */
  ghost predicate HeldByOther(db: Db, id: int, email: string)
    reads db
  {
    exists other :: other in db.users && other != id && db.users[other].email == email
  }

  /** With unique emails, the row `findByEmail` returns belongs to someone
      other than `id` exactly when anyone other than `id` holds the email. */
  lemma FindByEmailDecidesHeldByOther(db: Db, id: int, email: string)
    requires db.Valid()
    ensures var found := UserModel.FindByEmail(db, email);
      (found.Some? && found.value.id != id) <==> HeldByOther(db, id, email)
  {
    var found := UserModel.FindByEmail(db, email);
    if HeldByOther(db, id, email) {
      var other :| other in db.users && other != id && db.users[other].email == email;
      assert found.Some?;
      assert found.value.id == other;
    }
  }

  /** `getAllUsers`: every user once, newest first, none with a password. */
  method GetAllUsers(db: Db) returns (out: Outcome)
    requires db.Valid()
    ensures out == Reply(Response(200, UserListBody(UserModel.FindAll(db))))
    ensures out.Reply? && out.response.status == 200 && out.response.body.UserListBody?
    ensures |out.response.body.users| == |db.users| == |db.userOrder|
    ensures forall i :: 0 <= i < |db.userOrder| ==>
      var id := db.userOrder[|db.userOrder| - 1 - i];
      out.response.body.users[i] == PublicView(id, db.users[id])
    ensures forall v :: v in out.response.body.users ==> v.id in db.users && v == PublicView(v.id, db.users[v.id])
    ensures forall u :: u in db.users ==> exists v :: v in out.response.body.users && v.id == u
  {
    var users := UserModel.FindAll(db);
    UserModel.FindAllIsEveryUserNewestFirst(db);
    Database.ListsCardinality(db.userOrder, db.users.Keys);
    forall v | v in users ensures v.id in db.users && v == PublicView(v.id, db.users[v.id]) {
      var i :| 0 <= i < |users| && users[i] == v;
    }
    forall u | u in db.users ensures exists v :: v in users && v.id == u {
      var i :| 0 <= i < |users| && users[i].id == u;
      assert users[i] in users;
    }
    out := Reply(Response(200, UserListBody(users)));
  }

  /** `getUserById`: 403 for a stranger, then 404, then the public row. */
  method GetUserById(db: Db, caller: Identity, id: int) returns (out: Outcome)
    requires db.Valid()
    ensures !MayAccess(caller, id) ==> out == Reply(Fail(403, AccessDenied))
    ensures MayAccess(caller, id) && id !in db.users ==> out == Reply(Fail(404, UserNotFound))
    ensures MayAccess(caller, id) && id in db.users ==>
      out == Reply(Response(200, UserBody(None, PublicView(id, db.users[id]))))
  {
    if !MayAccess(caller, id) {
      return Reply(Fail(403, AccessDenied));
    }
    var user := UserModel.FindById(db, id);
    if user.None? {
      return Reply(Fail(404, UserNotFound));
    }
    out := Reply(Response(200, UserBody(None, user.value)));
  }

  /** `updateUser`: 403, then the email check (only for a truthy email, and
      the user's own current email passes), then 404, then the UPDATE. The
      UPDATE binds an omitted name or email as NULL, which the NOT NULL
      columns refuse; such errors go to the error middleware. */
  method UpdateUser(db: Db, caller: Identity, id: int, firstName: Option<string>, lastName: Option<string>,
                    email: Option<string>, password: Option<string>, hash: string -> string)
    returns (out: Outcome)
    requires db.Valid()
    modifies db
    ensures db.Valid()
    ensures !MayAccess(caller, id) ==> out == Reply(Fail(403, AccessDenied)) && unchanged(db)
    ensures MayAccess(caller, id) && Truthy(email) && old(HeldByOther(db, id, email.value)) ==>
      out == Reply(Fail(400, EmailTaken)) && unchanged(db)
    ensures MayAccess(caller, id) && !(Truthy(email) && old(HeldByOther(db, id, email.value))) ==>
      && db.tasks == old(db.tasks) && db.taskOrder == old(db.taskOrder) && db.userOrder == old(db.userOrder)
      && db.nextUserId == old(db.nextUserId) && db.nextTaskId == old(db.nextTaskId)
    ensures MayAccess(caller, id) && !(Truthy(email) && old(HeldByOther(db, id, email.value))) ==>
      var v := UserModel.UpdateViolation(old(db.users), id, firstName, lastName, email);
      && (v.Some? && v.value.ValueTooLong? ==> out == Forward(ToServerError(v.value)) && db.users == old(db.users))
      && (id !in old(db.users) && !(v.Some? && v.value.ValueTooLong?) ==>
            out == Reply(Fail(404, UserNotFound)) && db.users == old(db.users))
      && (id in old(db.users) ==>
            if v.Some? then
              out == Forward(ToServerError(v.value)) && db.users == old(db.users)
            else
              var row := UserModel.UpdatedRow(old(db.users)[id], firstName.value, lastName.value,
                                              email.value, password, hash);
              && db.users == old(db.users)[id := row]
              && out == Reply(Response(200, UserBody(Some("User updated successfully"), PublicView(id, row)))))
  {
    if !MayAccess(caller, id) {
      return Reply(Fail(403, AccessDenied));
    }
    if Truthy(email) {
      var existing := UserModel.FindByEmail(db, email.value);
      FindByEmailDecidesHeldByOther(db, id, email.value);
      if existing.Some? && existing.value.id != id {
        return Reply(Fail(400, EmailTaken));
      }
    }
    var updated := UserModel.Update(db, id, firstName, lastName, email, password, hash);
    if updated.Err? {
      return Forward(ToServerError(updated.error));
    }
    if !updated.value {
      return Reply(Fail(404, UserNotFound));
    }
    var user := UserModel.FindById(db, id);
    out := Reply(Response(200, UserBody(Some("User updated successfully"), user.value)));
  }

  /** `deleteUser`: 404 with nothing changed, or the user gone together
      with every task they owned. */
  method DeleteUser(db: Db, id: int) returns (out: Outcome)
    requires db.Valid()
    modifies db
    ensures db.Valid()
    ensures id !in old(db.users) ==> out == Reply(Fail(404, UserNotFound)) && unchanged(db)
    ensures id in old(db.users) ==>
      && out == Reply(Response(200, MessageBody(Some("User deleted successfully"))))
      && db.users == old(db.users) - {id}
      && db.tasks == WithoutOwner(old(db.tasks), id)
      && db.userOrder == Restrict(old(db.userOrder), db.users.Keys)
      && db.taskOrder == Restrict(old(db.taskOrder), db.tasks.Keys)
      && db.nextUserId == old(db.nextUserId) && db.nextTaskId == old(db.nextTaskId)
  {
    var deleted := UserModel.Delete(db, id);
    if !deleted {
      return Reply(Fail(404, UserNotFound));
    }
    out := Reply(Response(200, MessageBody(Some("User deleted successfully"))));
  }

  /** After a user is deleted no task is theirs, and an administrator
      looking the user up gets 404. */
  method DeleteThenGet(db: Db, admin: Identity, id: int) returns (deleted: Outcome, fetched: Outcome)
    requires db.Valid() && admin.role == Admin && id in db.users
    modifies db
    ensures deleted == Reply(Response(200, MessageBody(Some("User deleted successfully"))))
    ensures forall t :: t in db.tasks ==> db.tasks[t].userId != id
    ensures fetched == Reply(Fail(404, UserNotFound))
  {
    deleted := DeleteUser(db, id);
    fetched := GetUserById(db, admin, id);
  }
}
