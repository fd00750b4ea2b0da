/** The user routes. Listing and deleting users sit behind the `isAdmin`
    guard; reading and updating go straight to the handler, which applies
    its own self-or-admin rule. */
module UserRoutes {
  import opened Common
  import opened Database
  import opened Http
  import UserController
  import UserModel

  const AdminRequired := "Admin access required"

  /** `GET /api/users`. */
  method ListUsers(db: Db, caller: Identity) returns (out: Outcome)
    requires db.Valid()
    ensures caller.role != Admin ==> out == Reply(Fail(403, AdminRequired))
    ensures caller.role == Admin ==>
      && out == Reply(Response(200, UserListBody(UserModel.FindAll(db))))
      && |out.response.body.users| == |db.users|
      && (forall v :: v in out.response.body.users ==> v.id in db.users && v == PublicView(v.id, db.users[v.id]))
      && (forall u :: u in db.users ==> exists v :: v in out.response.body.users && v.id == u)
  {
    if caller.role != Admin {
      return Reply(Fail(403, AdminRequired));
    }
    out := UserController.GetAllUsers(db);
  }

  /** `DELETE /api/users/:id`: a basic user cannot delete anyone, not even
      themselves. */
  method RemoveUser(db: Db, caller: Identity, id: int) returns (out: Outcome)
    requires db.Valid()
    modifies db
    ensures db.Valid()
    ensures caller.role != Admin ==> out == Reply(Fail(403, AdminRequired)) && unchanged(db)
    ensures caller.role == Admin && id !in old(db.users) ==>
      out == Reply(Fail(404, UserController.UserNotFound)) && unchanged(db)
    ensures caller.role == Admin && id in old(db.users) ==>
      && out == Reply(Response(200, MessageBody(Some("User deleted successfully"))))
      && db.users == old(db.users) - {id}
      && db.tasks == WithoutOwner(old(db.tasks), id)
      && db.userOrder == Restrict(old(db.userOrder), db.users.Keys)
      && db.taskOrder == Restrict(old(db.taskOrder), db.tasks.Keys)
      && db.nextUserId == old(db.nextUserId) && db.nextTaskId == old(db.nextTaskId)
  {
    if caller.role != Admin {
      return Reply(Fail(403, AdminRequired));
    }
    out := UserController.DeleteUser(db, id);
  }
}
