/** `User`: the statements the auth and user handlers run against the users
    table. The password hash is the function `hash`, which stands for
    bcrypt; `comparePassword(p, h)` holds exactly when `h == hash(p)`. */
module UserModel {
  import opened Common
  import opened Database

  /** `User.comparePassword`. */
  predicate ComparePassword(hash: string -> string, plain: string, hashed: string) {
    hash(plain) == hashed
  }

  /** A password always matches its own hash. */
  lemma ComparePasswordOfHash(hash: string -> string, plain: string)
    ensures ComparePassword(hash, plain, hash(plain))
  {
  }

  /** A value too wide for its column in the row `firstName, lastName,
      username, email, role`. */
  predicate InsertOverflows(firstName: string, lastName: string, username: string, email: string, role: string) {
    || Overflows(firstName, FirstNameWidth) || Overflows(lastName, LastNameWidth)
    || Overflows(username, UsernameWidth) || Overflows(email, EmailWidth) || Overflows(role, RoleWidth)
  }

  /** The first constraint the new row `firstName, lastName, username,
      email, role` breaks when inserted into `users`, if any. A too-wide
      value is refused first; then the CHECK on `role`, then the UNIQUE
      index on `username`, then the one on `email`, each seeing the values
      as the columns store them. */
  function InsertViolation(users: map<int, UserRow>, firstName: string, lastName: string,
                           username: string, email: string, role: string): (r: Option<DbError>)
    ensures (r.Some? && r.value.ValueTooLong?) <==> InsertOverflows(firstName, lastName, username, email, role)
    ensures r.None? <==>
      && !InsertOverflows(firstName, lastName, username, email, role)
      && ParseRole(Coerce(role, RoleWidth)).Some?
      && (forall id :: id in users ==> users[id].username != Coerce(username, UsernameWidth))
      && (forall id :: id in users ==> users[id].email != Coerce(email, EmailWidth))
    ensures !InsertOverflows(firstName, lastName, username, email, role) && ParseRole(Coerce(role, RoleWidth)).None? ==>
      r == Some(CheckViolation("users", "users_role_check"))
    ensures !InsertOverflows(firstName, lastName, username, email, role) && ParseRole(Coerce(role, RoleWidth)).Some?
            && (exists id :: id in users && users[id].username == Coerce(username, UsernameWidth)) ==>
      r == Some(UniqueViolation("users_username_key"))
    ensures !InsertOverflows(firstName, lastName, username, email, role) && ParseRole(Coerce(role, RoleWidth)).Some?
            && (forall id :: id in users ==> users[id].username != Coerce(username, UsernameWidth))
            && (exists id :: id in users && users[id].email == Coerce(email, EmailWidth)) ==>
      r == Some(UniqueViolation("users_email_key"))
    ensures r.Some? && r.value.UniqueViolation? ==>
      exists id :: id in users && (users[id].username == Coerce(username, UsernameWidth)
                                   || users[id].email == Coerce(email, EmailWidth))
  {
    if Overflows(firstName, FirstNameWidth) then Some(ValueTooLong(FirstNameWidth))
    else if Overflows(lastName, LastNameWidth) then Some(ValueTooLong(LastNameWidth))
    else if Overflows(username, UsernameWidth) then Some(ValueTooLong(UsernameWidth))
    else if Overflows(email, EmailWidth) then Some(ValueTooLong(EmailWidth))
    else if Overflows(role, RoleWidth) then Some(ValueTooLong(RoleWidth))
    else if ParseRole(Coerce(role, RoleWidth)).None? then Some(CheckViolation("users", "users_role_check"))
    else if exists id :: id in users && users[id].username == Coerce(username, UsernameWidth) then
      Some(UniqueViolation("users_username_key"))
    else if exists id :: id in users && users[id].email == Coerce(email, EmailWidth) then
      Some(UniqueViolation("users_email_key"))
    else None
  }

  /** The row `User.create` stores: every value cut to its column, and the
      hash of the password. */
  function InsertedRow(firstName: string, lastName: string, username: string, email: string,
                       password: string, role: string, hash: string -> string): (r: UserRow)
    requires ParseRole(Coerce(role, RoleWidth)).Some?
    ensures r.firstName == Coerce(firstName, FirstNameWidth) && r.lastName == Coerce(lastName, LastNameWidth)
    ensures r.username == Coerce(username, UsernameWidth) && r.email == Coerce(email, EmailWidth)
    ensures r.password == hash(password) && RoleName(r.role) == Coerce(role, RoleWidth)
  {
    UserRow(Coerce(firstName, FirstNameWidth), Coerce(lastName, LastNameWidth), Coerce(username, UsernameWidth),
            Coerce(email, EmailWidth), hash(password), ParseRole(Coerce(role, RoleWidth)).value)
  }

  /** `User.create`: the role defaults to 'basic' when omitted, and the hash
      of the password is stored. Returns the new id. A too-wide value is
      refused while the statement is planned, before the `id` default draws
      from the sequence; any other failure comes after it. */
  method Create(db: Db, firstName: string, lastName: string, username: string, email: string,
                password: string, role: Option<string>, hash: string -> string)
    returns (r: Result<int>)
    requires db.Valid()
    modifies db
    ensures db.Valid()
    ensures db.tasks == old(db.tasks) && db.taskOrder == old(db.taskOrder)
    ensures db.nextTaskId == old(db.nextTaskId)
    ensures var v := InsertViolation(old(db.users), firstName, lastName, username, email, role.GetOr("basic"));
      db.nextUserId == old(db.nextUserId) + if v.Some? && v.value.ValueTooLong? then 0 else 1
    ensures var v := InsertViolation(old(db.users), firstName, lastName, username, email, role.GetOr("basic"));
      if v.None? then
        && r == Ok(old(db.nextUserId))
        && r.value !in old(db.users)
        && db.users == old(db.users)[r.value := InsertedRow(firstName, lastName, username, email,
                                                             password, role.GetOr("basic"), hash)]
        && db.userOrder == old(db.userOrder) + [r.value]
      else
        r == Err(v.value) && db.users == old(db.users) && db.userOrder == old(db.userOrder)
  {
    var roleName := role.GetOr("basic");
    var v := InsertViolation(db.users, firstName, lastName, username, email, roleName);
    if v.Some? && v.value.ValueTooLong? {
      return Err(v.value);
    }
    var id := db.nextUserId;
    db.nextUserId := id + 1;
    if v.Some? {
      return Err(v.value);
    }
    db.users := db.users[id := InsertedRow(firstName, lastName, username, email, password, roleName, hash)];
    db.userOrder := db.userOrder + [id];
    r := Ok(id);
  }

  /** `User.findById`: the row without its password, or nothing. */
  function FindById(db: Db, id: int): (r: Option<PublicUser>)
    reads db
    ensures r.Some? <==> id in db.users
    ensures r.Some? ==> r.value == PublicView(id, db.users[id])
  {
    if id in db.users then Some(PublicView(id, db.users[id])) else None
  }

  function PublicAll(db: Db, ids: seq<int>): (r: seq<PublicUser>)
    reads db
    ensures forall i :: 0 <= i < |r| ==> r[i].id in db.users && r[i] == PublicView(r[i].id, db.users[r[i].id])
    ensures (forall x :: x in ids ==> x in db.users) ==>
      |r| == |ids| && forall i :: 0 <= i < |ids| ==> r[i].id == ids[i]
  {
    if ids == [] then []
    else if ids[0] in db.users then [PublicView(ids[0], db.users[ids[0]])] + PublicAll(db, ids[1..])
    else PublicAll(db, ids[1..])
  }

  /** `User.findAll`: every row without its password, newest first. */
  function FindAll(db: Db): (r: seq<PublicUser>)
    reads db
  {
    PublicAll(db, Reverse(db.userOrder))
  }

  /** `findAll` lists every user once, the most recently created first. */
  lemma FindAllIsEveryUserNewestFirst(db: Db)
    requires Lists(db.userOrder, db.users.Keys)
    ensures |FindAll(db)| == |db.userOrder|
    ensures forall i :: 0 <= i < |db.userOrder| ==>
      FindAll(db)[i] == PublicView(db.userOrder[|db.userOrder| - 1 - i], db.users[db.userOrder[|db.userOrder| - 1 - i]])
    ensures forall u :: u in db.users ==> exists i :: 0 <= i < |FindAll(db)| && FindAll(db)[i].id == u
  {
    var rev := Reverse(db.userOrder);
    forall u | u in db.users
      ensures exists i :: 0 <= i < |FindAll(db)| && FindAll(db)[i].id == u
    {
      var j :| 0 <= j < |db.userOrder| && db.userOrder[j] == u;
      assert FindAll(db)[|db.userOrder| - 1 - j].id == rev[|db.userOrder| - 1 - j] == u;
    }
  }

  /** A row of `SELECT * FROM users`, password hash included. */
  datatype StoredUser = StoredUser(id: int, row: UserRow)

  datatype Column = UsernameColumn | EmailColumn

  function ColumnValue(u: UserRow, c: Column): string {
    match c
    case UsernameColumn => u.username
    case EmailColumn => u.email
  }

  /** The first row, in table order, whose column `c` equals `value`. */
  function Scan(db: Db, ids: seq<int>, c: Column, value: string): (r: Option<StoredUser>)
    reads db
    ensures r.Some? ==> r.value.id in ids && r.value.id in db.users
                        && r.value.row == db.users[r.value.id] && ColumnValue(r.value.row, c) == value
    ensures r.None? ==> forall x :: x in ids && x in db.users ==> ColumnValue(db.users[x], c) != value
  {
    if ids == [] then None
    else if ids[0] in db.users && ColumnValue(db.users[ids[0]], c) == value then
      Some(StoredUser(ids[0], db.users[ids[0]]))
    else Scan(db, ids[1..], c, value)
  }

  /** `User.findByUsername`: the user with that username, if there is one. */
  function FindByUsername(db: Db, username: string): (r: Option<StoredUser>)
    reads db
    ensures r.Some? ==> r.value.id in db.users && r.value.row == db.users[r.value.id]
                        && r.value.row.username == username
    ensures db.Valid() ==> (r.None? <==> forall id :: id in db.users ==> db.users[id].username != username)
  {
    Scan(db, db.userOrder, UsernameColumn, username)
  }

  /** `User.findByEmail`: the user with that email, if there is one. */
  function FindByEmail(db: Db, email: string): (r: Option<StoredUser>)
    reads db
    ensures r.Some? ==> r.value.id in db.users && r.value.row == db.users[r.value.id]
                        && r.value.row.email == email
    ensures db.Valid() ==> (r.None? <==> forall id :: id in db.users ==> db.users[id].email != email)
  {
    Scan(db, db.userOrder, EmailColumn, email)
  }

  /** A given value too wide for its column in `UPDATE users SET
      firstName, lastName, email`. */
  predicate UpdateOverflows(firstName: Option<string>, lastName: Option<string>, email: Option<string>) {
    || (firstName.Some? && Overflows(firstName.value, FirstNameWidth))
    || (lastName.Some? && Overflows(lastName.value, LastNameWidth))
    || (email.Some? && Overflows(email.value, EmailWidth))
  }

  /** The first constraint that `UPDATE users SET firstName, lastName, email`
      breaks on the existing row `id`. An absent field is bound as NULL. A
      too-wide value is refused first; then NOT NULL on `firstname`,
      `lastname` and `email`, in that order; then the UNIQUE index on
      `email`. */
  function UpdateViolation(users: map<int, UserRow>, id: int, firstName: Option<string>,
                           lastName: Option<string>, email: Option<string>): (r: Option<DbError>)
    ensures (r.Some? && r.value.ValueTooLong?) <==> UpdateOverflows(firstName, lastName, email)
    ensures !UpdateOverflows(firstName, lastName, email) && firstName.None? ==>
      r == Some(NotNullViolation("users", "firstname"))
    ensures !UpdateOverflows(firstName, lastName, email) && firstName.Some? && lastName.None? ==>
      r == Some(NotNullViolation("users", "lastname"))
    ensures !UpdateOverflows(firstName, lastName, email) && firstName.Some? && lastName.Some? && email.None? ==>
      r == Some(NotNullViolation("users", "email"))
    ensures r.Some? && r.value.UniqueViolation? ==>
      && firstName.Some? && lastName.Some? && email.Some? && r.value == UniqueViolation("users_email_key")
      && exists other :: other in users && other != id && users[other].email == Coerce(email.value, EmailWidth)
    ensures r.None? <==>
      && firstName.Some? && lastName.Some? && email.Some?
      && !Overflows(firstName.value, FirstNameWidth) && !Overflows(lastName.value, LastNameWidth)
      && !Overflows(email.value, EmailWidth)
      && (forall other :: other in users && other != id ==> users[other].email != Coerce(email.value, EmailWidth))
  {
    if firstName.Some? && Overflows(firstName.value, FirstNameWidth) then Some(ValueTooLong(FirstNameWidth))
    else if lastName.Some? && Overflows(lastName.value, LastNameWidth) then Some(ValueTooLong(LastNameWidth))
    else if email.Some? && Overflows(email.value, EmailWidth) then Some(ValueTooLong(EmailWidth))
    else if firstName.None? then Some(NotNullViolation("users", "firstname"))
    else if lastName.None? then Some(NotNullViolation("users", "lastname"))
    else if email.None? then Some(NotNullViolation("users", "email"))
    else if exists other :: other in users && other != id && users[other].email == Coerce(email.value, EmailWidth) then
      Some(UniqueViolation("users_email_key"))
    else None
  }

  /** The stored row after `User.update`: names and email overwritten, each
      cut to its column, the hash replaced only when a (truthy) password is
      supplied. */
  function UpdatedRow(current: UserRow, firstName: string, lastName: string, email: string,
                      password: Option<string>, hash: string -> string): (r: UserRow)
    ensures r.username == current.username && r.role == current.role
    ensures r.firstName == Coerce(firstName, FirstNameWidth) && r.lastName == Coerce(lastName, LastNameWidth)
    ensures r.email == Coerce(email, EmailWidth)
    ensures r.password == if Truthy(password) then hash(password.value) else current.password
  {
    UserRow(Coerce(firstName, FirstNameWidth), Coerce(lastName, LastNameWidth), current.username,
            Coerce(email, EmailWidth), if Truthy(password) then hash(password.value) else current.password,
            current.role)
  }

  /** `User.update`: true iff the row `id` existed and was rewritten. A
      too-wide value is refused while the statement is planned, so whether
      or not the row exists; the other constraints are checked on the row,
      so an absent row means no other error and nothing changes. */
  method Update(db: Db, id: int, firstName: Option<string>, lastName: Option<string>,
                email: Option<string>, password: Option<string>, hash: string -> string)
    returns (r: Result<bool>)
    requires db.Valid()
    modifies db
    ensures db.Valid()
    ensures db.tasks == old(db.tasks) && db.taskOrder == old(db.taskOrder)
    ensures db.userOrder == old(db.userOrder)
    ensures db.nextUserId == old(db.nextUserId) && db.nextTaskId == old(db.nextTaskId)
    ensures var v := UpdateViolation(old(db.users), id, firstName, lastName, email);
      v.Some? && v.value.ValueTooLong? ==> r == Err(v.value) && db.users == old(db.users)
    ensures var v := UpdateViolation(old(db.users), id, firstName, lastName, email);
      id !in old(db.users) && !(v.Some? && v.value.ValueTooLong?) ==> r == Ok(false) && db.users == old(db.users)
    ensures id in old(db.users) ==>
      var v := UpdateViolation(old(db.users), id, firstName, lastName, email);
      if v.None? then
        r == Ok(true)
        && db.users == old(db.users)[id := UpdatedRow(old(db.users)[id], firstName.value,
                                          lastName.value, email.value, password, hash)]
      else
        r == Err(v.value) && db.users == old(db.users)
  {
    var v := UpdateViolation(db.users, id, firstName, lastName, email);
    if v.Some? && v.value.ValueTooLong? {
      return Err(v.value);
    }
    if id !in db.users {
      return Ok(false);
    }
    if v.Some? {
      return Err(v.value);
    }
    db.users := db.users[id := UpdatedRow(db.users[id], firstName.value, lastName.value,
                                          email.value, password, hash)];
    r := Ok(true);
  }

  /** Deleting an absent user removes no row and, since every task's owner
      exists, cascades to no task. */
  lemma DeleteAbsentChangesNothing(db: Db, id: int)
    requires id !in db.users && OwnersExist(db.tasks, db.users)
    requires forall i :: 0 <= i < |db.userOrder| ==> db.userOrder[i] in db.users
    requires forall i :: 0 <= i < |db.taskOrder| ==> db.taskOrder[i] in db.tasks
    ensures db.users - {id} == db.users
    ensures WithoutOwner(db.tasks, id) == db.tasks
    ensures Restrict(db.userOrder, db.users.Keys) == db.userOrder
    ensures Restrict(db.taskOrder, db.tasks.Keys) == db.taskOrder
  {
    assert forall t :: t in db.tasks ==> db.tasks[t].userId != id;
    assert WithoutOwner(db.tasks, id).Keys == db.tasks.Keys;
    RestrictKeepsAll(db.userOrder, db.users.Keys);
    RestrictKeepsAll(db.taskOrder, db.tasks.Keys);
  }

  /** `User.delete`: `DELETE FROM users WHERE id = $1`; the foreign key's
      `ON DELETE CASCADE` removes the user's tasks with it. */
  method Delete(db: Db, id: int) returns (deleted: bool)
    requires db.Valid()
    modifies db
    ensures db.Valid()
    ensures deleted == (id in old(db.users))
    ensures db.users == old(db.users) - {id}
    ensures db.tasks == WithoutOwner(old(db.tasks), id)
    ensures db.userOrder == Restrict(old(db.userOrder), db.users.Keys)
    ensures db.taskOrder == Restrict(old(db.taskOrder), db.tasks.Keys)
    ensures db.nextUserId == old(db.nextUserId) && db.nextTaskId == old(db.nextTaskId)
    ensures !deleted ==> unchanged(db)
  {
    if id !in db.users {
      DeleteAbsentChangesNothing(db, id);
    }
    deleted := id in db.users;
    db.users := db.users - {id};
    db.tasks := WithoutOwner(db.tasks, id);
    db.userOrder := Restrict(db.userOrder, db.users.Keys);
    db.taskOrder := Restrict(db.taskOrder, db.tasks.Keys);
    RestrictLists(old(db.userOrder), old(db.users.Keys), db.users.Keys);
    RestrictLists(old(db.taskOrder), old(db.tasks.Keys), db.tasks.Keys);
  }
}
