/** The `register` and `login` handlers. Both first answer 400 with the
    validators' error list; the JWT is modelled by the claims it signs. */
module AuthController {
  import opened Common
  import opened Database
  import opened Http
  import opened AuthRoutes
  import UserModel

  const UsernameTaken := "Username already exists"
  const EmailTaken := "Email already exists"
  const InvalidCredentials := "Invalid credentials"
  const TokenLifetimeHours: nat := 24

  /** Some stored user already has this username. */
  ghost predicate UsernameInUse(db: Db, username: string)
    reads db
  {
    exists id :: id in db.users && db.users[id].username == username
  }

  ghost predicate EmailInUse(db: Db, email: string)
    reads db
  {
    exists id :: id in db.users && db.users[id].email == email
  }

  /** Neither the username nor the email of `f` is taken. */
  ghost predicate Fresh(db: Db, f: RegisterForm)
    reads db
  {
    !UsernameInUse(db, f.username) && !EmailInUse(db, f.email)
  }

  /** The sanitized names, username and email fit their columns. */
  predicate Fits(f: RegisterForm) {
    && |f.firstName| <= FirstNameWidth && |f.lastName| <= LastNameWidth
    && |f.username| <= UsernameWidth && |f.email| <= EmailWidth
  }

  /** A role of 'basic', 'admin' or none is stored as sent. */
  lemma AllowedRoleIsStored(role: Option<string>)
    requires role.None? || ParseRole(role.value).Some?
    ensures Coerce(role.GetOr("basic"), RoleWidth) == role.GetOr("basic")
    ensures ParseRole(Coerce(role.GetOr("basic"), RoleWidth)).Some?
  {
    assert |role.GetOr("basic")| <= RoleWidth;
  }

  /** The row `User.create` inserts for an accepted form: the varchar
      columns as PostgreSQL stores them, the hash of the password and the
      requested role. */
  function NewRow(f: RegisterForm, hash: string -> string): (r: UserRow)
    requires f.role.None? || ParseRole(f.role.value).Some?
    ensures r.password == hash(f.password) && r.role == ParseRole(f.role.GetOr("basic")).value
    ensures r.email == Coerce(f.email, EmailWidth)
    ensures Fits(f) ==>
      r.firstName == f.firstName && r.lastName == f.lastName && r.username == f.username && r.email == f.email
  {
    AllowedRoleIsStored(f.role);
    UserModel.InsertedRow(f.firstName, f.lastName, f.username, f.email, f.password, f.role.GetOr("basic"), hash)
  }

  /** Once the form is accepted and neither the username nor the email is
      taken, the insert fails exactly when a name, the username or the
      email is too long to store, or when the email is longer than its
      column and, with its trailing spaces cut off, equals a stored email.
      A form that fits is always inserted. */
  lemma InsertOutcome(users: map<int, UserRow>, f: RegisterForm)
    requires f.role.None? || ParseRole(f.role.value).Some?
    requires EndsClean(f.firstName) && EndsClean(f.lastName) && EndsClean(f.username)
    requires forall id :: id in users ==> users[id].username != f.username && users[id].email != f.email
    ensures var v := UserModel.InsertViolation(users, f.firstName, f.lastName, f.username, f.email, f.role.GetOr("basic"));
      && ((v.Some? && v.value.ValueTooLong?) <==>
            (|f.firstName| > FirstNameWidth || |f.lastName| > LastNameWidth
             || |f.username| > UsernameWidth || Overflows(f.email, EmailWidth)))
      && (v.Some? && !v.value.ValueTooLong? ==>
            && v.value == UniqueViolation("users_email_key") && |f.email| > EmailWidth
            && exists id :: id in users && users[id].email == Coerce(f.email, EmailWidth))
      && (Fits(f) ==> v.None?)
  {
    AllowedRoleIsStored(f.role);
    OverflowsIffTooLong(f.firstName, FirstNameWidth);
    OverflowsIffTooLong(f.lastName, LastNameWidth);
    OverflowsIffTooLong(f.username, UsernameWidth);
  }

  /** `register`: validation, then the username check, then the email check,
      then the insert. The constraints the insert can still break are a
      column width and, for an email whose excess is spaces, the unique
      email index; that error goes to the error middleware. */
  method Register(db: Db, req: RegisterRequest, isEmail: string -> bool, hash: string -> string)
    returns (out: Outcome)
    requires db.Valid()
    modifies db
    ensures db.Valid()
    ensures var errs := RegisterErrors(req, isEmail);
      errs != [] ==> out == Reply(Response(400, ValidationErrors(errs))) && unchanged(db)
    ensures var f := Sanitize(req);
      RegisterErrors(req, isEmail) == [] && old(UsernameInUse(db, f.username)) ==>
        out == Reply(Fail(400, UsernameTaken)) && unchanged(db)
    ensures var f := Sanitize(req);
      RegisterErrors(req, isEmail) == [] && !old(UsernameInUse(db, f.username)) && old(EmailInUse(db, f.email)) ==>
        out == Reply(Fail(400, EmailTaken)) && unchanged(db)
    ensures var f := Sanitize(req);
      RegisterErrors(req, isEmail) == [] && old(Fresh(db, f)) ==>
        var v := UserModel.InsertViolation(old(db.users), f.firstName, f.lastName, f.username, f.email, f.role.GetOr("basic"));
        && db.tasks == old(db.tasks) && db.taskOrder == old(db.taskOrder) && db.nextTaskId == old(db.nextTaskId)
        && db.nextUserId == old(db.nextUserId) + (if v.Some? && v.value.ValueTooLong? then 0 else 1)
        && if v.None? then
          var id := old(db.nextUserId);
          && id !in old(db.users)
          && db.users == old(db.users)[id := NewRow(f, hash)]
          && db.userOrder == old(db.userOrder) + [id]
          && out == Reply(Response(201, UserBody(Some("User registered successfully"), PublicView(id, NewRow(f, hash)))))
        else
          && out == Forward(ToServerError(v.value))
          && (v.value.ValueTooLong? || v.value == UniqueViolation("users_email_key"))
          && db.users == old(db.users) && db.userOrder == old(db.userOrder)
    ensures var f := Sanitize(req);
      RegisterErrors(req, isEmail) == [] && old(Fresh(db, f)) && Fits(f) ==>
        out.Reply? && out.response.status == 201
  {
    var errs := RegisterErrors(req, isEmail);
    if errs != [] {
      return Reply(Response(400, ValidationErrors(errs)));
    }
    AcceptedFormIsClean(req, isEmail);
    var f := Sanitize(req);
    var byName := UserModel.FindByUsername(db, f.username);
    if byName.Some? {
      return Reply(Fail(400, UsernameTaken));
    }
    var byEmail := UserModel.FindByEmail(db, f.email);
    if byEmail.Some? {
      return Reply(Fail(400, EmailTaken));
    }
    out := Insert(db, f, hash);
  }

  /** The last step of `register`: `User.create`, then the new user read
      back, or the database error handed to the error middleware. */
  method Insert(db: Db, f: RegisterForm, hash: string -> string) returns (out: Outcome)
    requires db.Valid()
    requires f.role.None? || ParseRole(f.role.value).Some?
    requires EndsClean(f.firstName) && EndsClean(f.lastName) && EndsClean(f.username)
    requires forall id :: id in db.users ==> db.users[id].username != f.username && db.users[id].email != f.email
    modifies db
    ensures db.Valid()
    ensures db.tasks == old(db.tasks) && db.taskOrder == old(db.taskOrder) && db.nextTaskId == old(db.nextTaskId)
    ensures var v := UserModel.InsertViolation(old(db.users), f.firstName, f.lastName, f.username, f.email, f.role.GetOr("basic"));
      db.nextUserId == old(db.nextUserId) + if v.Some? && v.value.ValueTooLong? then 0 else 1
    ensures var v := UserModel.InsertViolation(old(db.users), f.firstName, f.lastName, f.username, f.email, f.role.GetOr("basic"));
      if v.None? then
        var id := old(db.nextUserId);
        && id !in old(db.users)
        && db.users == old(db.users)[id := NewRow(f, hash)]
        && db.userOrder == old(db.userOrder) + [id]
        && out == Reply(Response(201, UserBody(Some("User registered successfully"), PublicView(id, NewRow(f, hash)))))
      else
        && out == Forward(ToServerError(v.value))
        && (v.value.ValueTooLong? || v.value == UniqueViolation("users_email_key"))
        && db.users == old(db.users) && db.userOrder == old(db.userOrder)
    ensures Fits(f) ==> out.Reply? && out.response.status == 201
  {
    InsertOutcome(db.users, f);
    var created := UserModel.Create(db, f.firstName, f.lastName, f.username, f.email, f.password, f.role, hash);
    if created.Err? {
      return Forward(ToServerError(created.error));
    }
    var user := UserModel.FindById(db, created.value);
    out := Reply(Response(201, UserBody(Some("User registered successfully"), user.value)));
  }

  /** The names the `user` object of the `register` and `login` replies
      carries when it is built from a result row whose keys are `rowKeys`:
      `user.firstName` is undefined, and left out of the JSON, unless the row
      has the key `firstName`, and likewise for `lastName`. */
  function NamesAsRead(rowKeys: set<string>, u: UserRow): (r: (Option<string>, Option<string>))
    ensures r.0.Some? <==> "firstName" in rowKeys
    ensures r.1.Some? <==> "lastName" in rowKeys
    ensures r.0.Some? ==> r.0.value == u.firstName
    ensures r.1.Some? ==> r.1.value == u.lastName
  {
    (if "firstName" in rowKeys then Some(u.firstName) else None,
     if "lastName" in rowKeys then Some(u.lastName) else None)
  }

  /** PostgreSQL reports the unquoted columns `firstName` and `lastName` as
      `firstname` and `lastname`, so whatever columns a query selects, the
      replies as written carry neither name, while the public view of the
      row has both. */
  lemma NamesDroppedAsWritten(columns: seq<string>, id: int, u: UserRow)
    ensures NamesAsRead(ResultKeys(columns), u) == (None, None)
    ensures PublicView(id, u).firstName == u.firstName && PublicView(id, u).lastName == u.lastName
  {
    MixedCaseNameIsNoKey(columns, "firstName", 5);
    MixedCaseNameIsNoKey(columns, "lastName", 4);
  }

  /** `login`: an unknown username and a wrong password get the same 401, so
      a client cannot tell which one it was. Success signs the user's id and
      role for 24 hours. Nothing is written. */
  method Login(db: Db, req: LoginRequest, hash: string -> string) returns (out: Outcome)
    requires db.Valid()
    ensures var errs := LoginErrors(req);
      errs != [] ==> out == Reply(Response(400, ValidationErrors(errs)))
    ensures LoginErrors(req) == [] && !UsernameInUse(db, LoginUsername(req)) ==>
      out == Reply(Fail(401, InvalidCredentials))
    ensures LoginErrors(req) == [] ==>
      forall id :: id in db.users && db.users[id].username == LoginUsername(req) ==>
        if UserModel.ComparePassword(hash, req.password.value, db.users[id].password) then
          out == Reply(Response(200, LoginBody(Some("Login successful"),
                                               TokenClaims(id, db.users[id].role, TokenLifetimeHours),
                                               PublicView(id, db.users[id]))))
        else
          out == Reply(Fail(401, InvalidCredentials))
  {
    var errs := LoginErrors(req);
    if errs != [] {
      return Reply(Response(400, ValidationErrors(errs)));
    }
    var user := UserModel.FindByUsername(db, LoginUsername(req));
    if user.None? {
      return Reply(Fail(401, InvalidCredentials));
    }
    if !UserModel.ComparePassword(hash, req.password.value, user.value.row.password) {
      return Reply(Fail(401, InvalidCredentials));
    }
    var u := user.value;
    out := Reply(Response(200, LoginBody(Some("Login successful"),
                                         TokenClaims(u.id, u.row.role, TokenLifetimeHours),
                                         PublicView(u.id, u.row))));
  }

  /** A user who has just registered can log in with the same username and
      password, and the token carries the new id and the requested role. */
  method RegisterThenLogin(db: Db, req: RegisterRequest, isEmail: string -> bool, hash: string -> string)
    returns (registered: Outcome, loggedIn: Outcome)
    requires db.Valid()
    requires RegisterErrors(req, isEmail) == []
    requires Fresh(db, Sanitize(req)) && Fits(Sanitize(req))
    modifies db
    ensures registered.Reply? && registered.response.status == 201
    ensures loggedIn.Reply? && loggedIn.response.status == 200
    ensures loggedIn.response.body.LoginBody?
    ensures loggedIn.response.body.token ==
      TokenClaims(old(db.nextUserId), ParseRole(req.role.GetOr("basic")).value, TokenLifetimeHours)
  {
    ghost var id := db.nextUserId;
    ghost var f := Sanitize(req);
    registered := Register(db, req, isEmail, hash);
    assert db.users[id] == NewRow(f, hash);
    var login := LoginRequest(req.username, req.password);
    assert LoginUsername(login) == f.username;
    assert LoginErrors(login) == [] by {
      assert TrimmedNotEmpty(req.username) && |f.password| >= MinPasswordLength;
    }
    assert UserModel.ComparePassword(hash, login.password.value, db.users[id].password);
    loggedIn := Login(db, login, hash);
  }
}
