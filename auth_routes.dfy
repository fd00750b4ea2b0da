/** The express-validator chains in front of `register` and `login`. A field
    missing from the JSON body reads as "" to every rule, and each field has
    one rule, so it contributes at most one error, in the routes' order. */
module AuthRoutes {
  import opened Common

  datatype RegisterRequest = RegisterRequest(
    firstName: Option<string>,
    lastName: Option<string>,
    username: Option<string>,
    email: Option<string>,
    password: Option<string>,
    role: Option<string>)

  datatype LoginRequest = LoginRequest(username: Option<string>, password: Option<string>)

  const MinPasswordLength: nat := 6

  /** `body(f).trim().notEmpty()`. */
  predicate TrimmedNotEmpty(s: Option<string>) {
    Trim(s.GetOr("")) != ""
  }

  /** `body('password').isLength({ min: 6 })`. */
  predicate LongEnough(s: Option<string>) {
    |s.GetOr("")| >= MinPasswordLength
  }

  /** `body('role').optional().isIn(['basic', 'admin'])`: only an absent role
      skips the rule. */
  predicate RoleAllowed(s: Option<string>) {
    s.None? || ParseRole(s.value).Some?
  }

  /** `body('email').isEmail()`, with the email syntax left to `isEmail`. */
  predicate EmailAccepted(s: Option<string>, isEmail: string -> bool) {
    s.Some? && isEmail(s.value)
  }

  function Rule(ok: bool, field: Field, msg: string): seq<FieldError> {
    if ok then [] else [FieldError(field, msg)]
  }

  predicate HasError(errs: seq<FieldError>, field: Field) {
    exists e :: e in errs && e.field == field
  }

  lemma HasErrorRule(ok: bool, field: Field, msg: string, p: Field)
    ensures HasError(Rule(ok, field, msg), p) <==> !ok && field == p
  {
    if !ok && field == p {
      assert FieldError(field, msg) in Rule(ok, field, msg);
    }
  }

  lemma HasErrorConcat(a: seq<FieldError>, b: seq<FieldError>, p: Field)
    ensures HasError(a + b, p) <==> HasError(a, p) || HasError(b, p)
  {
    if HasError(a + b, p) {
      var e :| e in a + b && e.field == p;
      assert e in a || e in b;
    }
    if HasError(a, p) {
      var e :| e in a && e.field == p;
      assert e in a + b;
    }
    if HasError(b, p) {
      var e :| e in b && e.field == p;
      assert e in a + b;
    }
  }

  /** Six single-rule chains, one per field, in order: a field has an
      error exactly when its rule fails, and there are none when all pass. */
  lemma SixRules(b1: bool, b2: bool, b3: bool, b4: bool, b5: bool, b6: bool,
                 m1: string, m2: string, m3: string, m4: string, m5: string, m6: string)
    ensures var errs := Rule(b1, FirstNameField, m1) + Rule(b2, LastNameField, m2) + Rule(b3, UsernameField, m3)
                      + Rule(b4, EmailField, m4) + Rule(b5, PasswordField, m5) + Rule(b6, RoleField, m6);
      && (HasError(errs, FirstNameField) <==> !b1)
      && (HasError(errs, LastNameField) <==> !b2)
      && (HasError(errs, UsernameField) <==> !b3)
      && (HasError(errs, EmailField) <==> !b4)
      && (HasError(errs, PasswordField) <==> !b5)
      && (HasError(errs, RoleField) <==> !b6)
      && (errs == [] <==> b1 && b2 && b3 && b4 && b5 && b6)
  {
    var e1, e2, e3, e4, e5, e6 := Rule(b1, FirstNameField, m1), Rule(b2, LastNameField, m2),
      Rule(b3, UsernameField, m3), Rule(b4, EmailField, m4), Rule(b5, PasswordField, m5), Rule(b6, RoleField, m6);
    forall p ensures HasError(e1 + e2 + e3 + e4 + e5 + e6, p) <==>
      HasError(e1, p) || HasError(e2, p) || HasError(e3, p) || HasError(e4, p) || HasError(e5, p) || HasError(e6, p)
    {
      HasErrorConcat(e1, e2, p);
      HasErrorConcat(e1 + e2, e3, p);
      HasErrorConcat(e1 + e2 + e3, e4, p);
      HasErrorConcat(e1 + e2 + e3 + e4, e5, p);
      HasErrorConcat(e1 + e2 + e3 + e4 + e5, e6, p);
    }
    forall p ensures
      && (HasError(e1, p) <==> !b1 && p == FirstNameField)
      && (HasError(e2, p) <==> !b2 && p == LastNameField)
      && (HasError(e3, p) <==> !b3 && p == UsernameField)
      && (HasError(e4, p) <==> !b4 && p == EmailField)
      && (HasError(e5, p) <==> !b5 && p == PasswordField)
      && (HasError(e6, p) <==> !b6 && p == RoleField)
    {
      HasErrorRule(b1, FirstNameField, m1, p);
      HasErrorRule(b2, LastNameField, m2, p);
      HasErrorRule(b3, UsernameField, m3, p);
      HasErrorRule(b4, EmailField, m4, p);
      HasErrorRule(b5, PasswordField, m5, p);
      HasErrorRule(b6, RoleField, m6, p);
    }
  }

  /** `validationResult(req).array()` for `POST /register`. */
  function RegisterErrors(req: RegisterRequest, isEmail: string -> bool): (errs: seq<FieldError>)
    ensures HasError(errs, FirstNameField) <==> !TrimmedNotEmpty(req.firstName)
    ensures HasError(errs, LastNameField) <==> !TrimmedNotEmpty(req.lastName)
    ensures HasError(errs, UsernameField) <==> !TrimmedNotEmpty(req.username)
    ensures HasError(errs, EmailField) <==> !EmailAccepted(req.email, isEmail)
    ensures HasError(errs, PasswordField) <==> !LongEnough(req.password)
    ensures HasError(errs, RoleField) <==> !RoleAllowed(req.role)
    ensures errs == [] <==>
      && TrimmedNotEmpty(req.firstName) && TrimmedNotEmpty(req.lastName) && TrimmedNotEmpty(req.username)
      && EmailAccepted(req.email, isEmail) && LongEnough(req.password) && RoleAllowed(req.role)
  {
    var b1, b2, b3 := TrimmedNotEmpty(req.firstName), TrimmedNotEmpty(req.lastName), TrimmedNotEmpty(req.username);
    var b4, b5, b6 := EmailAccepted(req.email, isEmail), LongEnough(req.password), RoleAllowed(req.role);
    var m1, m2, m3 := "First name is required", "Last name is required", "Username is required";
    var m4, m5, m6 := "Valid email is required", "Password must be at least 6 characters", "Invalid role";
    SixRules(b1, b2, b3, b4, b5, b6, m1, m2, m3, m4, m5, m6);
    Rule(b1, FirstNameField, m1) + Rule(b2, LastNameField, m2) + Rule(b3, UsernameField, m3)
      + Rule(b4, EmailField, m4) + Rule(b5, PasswordField, m5) + Rule(b6, RoleField, m6)
  }

  /** The fields as the handler reads them once the sanitizers have run:
      names and username trimmed, email, password and role as sent. */
  datatype RegisterForm = RegisterForm(
    firstName: string,
    lastName: string,
    username: string,
    email: string,
    password: string,
    role: Option<string>)

  function Sanitize(req: RegisterRequest): RegisterForm {
    RegisterForm(Trim(req.firstName.GetOr("")), Trim(req.lastName.GetOr("")),
                 Trim(req.username.GetOr("")), req.email.GetOr(""), req.password.GetOr(""), req.role)
  }

  /** Trimming twice trims nothing more. */
  lemma TrimIdempotent(s: string)
    ensures Trim(Trim(s)) == Trim(s)
  {
  }

  /** A request the rules accept reaches the handler with non-empty names
      and username that carry no surrounding whitespace, a password of six
      characters or more, and a role of 'basic', 'admin' or none. */
  lemma AcceptedFormIsClean(req: RegisterRequest, isEmail: string -> bool)
    requires RegisterErrors(req, isEmail) == []
    ensures var f := Sanitize(req);
      && f.firstName != "" && Trim(f.firstName) == f.firstName
      && f.lastName != "" && Trim(f.lastName) == f.lastName
      && f.username != "" && Trim(f.username) == f.username
      && |f.password| >= MinPasswordLength && isEmail(f.email)
      && (f.role.None? || ParseRole(f.role.value).Some?)
      && EndsClean(f.firstName) && EndsClean(f.lastName) && EndsClean(f.username)
  {
    assert TrimmedNotEmpty(req.firstName) && TrimmedNotEmpty(req.lastName) && TrimmedNotEmpty(req.username);
    assert EmailAccepted(req.email, isEmail) && LongEnough(req.password) && RoleAllowed(req.role);
    SanitizedIsClean(req, isEmail);
  }

  /** The sanitizers turn fields that pass the rules into a clean form. */
  lemma SanitizedIsClean(req: RegisterRequest, isEmail: string -> bool)
    requires TrimmedNotEmpty(req.firstName) && TrimmedNotEmpty(req.lastName) && TrimmedNotEmpty(req.username)
    requires EmailAccepted(req.email, isEmail) && LongEnough(req.password) && RoleAllowed(req.role)
    ensures var f := Sanitize(req);
      && f.firstName != "" && Trim(f.firstName) == f.firstName
      && f.lastName != "" && Trim(f.lastName) == f.lastName
      && f.username != "" && Trim(f.username) == f.username
      && |f.password| >= MinPasswordLength && isEmail(f.email)
      && (f.role.None? || ParseRole(f.role.value).Some?)
      && EndsClean(f.firstName) && EndsClean(f.lastName) && EndsClean(f.username)
  {
    TrimmedIsClean(req.firstName.GetOr(""));
    TrimmedIsClean(req.lastName.GetOr(""));
    TrimmedIsClean(req.username.GetOr(""));
  }

  /** A field that is not blank is, once trimmed, non-empty, stable under a
      further trim and free of trailing whitespace. */
  lemma TrimmedIsClean(s: string)
    requires Trim(s) != ""
    ensures var t := Trim(s); t != "" && Trim(t) == t && EndsClean(t)
  {
    TrimIdempotent(s);
  }

  /** "123" is too short a password. */
  lemma ShortPasswordRejected(req: RegisterRequest, isEmail: string -> bool)
    requires req.password == Some("123")
    ensures FieldError(PasswordField, "Password must be at least 6 characters") in RegisterErrors(req, isEmail)
  {
  }

  /** `validationResult(req).array()` for `POST /login`. */
  function LoginErrors(req: LoginRequest): (errs: seq<FieldError>)
    ensures HasError(errs, UsernameField) <==> !TrimmedNotEmpty(req.username)
    ensures HasError(errs, PasswordField) <==> req.password.GetOr("") == ""
    ensures errs == [] <==> TrimmedNotEmpty(req.username) && req.password.GetOr("") != ""
  {
    var e1 := Rule(TrimmedNotEmpty(req.username), UsernameField, "Username is required");
    var e2 := Rule(req.password.GetOr("") != "", PasswordField, "Password is required");
    HasErrorConcat(e1, e2, UsernameField);
    HasErrorConcat(e1, e2, PasswordField);
    HasErrorRule(TrimmedNotEmpty(req.username), UsernameField, "Username is required", UsernameField);
    HasErrorRule(TrimmedNotEmpty(req.username), UsernameField, "Username is required", PasswordField);
    HasErrorRule(req.password.GetOr("") != "", PasswordField, "Password is required", UsernameField);
    HasErrorRule(req.password.GetOr("") != "", PasswordField, "Password is required", PasswordField);
    e1 + e2
  }

  /** The username the login handler looks up: trimmed by the sanitizer. */
  function LoginUsername(req: LoginRequest): string {
    Trim(req.username.GetOr(""))
  }

  /** An empty login body fails both rules. */
  lemma EmptyLoginRejected()
    ensures LoginErrors(LoginRequest(None, None)) ==
      [FieldError(UsernameField, "Username is required"), FieldError(PasswordField, "Password is required")]
  {
    assert Trim("") == "";
    assert !TrimmedNotEmpty(None);
  }
}
