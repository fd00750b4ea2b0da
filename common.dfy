/** Values shared by every layer of the task tracker: optional request fields,
    roles, the authenticated caller, JavaScript's string trimming, and the
    error record that handlers forward to the error middleware. */
module Common {

  datatype Option<T> = None | Some(value: T) {
    function GetOr(default: T): T {
      match this
      case Some(v) => v
      case None => default
    }
  }

  /** The two values the users table's CHECK constraint admits. */
  datatype Role = Basic | Admin

  function RoleName(r: Role): string {
    match r
    case Basic => "basic"
    case Admin => "admin"
  }

  /** Reads a role string as the users table's CHECK constraint does. */
  function ParseRole(s: string): (r: Option<Role>)
    ensures r.Some? <==> (s == "basic" || s == "admin")
    ensures r.Some? ==> RoleName(r.value) == s
  {
    if s == "basic" then Some(Basic)
    else if s == "admin" then Some(Admin)
    else None
  }

  /** `req.user` as the authentication middleware leaves it: the token's
      user id and role. */
  datatype Identity = Identity(id: int, role: Role)

  /** The ownership rule shared by every task and user handler: an
      administrator may act on anything, anyone else only on what carries
      their own id. */
  predicate MayAccess(caller: Identity, ownerId: int) {
    caller.role == Admin || caller.id == ownerId
  }

  predicate IsDigit(c: char) {
    '0' <= c <= '9'
  }

  predicate AllDigits(s: string) {
    forall i :: 0 <= i < |s| ==> IsDigit(s[i])
  }

  function DigitValue(c: char): nat
    requires IsDigit(c)
  {
    (c as int) - ('0' as int)
  }

  /** `String(n)` for a natural number: its decimal digits, no leading zero. */
  function NatToString(n: nat): (r: string)
    ensures r != [] && AllDigits(r)
    ensures |r| > 1 ==> r[0] != '0'
    decreases n
  {
    var d := (('0' as int) + n % 10) as char;
    if n < 10 then [d] else NatToString(n / 10) + [d]
  }

  /** JavaScript's truthiness of an optional string field: present and not "". */
  predicate Truthy(s: Option<string>) {
    s.Some? && s.value != ""
  }

  /** The characters `String.prototype.trim` and the `\s` regular-expression
      class remove: ECMAScript WhiteSpace and LineTerminator. */
  predicate IsWhitespace(c: char) {
    c == '\t' || c == '\n' || c == '\U{000B}' || c == '\U{000C}' || c == '\r'
    || c == ' ' || c == '\U{00A0}' || c == '\U{1680}'
    || ('\U{2000}' <= c <= '\U{200A}')
    || c == '\U{2028}' || c == '\U{2029}' || c == '\U{202F}' || c == '\U{205F}'
    || c == '\U{3000}' || c == '\U{FEFF}'
  }

  predicate AllWhitespace(s: string) {
    forall i :: 0 <= i < |s| ==> IsWhitespace(s[i])
  }

  function TrimStart(s: string): (r: string)
    ensures |r| <= |s| && r == s[|s| - |r|..]
    ensures r == [] || !IsWhitespace(r[0])
    ensures AllWhitespace(s[..|s| - |r|])
  {
    if s != [] && IsWhitespace(s[0]) then
      var r := TrimStart(s[1..]);
      var k := |s| - |r|;
      assert r == s[k..];
      assert forall i :: 1 <= i < k ==> s[1..][..k - 1][i - 1] == s[i];
      r
    else s
  }

  function TrimEnd(s: string): (r: string)
    ensures |r| <= |s| && r == s[..|r|]
    ensures r == [] || !IsWhitespace(r[|r| - 1])
    ensures AllWhitespace(s[|r|..])
  {
    if s != [] && IsWhitespace(s[|s| - 1]) then
      var r := TrimEnd(s[..|s| - 1]);
      assert s[..|s| - 1][..|r|] == s[..|r|];
      assert s[|r|..] == s[..|s| - 1][|r|..] + [s[|s| - 1]];
      r
    else s
  }

  /** `s` does not end in whitespace, as a trimmed string does not. */
  predicate EndsClean(s: string) {
    s == [] || !IsWhitespace(s[|s| - 1])
  }

  /** `s.trim()`: nothing left at either end is whitespace, and what is
      left is all of `s` exactly when `s` has no whitespace at its ends. */
  function Trim(s: string): (r: string)
    ensures |r| <= |s|
    ensures r == [] || (!IsWhitespace(r[0]) && !IsWhitespace(r[|r| - 1]))
    ensures EndsClean(r)
    ensures s != [] && !IsWhitespace(s[0]) && !IsWhitespace(s[|s| - 1]) ==> r == s
  {
    TrimEnd(TrimStart(s))
  }

  /** What `trim` keeps is a slice of `s`, and what it cuts off at either
      end is whitespace only. */
  lemma TrimIsInfix(s: string)
    ensures exists i, j :: 0 <= i <= j <= |s| && Trim(s) == s[i..j] && AllWhitespace(s[..i]) && AllWhitespace(s[j..])
  {
    var t := TrimStart(s);
    var r := TrimEnd(t);
    var i := |s| - |t|;
    var j := i + |r|;
    assert t == s[i..] && r == t[..|r|];
    assert r == s[i..j];
    forall k | 0 <= k < |s| - j ensures IsWhitespace(s[j..][k]) {
      assert s[j..][k] == t[|r|..][k];
    }
    assert Trim(s) == s[i..j] && AllWhitespace(s[..i]) && AllWhitespace(s[j..]);
  }


  /** `s.trim() === ""` exactly when every character of `s` is whitespace. */
  lemma TrimEmptyIffAllWhitespace(s: string)
    ensures Trim(s) == "" <==> AllWhitespace(s)
  {
    var t := TrimStart(s);
    if Trim(s) == "" {
      assert AllWhitespace(t[0..]);
      assert t == [];
      assert s[..|s|] == s;
    } else {
      assert t != [] && !IsWhitespace(t[0]);
      assert t[0] == s[|s| - |t|];
    }
  }

  /** The task handlers' body check `!body || body.trim() === ""`. */
  predicate Blank(s: Option<string>) {
    !Truthy(s) || Trim(s.value) == ""
  }

  lemma BlankIffAbsentOrWhitespace(s: Option<string>)
    ensures Blank(s) <==> (s.None? || AllWhitespace(s.value))
  {
    if s.Some? {
      TrimEmptyIffAllWhitespace(s.value);
    }
  }

  /** An error as it reaches the error middleware through `next(error)`. */
  datatype ServerError = ServerError(
    code: Option<string>,   // PostgreSQL SQLSTATE, when the error came from the database
    name: string,
    status: Option<int>,
    message: string,
    stack: string)

  /** The request fields the validators check; `Path` is the name the
      JSON body and the error entries use. */
  datatype Field = FirstNameField | LastNameField | UsernameField | EmailField | PasswordField | RoleField

  function Path(f: Field): string {
    match f
    case FirstNameField => "firstName"
    case LastNameField => "lastName"
    case UsernameField => "username"
    case EmailField => "email"
    case PasswordField => "password"
    case RoleField => "role"
  }

  /** One entry of express-validator's `errors.array()`: its `path` is
      `Path(field)`. */
  datatype FieldError = FieldError(field: Field, msg: string)

  predicate Distinct<T(==)>(s: seq<T>) {
    forall i, j :: 0 <= i < j < |s| ==> s[i] != s[j]
  }

  function Reverse<T>(s: seq<T>): (r: seq<T>)
    ensures |r| == |s|
    ensures forall i :: 0 <= i < |s| ==> r[i] == s[|s| - 1 - i]
  {
    if s == [] then [] else Reverse(s[1..]) + [s[0]]
  }
}
