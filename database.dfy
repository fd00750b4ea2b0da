/** The relational store as the migrations 001 and 002 define it: a users
    table and a tasks table, with the constraints their DDL declares, and
    the PostgreSQL errors a statement that breaks one of them raises. */
module Database {
  import opened Common

  /** A row of `users`; `password` holds the hash, never the plain text. */
  datatype UserRow = UserRow(
    firstName: string,
    lastName: string,
    username: string,
    email: string,
    password: string,
    role: Role)

  /** A row of `tasks`. */
  datatype TaskRow = TaskRow(body: string, userId: int)

  /** The columns `User.findById` and `User.findAll` select: everything but
      the password. */
  datatype PublicUser = PublicUser(
    id: int,
    firstName: string,
    lastName: string,
    username: string,
    email: string,
    role: Role)

  /** A row of `SELECT t.*, u.username, u.firstName, u.lastName FROM tasks t
      JOIN users u ON t.userId = u.id`. */
  datatype TaskView = TaskView(
    id: int,
    body: string,
    userId: int,
    username: string,
    firstName: string,
    lastName: string)

  /** The constraint failures the two tables can raise, in the order
      PostgreSQL detects them for one row: a value wider than its column, a
      NULL in a NOT NULL column, the role CHECK, a UNIQUE index, and the
      foreign key at the end of the statement. */
  datatype DbError =
    | ValueTooLong(width: nat)
    | NotNullViolation(table: string, column: string)
    | CheckViolation(table: string, constraint: string)
    | UniqueViolation(constraint: string)
    | ForeignKeyViolation(table: string, constraint: string)

  datatype Result<T> = Ok(value: T) | Err(error: DbError)

  /** Column widths from 001_create_users_table. */
  const FirstNameWidth: nat := 100
  const LastNameWidth: nat := 100
  const UsernameWidth: nat := 50
  const EmailWidth: nat := 255
  const RoleWidth: nat := 20

  function SqlState(e: DbError): string {
    match e
    case ValueTooLong(_) => "22001"
    case NotNullViolation(_, _) => "23502"
    case CheckViolation(_, _) => "23514"
    case UniqueViolation(_) => "23505"
    case ForeignKeyViolation(_, _) => "23503"
  }

  /** The primary message text, as PostgreSQL 13 and later word it. */
  function SqlMessage(e: DbError): string {
    match e
    case ValueTooLong(w) => "value too long for type character varying(" + NatToString(w) + ")"
    case NotNullViolation(t, c) =>
      "null value in column \"" + c + "\" of relation \"" + t + "\" violates not-null constraint"
    case CheckViolation(t, c) => "new row for relation \"" + t + "\" violates check constraint \"" + c + "\""
    case UniqueViolation(c) => "duplicate key value violates unique constraint \"" + c + "\""
    case ForeignKeyViolation(t, c) =>
      "insert or update on table \"" + t + "\" violates foreign key constraint \"" + c + "\""
  }

  /** A value a `VARCHAR(w)` column refuses with 22001: one with a character
      other than a space past the first `w`. Excess spaces alone are cut. */
  predicate Overflows(s: string, w: nat) {
    exists i :: w <= i < |s| && s[i] != ' '
  }

  /** The value a `VARCHAR(w)` column stores: the first `w` characters. */
  function Coerce(s: string, w: nat): (r: string)
    ensures |r| <= w && |r| <= |s| && r == s[..|r|]
    ensures |s| <= w ==> r == s
    ensures |s| > w ==> r == s[..w]
    ensures !Overflows(s, w) ==> forall i :: |r| <= i < |s| ==> s[i] == ' '
  {
    if |s| <= w then s else s[..w]
  }

  /** A value that does not end in a space overflows exactly when it is
      longer than the column. */
  lemma OverflowsIffTooLong(s: string, w: nat)
    requires s == [] || s[|s| - 1] != ' '
    ensures Overflows(s, w) <==> |s| > w
  {
    if |s| > w {
      assert s[|s| - 1] != ' ';
    }
  }

  /** The error object `pg` throws for a constraint failure: it carries the
      SQLSTATE code and no HTTP status. */
  function ToServerError(e: DbError): (r: ServerError)
    ensures r.code == Some(SqlState(e)) && r.status.None?
    ensures r.message == SqlMessage(e)
  {
    ServerError(Some(SqlState(e)), "error", None, SqlMessage(e), "error: " + SqlMessage(e))
  }

  ghost predicate UniqueUsernames(users: map<int, UserRow>) {
    forall a, b :: a in users && b in users && users[a].username == users[b].username ==> a == b
  }

  ghost predicate UniqueEmails(users: map<int, UserRow>) {
    forall a, b :: a in users && b in users && users[a].email == users[b].email ==> a == b
  }

  /** The foreign key `tasks.userId REFERENCES users(id)`. */
  ghost predicate OwnersExist(tasks: map<int, TaskRow>, users: map<int, UserRow>) {
    forall t :: t in tasks ==> tasks[t].userId in users
  }

  /** `order` lists every key exactly once: the rows in insertion order. */
  ghost predicate Lists(order: seq<int>, keys: set<int>) {
    && Distinct(order)
    && (forall i :: 0 <= i < |order| ==> order[i] in keys)
    && (forall k :: k in keys ==> k in order)
  }

  /** The tasks left after `ON DELETE CASCADE` removes the user `id`. */
  function WithoutOwner(tasks: map<int, TaskRow>, id: int): (r: map<int, TaskRow>)
    ensures forall t :: t in r <==> t in tasks && tasks[t].userId != id
    ensures forall t :: t in r ==> r[t] == tasks[t]
  {
    map t | t in tasks && tasks[t].userId != id :: tasks[t]
  }

  /** The elements of `order` that are in `keys`, in their order. */
  function Restrict(order: seq<int>, keys: set<int>): (r: seq<int>)
    ensures |r| <= |order|
    ensures forall x :: x in r <==> x in order && x in keys
    ensures Distinct(order) ==> Distinct(r)
  {
    if order == [] then []
    else
      var rest := Restrict(order[1..], keys);
      if order[0] in keys then
        assert Distinct(order) ==> order[0] !in order[1..];
        [order[0]] + rest
      else rest
  }

  /** Each kept id occurs in the restriction as often as in the order, and
      any other id not at all. */
  lemma {:induction false} RestrictCounts(order: seq<int>, keys: set<int>, x: int)
    ensures multiset(Restrict(order, keys))[x] == if x in keys then multiset(order)[x] else 0
  {
    if order != [] {
      assert order == [order[0]] + order[1..];
      RestrictCounts(order[1..], keys, x);
    }
  }

  /** Restricting two orders one after the other restricts each in turn,
      so the survivors keep their relative order. */
  lemma {:induction false} RestrictConcat(a: seq<int>, b: seq<int>, keys: set<int>)
    ensures Restrict(a + b, keys) == Restrict(a, keys) + Restrict(b, keys)
  {
    if a == [] {
      assert a + b == b;
    } else {
      assert (a + b)[0] == a[0] && (a + b)[1..] == a[1..] + b;
      RestrictConcat(a[1..], b, keys);
    }
  }

  lemma RestrictLists(order: seq<int>, keys: set<int>, kept: set<int>)
    requires Lists(order, keys) && kept <= keys
    ensures Lists(Restrict(order, kept), kept)
  {
  }

  /** Restricting to a set that already holds every element keeps all. */
  lemma {:induction false} RestrictKeepsAll(order: seq<int>, keys: set<int>)
    requires forall i :: 0 <= i < |order| ==> order[i] in keys
    ensures Restrict(order, keys) == order
  {
    if order != [] {
      assert order[0] in keys;
      assert forall i :: 0 <= i < |order[1..]| ==> order[1..][i] == order[i + 1];
      RestrictKeepsAll(order[1..], keys);
      assert order == [order[0]] + order[1..];
    }
  }

  /** A sequence listing a set once per element is as long as the set. */
  lemma {:induction false} ListsCardinality(order: seq<int>, keys: set<int>)
    requires Lists(order, keys)
    ensures |order| == |keys|
  {
    if order != [] {
      var x := order[0];
      assert Lists(order[1..], keys - {x}) by {
        forall i | 0 <= i < |order[1..]| ensures order[1..][i] in keys - {x} {
          assert order[1..][i] == order[i + 1] && order[i + 1] != order[0];
        }
        forall k | k in keys - {x} ensures k in order[1..] {
          var j :| 0 <= j < |order| && order[j] == k;
          assert j != 0;
          assert order[1..][j - 1] == k;
        }
      }
      ListsCardinality(order[1..], keys - {x});
      assert x in keys;
    } else {
      assert forall k :: k in keys ==> false;
    }
  }

  /** The database: both tables, the insertion order of their rows (which
      `ORDER BY createdAt DESC` reverses) and the next value of each id
      sequence. */
  class Db {
    var users: map<int, UserRow>
    var tasks: map<int, TaskRow>
    var userOrder: seq<int>
    var taskOrder: seq<int>
    var nextUserId: int
    var nextTaskId: int

    /** The invariants the DDL maintains. */
    ghost predicate Valid()
      reads this
    {
      && UniqueUsernames(users)
      && UniqueEmails(users)
      && OwnersExist(tasks, users)
      && (forall u :: u in users ==> u < nextUserId)
      && (forall t :: t in tasks ==> t < nextTaskId)
      && Lists(userOrder, users.Keys)
      && Lists(taskOrder, tasks.Keys)
    }

    /** A freshly migrated, empty database; SERIAL sequences start at 1. */
    constructor ()
      ensures Valid()
      ensures users == map[] && tasks == map[] && userOrder == [] && taskOrder == []
      ensures nextUserId == 1 && nextTaskId == 1
    {
      users, tasks := map[], map[];
      userOrder, taskOrder := [], [];
      nextUserId, nextTaskId := 1, 1;
    }
  }

  /** The column name PostgreSQL stores, and reports as a result key, for
      an unquoted identifier: ASCII letters folded to lower case. */
  function FoldIdentifier(name: string): (r: string)
    ensures |r| == |name|
    ensures forall i :: 0 <= i < |name| ==>
      r[i] == if 'A' <= name[i] <= 'Z' then ((name[i] as int) + 32) as char else name[i]
    ensures forall i :: 0 <= i < |r| ==> !('A' <= r[i] <= 'Z')
  {
    if name == [] then []
    else
      var c := name[0];
      [if 'A' <= c <= 'Z' then ((c as int) + 32) as char else c] + FoldIdentifier(name[1..])
  }

  /** The keys of a row `pg` returns for a select list of unquoted names. */
  function ResultKeys(columns: seq<string>): set<string> {
    set c | c in columns :: FoldIdentifier(c)
  }

  /** A name with an upper-case letter is never a key of such a row. */
  lemma MixedCaseNameIsNoKey(columns: seq<string>, name: string, i: nat)
    requires i < |name| && 'A' <= name[i] <= 'Z'
    ensures name !in ResultKeys(columns)
  {
  }

  /** The columns of `users` and of `tasks`, as the DDL spells them. */
  const UserColumns: seq<string> :=
    ["id", "firstName", "lastName", "username", "email", "password", "role", "createdAt", "updatedAt"]
  const TaskColumns: seq<string> := ["id", "body", "userId", "createdAt", "updatedAt"]

  /** The select list of `Task.findById`, `findByUserId` and `findAll`. */
  const TaskViewColumns: seq<string> := TaskColumns + ["username", "firstName", "lastName"]

  function PublicView(id: int, u: UserRow): (r: PublicUser)
    ensures r.id == id && r.firstName == u.firstName && r.lastName == u.lastName
    ensures r.username == u.username && r.email == u.email && r.role == u.role
  {
    PublicUser(id, u.firstName, u.lastName, u.username, u.email, u.role)
  }
}
