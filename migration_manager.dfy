/** The migration runner: which files in the migrations directory count as
    migrations, in which order they run, and the `migrations` table that
    records the applied ones. A script's `up` and `down` are the predicates
    `up(name)` and `down(name)`: whether that step, and with it the
    transaction around it, commits. */
module Migrations {
  import opened Common

  /** `name VARCHAR(255)` of the migrations table. */
  const NameWidth: nat := 255

  /** The characters the regular-expression `.` does not match. */
  predicate IsLineTerminator(c: char) {
    c == '\n' || c == '\r' || c == '\U{2028}' || c == '\U{2029}'
  }

  /** `/^\d{3}_.*\.js$/`: three ASCII digits, an underscore, any characters
      but line terminators, and ".js" at the very end. */
  predicate IsMigrationFile(f: string) {
    && |f| >= 7
    && IsDigit(f[0]) && IsDigit(f[1]) && IsDigit(f[2])
    && f[3] == '_'
    && f[|f| - 3..] == ".js"
    && forall i :: 4 <= i < |f| - 3 ==> !IsLineTerminator(f[i])
  }

  /** The names of a directory listing that match the pattern, in listing
      order. */
  function Matching(listing: seq<string>): (r: seq<string>)
    ensures |r| <= |listing|
    ensures forall f :: f in r <==> f in listing && IsMigrationFile(f)
  {
    if listing == [] then []
    else if IsMigrationFile(listing[0]) then [listing[0]] + Matching(listing[1..])
    else Matching(listing[1..])
  }

  /** Each matching name is kept as often as the listing has it; no other
      name is kept. */
  lemma {:induction false} MatchingCounts(listing: seq<string>, f: string)
    ensures multiset(Matching(listing))[f] == if IsMigrationFile(f) then multiset(listing)[f] else 0
  {
    if listing != [] {
      assert listing == [listing[0]] + listing[1..];
      MatchingCounts(listing[1..], f);
    }
  }

  /** Filtering a concatenated listing filters each part, in order. */
  lemma {:induction false} MatchingConcat(a: seq<string>, b: seq<string>)
    ensures Matching(a + b) == Matching(a) + Matching(b)
  {
    if a == [] {
      assert a + b == b;
    } else {
      assert (a + b)[0] == a[0] && (a + b)[1..] == a[1..] + b;
      MatchingConcat(a[1..], b);
      if IsMigrationFile(a[0]) {
        assert [a[0]] + (Matching(a[1..]) + Matching(b)) == ([a[0]] + Matching(a[1..])) + Matching(b);
      }
    }
  }

  /** The order `Array.prototype.sort` puts strings in: character by
      character, a proper prefix first. */
  predicate LexLe(a: string, b: string)
    decreases |a|
  {
    a == [] || (b != [] && (a[0] < b[0] || (a[0] == b[0] && LexLe(a[1..], b[1..]))))
  }

  lemma {:induction false} LexLeTotal(a: string, b: string)
    ensures LexLe(a, b) || LexLe(b, a)
    decreases |a|
  {
    if a != [] && b != [] && a[0] == b[0] {
      LexLeTotal(a[1..], b[1..]);
    }
  }

  lemma {:induction false} LexLeTransitive(a: string, b: string, c: string)
    requires LexLe(a, b) && LexLe(b, c)
    ensures LexLe(a, c)
    decreases |a|
  {
    if a != [] && a[0] == b[0] && b[0] == c[0] {
      LexLeTransitive(a[1..], b[1..], c[1..]);
    }
  }

  lemma {:induction false} LexLeAntisymmetric(a: string, b: string)
    requires LexLe(a, b) && LexLe(b, a)
    ensures a == b
    decreases |a|
  {
    if a != [] {
      LexLeAntisymmetric(a[1..], b[1..]);
      assert a == [a[0]] + a[1..] && b == [b[0]] + b[1..];
    }
  }

  predicate Sorted(s: seq<string>) {
    forall i, j :: 0 <= i < j < |s| ==> LexLe(s[i], s[j])
  }

  /** `x` placed before the first element it does not follow. */
  function Insert(x: string, s: seq<string>): (r: seq<string>)
    ensures multiset(r) == multiset(s) + multiset{x}
    ensures |r| == |s| + 1
  {
    if s == [] then [x]
    else if LexLe(x, s[0]) then [x] + s
    else
      assert s == [s[0]] + s[1..];
      [s[0]] + Insert(x, s[1..])
  }

  lemma {:induction false} InsertSorted(x: string, s: seq<string>)
    requires Sorted(s)
    ensures Sorted(Insert(x, s))
  {
    if s == [] {
    } else if LexLe(x, s[0]) {
      PrependSorted(x, s);
    } else {
      LexLeTotal(x, s[0]);
      var tail := s[1..];
      TailSorted(s);
      InsertSorted(x, tail);
      ConsSorted(x, s);
    }
  }

  lemma TailSorted(s: seq<string>)
    requires Sorted(s) && s != []
    ensures Sorted(s[1..])
  {
    var tail := s[1..];
    forall i, j | 0 <= i < j < |tail| ensures LexLe(tail[i], tail[j]) {
      assert tail[i] == s[i + 1] && tail[j] == s[j + 1];
    }
  }

  /** A sorted list stays sorted with an element in front that is below
      all of it. */
  lemma PrependBelowAll(h: string, rest: seq<string>)
    requires Sorted(rest)
    requires forall k :: 0 <= k < |rest| ==> LexLe(h, rest[k])
    ensures Sorted([h] + rest)
  {
    var r := [h] + rest;
    forall i, j | 0 <= i < j < |r| ensures LexLe(r[i], r[j]) {
      assert r[j] == rest[j - 1];
      if i > 0 {
        assert r[i] == rest[i - 1];
      }
    }
  }

  /** `x` below the head of a sorted list may go in front of it. */
  lemma PrependSorted(x: string, s: seq<string>)
    requires Sorted(s) && s != [] && LexLe(x, s[0])
    ensures Sorted([x] + s)
  {
    forall k | 0 <= k < |s| ensures LexLe(x, s[k]) {
      if k > 0 {
        LexLeTransitive(x, s[0], s[k]);
      }
    }
    PrependBelowAll(x, s);
  }

  /** `x` above the head goes into the tail, behind the head. */
  lemma ConsSorted(x: string, s: seq<string>)
    requires Sorted(s) && s != [] && LexLe(s[0], x) && !LexLe(x, s[0])
    requires Sorted(Insert(x, s[1..]))
    ensures Sorted(Insert(x, s))
  {
    var rest := Insert(x, s[1..]);
    forall k | 0 <= k < |rest| ensures LexLe(s[0], rest[k]) {
      HeadBelowInserted(x, s, k);
    }
    PrependBelowAll(s[0], rest);
    assert Insert(x, s) == [s[0]] + rest;
  }

  /** In a sorted list, the head is below `x` when `x` goes after it, and so
      below every element of the tail with `x` inserted. */
  lemma HeadBelowInserted(x: string, s: seq<string>, k: nat)
    requires Sorted(s) && s != [] && LexLe(s[0], x) && k < |s|
    ensures LexLe(s[0], Insert(x, s[1..])[k])
  {
    var rest := Insert(x, s[1..]);
    var y := rest[k];
    assert y in multiset(rest);
    if y != x {
      assert y in multiset(s[1..]);
      var m :| 0 <= m < |s[1..]| && s[1..][m] == y;
      assert s[m + 1] == y;
    }
  }

  /** Insertion sort on the names. */
  function Sort(s: seq<string>): (r: seq<string>)
    ensures multiset(r) == multiset(s)
  {
    if s == [] then []
    else
      assert s == [s[0]] + s[1..];
      Insert(s[0], Sort(s[1..]))
  }

  lemma {:induction false} SortSorted(s: seq<string>)
    ensures Sorted(Sort(s))
  {
    if s != [] {
      SortSorted(s[1..]);
      InsertSorted(s[0], Sort(s[1..]));
    }
  }

  /** `getMigrationFiles`: the matching names of the listing, sorted. */
  function MigrationFiles(listing: seq<string>): seq<string> {
    Sort(Matching(listing))
  }

  /** The discovered files are exactly the matching names, each as often
      as the listing has it, in ascending order. */
  lemma MigrationFilesAreSortedMatches(listing: seq<string>)
    ensures Sorted(MigrationFiles(listing))
    ensures multiset(MigrationFiles(listing)) == multiset(Matching(listing))
    ensures forall f :: f in MigrationFiles(listing) <==> f in listing && IsMigrationFile(f)
  {
    SortSorted(Matching(listing));
    var r := MigrationFiles(listing);
    forall f ensures f in r <==> f in Matching(listing) {
      assert f in r <==> f in multiset(r);
      assert f in Matching(listing) <==> f in multiset(Matching(listing));
    }
  }

  /** `migrationFiles.filter(file => !executedMigrations.includes(file))`. */
  function Pending(files: seq<string>, applied: seq<string>): (r: seq<string>)
    ensures |r| <= |files|
    ensures forall f :: f in r <==> f in files && f !in applied
  {
    if files == [] then []
    else if files[0] !in applied then [files[0]] + Pending(files[1..], applied)
    else Pending(files[1..], applied)
  }

  /** Each file not yet applied is pending as many times as it is listed,
      and an applied one not at all. */
  lemma {:induction false} PendingCounts(files: seq<string>, applied: seq<string>, f: string)
    ensures multiset(Pending(files, applied))[f] == if f in applied then 0 else multiset(files)[f]
  {
    if files != [] {
      assert files == [files[0]] + files[1..];
      PendingCounts(files[1..], applied, f);
    }
  }

  /** Filtering two listings one after the other filters each in turn, so
      the pending files keep the listing order. */
  lemma {:induction false} PendingConcat(a: seq<string>, b: seq<string>, applied: seq<string>)
    ensures Pending(a + b, applied) == Pending(a, applied) + Pending(b, applied)
  {
    if a == [] {
      assert a + b == b;
    } else {
      assert (a + b)[0] == a[0] && (a + b)[1..] == a[1..] + b;
      PendingConcat(a[1..], b, applied);
    }
  }

  /** Filtering keeps the files in their sorted order. */
  lemma {:induction false} PendingSorted(files: seq<string>, applied: seq<string>)
    requires Sorted(files)
    ensures Sorted(Pending(files, applied))
  {
    if files != [] {
      var tail := files[1..];
      TailSorted(files);
      PendingSorted(tail, applied);
      if files[0] !in applied {
        var r := Pending(files, applied);
        var rest := Pending(tail, applied);
        assert r == [files[0]] + rest;
        forall j | 0 < j < |r| ensures LexLe(r[0], r[j]) {
          assert rest[j - 1] in rest;
          var k :| 0 <= k < |tail| && tail[k] == rest[j - 1];
          assert files[k + 1] == r[j];
        }
      }
    }
  }

  /** Nothing is pending once every file is applied. */
  lemma {:induction false} PendingOfCovered(files: seq<string>, applied: seq<string>)
    requires forall i :: 0 <= i < |files| ==> files[i] in applied
    ensures Pending(files, applied) == []
  {
    if files != [] {
      assert files[0] in applied;
      PendingOfCovered(files[1..], applied);
    }
  }

  /** Once every pending file has been applied, none is pending. */
  lemma PendingIdempotent(files: seq<string>, applied: seq<string>)
    ensures Pending(files, applied + Pending(files, applied)) == []
  {
    var done := applied + Pending(files, applied);
    forall i | 0 <= i < |files| ensures files[i] in done {
      if files[i] !in applied {
        assert files[i] in Pending(files, applied);
      }
    }
    PendingOfCovered(files, done);
  }

  /** `DELETE FROM migrations WHERE name = $1`: every row with that name. */
  function RemoveName(applied: seq<string>, name: string): (r: seq<string>)
    ensures forall f :: f in r <==> f in applied && f != name
  {
    if applied == [] then []
    else if applied[0] == name then RemoveName(applied[1..], name)
    else [applied[0]] + RemoveName(applied[1..], name)
  }

  /** A name that does not occur is deleted from nowhere. */
  lemma {:induction false} RemoveAbsentName(applied: seq<string>, name: string)
    requires name !in applied
    ensures RemoveName(applied, name) == applied
  {
    if applied != [] {
      assert applied[0] != name;
      RemoveAbsentName(applied[1..], name);
      assert applied == [applied[0]] + applied[1..];
    }
  }

  /** With unique names, deleting the last one is dropping the last entry. */
  lemma {:induction false} RemoveLastOfDistinct(applied: seq<string>)
    requires applied != [] && Distinct(applied)
    ensures RemoveName(applied, applied[|applied| - 1]) == applied[..|applied| - 1]
  {
    var last := applied[|applied| - 1];
    if |applied| == 1 {
    } else {
      assert applied[0] != last;
      var tail := applied[1..];
      assert Distinct(tail) by {
        forall i, j | 0 <= i < j < |tail| ensures tail[i] != tail[j] {
          assert tail[i] == applied[i + 1] && tail[j] == applied[j + 1];
        }
      }
      assert tail[|tail| - 1] == last;
      RemoveLastOfDistinct(tail);
      assert applied[..|applied| - 1] == [applied[0]] + tail[..|tail| - 1];
    }
  }

  /** Whether `runMigration(file)` commits: its `up` succeeds and the INSERT
      of its name meets the UNIQUE and VARCHAR(255) constraints. */
  predicate Commits(applied: seq<string>, file: string, up: string -> bool) {
    up(file) && file !in applied && |file| <= NameWidth
  }

  /** How many of `pending` commit before the first that does not. */
  function Committed(applied: seq<string>, pending: seq<string>, up: string -> bool): (k: nat)
    ensures k <= |pending|
    decreases |pending|
  {
    if pending == [] || !Commits(applied, pending[0], up) then 0
    else 1 + Committed(applied + [pending[0]], pending[1..], up)
  }

  lemma CommittedStep(applied: seq<string>, pending: seq<string>, up: string -> bool)
    requires pending != [] && Commits(applied, pending[0], up)
    ensures Committed(applied, pending, up) == 1 + Committed(applied + [pending[0]], pending[1..], up)
  {
  }

  /** Every file before the halting point commits, given those before it. */
  lemma {:induction false} CommittedPrefix(applied: seq<string>, pending: seq<string>, up: string -> bool, i: nat)
    requires i < Committed(applied, pending, up)
    ensures Commits(applied + pending[..i], pending[i], up)
    decreases i
  {
    if i > 0 {
      CommittedPrefix(applied + [pending[0]], pending[1..], up, i - 1);
      assert applied + [pending[0]] + pending[1..][..i - 1] == applied + pending[..i];
    }
  }

  /** The file at the halting point, if any, is one that does not commit. */
  lemma {:induction false} CommittedHalts(applied: seq<string>, pending: seq<string>, up: string -> bool)
    ensures var k := Committed(applied, pending, up);
      k < |pending| ==> !Commits(applied + pending[..k], pending[k], up)
    decreases |pending|
  {
    var k := Committed(applied, pending, up);
    if pending != [] && Commits(applied, pending[0], up) {
      CommittedHalts(applied + [pending[0]], pending[1..], up);
      if k < |pending| {
        assert applied + [pending[0]] + pending[1..][..k - 1] == applied + pending[..k];
        assert pending[1..][k - 1] == pending[k];
      }
    } else {
      assert applied + pending[..0] == applied;
    }
  }

  /** Whether one line of `status` shows the file as applied. */
  datatype StatusLine = StatusLine(file: string, applied: bool)

  datatype RollbackResult = NothingToRollBack | RolledBack(name: string) | RollbackFailed(name: string)

  /** The `migrations` table, `SELECT name FROM migrations ORDER BY id`. */
  class MigrationManager {
    var applied: seq<string>

    /** The UNIQUE constraint on `name`. */
    ghost predicate Valid()
      reads this
    {
      Distinct(applied)
    }

    /** A freshly created, empty migrations table. */
    constructor ()
      ensures Valid() && applied == []
    {
      applied := [];
    }

    /** `runMigration`: `up` and the INSERT of the name in one transaction;
        on failure the transaction rolls back and the error is raised. */
    method RunMigration(file: string, up: string -> bool) returns (ok: bool)
      requires Valid()
      modifies this
      ensures Valid()
      ensures ok == Commits(old(applied), file, up)
      ensures applied == if ok then old(applied) + [file] else old(applied)
    {
      ok := Commits(applied, file, up);
      if ok {
        applied := applied + [file];
      }
    }

    /** The `for` loop of `runPendingMigrations`: runs the files in order
        and stops at the first that fails, which it reports. */
    method RunEach(pending: seq<string>, up: string -> bool) returns (failed: Option<string>)
      requires Valid()
      modifies this
      ensures Valid()
      ensures var k := Committed(old(applied), pending, up);
        && applied == old(applied) + pending[..k]
        && failed == if k < |pending| then Some(pending[k]) else None
    {
      ghost var start := applied;
      ghost var k := Committed(start, pending, up);
      var i := 0;
      while i < |pending|
        invariant Valid()
        invariant 0 <= i <= k <= |pending|
        invariant applied == start + pending[..i]
        invariant k == i + Committed(applied, pending[i..], up)
      {
        var ok := RunMigration(pending[i], up);
        if !ok {
          assert Committed(applied, pending[i..], up) == 0;
          return Some(pending[i]);
        }
        CommittedStep(start + pending[..i], pending[i..], up);
        assert pending[i..][1..] == pending[i + 1..];
        assert pending[..i + 1] == pending[..i] + [pending[i]];
        i := i + 1;
      }
      assert pending[..i] == pending;
      failed := None;
    }

    /** `runPendingMigrations`: the discovered files that are not applied,
        run in order up to the first failure. With none pending, nothing
        happens. */
    method RunPendingMigrations(listing: seq<string>, up: string -> bool) returns (failed: Option<string>)
      requires Valid()
      modifies this
      ensures Valid()
      ensures var pending := Pending(MigrationFiles(listing), old(applied));
        var k := Committed(old(applied), pending, up);
        && applied == old(applied) + pending[..k]
        && failed == if k < |pending| then Some(pending[k]) else None
    {
      var pending := Pending(MigrationFiles(listing), applied);
      if |pending| == 0 {
        return None;
      }
      failed := RunEach(pending, up);
    }

    /** `rollback`: `down` of the most recently applied migration and the
        DELETE of its name in one transaction; nothing happens when no
        migration is applied. */
    method Rollback(down: string -> bool) returns (r: RollbackResult)
      requires Valid()
      modifies this
      ensures Valid()
      ensures old(applied) == [] ==> r == NothingToRollBack && applied == old(applied)
      ensures old(applied) != [] ==>
        var last := old(applied)[|old(applied)| - 1];
        if down(last) then r == RolledBack(last) && applied == old(applied)[..|old(applied)| - 1]
        else r == RollbackFailed(last) && applied == old(applied)
    {
      if |applied| == 0 {
        return NothingToRollBack;
      }
      var last := applied[|applied| - 1];
      if !down(last) {
        return RollbackFailed(last);
      }
      RemoveLastOfDistinct(applied);
      applied := RemoveName(applied, last);
      r := RolledBack(last);
    }

    /** `status`: one line per discovered file, marked applied exactly when
        its name is in the table. */
    method Status(listing: seq<string>) returns (lines: seq<StatusLine>)
      ensures |lines| == |MigrationFiles(listing)|
      ensures forall i :: 0 <= i < |lines| ==>
        lines[i].file == MigrationFiles(listing)[i] && (lines[i].applied <==> lines[i].file in applied)
    {
      var files := MigrationFiles(listing);
      lines := [];
      for i := 0 to |files|
        invariant |lines| == i
        invariant forall j :: 0 <= j < i ==> lines[j].file == files[j] && (lines[j].applied <==> files[j] in applied)
      {
        lines := lines + [StatusLine(files[i], files[i] in applied)];
      }
    }
  }

  /** After rolling back, the rolled-back file is pending again, so the
      next `up` re-runs it. */
  lemma RolledBackIsPendingAgain(files: seq<string>, applied: seq<string>)
    requires applied != [] && Distinct(applied) && applied[|applied| - 1] in files
    ensures applied[|applied| - 1] in Pending(files, applied[..|applied| - 1])
  {
  }

  /** If every pending file commits, everything discovered is applied and a
      second `up` finds nothing to do. */
  lemma AllCommittedLeavesNothingPending(files: seq<string>, applied: seq<string>, up: string -> bool)
    requires Committed(applied, Pending(files, applied), up) == |Pending(files, applied)|
    ensures Pending(files, applied + Pending(files, applied)[..Committed(applied, Pending(files, applied), up)]) == []
  {
    var pending := Pending(files, applied);
    assert pending[..|pending|] == pending;
    PendingIdempotent(files, applied);
  }
}
