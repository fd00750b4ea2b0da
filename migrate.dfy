/** The `migrate` command line: `up`, `down`, `status` and `create <name>`,
    and the name `create` gives the new migration file. The directory
    listing is an input; writing the file, the console and `process.exit`
    become the returned effect and exit code. */
module Migrate {
  import opened Common
  import opened Migrations

  /** The number a string of decimal digits denotes. */
  function Value(s: string): nat
    requires AllDigits(s)
  {
    if s == [] then 0 else 10 * Value(s[..|s| - 1]) + DigitValue(s[|s| - 1])
  }

  function Pow10(k: nat): nat {
    if k == 0 then 1 else 10 * Pow10(k - 1)
  }

  /** `String(n)` denotes `n`. */
  lemma {:induction false} NatToStringValue(n: nat)
    ensures Value(NatToString(n)) == n
    decreases n
  {
    if n >= 10 {
      var t := NatToString(n / 10);
      NatToStringValue(n / 10);
      assert NatToString(n)[..|NatToString(n)| - 1] == t;
    }
  }

  /** A number below 10^k has at most k digits. */
  lemma {:induction false} NatToStringLength(n: nat, k: nat)
    requires 1 <= k && n < Pow10(k)
    ensures |NatToString(n)| <= k
    decreases n
  {
    if n >= 10 {
      assert k >= 2;
      NatToStringLength(n / 10, k - 1);
    }
  }

  function Zeros(k: nat): (r: string)
    ensures |r| == k && AllDigits(r)
    ensures forall i :: 0 <= i < k ==> r[i] == '0'
  {
    if k == 0 then [] else Zeros(k - 1) + ['0']
  }

  /** Leading zeros do not change the number. */
  lemma {:induction false} ValueLeadingZeros(k: nat, s: string)
    requires AllDigits(s)
    ensures Value(Zeros(k) + s) == Value(s)
    decreases |s|
  {
    if s == [] {
      assert Zeros(k) + s == Zeros(k);
      ValueOfZeros(k);
    } else {
      assert (Zeros(k) + s)[..|Zeros(k) + s| - 1] == Zeros(k) + s[..|s| - 1];
      ValueLeadingZeros(k, s[..|s| - 1]);
    }
  }

  lemma {:induction false} ValueOfZeros(k: nat)
    ensures Value(Zeros(k)) == 0
  {
    if k > 0 {
      assert Zeros(k)[..k - 1] == Zeros(k - 1);
      ValueOfZeros(k - 1);
    }
  }

  /** `s.padStart(width, '0')`. */
  function PadStart(s: string, width: nat): (r: string)
    ensures |r| == if |s| >= width then |s| else width
  {
    if |s| >= width then s else Zeros(width - |s|) + s
  }

  /** The number `createMigration` gives the next file, from the count of
      files that match the migration pattern. */
  function NextNumber(count: nat): string {
    if count > 0 then PadStart(NatToString(count + 1), 3) else "001"
  }

  /** `${nextNumber}_${name}.js`. */
  function MigrationFileName(listing: seq<string>, name: string): string {
    NextNumber(|Matching(listing)|) + "_" + name + ".js"
  }

  /** Below 999 files the number has three digits and is the count plus
      one; with none it is "001". */
  lemma NextNumberIsCountPlusOne(count: nat)
    requires count < 999
    ensures |NextNumber(count)| == 3 && AllDigits(NextNumber(count))
    ensures Value(NextNumber(count)) == count + 1
  {
    if count == 0 {
      assert Value("001") == 1 by {
        assert "001"[..2] == "00" && "00"[..1] == "0" && "0"[..0] == "";
      }
    } else {
      var digits := NatToString(count + 1);
      NatToStringLength(count + 1, 3);
      NatToStringValue(count + 1);
      if |digits| < 3 {
        ValueLeadingZeros(3 - |digits|, digits);
      }
    }
  }

  /** The file `create` writes is one the runner discovers, as long as
      fewer than 999 migrations exist and the name has no line break. */
  lemma CreatedFileIsDiscovered(listing: seq<string>, name: string)
    requires |Matching(listing)| < 999
    requires forall i :: 0 <= i < |name| ==> !IsLineTerminator(name[i])
    ensures IsMigrationFile(MigrationFileName(listing, name))
  {
    var n := NextNumber(|Matching(listing)|);
    NextNumberIsCountPlusOne(|Matching(listing)|);
    var f := MigrationFileName(listing, name);
    assert f == n + "_" + name + ".js";
    assert f[..3] == n && f[3] == '_';
    assert f[|f| - 3..] == ".js";
    forall i | 4 <= i < |f| - 3 ensures !IsLineTerminator(f[i]) {
      assert f[i] == name[i - 4];
    }
  }

  /** With 999 migrations the next number is "1000", and the file created
      under it no longer matches the pattern. */
  lemma ThousandthFileIsNotDiscovered(listing: seq<string>, name: string)
    requires |Matching(listing)| == 999
    ensures NextNumber(|Matching(listing)|) == "1000"
    ensures !IsMigrationFile(MigrationFileName(listing, name))
  {
    assert NatToString(1000) == "1000";
    var f := MigrationFileName(listing, name);
    assert f[3] == '0';
  }

  /** What a run of the command line did. */
  datatype Effect =
    | Migrated(failed: Option<string>)
    | Reverted(result: RollbackResult)
    | Reported(lines: seq<StatusLine>)
    | Created(file: string)
    | MissingName
    | Usage

  /** `main`: dispatch on the command. An error raised by the manager is
      caught and ends the process with code 1; `create` without a name and
      an unknown command exit with 1 without touching the manager. */
  method Run(m: MigrationManager, command: Option<string>, name: Option<string>, listing: seq<string>,
             up: string -> bool, down: string -> bool)
    returns (effect: Effect, exitCode: int)
    requires m.Valid()
    modifies m
    ensures m.Valid()
    ensures command == Some("up") ==>
      var pending := Pending(MigrationFiles(listing), old(m.applied));
      var k := Committed(old(m.applied), pending, up);
      && m.applied == old(m.applied) + pending[..k]
      && effect == Migrated(if k < |pending| then Some(pending[k]) else None)
      && exitCode == (if k < |pending| then 1 else 0)
    ensures command == Some("down") && old(m.applied) == [] ==>
      effect == Reverted(NothingToRollBack) && exitCode == 0 && m.applied == old(m.applied)
    ensures command == Some("down") && old(m.applied) != [] ==>
      var last := old(m.applied)[|old(m.applied)| - 1];
      if down(last) then
        effect == Reverted(RolledBack(last)) && exitCode == 0 && m.applied == old(m.applied)[..|old(m.applied)| - 1]
      else
        effect == Reverted(RollbackFailed(last)) && exitCode == 1 && m.applied == old(m.applied)
    ensures command == Some("status") ==>
      && m.applied == old(m.applied) && exitCode == 0 && effect.Reported?
      && |effect.lines| == |MigrationFiles(listing)|
      && forall i :: 0 <= i < |effect.lines| ==>
           effect.lines[i] == StatusLine(MigrationFiles(listing)[i], MigrationFiles(listing)[i] in m.applied)
    ensures command == Some("create") && !Truthy(name) ==>
      effect == MissingName && exitCode == 1 && m.applied == old(m.applied)
    ensures command == Some("create") && Truthy(name) ==>
      effect == Created(MigrationFileName(listing, name.value)) && exitCode == 0 && m.applied == old(m.applied)
    ensures command !in {Some("up"), Some("down"), Some("status"), Some("create")} ==>
      effect == Usage && exitCode == 1 && m.applied == old(m.applied)
  {
    if command == Some("up") {
      var failed := m.RunPendingMigrations(listing, up);
      effect := Migrated(failed);
      exitCode := if failed.Some? then 1 else 0;
    } else if command == Some("down") {
      var result := m.Rollback(down);
      effect := Reverted(result);
      exitCode := if result.RollbackFailed? then 1 else 0;
    } else if command == Some("status") {
      var lines := m.Status(listing);
      effect := Reported(lines);
      exitCode := 0;
    } else if command == Some("create") {
      if !Truthy(name) {
        return MissingName, 1;
      }
      effect := Created(MigrationFileName(listing, name.value));
      exitCode := 0;
    } else {
      effect := Usage;
      exitCode := 1;
    }
  }
}
