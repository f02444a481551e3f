/**
 The migration runner. Each pending file is executed and recorded in one transaction; a run stops
 at the first transaction that fails. What an SQL text does to the schema is a parameter.
 */
module Migrations {
  import opened GoStrings
  import SqlRewriter

  const SUFFIX: string := ".up.sql"
  const DIR: string := "migrations/"

  datatype File = File(path: string, data: string)

  /** The rows of schema_migrations in the order of insertion, and the rest of the schema. */
  datatype Db<S> = Db(applied: seq<string>, schema: S)

  type Exec<!S> = (S, string) -> S

  function ExtractVersion(path: string): string {
    var parts := Split(path, '/');
    TrimSuffix(parts[|parts| - 1], SUFFIX)
  }

  /** The version is the file name without its suffix. */
  lemma VersionOfPath(name: string)
    requires '/' !in name
    ensures ExtractVersion(DIR + name + SUFFIX) == name
  {
    assert '/' !in SUFFIX;
    var path := DIR + name + SUFFIX;
    assert path == "migrations" + ['/'] + (name + SUFFIX);
    SplitEndsWith("migrations", name + SUFFIX, '/');
    TrimSuffixOfConcat(name, SUFFIX);
  }

  /** A path that the embedded file pattern matches: in the directory, with the suffix. */
  predicate Matches(path: string) {
    && DIR <= path && |DIR| + |SUFFIX| <= |path| && path[|path| - |SUFFIX|..] == SUFFIX
    && '/' !in path[|DIR|..]
  }

  /** Different migration files have different versions. */
  lemma VersionsDistinct(p: string, q: string)
    requires Matches(p) && Matches(q) && ExtractVersion(p) == ExtractVersion(q)
    ensures p == q
  {
    var m, n := p[|DIR|..|p| - |SUFFIX|], q[|DIR|..|q| - |SUFFIX|];
    assert forall c :: c in m ==> c in p[|DIR|..];
    assert forall c :: c in n ==> c in q[|DIR|..];
    assert p == DIR + m + SUFFIX && q == DIR + n + SUFFIX;
    VersionOfPath(m);
    VersionOfPath(n);
  }

  // ---------------------------------------------------------------------------------------
  // One run
  // ---------------------------------------------------------------------------------------

  function Migrate<S>(exec: Exec<S>, db: Db<S>, f: File): Db<S> {
    Db(db.applied + [ExtractVersion(f.path)], exec(db.schema, SqlRewriter.FixSql(f.data)))
  }

  /** A run over these files, given the versions read at its start and the files whose transaction
      the database refuses. A version recorded meanwhile violates the UNIQUE constraint. */
  function RunFrom<S>(exec: Exec<S>, db: Db<S>, atStart: set<string>, files: seq<File>,
                      refused: set<string>): (Db<S>, bool)
    decreases |files|
  {
    if files == [] then (db, true)
    else
      var version := ExtractVersion(files[0].path);
      if version in atStart then RunFrom(exec, db, atStart, files[1..], refused)
      else if files[0].path in refused || version in db.applied then (db, false)
      else RunFrom(exec, Migrate(exec, db, files[0]), atStart, files[1..], refused)
  }

  function AppliedSet(applied: seq<string>): set<string> {
    set v | v in applied
  }

  function Run<S>(exec: Exec<S>, db: Db<S>, files: seq<File>, refused: set<string>): (Db<S>, bool) {
    RunFrom(exec, db, AppliedSet(db.applied), files, refused)
  }

  class Migrator<S> {
    const exec: Exec<S>
    var applied: seq<string>
    var schema: S

    constructor (exec: Exec<S>, schema: S)
      ensures this.exec == exec && applied == [] && this.schema == schema
    {
      this.exec := exec;
      this.applied := [];
      this.schema := schema;
    }

    method RunMigrations(files: seq<File>, refused: set<string>) returns (ok: bool)
      modifies this
      ensures (Db(applied, schema), ok) == Run(exec, Db(old(applied), old(schema)), files, refused)
    {
      var atStart := AppliedSet(applied);
      for i := 0 to |files|
        invariant RunFrom(exec, Db(applied, schema), atStart, files[i..], refused)
               == Run(exec, Db(old(applied), old(schema)), files, refused)
      {
        var f := files[i];
        assert files[i..][0] == f && files[i..][1..] == files[i + 1..];
        var version := ExtractVersion(f.path);
        if version in atStart {
          continue;
        }
        var sql := SqlRewriter.FixCreateTableStatements(f.data);
        if f.path in refused || version in applied {
          return false;
        }
        schema, applied := exec(schema, sql), applied + [version];
      }
      return true;
    }
  }

  // ---------------------------------------------------------------------------------------
  // Resuming
  // ---------------------------------------------------------------------------------------

  predicate DistinctVersions(files: seq<File>) {
    forall i, j :: 0 <= i < j < |files| ==> ExtractVersion(files[i].path) != ExtractVersion(files[j].path)
  }

  lemma MigrationFilesDistinct(files: seq<File>)
    requires forall i :: 0 <= i < |files| ==> Matches(files[i].path)
    requires forall i, j :: 0 <= i < j < |files| ==> files[i].path != files[j].path
    ensures DistinctVersions(files)
  {
    forall i, j | 0 <= i < j < |files|
      ensures ExtractVersion(files[i].path) != ExtractVersion(files[j].path)
    {
      if ExtractVersion(files[i].path) == ExtractVersion(files[j].path) {
        VersionsDistinct(files[i].path, files[j].path);
      }
    }
  }

  /** The database after these files and nothing else. */
  function Straight<S>(exec: Exec<S>, start: S, files: seq<File>): (db: Db<S>)
    ensures |db.applied| == |files|
    ensures forall i :: 0 <= i < |files| ==> db.applied[i] == ExtractVersion(files[i].path)
  {
    if files == [] then Db([], start)
    else var n := |files| - 1; Migrate(exec, Straight(exec, start, files[..n]), files[n])
  }

  /** How far a run gets from file `i` on: to the first file that is refused. */
  function Reach(files: seq<File>, i: nat, refused: set<string>): (m: nat)
    requires i <= |files|
    ensures i <= m <= |files|
    ensures m < |files| ==> files[m].path in refused
    ensures forall j :: i <= j < m ==> files[j].path !in refused
    decreases |files| - i
  {
    if i == |files| || files[i].path in refused then i else Reach(files, i + 1, refused)
  }

  lemma NotYetApplied<S>(exec: Exec<S>, start: S, files: seq<File>, n: nat, i: nat)
    requires DistinctVersions(files) && n <= i < |files|
    ensures ExtractVersion(files[i].path) !in Straight(exec, start, files[..n]).applied
  {
  }

  lemma OneFileMore<S>(exec: Exec<S>, start: S, files: seq<File>, i: nat)
    requires i < |files|
    ensures Straight(exec, start, files[..i + 1]) == Migrate(exec, Straight(exec, start, files[..i]), files[i])
  {
    assert files[..i + 1][..i] == files[..i];
  }

  lemma {:induction false} RunsAhead<S>(exec: Exec<S>, start: S, files: seq<File>, n: nat, i: nat,
                                        refused: set<string>)
    requires DistinctVersions(files) && n <= i <= |files|
    ensures var m := Reach(files, i, refused);
            RunFrom(exec, Straight(exec, start, files[..i]), AppliedSet(Straight(exec, start, files[..n]).applied),
                    files[i..], refused)
            == (Straight(exec, start, files[..m]), m == |files|)
    decreases |files| - i
  {
    if i < |files| {
      assert files[i..][0] == files[i] && files[i..][1..] == files[i + 1..];
      NotYetApplied(exec, start, files, n, i);
      NotYetApplied(exec, start, files, i, i);
      OneFileMore(exec, start, files, i);
      RunsAhead(exec, start, files, n, i + 1, refused);
    }
  }

  lemma {:induction false} SkipsApplied<S>(exec: Exec<S>, start: S, files: seq<File>, n: nat, i: nat,
                                           refused: set<string>)
    requires DistinctVersions(files) && i <= n <= |files|
    ensures var db := Straight(exec, start, files[..n]);
            RunFrom(exec, db, AppliedSet(db.applied), files[i..], refused)
            == RunFrom(exec, db, AppliedSet(db.applied), files[n..], refused)
    decreases n - i
  {
    if i < n {
      var db := Straight(exec, start, files[..n]);
      assert files[i..][0] == files[i] && files[i..][1..] == files[i + 1..];
      assert db.applied[i] == ExtractVersion(files[i].path);
      SkipsApplied(exec, start, files, n, i + 1, refused);
    }
  }

  /** A run that finds the first `n` files applied continues with the next ones, up to the first
      file that is refused, and succeeds exactly when none is. */
  lemma RunResumes<S>(exec: Exec<S>, start: S, files: seq<File>, n: nat, refused: set<string>)
    requires DistinctVersions(files) && n <= |files|
    ensures var m := Reach(files, n, refused);
            Run(exec, Straight(exec, start, files[..n]), files, refused)
                == (Straight(exec, start, files[..m]), m == |files|)
  {
    assert files[0..] == files;
    SkipsApplied(exec, start, files, n, 0, refused);
    RunsAhead(exec, start, files, n, n, refused);
  }

  /** Any number of runs, each with its own refusals. */
  function Runs<S>(exec: Exec<S>, start: S, files: seq<File>, refusals: seq<set<string>>): Db<S> {
    if refusals == [] then Db([], start)
    else var n := |refusals| - 1; Run(exec, Runs(exec, start, files, refusals[..n]), files, refusals[n]).0
  }

  lemma {:induction false} RunsReachStraight<S>(exec: Exec<S>, start: S, files: seq<File>, refusals: seq<set<string>>)
    returns (n: nat)
    requires DistinctVersions(files)
    ensures n <= |files| && Runs(exec, start, files, refusals) == Straight(exec, start, files[..n])
  {
    n := 0;
    if refusals != [] {
      var k := |refusals| - 1;
      var before := RunsReachStraight(exec, start, files, refusals[..k]);
      RunResumes(exec, start, files, before, refusals[k]);
      n := Reach(files, before, refusals[k]);
    }
  }

  /** The schema after these texts have been executed one after the other. */
  function Executed<S>(exec: Exec<S>, start: S, texts: seq<string>): S {
    if texts == [] then start else var n := |texts| - 1; exec(Executed(exec, start, texts[..n]), texts[n])
  }

  function Texts(files: seq<File>): seq<string> {
    seq(|files|, k requires 0 <= k < |files| => SqlRewriter.FixSql(files[k].data))
  }

  function Versions(files: seq<File>): seq<string> {
    seq(|files|, k requires 0 <= k < |files| => ExtractVersion(files[k].path))
  }

  /** The tables hold what executing and recording exactly these files leaves. */
  ghost predicate Reflects<S>(exec: Exec<S>, start: S, db: Db<S>, files: seq<File>) {
    db.applied == Versions(files) && db.schema == Executed(exec, start, Texts(files))
  }

  lemma TextsOfOneMore(files: seq<File>)
    requires files != []
    ensures var n := |files| - 1;
            Texts(files)[..n] == Texts(files[..n]) && Texts(files)[n] == SqlRewriter.FixSql(files[n].data)
  {
  }

  lemma VersionsOfOneMore(files: seq<File>)
    requires files != []
    ensures var n := |files| - 1; Versions(files) == Versions(files[..n]) + [ExtractVersion(files[n].path)]
  {
  }

  lemma {:induction false} StraightReflects<S>(exec: Exec<S>, start: S, files: seq<File>)
    ensures Reflects(exec, start, Straight(exec, start, files), files)
  {
    if files != [] {
      var n := |files| - 1;
      StraightReflects(exec, start, files[..n]);
      TextsOfOneMore(files);
      VersionsOfOneMore(files);
    }
  }

  /** A run over tables that reflect the first `n` files executes the rewritten text of each further
      file once and in order, up to the first refused one, and records exactly those. */
  lemma RunExecutes<S>(exec: Exec<S>, start: S, db: Db<S>, files: seq<File>, n: nat, refused: set<string>)
    requires DistinctVersions(files) && n <= |files| && Reflects(exec, start, db, files[..n])
    ensures var (db', ok) := Run(exec, db, files, refused);
            && Reflects(exec, start, db', files[..Reach(files, n, refused)])
            && (ok <==> forall j :: n <= j < |files| ==> files[j].path !in refused)
  {
    StraightReflects(exec, start, files[..n]);
    RunResumes(exec, start, files, n, refused);
    StraightReflects(exec, start, files[..Reach(files, n, refused)]);
  }

  /** Whatever was interrupted how often, the applied versions are those of a prefix of the files,
      and the schema is what executing the rewritten texts of exactly that prefix builds. */
  lemma AlwaysAPrefix<S>(exec: Exec<S>, start: S, files: seq<File>, refusals: seq<set<string>>) returns (n: nat)
    requires DistinctVersions(files)
    ensures n <= |files| && Reflects(exec, start, Runs(exec, start, files, refusals), files[..n])
  {
    n := RunsReachStraight(exec, start, files, refusals);
    StraightReflects(exec, start, files[..n]);
  }

  /** A clean run after any history has executed and recorded all files, like one uninterrupted run,
      and from there every further run succeeds and changes nothing, even if the database refuses
      everything. */
  lemma CleanRunCompletes<S>(exec: Exec<S>, start: S, files: seq<File>, refusals: seq<set<string>>,
                             later: set<string>)
    requires DistinctVersions(files)
    ensures var done := Runs(exec, start, files, refusals + [{}]);
            && done == Run(exec, Db([], start), files, {}).0 && Reflects(exec, start, done, files)
            && Run(exec, done, files, later) == (done, true)
  {
    var n := RunsReachStraight(exec, start, files, refusals);
    assert (refusals + [{}])[..|refusals|] == refusals;
    assert files[..|files|] == files && files[..0] == [];
    RunResumes(exec, start, files, n, {});
    RunResumes(exec, start, files, 0, {});
    RunResumes(exec, start, files, |files|, later);
    StraightReflects(exec, start, files);
  }
}
