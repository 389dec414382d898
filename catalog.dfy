/**
 * The catalog store (`RepositoryDB` in src/filesystem/repository.rs): a
 * database connection, single-statement execution, and the schema script
 * that `create` runs.
 *
 * The database is reduced to its set of table names and each statement to
 * its effect on that set; a connection also keeps the log of the statements
 * submitted to it, in order.
 */
module Catalog {
  import opened Wrappers
  import opened Errors

  // ---------------------------------------------------------------------
  // Statements and their effect on the table catalog

  /** A schema statement: a `CREATE TABLE`, with or without `IF NOT EXISTS`, or text the SQL parser rejects. */
  datatype Statement = CreateTable(table: string, ifNotExists: bool) | Malformed

  /**
   * The script of `RepositoryDB::create`, statement by statement. The second
   * one would create `main_catalog`, but its `storage_path VARCHAR(` column is
   * never closed, so the parser rejects it. The third re-creates
   * `storage_unit` without an existence guard.
   */
  function Script(): (s: seq<Statement>)
    ensures |s| == 5
  {
    [ CreateTable("storage_unit", false),
      Malformed,
      CreateTable("storage_unit", false),
      CreateTable("queue", true),
      CreateTable("parameter", true) ]
  }

  /** The database's answer to a statement and the catalog afterwards. */
  datatype Outcome = Outcome(result: Result<nat, DbError>, tables: set<string>)

  /** Error texts standing for SQLite's messages; their exact wording is not modelled. */
  function TableExistsError(table: string): DbError {
    DbError("table " + table + " already exists")
  }

  const SyntaxError: DbError := DbError("syntax error")

  /**
   * Running one statement. A `CREATE TABLE` succeeds with 0 changed rows when
   * the table is new or the statement is guarded; an unguarded one on an
   * existing table fails; a malformed statement fails. Failures change nothing.
   */
  function Apply(tables: set<string>, s: Statement): (o: Outcome)
    ensures o.result.Ok? <==> s.CreateTable? && (s.table !in tables || s.ifNotExists)
    ensures o.result.Ok? ==> o.result.value == 0
    ensures o.result.Err? ==> o.tables == tables
    ensures s.CreateTable? ==> o.tables == tables + {s.table}
  {
    match s
    case Malformed => Outcome(Err(SyntaxError), tables)
    case CreateTable(t, guarded) =>
      if t !in tables then Outcome(Ok(0), tables + {t})
      else if guarded then Outcome(Ok(0), tables)
      else Outcome(Err(TableExistsError(t)), tables)
  }

  /** The catalog after running `stmts` in order, each whatever the previous ones answered. */
  function RunScript(tables: set<string>, stmts: seq<Statement>): set<string>
  {
    if stmts == [] then tables
    else Apply(RunScript(tables, stmts[..|stmts| - 1]), stmts[|stmts| - 1]).tables
  }

  /** The answers to `stmts`, in order. */
  function Results(tables: set<string>, stmts: seq<Statement>): (rs: seq<Result<nat, DbError>>)
    ensures |rs| == |stmts|
  {
    if stmts == [] then []
    else
      var k := |stmts| - 1;
      Results(tables, stmts[..k]) + [Apply(RunScript(tables, stmts[..k]), stmts[k]).result]
  }

  /** The tables a statement list names in its `CREATE TABLE`s. */
  function Named(stmts: seq<Statement>): set<string> {
    if stmts == [] then {}
    else
      var k := |stmts| - 1;
      Named(stmts[..k]) + (if stmts[k].CreateTable? then {stmts[k].table} else {})
  }

  /** A script leaves exactly the tables that were there plus those it names: none is dropped, malformed text adds nothing. */
  lemma {:induction false} RunScriptAddsNamed(tables: set<string>, stmts: seq<Statement>)
    ensures RunScript(tables, stmts) == tables + Named(stmts)
  {
    if stmts != [] {
      RunScriptAddsNamed(tables, stmts[..|stmts| - 1]);
    }
  }

  /** Running a script twice leaves the same catalog as running it once. */
  lemma RunScriptTwice(tables: set<string>, stmts: seq<Statement>)
    ensures RunScript(RunScript(tables, stmts), stmts) == RunScript(tables, stmts)
  {
    RunScriptAddsNamed(tables, stmts);
    RunScriptAddsNamed(RunScript(tables, stmts), stmts);
  }

  /** A guarded creation is idempotent: repeating it answers the same and changes nothing more. */
  lemma GuardedCreateIdempotent(tables: set<string>, t: string)
    ensures Apply(Apply(tables, CreateTable(t, true)).tables, CreateTable(t, true))
         == Outcome(Ok(0), tables + {t})
  {
  }

  /** An unguarded creation is not: its repetition fails. */
  lemma UnguardedCreateFailsOnRepeat(tables: set<string>, t: string)
    ensures Apply(Apply(tables, CreateTable(t, false)).tables, CreateTable(t, false)).result
         == Err(TableExistsError(t))
  {
  }

  /**
   * On an empty database the script creates `storage_unit`, `queue` and
   * `parameter`; `main_catalog` is never created; the second and third
   * statements fail.
   */
  lemma ScriptOnEmptyDatabase()
    ensures RunScript({}, Script()) == {"storage_unit", "queue", "parameter"}
    ensures "main_catalog" !in RunScript({}, Script())
    ensures Results({}, Script())
         == [Ok(0), Err(SyntaxError), Err(TableExistsError("storage_unit")), Ok(0), Ok(0)]
  {
    var s := Script();
    assert s[..4][..3] == s[..3];
    assert s[..3][..2] == s[..2];
    assert s[..2][..1] == s[..1];
    assert s[..1][..0] == [];
    assert RunScript({}, s[..1]) == {"storage_unit"};
    assert RunScript({}, s[..2]) == {"storage_unit"};
    assert RunScript({}, s[..3]) == {"storage_unit"};
    assert RunScript({}, s[..4]) == {"storage_unit", "queue"};
    assert Results({}, s[..1]) == [Ok(0)];
    assert Results({}, s[..2]) == [Ok(0), Err(SyntaxError)];
    assert Results({}, s[..3]) == [Ok(0), Err(SyntaxError), Err(TableExistsError("storage_unit"))];
    assert Results({}, s[..4]) == [Ok(0), Err(SyntaxError), Err(TableExistsError("storage_unit")), Ok(0)];
    assert s[..5] == s;
  }

  /** Provisioning is not idempotent: on a database the script already ran on, its first statement fails. */
  lemma ScriptRerunFails(tables: set<string>)
    ensures Results(RunScript(tables, Script()), Script())[0] == Err(TableExistsError("storage_unit"))
  {
    var s := Script();
    RunScriptAddsNamed(tables, s);
    assert "storage_unit" in Named(s) by {
      assert s[..4][..3] == s[..3];
      assert s[..3][..2] == s[..2];
      assert s[..2][..1] == s[..1];
      assert "storage_unit" in Named(s[..1]);
    }
    assert s[..1] == [s[0]];
    assert Results(RunScript(tables, s), s[..1])[0] == Results(RunScript(tables, s), s)[0] by {
      ResultsPrefix(RunScript(tables, s), s, 1);
    }
  }

  /** The answers to a prefix are a prefix of the answers. */
  lemma {:induction false} ResultsPrefix(tables: set<string>, stmts: seq<Statement>, n: nat)
    requires n <= |stmts|
    ensures Results(tables, stmts[..n]) == Results(tables, stmts)[..n]
  {
    if n < |stmts| {
      var k := |stmts| - 1;
      assert stmts[..k][..n] == stmts[..n];
      ResultsPrefix(tables, stmts[..k], n);
    } else {
      assert stmts[..n] == stmts;
    }
  }

  // ---------------------------------------------------------------------
  // Connections

  /** An open database connection: the catalog it holds and the statements submitted to it. */
  class Connection {
    var tables: set<string>
    var log: seq<Statement>

    constructor (existing: set<string>)
      ensures tables == existing && log == []
    {
      tables := existing;
      log := [];
    }

    /** `Connection::execute`: the answer and the new catalog are those of `Apply`. */
    method Execute(s: Statement) returns (r: Result<nat, DbError>)
      modifies this
      ensures r == Apply(old(tables), s).result
      ensures tables == Apply(old(tables), s).tables
      ensures log == old(log) + [s]
    {
      var o := Apply(tables, s);
      r := o.result;
      tables := o.tables;
      log := log + [s];
    }
  }

  /** `RepositoryDB::connect` (and the `.ok()` of `RepositoryDB::new`): a successful open is kept, a failed one becomes `None`. */
  function Connect(attempt: Result<Connection, DbError>): (r: Option<Connection>)
    ensures r.Some? <==> attempt.Ok?
    ensures r.Some? ==> r.value == attempt.value
  {
    match attempt
    case Ok(c) => Some(c)
    case Err(_) => None
  }

  /** The mapping `RepositoryDB::execute` applies to a connection's answer. */
  function LiftDbResult(r: Result<nat, DbError>): (a: AppResult<nat>)
    ensures a.Ok? <==> r.Ok?
    ensures a.Ok? ==> a.value == r.value
    ensures a.Err? ==> VariantOf(a.error.errorKind) == DbVariant && a.error.msg == ""
    ensures a.Err? ==> CauseText(a.error.errorKind) == r.error.ToString()
  {
    match r
    case Ok(n) => Ok(n)
    case Err(e) => Err(FromError(FromDb(e), ""))
  }

  /** A failed statement renders as a database error with an empty message. */
  lemma ExecuteErrorDisplay(e: DbError)
    ensures Display(LiftDbResult(Err(e)).error) == "database error:  (" + e.ToString() + ")"
  {
  }

  /** A database handle: the connection, or `None` when opening failed. */
  class RepositoryDB {
    const conn: Option<Connection>

    /** `RepositoryDB::new`, given the result of opening the database file. */
    constructor (attempt: Result<Connection, DbError>)
      ensures conn == Connect(attempt)
    {
      conn := Connect(attempt);
    }

    /** `RepositoryDB::execute`. Without a connection the source panics, hence the precondition. */
    method Execute(s: Statement) returns (r: AppResult<nat>)
      requires conn.Some?
      modifies conn.value
      ensures r == LiftDbResult(Apply(old(conn.value.tables), s).result)
      ensures conn.value.tables == Apply(old(conn.value.tables), s).tables
      ensures conn.value.log == old(conn.value.log) + [s]
    {
      var answer := conn.value.Execute(s);
      r := LiftDbResult(answer);
    }

    /**
     * `RepositoryDB::create`: submits every script statement once, in order,
     * ignores each answer, and reports success.
     */
    method Create() returns (r: AppResult<()>)
      requires conn.Some?
      modifies conn.value
      ensures r == Ok(())
      ensures conn.value.log == old(conn.value.log) + Script()
      ensures conn.value.tables == RunScript(old(conn.value.tables), Script())
    {
      var script := Script();
      var c := conn.value;
      for i := 0 to |script|
        invariant c.log == old(c.log) + script[..i]
        invariant c.tables == RunScript(old(c.tables), script[..i])
      {
        assert script[..i + 1][..i] == script[..i];
        var ignored := Execute(script[i]);
      }
      assert script[..|script|] == script;
      r := Ok(());
    }
  }
}
