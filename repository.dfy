/**
 * The repository aggregate (`Repository` in src/filesystem/repository.rs) and
 * the one operation that builds it, `Repository::create`.
 *
 * The file system and the SQLite library are a `Host` object: it answers the
 * two I/O requests `create` makes (opening the database file, writing the
 * identity marker) from fixed sets of paths that fail, and records every
 * step taken in a trace.
 */
module Repositories {
  import opened Wrappers
  import opened Text
  import opened Errors
  import opened Identity
  import opened Catalog

  /** Name of the identity marker file inside the repository directory. */
  const SignFileName: string := ".afilia_repo"

  /** Name of the catalog database file inside the repository directory. */
  const DbFileName: string := "afilia_repo.db"

  /**
   * `PathBuf::from(dir).join(file)` on Unix: an absolute `file` replaces the
   * directory; otherwise a `/` is put between the two unless `dir` is empty
   * or already ends with one.
   */
  function Join(dir: string, file: string): (r: string)
    ensures |file| <= |r| <= |dir| + 1 + |file|
  {
    if file != [] && file[0] == '/' then file
    else if dir == [] || dir[|dir| - 1] == '/' then dir + file
    else dir + "/" + file
  }

  /** A joined path ends with the file name and, for a relative name, starts with the directory. */
  lemma JoinShape(dir: string, file: string)
    ensures var r := Join(dir, file);
      |r| >= |file| && r[|r| - |file|..] == file &&
      (file != [] && file[0] != '/' ==> |r| >= |dir| && r[..|dir|] == dir)
  {
  }

  /** The marker and the database are two different files of the same directory. */
  lemma MarkerAndDatabaseDiffer(dir: string)
    ensures Join(dir, SignFileName) != Join(dir, DbFileName)
  {
    JoinShape(dir, SignFileName);
    JoinShape(dir, DbFileName);
  }

  /** A step `Repository::create` takes, in the order taken. */
  datatype Step =
    | GenerateUuid(uuid: Uuid)
    | OpenDatabase(path: string)
    | WriteMarker(path: string)
    | ProvisionSchema

  /** The environment: which paths fail, which tables are already on disk, and what has happened. */
  class Host {
    var trace: seq<Step>
    var markers: map<string, RepositoryID>
    const unwritable: set<string>
    const unopenable: set<string>
    const catalogs: map<string, set<string>>

    constructor (unwritable: set<string>, unopenable: set<string>, catalogs: map<string, set<string>>)
      ensures this.unwritable == unwritable && this.unopenable == unopenable && this.catalogs == catalogs
      ensures trace == [] && markers == map[]
    {
      this.unwritable := unwritable;
      this.unopenable := unopenable;
      this.catalogs := catalogs;
      trace := [];
      markers := map[];
    }

    /** The tables a database file holds before it is opened; a missing file holds none. */
    function ExistingTables(path: string): set<string> {
      if path in catalogs then catalogs[path] else {}
    }

    /** `Connection::open`: a fresh connection on the file's tables, or an error for an unopenable path. */
    method Open(path: string) returns (r: Result<Connection, DbError>)
      modifies this`trace
      ensures trace == old(trace) + [OpenDatabase(path)]
      ensures r.Ok? <==> path !in unopenable
      ensures r.Ok? ==> fresh(r.value) && r.value.tables == ExistingTables(path) && r.value.log == []
    {
      trace := trace + [OpenDatabase(path)];
      if path in unopenable {
        r := Err(DbError("unable to open database file"));
      } else {
        var c := new Connection(ExistingTables(path));
        r := Ok(c);
      }
    }

    /** Writing the marker file with `File::create`: any earlier marker is overwritten. */
    method Write(path: string, id: RepositoryID) returns (r: Result<(), IoError>)
      modifies this`trace, this`markers
      ensures trace == old(trace) + [WriteMarker(path)]
      ensures r.Ok? <==> path !in unwritable
      ensures markers == if r.Ok? then old(markers)[path := id] else old(markers)
    {
      trace := trace + [WriteMarker(path)];
      if path in unwritable {
        r := Err(IoError("permission denied"));
      } else {
        markers := markers[path := id];
        r := Ok(());
      }
    }
  }

  /** The aggregate: identity, database handle and root path. */
  datatype Repository = Repository(id: RepositoryID, database: RepositoryDB, path: string)

  /** The steps `Repository::create` takes, up to the marker write or through the schema script. */
  function CreationSteps(path: string, uuid: Uuid, markerWritten: bool): (steps: seq<Step>)
  {
    [GenerateUuid(uuid), OpenDatabase(Join(path, DbFileName)), WriteMarker(Join(path, SignFileName))]
      + (if markerWritten then [ProvisionSchema] else [])
  }

  /** How `Repository::create` ends: with the repository, or in a panic at the given step. */
  datatype Creation = Created(repo: Repository) | Panicked(at: Step)

  /**
   * `Repository::create`. The identity is built first, then the database is
   * opened, then the marker is written (`serialize` unwraps, so a write
   * failure panics), then the schema script runs (a missing connection panics
   * on the first statement). Otherwise the repository is returned whatever
   * the statements answered.
   */
  method CreateRepository(host: Host, path: string, name: string, payload: string,
                          uuid: Uuid, hash: seq<byte> -> Digest) returns (out: Creation)
    modifies host`trace, host`markers
    ensures Join(path, SignFileName) in host.unwritable ==>
      && out == Panicked(WriteMarker(Join(path, SignFileName)))
      && host.trace == old(host.trace) + CreationSteps(path, uuid, false)
      && host.markers == old(host.markers)
    ensures Join(path, SignFileName) !in host.unwritable ==>
      && host.trace == old(host.trace) + CreationSteps(path, uuid, true)
      && host.markers == old(host.markers)[Join(path, SignFileName) := NewRepositoryID(hash, uuid, name, payload)]
      && (Join(path, DbFileName) in host.unopenable ==> out == Panicked(ProvisionSchema))
      && (Join(path, DbFileName) !in host.unopenable ==> out.Created?)
    ensures out.Created? ==>
      && out.repo.id == NewRepositoryID(hash, uuid, name, payload)
      && out.repo.path == path
      && fresh(out.repo.database)
      && out.repo.database.conn.Some?
      && fresh(out.repo.database.conn.value)
      && out.repo.database.conn.value.log == Script()
      && out.repo.database.conn.value.tables == RunScript(host.ExistingTables(Join(path, DbFileName)), Script())
    ensures out.Created? && host.ExistingTables(Join(path, DbFileName)) == {} ==>
      out.repo.database.conn.Some? &&
      out.repo.database.conn.value.tables == {"storage_unit", "queue", "parameter"}
  {
    host.trace := host.trace + [GenerateUuid(uuid)];
    var id := NewRepositoryID(hash, uuid, name, payload);
    var dbPath := Join(path, DbFileName);
    var attempt := host.Open(dbPath);
    var database := new RepositoryDB(attempt);
    var markerPath := Join(path, SignFileName);
    var written := host.Write(markerPath, id);
    if written.Err? {
      return Panicked(WriteMarker(markerPath));
    }
    host.trace := host.trace + [ProvisionSchema];
    if database.conn.None? {
      return Panicked(ProvisionSchema);
    }
    var ignored := database.Create();
    ScriptOnEmptyDatabase();
    out := Created(Repository(id, database, path));
  }
}
