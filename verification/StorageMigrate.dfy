/**
 `Store.init` and `Store.migrate`: revisions, table shapes, and what upgrading in place reaches.
 */
module StorageMigrate {
  import opened Wrappers

  type Name = string

  // ----- Shapes and files -----

  /** An index as its table's file declares it. */
  datatype NewIndex = NewIndex(name: Name, columns: set<Name>, definition: Name)

  datatype Index = Index(table: Name, columns: set<Name>, definition: Name)

  /** A view, the relations it names, and the columns of tables it needs, itself or through other views. */
  datatype View = View(definition: Name, sources: set<Name>, columns: set<(Name, Name)>)

  datatype Shape = Shape(tables: map<Name, set<Name>>, indexes: map<Name, Index>, views: map<Name, View>)

  const NO_SHAPE := Shape(map[], map[], map[])

  datatype Meta = Meta(version: Name, revision: int)

  datatype Database = Database(shape: Shape, meta: Option<Meta>)

  datatype File =
    | Namespace
    | SchemaFile(table: Name, columns: set<Name>, indexes: seq<NewIndex>)
    | ViewFile(view: Name, body: View)

  /** A delta file holds only these (storage/v1/README.md, Migrations); `guarded` is `IF EXISTS` or `IF NOT EXISTS`. */
  datatype Statement =
    | AddColumn(table: Name, column: Name, guarded: bool)
    | DropColumn(table: Name, column: Name, guarded: bool)
    | DropIndex(index: Name, guarded: bool)
    | UpdateRows(uses: set<(Name, Name)>)

  datatype Dialect = Sqlite | Postgres

  /** What the package ships; `deltas[k]` takes revision `k` to `k + 1`. */
  datatype Package = Package(
    version: Name,
    revision: nat,
    dialect: Dialect,
    files: seq<File>,
    deltas: map<nat, seq<Statement>>)

  datatype Error =
    | NotIdle
    | ExplicitMigrationRequired
    | OtherVersion
    | NewerRevision
    | MissingMigration
    | SqlError
    | DriverFault

  // ----- Statements -----

  /** `CREATE INDEX IF NOT EXISTS` on one table: a new index needs its columns there. */
  function CreateIndexes(s: Shape, table: Name, indexes: seq<NewIndex>): Result<Shape, Error>
    requires table in s.tables
    decreases |indexes|
  {
    if indexes == [] then Ok(s)
    else
      var index := indexes[0];
      if index.name in s.indexes then CreateIndexes(s, table, indexes[1..])
      else if !(index.columns <= s.tables[table]) then Err(SqlError)
      else
        CreateIndexes(
          s.(indexes := s.indexes[index.name := Index(table, index.columns, index.definition)]),
          table, indexes[1..])
  }

  /** Every file is written to run again. */
  function RunFile(pkg: Package, s: Shape, f: File): Result<Shape, Error> {
    match f
    case Namespace => Ok(s)
    case SchemaFile(table, columns, indexes) =>
      CreateIndexes(if table in s.tables then s else s.(tables := s.tables[table := columns]), table, indexes)
    case ViewFile(view, body) =>
      if view in s.views && pkg.dialect.Sqlite? then Ok(s)
      else if pkg.dialect.Postgres? && !Resolves(s, body) then Err(SqlError)
      else Ok(s.(views := s.views[view := body]))
  }

  /** All that the view names is there. */
  predicate Resolves(s: Shape, view: View) {
    && view.sources <= s.tables.Keys + s.views.Keys
    && forall p | p in view.columns :: p.0 in s.tables && p.1 in s.tables[p.0]
  }

  function RunFiles(pkg: Package, s: Shape, files: seq<File>): Result<Shape, Error> {
    if files == [] then Ok(s)
    else
      var before :- RunFiles(pkg, s, files[..|files| - 1]);
      RunFile(pkg, before, files[|files| - 1])
  }

  /** Schema files of tables that do not exist yet. */
  function CreateMissing(pkg: Package, s: Shape, files: seq<File>): Result<Shape, Error> {
    if files == [] then Ok(s)
    else
      var before :- CreateMissing(pkg, s, files[..|files| - 1]);
      CreateOne(pkg, before, files[|files| - 1])
  }

  function CreateOne(pkg: Package, s: Shape, f: File): Result<Shape, Error> {
    if f.SchemaFile? && f.table !in s.tables then RunFile(pkg, s, f) else Ok(s)
  }

  predicate Uses(index: Index, table: Name, column: Name) {
    index.table == table && column in index.columns
  }

  predicate ColumnRead(views: map<Name, View>, table: Name, column: Name) {
    exists v | v in views :: (table, column) in views[v].columns
  }

  /** SQLite drops no column of an index, no last column, and none while a view names what is not there. */
  predicate SqliteKeeps(s: Shape, table: Name, column: Name) {
    || (table in s.tables && s.tables[table] == {column})
    || (exists n | n in s.indexes :: Uses(s.indexes[n], table, column))
    || (exists v | v in s.views :: !Resolves(s, s.views[v]))
  }

  /** What makes a statement on a column raise, apart from that column. SQLite has no guarded form. */
  predicate InTheWay(dialect: Dialect, s: Shape, d: Statement) {
    match d
    case AddColumn(_, _, guarded) => guarded && dialect.Sqlite?
    case DropColumn(table, column, guarded) =>
      || ColumnRead(s.views, table, column)
      || (dialect.Sqlite? && (guarded || SqliteKeeps(s, table, column)))
    case _ => false
  }

  /** Whether the statement takes this index away: PostgreSQL drops the indexes of a column with it. */
  predicate Takes(dialect: Dialect, d: Statement, n: Name, index: Index) {
    match d
    case DropIndex(name, _) => name == n
    case DropColumn(table, column, _) => dialect.Postgres? && Uses(index, table, column)
    case _ => false
  }

  function Without(dialect: Dialect, indexes: map<Name, Index>, d: Statement): map<Name, Index> {
    map n | n in indexes && !Takes(dialect, d, n, indexes[n]) :: indexes[n]
  }

  /** An index or view has its columns, so dropping a column that is not there changes nothing. */
  function RunStatement(dialect: Dialect, s: Shape, d: Statement): Result<Shape, Error> {
    if InTheWay(dialect, s, d) then Err(SqlError)
    else
      match d
      case AddColumn(table, column, guarded) =>
        if table !in s.tables || (column in s.tables[table] && !guarded) then Err(SqlError)
        else Ok(s.(tables := s.tables[table := s.tables[table] + {column}]))
      case DropColumn(table, column, guarded) =>
        if table !in s.tables || (column !in s.tables[table] && !guarded) then Err(SqlError)
        else
          Ok(s.(tables := s.tables[table := s.tables[table] - {column}], indexes := Without(dialect, s.indexes, d)))
      case DropIndex(index, guarded) =>
        if index !in s.indexes && !guarded then Err(SqlError)
        else Ok(s.(indexes := Without(dialect, s.indexes, d)))
      case UpdateRows(uses) =>
        if exists p | p in uses :: p.0 !in s.tables || p.1 !in s.tables[p.0] then Err(SqlError) else Ok(s)
  }

  function RunDelta(dialect: Dialect, s: Shape, ds: seq<Statement>): Result<Shape, Error> {
    if ds == [] then Ok(s)
    else
      var before :- RunDelta(dialect, s, ds[..|ds| - 1]);
      RunStatement(dialect, before, ds[|ds| - 1])
  }

  // ----- Dropping views -----

  /** These, and in turn every view that reads one of them. */
  function Cascade(views: map<Name, View>, gone: set<Name>): set<Name>
    decreases views.Keys - gone
  {
    var next := set v | v in views && v !in gone && views[v].sources * gone != {};
    if next == {} then gone
    else
      assert views.Keys - (gone + next) < views.Keys - gone by {
        var v :| v in next;
        assert v in views.Keys - gone;
      }
      Cascade(views, gone + next)
  }

  /** `_drop_view_sql`: `DROP VIEW IF EXISTS`, with `CASCADE` on PostgreSQL. */
  function DropView(dialect: Dialect, views: map<Name, View>, name: Name): map<Name, View> {
    if name !in views then views
    else views - (if dialect.Postgres? then Cascade(views, {name}) else {name})
  }

  /** One after another, the last name first. */
  function DropEach(dialect: Dialect, views: map<Name, View>, names: seq<Name>): map<Name, View> {
    if names == [] then views
    else DropEach(dialect, DropView(dialect, views, names[|names| - 1]), names[..|names| - 1])
  }

  /** `view_names`. */
  function ViewNames(files: seq<File>): seq<Name> {
    if files == [] then []
    else
      var f := files[|files| - 1];
      ViewNames(files[..|files| - 1]) + (if f.ViewFile? then [f.view] else [])
  }

  /** The views that step 1 leaves. */
  function Survivors(pkg: Package, views: map<Name, View>): map<Name, View> {
    DropEach(pkg.dialect, views, ViewNames(pkg.files))
  }

  /** `migration_files` and their statements, in order. */
  function DeltasBetween(pkg: Package, from: nat, to: nat): seq<Statement>
    decreases to
  {
    if to <= from then [] else DeltasBetween(pkg, from, to - 1) + DeltaAt(pkg, to - 1)
  }

  function DeltaAt(pkg: Package, k: nat): seq<Statement> {
    if k in pkg.deltas then pkg.deltas[k] else []
  }

  predicate HasMigrations(pkg: Package, from: int) {
    0 <= from && forall k: nat | from <= k < pkg.revision :: k in pkg.deltas
  }

  function TablesIn(files: seq<File>): set<Name> {
    if files == [] then {}
    else
      var f := files[|files| - 1];
      TablesIn(files[..|files| - 1]) + (if f.SchemaFile? then {f.table} else {})
  }

  function IndexNames(indexes: seq<NewIndex>): set<Name> {
    if indexes == [] then {} else {indexes[0].name} + IndexNames(indexes[1..])
  }

  function IndexesIn(files: seq<File>): set<Name> {
    if files == [] then {}
    else
      var f := files[|files| - 1];
      IndexesIn(files[..|files| - 1]) + (if f.SchemaFile? then IndexNames(f.indexes) else {})
  }

  function ViewsIn(files: seq<File>): set<Name> {
    if files == [] then {}
    else
      var f := files[|files| - 1];
      ViewsIn(files[..|files| - 1]) + (if f.ViewFile? then {f.view} else {})
  }

  // ----- The two entry points, fault-free -----

  function Stamp(pkg: Package, s: Shape): Database {
    Database(s, Some(Meta(pkg.version, pkg.revision)))
  }

  function Initialized(pkg: Package, db: Database): Result<Database, Error> {
    match db.meta
    case Some(meta) =>
      if meta.version != pkg.version || meta.revision != pkg.revision then Err(ExplicitMigrationRequired)
      else Ok(db)
    case None =>
      var s :- RunFiles(pkg, db.shape, pkg.files);
      Ok(Stamp(pkg, s))
  }

  /** Steps 1 to 4 of an upgrade. */
  function Upgrade(pkg: Package, s: Shape, from: nat): Result<Shape, Error> {
    var bare := s.(views := Survivors(pkg, s.views));
    var full :- CreateMissing(pkg, bare, pkg.files);
    var altered :- RunDelta(pkg.dialect, full, DeltasBetween(pkg, from, pkg.revision));
    RunFiles(pkg, altered, pkg.files)
  }

  function Migrated(pkg: Package, db: Database): Result<(int, Database), Error> {
    match db.meta
    case None =>
      var s :- RunFiles(pkg, db.shape, pkg.files);
      Ok((0, Stamp(pkg, s)))
    case Some(meta) =>
      if meta.version != pkg.version then Err(OtherVersion)
      else if meta.revision > pkg.revision then Err(NewerRevision)
      else if meta.revision == pkg.revision then Ok((meta.revision, db))
      else if !HasMigrations(pkg, meta.revision) then Err(MissingMigration)
      else
        var s :- Upgrade(pkg, db.shape, meta.revision);
        Ok((meta.revision, Stamp(pkg, s)))
  }

  // ----- As it runs: one transaction, any statement may raise -----

  class Connection {
    const pkg: Package
    var committed: Database
    var working: Database
    var active: bool
    /** How many statements have raised by themselves. */
    ghost var faults: nat

    constructor (pkg: Package, db: Database)
      ensures this.pkg == pkg && committed == db && !active && faults == 0
    {
      this.pkg := pkg;
      committed := db;
      working := db;
      active := false;
      faults := 0;
    }

    /** One more fault, or none. */
    twostate predicate Raised(fault: bool)
      reads this
    {
      faults == old(faults) + (if fault then 1 else 0)
    }

    method Execute() returns (r: Result<(), Error>)
      modifies `faults
      ensures (r.Err? ==> r.error == DriverFault) && Raised(r.Err?)
    {
      var fault: bool := *;
      r := Ok(());
      if fault {
        faults := faults + 1;
        r := Err(DriverFault);
      }
    }

    /** One file or statement that may raise by itself or through its own SQL. */
    method Become(next: Result<Shape, Error>) returns (r: Result<(), Error>)
      requires next.Err? ==> next.error == SqlError
      modifies `working, `faults
      ensures Raised(r == Err(DriverFault))
      ensures r.Ok? ==> next.Ok? && working == old(working).(shape := next.value)
      ensures r.Err? ==> r.error == DriverFault || (next.Err? && r.error == next.error)
    {
      r := Execute();
      if r.Ok? {
        match next
        case Ok(shape) => working := working.(shape := shape);
        case Err(e) => r := Err(e);
      }
    }

    method RunAll() returns (r: Result<(), Error>)
      modifies `working, `faults
      ensures Raised(r == Err(DriverFault))
      ensures r.Ok? ==> RunFiles(pkg, old(working.shape), pkg.files) == Ok(working.shape)
                        && working.meta == old(working.meta)
      ensures r.Err? ==> r.error == DriverFault || RunFiles(pkg, old(working.shape), pkg.files) == Err(r.error)
    {
      for i := 0 to |pkg.files|
        invariant RunFiles(pkg, old(working.shape), pkg.files[..i]) == Ok(working.shape)
        invariant working.meta == old(working.meta) && Raised(false)
      {
        assert pkg.files[..i + 1][..i] == pkg.files[..i];
        var next := RunFile(pkg, working.shape, pkg.files[i]);
        if next.Err? {
          FileErrors(pkg, working.shape, pkg.files[i]);
        }
        r := Become(next);
        if r.Err? {
          if r.error != DriverFault {
            RunFilesStopsEarly(pkg, old(working.shape), pkg.files, i + 1);
          }
          return;
        }
      }
      assert pkg.files[..|pkg.files|] == pkg.files;
      return Ok(());
    }

    method DropOwnedViews() returns (r: Result<(), Error>)
      modifies `working, `faults
      ensures Raised(r == Err(DriverFault))
      ensures r.Ok? ==> working == old(working).(
                shape := old(working.shape).(views := Survivors(pkg, old(working.shape.views))))
      ensures r.Err? ==> r.error == DriverFault
    {
      var names := ViewNames(pkg.files);
      assert names[..|names|] == names;
      for i := |names| downto 0
        invariant working == old(working).(shape := old(working.shape).(views := working.shape.views)) && Raised(false)
        invariant Survivors(pkg, old(working.shape.views)) == DropEach(pkg.dialect, working.shape.views, names[..i])
      {
        assert names[..i + 1][..i] == names[..i];
        r := Become(Ok(working.shape.(views := DropView(pkg.dialect, working.shape.views, names[i]))));
        if r.Err? {
          return;
        }
      }
      return Ok(());
    }

    method CreateIfMissing(file: File) returns (r: Result<(), Error>)
      modifies `working, `faults
      ensures Raised(r == Err(DriverFault))
      ensures r.Ok? ==> CreateOne(pkg, old(working.shape), file) == Ok(working.shape)
                        && working.meta == old(working.meta)
      ensures r.Err? ==> r.error == DriverFault || CreateOne(pkg, old(working.shape), file) == Err(r.error)
    {
      if file.SchemaFile? && file.table !in working.shape.tables {
        if RunFile(pkg, working.shape, file).Err? {
          FileErrors(pkg, working.shape, file);
        }
        r := Become(RunFile(pkg, working.shape, file));
      } else {
        r := Ok(());
      }
    }

    method CreateMissingTables() returns (r: Result<(), Error>)
      modifies `working, `faults
      ensures Raised(r == Err(DriverFault))
      ensures r.Ok? ==> CreateMissing(pkg, old(working.shape), pkg.files) == Ok(working.shape)
                        && working.meta == old(working.meta)
      ensures r.Err? ==> r.error == DriverFault || CreateMissing(pkg, old(working.shape), pkg.files) == Err(r.error)
    {
      for i := 0 to |pkg.files|
        invariant CreateMissing(pkg, old(working.shape), pkg.files[..i]) == Ok(working.shape)
        invariant working.meta == old(working.meta) && Raised(false)
      {
        assert pkg.files[..i + 1][..i] == pkg.files[..i];
        r := CreateIfMissing(pkg.files[i]);
        if r.Err? {
          if r.error != DriverFault {
            CreateMissingStopsEarly(pkg, old(working.shape), pkg.files, i + 1);
          }
          return;
        }
      }
      assert pkg.files[..|pkg.files|] == pkg.files;
      return Ok(());
    }

    method RunDeltas(ds: seq<Statement>) returns (r: Result<(), Error>)
      modifies `working, `faults
      ensures Raised(r == Err(DriverFault))
      ensures r.Ok? ==> RunDelta(pkg.dialect, old(working.shape), ds) == Ok(working.shape)
                        && working.meta == old(working.meta)
      ensures r.Err? ==> r.error == DriverFault || RunDelta(pkg.dialect, old(working.shape), ds) == Err(r.error)
    {
      for i := 0 to |ds|
        invariant RunDelta(pkg.dialect, old(working.shape), ds[..i]) == Ok(working.shape)
        invariant working.meta == old(working.meta) && Raised(false)
      {
        assert ds[..i + 1][..i] == ds[..i];
        r := Become(RunStatement(pkg.dialect, working.shape, ds[i]));
        if r.Err? {
          if r.error != DriverFault {
            RunDeltaStopsEarly(pkg.dialect, old(working.shape), ds, i + 1);
          }
          return;
        }
      }
      assert ds[..|ds|] == ds;
      return Ok(());
    }

    /** The body of the `try` in `migrate`, up to COMMIT. */
    method AttemptMigrate() returns (r: Result<int, Error>)
      requires active && working == committed
      modifies `working, `faults
      ensures Raised(r == Err(DriverFault))
      ensures r.Ok? ==> Migrated(pkg, committed) == Ok((r.value, working))
      ensures r.Err? ==> r.error == DriverFault || Migrated(pkg, committed) == Err(r.error)
    {
      var e := Execute();
      if e.Err? {
        return Err(e.error);
      }
      if working.meta.None? {
        e := RunAll();
        if e.Err? {
          return Err(e.error);
        }
        working := Stamp(pkg, working.shape);
        return Ok(0);
      }
      var meta := working.meta.value;
      if meta.version != pkg.version {
        return Err(OtherVersion);
      }
      if meta.revision > pkg.revision {
        return Err(NewerRevision);
      }
      if meta.revision < pkg.revision {
        if !HasMigrations(pkg, meta.revision) {
          return Err(MissingMigration);
        }
        e := DropOwnedViews();
        if e.Ok? {
          e := CreateMissingTables();
        }
        if e.Ok? {
          e := RunDeltas(DeltasBetween(pkg, meta.revision, pkg.revision));
        }
        if e.Ok? {
          e := RunAll();
        }
        if e.Err? {
          return Err(e.error);
        }
        working := Stamp(pkg, working.shape);
      }
      return Ok(meta.revision);
    }

    /**
     `Store.migrate`: the whole upgrade is committed, or revision and shape are untouched.
     Unless a statement raises, it answers as the pure upgrade does.
     */
    method Migrate() returns (r: Result<int, Error>)
      modifies this
      ensures old(active) ==> r == Err(NotIdle) && active && working == old(working)
      ensures r.Ok? ==> Migrated(pkg, old(committed)) == Ok((r.value, committed)) && !active
      ensures r.Err? ==> committed == old(committed)
      ensures faults == old(faults) + (if r == Err(DriverFault) then 1 else 0)
                                    + (if active && !old(active) then 1 else 0)
      ensures r.Err? && !old(active) ==>
                r.error == DriverFault || Migrated(pkg, old(committed)) == Err(r.error)
      ensures r.Ok? ==> committed.meta == Some(Meta(pkg.version, pkg.revision))
                        && r.value == (if old(committed).meta.Some? then old(committed).meta.value.revision else 0)
      ensures old(committed).meta == Some(Meta(pkg.version, pkg.revision)) && r.Ok? ==> committed == old(committed)
      ensures old(committed).meta.Some? && old(committed).meta.value.version != pkg.version ==> r.Err?
      ensures old(committed).meta.Some? && old(committed).meta.value.revision > pkg.revision ==> r.Err?
    {
      if active {
        return Err(NotIdle);
      }
      var e := Execute();
      if e.Err? {
        return Err(e.error);
      }
      active, working := true, committed;
      r := AttemptMigrate();
      if r.Ok? {
        e := Execute();
        if e.Ok? {
          committed, active := working, false;
          return;
        }
        r := Err(e.error);
      }
      var rollback := Execute();
      active := rollback.Err?;
    }

    /** `Store.init`: bootstraps an empty database or checks the stamp; it never upgrades. */
    method Init() returns (r: Result<(), Error>)
      modifies this
      ensures old(active) ==> r == Err(NotIdle) && active && working == old(working)
      ensures r.Ok? ==> Initialized(pkg, old(committed)) == Ok(committed) && !active
      ensures r.Err? ==> committed == old(committed)
      ensures faults == old(faults) + (if r == Err(DriverFault) then 1 else 0)
                                    + (if active && !old(active) then 1 else 0)
      ensures r.Err? && !old(active) ==>
                r.error == DriverFault || Initialized(pkg, old(committed)) == Err(r.error)
      ensures r.Ok? ==> committed.meta == Some(Meta(pkg.version, pkg.revision))
      ensures r.Ok? && old(committed).meta.Some? ==>
                old(committed).meta == Some(Meta(pkg.version, pkg.revision)) && committed == old(committed)
      ensures !old(active) && old(committed).meta.Some?
              && old(committed).meta != Some(Meta(pkg.version, pkg.revision)) ==>
                r == Err(ExplicitMigrationRequired) || r == Err(DriverFault)
    {
      if active {
        return Err(NotIdle);
      }
      r := Execute();
      if r.Err? {
        return;
      }
      active, working := true, committed;
      if working.meta.Some? {
        if working.meta.value.version != pkg.version || working.meta.value.revision != pkg.revision {
          r := Err(ExplicitMigrationRequired);
        }
      } else {
        r := RunAll();
        if r.Ok? {
          working := Stamp(pkg, working.shape);
        }
      }
      if r.Ok? {
        r := Execute();
        if r.Ok? {
          committed, active := working, false;
          return;
        }
      }
      var rollback := Execute();
      active := rollback.Err?;
    }
  }

  /** `init` accepts a stamped database as it is exactly when the stamp is the package's own. */
  lemma InitChecksTheStamp(pkg: Package, db: Database)
    requires db.meta.Some?
    ensures Initialized(pkg, db) == if db.meta == Some(Meta(pkg.version, pkg.revision)) then Ok(db)
                                    else Err(ExplicitMigrationRequired)
  {
    assert db.meta.value == Meta(db.meta.value.version, db.meta.value.revision);
  }

  /** What `migrate` says to each stamp before it touches anything. */
  lemma MigrateChecksTheStamp(pkg: Package, db: Database, version: Name, revision: int)
    requires db.meta == Some(Meta(version, revision))
    ensures version != pkg.version ==> Migrated(pkg, db) == Err(OtherVersion)
    ensures version == pkg.version && revision > pkg.revision ==> Migrated(pkg, db) == Err(NewerRevision)
    ensures version == pkg.version && revision == pkg.revision ==> Migrated(pkg, db) == Ok((revision, db))
    ensures version == pkg.version && revision < 0 ==> Migrated(pkg, db) == Err(MissingMigration)
    ensures version == pkg.version && 0 <= revision < pkg.revision ==>
              (Migrated(pkg, db) == Err(MissingMigration)
               <==> exists k: nat :: revision <= k < pkg.revision && k !in pkg.deltas)
    ensures Migrated(pkg, db).Ok? ==>
              Migrated(pkg, db).value.0 == revision
              && Migrated(pkg, db).value.1.meta == Some(Meta(pkg.version, pkg.revision))
  {
    if 0 <= revision < pkg.revision && HasMigrations(pkg, revision) {
      UpgradeErrors(pkg, db.shape, revision);
    }
  }

  /** Without a stamp both bootstrap, and stamp what they leave. */
  lemma UnstampedIsBootstrapped(pkg: Package, db: Database)
    requires db.meta.None?
    ensures Initialized(pkg, db).Ok? <==> RunFiles(pkg, db.shape, pkg.files).Ok?
    ensures Migrated(pkg, db).Ok? <==> Initialized(pkg, db).Ok?
    ensures Initialized(pkg, db).Ok? ==>
              && Migrated(pkg, db).value == (0, Initialized(pkg, db).value)
              && Ok(Initialized(pkg, db).value.shape) == RunFiles(pkg, db.shape, pkg.files)
              && Initialized(pkg, db).value.meta == Some(Meta(pkg.version, pkg.revision))
  {
  }

  lemma {:induction false} IndexErrors(s: Shape, table: Name, indexes: seq<NewIndex>)
    requires table in s.tables && CreateIndexes(s, table, indexes).Err?
    ensures CreateIndexes(s, table, indexes).error == SqlError
    decreases |indexes|
  {
    var index := indexes[0];
    if index.name in s.indexes {
      IndexErrors(s, table, indexes[1..]);
    } else if index.columns <= s.tables[table] {
      IndexErrors(s.(indexes := s.indexes[index.name := Index(table, index.columns, index.definition)]),
                  table, indexes[1..]);
    }
  }

  lemma FileErrors(pkg: Package, s: Shape, f: File)
    requires RunFile(pkg, s, f).Err?
    ensures RunFile(pkg, s, f).error == SqlError
  {
    if f.SchemaFile? {
      IndexErrors(if f.table in s.tables then s else s.(tables := s.tables[f.table := f.columns]), f.table, f.indexes);
    }
  }

  lemma {:induction false} FilesErrors(pkg: Package, s: Shape, files: seq<File>)
    ensures RunFiles(pkg, s, files).Err? ==> RunFiles(pkg, s, files).error == SqlError
    ensures CreateMissing(pkg, s, files).Err? ==> CreateMissing(pkg, s, files).error == SqlError
  {
    if files != [] {
      var init, last := files[..|files| - 1], files[|files| - 1];
      FilesErrors(pkg, s, init);
      if RunFiles(pkg, s, init).Ok? && RunFile(pkg, RunFiles(pkg, s, init).value, last).Err? {
        FileErrors(pkg, RunFiles(pkg, s, init).value, last);
      }
      if CreateMissing(pkg, s, init).Ok? && RunFile(pkg, CreateMissing(pkg, s, init).value, last).Err? {
        FileErrors(pkg, CreateMissing(pkg, s, init).value, last);
      }
    }
  }

  lemma {:induction false} DeltaErrors(dialect: Dialect, s: Shape, ds: seq<Statement>)
    ensures RunDelta(dialect, s, ds).Err? ==> RunDelta(dialect, s, ds).error == SqlError
  {
    if ds != [] {
      DeltaErrors(dialect, s, ds[..|ds| - 1]);
    }
  }

  /** Once every delta is there, only SQL can fail. */
  lemma UpgradeErrors(pkg: Package, s: Shape, from: nat)
    ensures Upgrade(pkg, s, from).Err? ==> Upgrade(pkg, s, from).error == SqlError
  {
    var bare := s.(views := Survivors(pkg, s.views));
    FilesErrors(pkg, bare, pkg.files);
    if CreateMissing(pkg, bare, pkg.files).Ok? {
      var full := CreateMissing(pkg, bare, pkg.files).value;
      DeltaErrors(pkg.dialect, full, DeltasBetween(pkg, from, pkg.revision));
      if RunDelta(pkg.dialect, full, DeltasBetween(pkg, from, pkg.revision)).Ok? {
        FilesErrors(pkg, RunDelta(pkg.dialect, full, DeltasBetween(pkg, from, pkg.revision)).value, pkg.files);
      }
    }
  }

  lemma {:induction false} RunFilesStopsEarly(pkg: Package, s: Shape, files: seq<File>, i: nat)
    requires i <= |files| && RunFiles(pkg, s, files[..i]).Err?
    ensures RunFiles(pkg, s, files) == RunFiles(pkg, s, files[..i])
    decreases |files|
  {
    if i < |files| {
      assert files[..|files| - 1][..i] == files[..i];
      RunFilesStopsEarly(pkg, s, files[..|files| - 1], i);
    } else {
      assert files[..i] == files;
    }
  }

  lemma {:induction false} CreateMissingStopsEarly(pkg: Package, s: Shape, files: seq<File>, i: nat)
    requires i <= |files| && CreateMissing(pkg, s, files[..i]).Err?
    ensures CreateMissing(pkg, s, files) == CreateMissing(pkg, s, files[..i])
    decreases |files|
  {
    if i < |files| {
      assert files[..|files| - 1][..i] == files[..i];
      CreateMissingStopsEarly(pkg, s, files[..|files| - 1], i);
    } else {
      assert files[..i] == files;
    }
  }

  lemma {:induction false} RunDeltaStopsEarly(dialect: Dialect, s: Shape, ds: seq<Statement>, i: nat)
    requires i <= |ds| && RunDelta(dialect, s, ds[..i]).Err?
    ensures RunDelta(dialect, s, ds) == RunDelta(dialect, s, ds[..i])
    decreases |ds|
  {
    if i < |ds| {
      assert ds[..|ds| - 1][..i] == ds[..i];
      RunDeltaStopsEarly(dialect, s, ds[..|ds| - 1], i);
    } else {
      assert ds[..i] == ds;
    }
  }

  // ----- What re-running the files reaches -----

  /** `f` is exactly what the package's files declare; no name is declared in two ways. */
  ghost predicate Packaged(pkg: Package, f: Shape) {
    var files := pkg.files;
    && (forall i | 0 <= i < |files| :: FileDeclared(f, files[i]))
    && f.tables.Keys == TablesIn(files)
    && f.indexes.Keys == IndexesIn(files)
    && f.views.Keys == ViewsIn(files)
    && f.tables.Keys !! f.views.Keys
    && (pkg.dialect.Postgres? ==> InOrder(f, files))
  }

  /** Every view comes after what it reads. */
  ghost predicate InOrder(f: Shape, files: seq<File>) {
    files != [] ==>
      var init, last := files[..|files| - 1], files[|files| - 1];
      InOrder(f, init) && (last.ViewFile? ==> ReadsFrom(f, last.body, init))
  }

  ghost predicate ReadsFrom(f: Shape, view: View, files: seq<File>) {
    && view.sources <= TablesIn(files) + ViewsIn(files)
    && forall p | p in view.columns :: p.0 in TablesIn(files) && p.0 in f.tables && p.1 in f.tables[p.0]
  }

  ghost predicate FileDeclared(f: Shape, file: File) {
    match file
    case Namespace => true
    case SchemaFile(table, columns, indexes) =>
      table in f.tables && f.tables[table] == columns
      && forall k | 0 <= k < |indexes| :: Declares(f, table, columns, indexes[k])
    case ViewFile(view, body) => view in f.views && f.views[view] == body
  }

  ghost predicate Declares(f: Shape, table: Name, columns: set<Name>, index: NewIndex) {
    && index.name in f.indexes
    && f.indexes[index.name] == Index(table, index.columns, index.definition)
    && index.columns <= columns
  }

  /** `b` has everything `a` has, and what else it has it shares with `f`. */
  ghost predicate Extends<K, V>(a: map<K, V>, b: map<K, V>, f: map<K, V>) {
    && (forall k | k in a :: k in b && b[k] == a[k])
    && (forall k | k in b && k !in a :: k in f && b[k] == f[k])
  }

  lemma ExtendsToAll<K, V>(a: map<K, V>, b: map<K, V>, f: map<K, V>)
    requires Extends(a, b, f) && f.Keys <= b.Keys
    ensures b == f + a
  {
  }

  lemma {:induction false} IndexesCreated(s: Shape, f: Shape, table: Name, indexes: seq<NewIndex>)
    requires table in s.tables
    requires forall k | 0 <= k < |indexes| :: Declares(f, table, s.tables[table], indexes[k])
    ensures var r := CreateIndexes(s, table, indexes);
            && r.Ok? && r.value == s.(indexes := r.value.indexes)
            && Extends(s.indexes, r.value.indexes, f.indexes)
            && IndexNames(indexes) <= r.value.indexes.Keys
    decreases |indexes|
  {
    if indexes != [] {
      var index := indexes[0];
      assert Declares(f, table, s.tables[table], index);
      var next := if index.name in s.indexes then s else
        s.(indexes := s.indexes[index.name := Index(table, index.columns, index.definition)]);
      IndexesCreated(next, f, table, indexes[1..]);
    }
  }

  /** The state of a re-run from `s` after some files. */
  ghost predicate PartWay(s: Shape, f: Shape, x: Shape, files: seq<File>) {
    && Extends(s.tables, x.tables, f.tables) && TablesIn(files) <= x.tables.Keys
    && Extends(s.indexes, x.indexes, f.indexes) && IndexesIn(files) <= x.indexes.Keys
    && Extends(s.views, x.views, f.views) && ViewsIn(files) <= x.views.Keys
  }

  /** `s` holds nothing that the package declares differently. */
  ghost predicate Agrees(s: Shape, f: Shape) {
    && (forall t | t in s.tables && t in f.tables :: s.tables[t] == f.tables[t])
    && (forall v | v in s.views && v in f.views :: s.views[v] == f.views[v])
  }

  lemma SchemaFileAdvances(s: Shape, f: Shape, x: Shape, file: File)
    requires file.SchemaFile? && FileDeclared(f, file) && Agrees(s, f)
    requires Extends(s.tables, x.tables, f.tables) && Extends(s.indexes, x.indexes, f.indexes)
    ensures var y := if file.table in x.tables then x else x.(tables := x.tables[file.table := file.columns]);
            var r := CreateIndexes(y, file.table, file.indexes);
            && r.Ok? && r.value.views == x.views
            && Extends(s.tables, r.value.tables, f.tables) && r.value.tables.Keys == x.tables.Keys + {file.table}
            && Extends(s.indexes, r.value.indexes, f.indexes)
            && x.indexes.Keys + IndexNames(file.indexes) <= r.value.indexes.Keys
  {
    var y := if file.table in x.tables then x else x.(tables := x.tables[file.table := file.columns]);
    assert y.tables[file.table] == file.columns;
    IndexesCreated(y, f, file.table, file.indexes);
  }

  lemma ViewResolves(s: Shape, f: Shape, x: Shape, files: seq<File>, view: View)
    requires Agrees(s, f) && PartWay(s, f, x, files) && ReadsFrom(f, view, files)
    ensures Resolves(x, view)
  {
  }

  lemma FileAdvances(pkg: Package, s: Shape, f: Shape, x: Shape, files: seq<File>, file: File)
    requires FileDeclared(f, file) && Agrees(s, f) && PartWay(s, f, x, files)
    requires pkg.dialect.Postgres? && file.ViewFile? ==> ReadsFrom(f, file.body, files)
    ensures RunFile(pkg, x, file).Ok? && PartWay(s, f, RunFile(pkg, x, file).value, files + [file])
  {
    assert (files + [file])[..|files|] == files;
    if file.SchemaFile? {
      SchemaFileAdvances(s, f, x, file);
    } else if file.ViewFile? && pkg.dialect.Postgres? {
      ViewResolves(s, f, x, files, file.body);
    }
  }

  lemma {:induction false} FilesAdvance(pkg: Package, s: Shape, f: Shape, files: seq<File>)
    requires Agrees(s, f) && forall i | 0 <= i < |files| :: FileDeclared(f, files[i])
    requires pkg.dialect.Postgres? ==> InOrder(f, files)
    ensures RunFiles(pkg, s, files).Ok?
    ensures PartWay(s, f, RunFiles(pkg, s, files).value, files)
  {
    if files != [] {
      var init, last := files[..|files| - 1], files[|files| - 1];
      FilesAdvance(pkg, s, f, init);
      FileAdvances(pkg, s, f, RunFiles(pkg, s, init).value, init, last);
      assert init + [last] == files;
    }
  }

  /** Re-running every file adds exactly what is missing. */
  lemma RerunReaches(pkg: Package, s: Shape, f: Shape)
    requires Packaged(pkg, f) && Agrees(s, f)
    ensures RunFiles(pkg, s, pkg.files)
            == Ok(Shape(f.tables + s.tables, f.indexes + s.indexes, f.views + s.views))
  {
    FilesAdvance(pkg, s, f, pkg.files);
    var x := RunFiles(pkg, s, pkg.files).value;
    ExtendsToAll(s.tables, x.tables, f.tables);
    ExtendsToAll(s.indexes, x.indexes, f.indexes);
    ExtendsToAll(s.views, x.views, f.views);
  }

  /** A fresh bootstrap is the declared shape. */
  lemma FreshReaches(pkg: Package, f: Shape)
    requires Packaged(pkg, f)
    ensures RunFiles(pkg, NO_SHAPE, pkg.files) == Ok(f)
  {
    RerunReaches(pkg, NO_SHAPE, f);
    assert f.tables + NO_SHAPE.tables == f.tables && f.indexes + NO_SHAPE.indexes == f.indexes
        && f.views + NO_SHAPE.views == f.views;
  }

  /** Step 2: missing tables are created as the package declares them, with their indexes. */
  lemma {:induction false} MissingAdvance(pkg: Package, s: Shape, f: Shape, files: seq<File>)
    requires forall i | 0 <= i < |files| :: FileDeclared(f, files[i])
    ensures var r := CreateMissing(pkg, s, files);
            && r.Ok? && r.value.views == s.views
            && Extends(s.tables, r.value.tables, f.tables) && TablesIn(files) <= r.value.tables.Keys
            && Extends(s.indexes, r.value.indexes, f.indexes)
  {
    if files != [] {
      var init, last := files[..|files| - 1], files[|files| - 1];
      MissingAdvance(pkg, s, f, init);
      var x := CreateMissing(pkg, s, init).value;
      if last.SchemaFile? && last.table !in x.tables {
        MissingFileAdvances(s, f, x, last);
      }
    }
  }

  lemma MissingFileAdvances(s: Shape, f: Shape, x: Shape, file: File)
    requires file.SchemaFile? && FileDeclared(f, file) && file.table !in x.tables
    requires Extends(s.tables, x.tables, f.tables) && Extends(s.indexes, x.indexes, f.indexes)
    ensures var r := CreateIndexes(x.(tables := x.tables[file.table := file.columns]), file.table, file.indexes);
            && r.Ok? && r.value.views == x.views
            && r.value.tables == x.tables[file.table := file.columns]
            && Extends(s.tables, r.value.tables, f.tables)
            && Extends(s.indexes, r.value.indexes, f.indexes)
  {
    IndexesCreated(x.(tables := x.tables[file.table := file.columns]), f, file.table, file.indexes);
  }

  // ----- Views that go with others -----

  ghost predicate ReadingClosed(views: map<Name, View>, names: set<Name>) {
    forall v | v in views && views[v].sources * names != {} :: v in names
  }

  lemma {:induction false} CascadeIsLeast(views: map<Name, View>, gone: set<Name>)
    ensures gone <= Cascade(views, gone) && ReadingClosed(views, Cascade(views, gone))
    ensures forall names | gone <= names && ReadingClosed(views, names) :: Cascade(views, gone) <= names
    decreases views.Keys - gone
  {
    var next := set v | v in views && v !in gone && views[v].sources * gone != {};
    if next == {} {
      forall v | v in views && views[v].sources * gone != {}
        ensures v in gone
      {
        assert v !in next;
      }
    } else {
      assert views.Keys - (gone + next) < views.Keys - gone by {
        var v :| v in next;
        assert v in views.Keys - gone;
      }
      CascadeIsLeast(views, gone + next);
      forall names | gone <= names && ReadingClosed(views, names)
        ensures gone + next <= names
      {
        NextIsIn(views, gone, next, names);
      }
    }
  }

  lemma NextIsIn(views: map<Name, View>, gone: set<Name>, next: set<Name>, names: set<Name>)
    requires gone <= names && ReadingClosed(views, names)
    requires forall v | v in next :: v in views && views[v].sources * gone != {}
    ensures next <= names
  {
    forall v | v in next
      ensures v in names
    {
      var s :| s in views[v].sources * gone;
      assert s in views[v].sources * names;
    }
  }

  /** A chain of views, each reading the one before. */
  ghost predicate ReadingChain(views: map<Name, View>, p: seq<Name>) {
    p != [] && forall i | 0 < i < |p| :: p[i] in views && p[i - 1] in views[p[i]].sources
  }

  ghost predicate ReadsThrough(views: map<Name, View>, v: Name, names: set<Name>) {
    exists p :: ReadingChain(views, p) && p[0] in names && p[|p| - 1] == v
  }

  lemma {:induction false} ChainFalls(views: map<Name, View>, gone: set<Name>, p: seq<Name>)
    requires ReadingChain(views, p) && p[0] in gone
    ensures p[|p| - 1] in Cascade(views, gone)
  {
    CascadeIsLeast(views, gone);
    if |p| > 1 {
      ChainFalls(views, gone, p[..|p| - 1]);
      assert p[|p| - 2] in views[p[|p| - 1]].sources * Cascade(views, gone);
    }
  }

  lemma ReaderOfReader(views: map<Name, View>, gone: set<Name>, v: Name, s: Name)
    requires v in views && s in views[v].sources && ReadsThrough(views, s, gone)
    ensures ReadsThrough(views, v, gone)
  {
    var p :| ReadingChain(views, p) && p[0] in gone && p[|p| - 1] == s;
    assert ReadingChain(views, p + [v]);
  }

  lemma ThroughIsClosed(views: map<Name, View>, gone: set<Name>, through: set<Name>)
    requires forall w :: w in through <==> w in Cascade(views, gone) && ReadsThrough(views, w, gone)
    ensures ReadingClosed(views, through)
  {
    CascadeIsLeast(views, gone);
    forall w | w in views && views[w].sources * through != {}
      ensures w in through
    {
      var s :| s in views[w].sources * through;
      ReaderOfReader(views, gone, w, s);
      assert s in views[w].sources * Cascade(views, gone);
    }
  }

  /** `CASCADE` takes exactly the views that read a dropped one, directly or through others. */
  lemma CascadeIsReading(views: map<Name, View>, gone: set<Name>, v: Name)
    ensures v in Cascade(views, gone) <==> ReadsThrough(views, v, gone)
  {
    if ReadsThrough(views, v, gone) {
      var p :| ReadingChain(views, p) && p[0] in gone && p[|p| - 1] == v;
      ChainFalls(views, gone, p);
    }
    var through := set w | w in Cascade(views, gone) && ReadsThrough(views, w, gone);
    ThroughIsClosed(views, gone, through);
    CascadeIsLeast(views, gone);
    forall w | w in gone
      ensures w in through
    {
      assert ReadingChain(views, [w]);
    }
  }

  lemma BothAreClosed(views: map<Name, View>, left: map<Name, View>, a: set<Name>, b: set<Name>)
    requires left == views - a && ReadingClosed(views, a) && ReadingClosed(left, b)
    ensures ReadingClosed(views, a + b)
  {
    forall v | v in views && views[v].sources * (a + b) != {}
      ensures v in a + b
    {
      if v !in a {
        assert views[v].sources * a == {};
        assert left[v].sources * b != {};
      }
    }
  }

  /** Dropping some views and then others, with cascades, is dropping all that read any of them. */
  lemma CascadesJoin(views: map<Name, View>, a: set<Name>, b: set<Name>)
    requires b <= views.Keys
    ensures var left := views - Cascade(views, a);
            left - Cascade(left, b * left.Keys) == views - Cascade(views, a + b)
  {
    var left := views - Cascade(views, a);
    var all := Cascade(views, a + b);
    CascadeIsLeast(views, a);
    CascadeIsLeast(left, b * left.Keys);
    CascadeIsLeast(views, a + b);
    BothAreClosed(views, left, Cascade(views, a), Cascade(left, b * left.Keys));
    assert all <= Cascade(views, a) + Cascade(left, b * left.Keys);
    assert ReadingClosed(left, all);
  }

  lemma {:induction false} DropEachOnPostgres(views: map<Name, View>, names: seq<Name>)
    ensures DropEach(Postgres, views, names) == views - Cascade(views, (set n | n in names && n in views))
    decreases |names|
  {
    var all := set n | n in names && n in views;
    if names == [] {
      CascadeOfNone(views);
      assert all == {};
    } else {
      var init, last := names[..|names| - 1], names[|names| - 1];
      var b := set n | n in init && n in views;
      assert names == init + [last];
      var left := DropView(Postgres, views, last);
      DropEachOnPostgres(left, init);
      if last in views {
        assert all == {last} + b;
        CascadesJoin(views, {last}, b);
        assert b * left.Keys == set n | n in init && n in left;
      } else {
        assert all == b;
      }
    }
  }

  lemma CascadeOfNone(views: map<Name, View>)
    ensures Cascade(views, {}) == {}
  {
  }

  lemma {:induction false} DropEachOnSqlite(views: map<Name, View>, names: seq<Name>)
    ensures DropEach(Sqlite, views, names) == views - (set n | n in names)
    decreases |names|
  {
    if names != [] {
      var init, last := names[..|names| - 1], names[|names| - 1];
      assert names == init + [last];
      DropEachOnSqlite(DropView(Sqlite, views, last), init);
      assert (set n | n in names) == (set n | n in init) + {last};
    }
  }

  lemma {:induction false} ViewNamesIn(files: seq<File>)
    ensures (set n | n in ViewNames(files)) == ViewsIn(files)
  {
    if files != [] {
      var init, last := files[..|files| - 1], files[|files| - 1];
      ViewNamesIn(init);
      assert forall n :: n in ViewNames(files) <==> n in ViewNames(init) || (last.ViewFile? && n == last.view);
    }
  }

  /**
   Step 1 leaves exactly the views that are not the package's and, on PostgreSQL, read none of those that were
   there, neither directly nor through others.
   */
  lemma SurvivorsAre(pkg: Package, views: map<Name, View>, v: Name)
    ensures v in Survivors(pkg, views) <==>
              v in views && v !in ViewsIn(pkg.files)
              && (pkg.dialect.Postgres? ==> !ReadsThrough(views, v, ViewsIn(pkg.files) * views.Keys))
    ensures v in Survivors(pkg, views) ==> Survivors(pkg, views)[v] == views[v]
  {
    var names := ViewNames(pkg.files);
    ViewNamesIn(pkg.files);
    if pkg.dialect.Postgres? {
      DropEachOnPostgres(views, names);
      var gone := set n | n in names && n in views;
      assert gone == ViewsIn(pkg.files) * views.Keys;
      CascadeIsReading(views, gone, v);
      CascadeIsLeast(views, gone);
    } else {
      DropEachOnSqlite(views, names);
    }
  }

  // ----- Deltas, one table at a time -----

  predicate Touches(d: Statement, t: Name) {
    match d
    case AddColumn(table, _, _) => table == t
    case DropColumn(table, _, _) => table == t
    case DropIndex(_, _) => false
    case UpdateRows(uses) => exists p | p in uses :: p.0 == t
  }

  function ColumnsStep(columns: set<Name>, d: Statement, t: Name): Option<set<Name>> {
    if !Touches(d, t) then Some(columns)
    else
      match d
      case AddColumn(_, column, guarded) =>
        if column in columns && !guarded then None else Some(columns + {column})
      case DropColumn(_, column, guarded) =>
        if column !in columns && !guarded then None else Some(columns - {column})
      case DropIndex(_, _) => Some(columns)
      case UpdateRows(uses) =>
        if exists p | p in uses :: p.0 == t && p.1 !in columns then None else Some(columns)
  }

  /** What a list of statements does to the columns of one table. */
  function ColumnsAfter(columns: set<Name>, ds: seq<Statement>, t: Name): Option<set<Name>> {
    if ds == [] then Some(columns)
    else
      match ColumnsAfter(columns, ds[..|ds| - 1], t)
      case None => None
      case Some(before) => ColumnsStep(before, ds[|ds| - 1], t)
  }

  function OrNone(columns: Option<set<Name>>): set<Name> {
    if columns.Some? then columns.value else {}
  }

  predicate Gone(dialect: Dialect, ds: seq<Statement>, n: Name, index: Index) {
    exists i | 0 <= i < |ds| :: Takes(dialect, ds[i], n, index)
  }

  /** The indexes that none of these statements takes away. */
  function Kept(dialect: Dialect, ds: seq<Statement>, indexes: map<Name, Index>): map<Name, Index> {
    map n | n in indexes && !Gone(dialect, ds, n, indexes[n]) :: indexes[n]
  }

  /** The shape after some statements, told table by table and index by index. */
  function Told(dialect: Dialect, s: Shape, ds: seq<Statement>): Shape {
    Shape(map t | t in s.tables :: OrNone(ColumnsAfter(s.tables[t], ds, t)), Kept(dialect, ds, s.indexes), s.views)
  }

  predicate PlainDrop(d: Statement) {
    d.DropIndex? && !d.guarded
  }

  /** Every plain `DROP INDEX` finds its index: it is there at first, and no earlier statement has taken it. */
  predicate DropsFound(dialect: Dialect, indexes: map<Name, Index>, ds: seq<Statement>) {
    forall i | 0 <= i < |ds| && PlainDrop(ds[i]) :: ds[i].index in Kept(dialect, ds[..i], indexes)
  }

  /** No statement meets an index or a view that is in its way. */
  predicate NothingInTheWay(dialect: Dialect, s: Shape, ds: seq<Statement>) {
    forall i | 0 <= i < |ds| :: !InTheWay(dialect, Told(dialect, s, ds[..i]), ds[i])
  }

  predicate RunsByTable(s: Shape, ds: seq<Statement>) {
    forall t | t in s.tables :: ColumnsAfter(s.tables[t], ds, t).Some?
  }

  lemma PrefixOfMore(init: seq<Statement>, last: Statement)
    ensures forall i | 0 <= i < |init| :: (init + [last])[i] == init[i] && (init + [last])[..i] == init[..i]
    ensures (init + [last])[|init|] == last && (init + [last])[..|init|] == init
  {
    var ds := init + [last];
    assert ds[..|init|] == init && ds[|init|] == last;
    assert forall i | 0 <= i < |init| :: ds[i] == init[i] && ds[..i] == init[..i];
  }

  lemma DropsFoundStep(dialect: Dialect, indexes: map<Name, Index>, init: seq<Statement>, last: Statement)
    ensures DropsFound(dialect, indexes, init + [last]) <==>
              DropsFound(dialect, indexes, init)
              && (PlainDrop(last) ==> last.index in Kept(dialect, init, indexes))
  {
    PrefixOfMore(init, last);
    assert PlainDrop(last) <==> PlainDrop((init + [last])[|init|]);
  }

  lemma NothingInTheWayStep(dialect: Dialect, s: Shape, init: seq<Statement>, last: Statement)
    ensures NothingInTheWay(dialect, s, init + [last]) <==>
              NothingInTheWay(dialect, s, init) && !InTheWay(dialect, Told(dialect, s, init), last)
  {
    PrefixOfMore(init, last);
    assert InTheWay(dialect, Told(dialect, s, init), last)
      <==> InTheWay(dialect, Told(dialect, s, (init + [last])[..|init|]), (init + [last])[|init|]);
  }

  lemma KeptStep(dialect: Dialect, indexes: map<Name, Index>, init: seq<Statement>, last: Statement)
    ensures Kept(dialect, init + [last], indexes) == Without(dialect, Kept(dialect, init, indexes), last)
  {
    PrefixOfMore(init, last);
    var ds := init + [last];
    forall n | n in indexes
      ensures Gone(dialect, ds, n, indexes[n])
              <==> Gone(dialect, init, n, indexes[n]) || Takes(dialect, last, n, indexes[n])
    {
      if Takes(dialect, last, n, indexes[n]) {
        assert Takes(dialect, ds[|init|], n, indexes[n]);
      }
      if Gone(dialect, init, n, indexes[n]) {
        var i :| 0 <= i < |init| && Takes(dialect, init[i], n, indexes[n]);
        assert Takes(dialect, ds[i], n, indexes[n]);
      }
    }
  }

  /** A delta runs if and only if it runs on each table, every plain drop finds its index, and nothing is in the way. */
  lemma {:induction false} DeltaByTable(dialect: Dialect, s: Shape, ds: seq<Statement>)
    requires forall i, t | 0 <= i < |ds| && Touches(ds[i], t) :: t in s.tables
    ensures RunDelta(dialect, s, ds).Ok? <==> CanRun(dialect, s, ds)
    ensures RunDelta(dialect, s, ds).Ok? ==> RunDelta(dialect, s, ds).value == Told(dialect, s, ds)
    decreases |ds|
  {
    if ds == [] {
      assert Told(dialect, s, ds) == s;
    } else {
      var init, last := ds[..|ds| - 1], ds[|ds| - 1];
      DeltaByTable(dialect, s, init);
      assert ds == init + [last];
      CanRunStep(dialect, s, init, last);
    }
  }

  predicate CanRun(dialect: Dialect, s: Shape, ds: seq<Statement>) {
    RunsByTable(s, ds) && DropsFound(dialect, s.indexes, ds) && NothingInTheWay(dialect, s, ds)
  }

  lemma CanRunStep(dialect: Dialect, s: Shape, init: seq<Statement>, last: Statement)
    requires forall t | Touches(last, t) :: t in s.tables
    ensures var next := RunStatement(dialect, Told(dialect, s, init), last);
            && (CanRun(dialect, s, init + [last]) <==> CanRun(dialect, s, init) && next.Ok?)
            && (CanRun(dialect, s, init + [last]) ==> next.value == Told(dialect, s, init + [last]))
  {
    DropsFoundStep(dialect, s.indexes, init, last);
    NothingInTheWayStep(dialect, s, init, last);
    if !RunsByTable(s, init) {
      StoppedByTable(s, init, last);
    } else {
      StatementByTable(dialect, s, init, last);
    }
  }

  lemma StoppedByTable(s: Shape, init: seq<Statement>, last: Statement)
    requires !RunsByTable(s, init)
    ensures !RunsByTable(s, init + [last])
  {
    var ds := init + [last];
    assert ds[..|ds| - 1] == init;
  }

  lemma StatementByTable(dialect: Dialect, s: Shape, init: seq<Statement>, d: Statement)
    requires RunsByTable(s, init) && forall t | Touches(d, t) :: t in s.tables
    ensures var x := Told(dialect, s, init);
            && (RunStatement(dialect, x, d).Ok? <==>
                  RunsByTable(s, init + [d]) && !InTheWay(dialect, x, d)
                  && (PlainDrop(d) ==> d.index in Kept(dialect, init, s.indexes)))
            && (RunStatement(dialect, x, d).Ok? ==>
                  RunStatement(dialect, x, d).value == Told(dialect, s, init + [d]))
  {
    var ds, x := init + [d], Told(dialect, s, init);
    assert ds[..|ds| - 1] == init;
    KeptStep(dialect, s.indexes, init, d);
    assert forall t | t in s.tables :: ColumnsAfter(s.tables[t], ds, t) == ColumnsStep(x.tables[t], d, t);
    StatementOnTables(dialect, x, d);
  }

  predicate StepsByTable(s: Shape, d: Statement) {
    forall t | t in s.tables :: ColumnsStep(s.tables[t], d, t).Some?
  }

  lemma StatementOnTables(dialect: Dialect, x: Shape, d: Statement)
    requires forall t | Touches(d, t) :: t in x.tables
    ensures RunStatement(dialect, x, d).Ok? <==>
              StepsByTable(x, d) && !InTheWay(dialect, x, d) && (PlainDrop(d) ==> d.index in x.indexes)
    ensures RunStatement(dialect, x, d).Ok? ==>
              RunStatement(dialect, x, d).value ==
              Shape(map t | t in x.tables :: OrNone(ColumnsStep(x.tables[t], d, t)),
                    Without(dialect, x.indexes, d), x.views)
  {
    match d
    case AddColumn(table, _, _) =>
      assert Touches(d, table);
      assert Without(dialect, x.indexes, d) == x.indexes;
    case DropColumn(table, _, _) => assert Touches(d, table);
    case DropIndex(_, _) =>
    case UpdateRows(uses) =>
      assert forall p | p in uses :: Touches(d, p.0);
      assert Without(dialect, x.indexes, d) == x.indexes;
  }

  lemma {:induction false} ColumnsCompose(columns: set<Name>, a: seq<Statement>, b: seq<Statement>, t: Name)
    ensures ColumnsAfter(columns, a + b, t) ==
            (match ColumnsAfter(columns, a, t)
             case None => None
             case Some(middle) => ColumnsAfter(middle, b, t))
  {
    if b == [] {
      assert a + b == a;
    } else {
      assert (a + b)[..|a + b| - 1] == a + b[..|b| - 1];
      ColumnsCompose(columns, a, b[..|b| - 1], t);
    }
  }

  lemma {:induction false} UntouchedColumns(columns: set<Name>, ds: seq<Statement>, t: Name)
    requires forall i | 0 <= i < |ds| :: !Touches(ds[i], t)
    ensures ColumnsAfter(columns, ds, t) == Some(columns)
  {
    if ds != [] {
      UntouchedColumns(columns, ds[..|ds| - 1], t);
    }
  }

  // ----- Running the same statements from other columns -----

  /** The statement settles whether the column is there. */
  predicate Sets(d: Statement, t: Name, c: Name) {
    (d.AddColumn? || d.DropColumn?) && d.table == t && d.column == c
  }

  predicate Settled(ds: seq<Statement>, t: Name, c: Name) {
    exists i | 0 <= i < |ds| :: Sets(ds[i], t, c)
  }

  /** The statement runs only if the column is there, or only if it is not. */
  predicate Needs(d: Statement, t: Name, c: Name) {
    match d
    case AddColumn(table, column, guarded) => table == t && column == c && !guarded
    case DropColumn(table, column, guarded) => table == t && column == c && !guarded
    case DropIndex(_, _) => false
    case UpdateRows(uses) => (t, c) in uses
  }

  /** The two have the same of every column that a statement needs, or needs gone, before any other settles it. */
  predicate AlikeWhereNeeded(a: set<Name>, b: set<Name>, ds: seq<Statement>, t: Name) {
    forall i, c | 0 <= i < |ds| && c in a + b && Needs(ds[i], t, c) && !Settled(ds[..i], t, c) :: c in a <==> c in b
  }

  /** Settled columns are as after the first run, the others as they were. */
  ghost predicate RunsAlike(a: set<Name>, b: set<Name>, ds: seq<Statement>, t: Name) {
    var x, y := ColumnsAfter(a, ds, t), ColumnsAfter(b, ds, t);
    x.Some? && y.Some? &&
    forall c :: if Settled(ds, t, c) then c in x.value <==> c in y.value
                else (c in a <==> c in x.value) && (c in b <==> c in y.value)
  }

  lemma SettledStep(init: seq<Statement>, last: Statement, t: Name)
    ensures forall c :: Settled(init + [last], t, c) <==> Settled(init, t, c) || Sets(last, t, c)
  {
    PrefixOfMore(init, last);
    var ds := init + [last];
    forall c
      ensures Settled(ds, t, c) <==> Settled(init, t, c) || Sets(last, t, c)
    {
      if Settled(init, t, c) {
        var i :| 0 <= i < |init| && Sets(init[i], t, c);
        assert Sets(ds[i], t, c);
      }
      if Sets(last, t, c) {
        assert Sets(ds[|init|], t, c);
      }
    }
  }

  predicate AlikeForLast(a: set<Name>, b: set<Name>, init: seq<Statement>, last: Statement, t: Name) {
    forall c | c in a + b && Needs(last, t, c) && !Settled(init, t, c) :: c in a <==> c in b
  }

  lemma AlikeStep(a: set<Name>, b: set<Name>, init: seq<Statement>, last: Statement, t: Name)
    ensures AlikeWhereNeeded(a, b, init + [last], t) <==>
              AlikeWhereNeeded(a, b, init, t) && AlikeForLast(a, b, init, last, t)
  {
    PrefixOfMore(init, last);
    var ds := init + [last];
    if AlikeWhereNeeded(a, b, ds, t) {
      forall i, c | 0 <= i < |init| && c in a + b && Needs(init[i], t, c) && !Settled(init[..i], t, c)
        ensures c in a <==> c in b
      {
        assert Needs(ds[i], t, c) && !Settled(ds[..i], t, c);
      }
      forall c | c in a + b && Needs(last, t, c) && !Settled(init, t, c)
        ensures c in a <==> c in b
      {
        assert Needs(ds[|init|], t, c) && !Settled(ds[..|init|], t, c);
      }
    }
  }

  ghost predicate ComesOut(a: set<Name>, b: set<Name>, ds: seq<Statement>, t: Name) {
    && (ColumnsAfter(b, ds, t).Some? <==> AlikeWhereNeeded(a, b, ds, t))
    && (ColumnsAfter(b, ds, t).Some? ==> RunsAlike(a, b, ds, t))
  }

  /** Where statements run from `a`, they run from `b` if and only if the two are alike where it is needed. */
  lemma {:induction false} RunsFromOther(a: set<Name>, b: set<Name>, ds: seq<Statement>, t: Name)
    requires ColumnsAfter(a, ds, t).Some?
    ensures ComesOut(a, b, ds, t)
  {
    if ds != [] {
      var init, last := ds[..|ds| - 1], ds[|ds| - 1];
      RunsFromOther(a, b, init, t);
      assert ds == init + [last];
      RunsFromOtherStep(a, b, init, last, t);
    }
  }

  lemma RunsFromOtherStep(a: set<Name>, b: set<Name>, init: seq<Statement>, last: Statement, t: Name)
    requires ColumnsAfter(a, init + [last], t).Some? && ColumnsAfter(a, init, t).Some? && ComesOut(a, b, init, t)
    ensures ComesOut(a, b, init + [last], t)
  {
    ColumnsOneMore(a, init, last, t);
    ColumnsOneMore(b, init, last, t);
    AlikeStep(a, b, init, last, t);
    if ColumnsAfter(b, init, t).Some? {
      StepFromOther(a, b, init, last, t);
      if ColumnsAfter(b, init + [last], t).Some? {
        RunsAlikeStep(a, b, init, last, t);
      }
    }
  }

  lemma ColumnsOneMore(columns: set<Name>, init: seq<Statement>, last: Statement, t: Name)
    ensures ColumnsAfter(columns, init + [last], t) ==
            (match ColumnsAfter(columns, init, t)
             case None => None
             case Some(middle) => ColumnsStep(middle, last, t))
  {
    assert (init + [last])[..|init|] == init;
  }

  lemma RunsAlikeStep(a: set<Name>, b: set<Name>, init: seq<Statement>, last: Statement, t: Name)
    requires RunsAlike(a, b, init, t)
    requires ColumnsAfter(a, init + [last], t).Some? && ColumnsAfter(b, init + [last], t).Some?
    ensures RunsAlike(a, b, init + [last], t)
  {
    ColumnsOneMore(a, init, last, t);
    ColumnsOneMore(b, init, last, t);
    SettledStep(init, last, t);
  }

  lemma StepFromOther(a: set<Name>, b: set<Name>, init: seq<Statement>, last: Statement, t: Name)
    requires RunsAlike(a, b, init, t)
    requires ColumnsStep(ColumnsAfter(a, init, t).value, last, t).Some?
    ensures ColumnsStep(ColumnsAfter(b, init, t).value, last, t).Some? <==> AlikeForLast(a, b, init, last, t)
  {
    var x, y := ColumnsAfter(a, init, t).value, ColumnsAfter(b, init, t).value;
    match last
    case UpdateRows(uses) =>
      assert forall p | p in uses && p.0 == t :: Needs(last, t, p.1) && Touches(last, t);
    case _ =>
  }

  /** Statements run a second time if and only if they find what they need as at first, and then change nothing. */
  lemma RunsAgain(a: set<Name>, ds: seq<Statement>, t: Name)
    requires ColumnsAfter(a, ds, t).Some?
    ensures var b := ColumnsAfter(a, ds, t).value;
            && (ColumnsAfter(b, ds, t).Some? <==> AlikeWhereNeeded(a, b, ds, t))
            && (ColumnsAfter(b, ds, t).Some? ==> ColumnsAfter(b, ds, t).value == b)
  {
    RunsFromOther(a, ColumnsAfter(a, ds, t).value, ds, t);
  }

  predicate Plain(ds: seq<Statement>) {
    forall i | 0 <= i < |ds| && (ds[i].AddColumn? || ds[i].DropColumn?) :: !ds[i].guarded
  }

  lemma {:induction false} FirstToSettle(ds: seq<Statement>, t: Name, c: Name) returns (i: nat)
    requires Settled(ds, t, c)
    ensures i < |ds| && Sets(ds[i], t, c) && !Settled(ds[..i], t, c)
  {
    var k :| 0 <= k < |ds| && Sets(ds[k], t, c);
    if Settled(ds[..k], t, c) {
      i := FirstToSettle(ds[..k], t, c);
      assert ds[..k][i] == ds[i] && ds[..k][..i] == ds[..i];
    } else {
      i := k;
    }
  }

  /** Without guards, statements that run twice in a row change no columns in the end. */
  lemma RunsAgainOnlyIfUnchanged(a: set<Name>, ds: seq<Statement>, t: Name)
    requires ColumnsAfter(a, ds, t).Some? && Plain(ds)
    ensures var b := ColumnsAfter(a, ds, t).value;
            && (ColumnsAfter(b, ds, t).Some? <==> a == b)
            && (AlikeWhereNeeded(a, b, ds, t) <==> a == b)
  {
    RunsAgain(a, ds, t);
    var b := ColumnsAfter(a, ds, t).value;
    if AlikeWhereNeeded(a, b, ds, t) {
      RunsFromOther(a, b, ds, t);
      forall c
        ensures c in a <==> c in b
      {
        if Settled(ds, t, c) && c in a + b {
          var i := FirstToSettle(ds, t, c);
          assert Needs(ds[i], t, c);
        }
      }
    }
  }

  // ----- Upgrading along the history of the package -----

  /**
   `h[k]` is what revision `k` bootstrapped (`h[0]` is not used): every delta is the difference
   between consecutive revisions on the tables both have, tables only appear, and an index that
   changes or goes is dropped.
   */
  ghost predicate History(pkg: Package, h: seq<Shape>) {
    && |h| == pkg.revision + 1
    && Packaged(pkg, h[pkg.revision])
    && (forall k: nat | 1 <= k < pkg.revision ::
          k in pkg.deltas && DeltaIsDifference(pkg.dialect, h[k], pkg.deltas[k], h[k + 1]))
  }

  ghost predicate DeltaIsDifference(dialect: Dialect, before: Shape, ds: seq<Statement>, after: Shape) {
    && before.tables.Keys <= after.tables.Keys
    && (forall i, t | 0 <= i < |ds| && Touches(ds[i], t) :: t in before.tables)
    && (forall t | t in before.tables :: ColumnsAfter(before.tables[t], ds, t) == Some(after.tables[t]))
    && Includes(after.indexes, Kept(dialect, ds, before.indexes))
  }

  ghost predicate Includes<K, V>(a: map<K, V>, b: map<K, V>) {
    forall k | k in b :: k in a && a[k] == b[k]
  }

  /** These statements carry what is in `before` to its form in `after`. */
  ghost predicate Carries(dialect: Dialect, before: Shape, ds: seq<Statement>, after: Shape) {
    && before.tables.Keys <= after.tables.Keys
    && (forall t | t in before.tables :: ColumnsAfter(before.tables[t], ds, t) == Some(after.tables[t]))
    && Includes(after.indexes, Kept(dialect, ds, before.indexes))
    && (forall i, t | 0 <= i < |ds| && Touches(ds[i], t) :: t in after.tables)
  }

  lemma KeptCompose(dialect: Dialect, indexes: map<Name, Index>, a: seq<Statement>, b: seq<Statement>)
    ensures Kept(dialect, a + b, indexes) == Kept(dialect, b, Kept(dialect, a, indexes))
  {
    var ds := a + b;
    forall n | n in indexes
      ensures Gone(dialect, ds, n, indexes[n])
              <==> Gone(dialect, a, n, indexes[n]) || Gone(dialect, b, n, indexes[n])
    {
      if Gone(dialect, a, n, indexes[n]) {
        var i :| 0 <= i < |a| && Takes(dialect, a[i], n, indexes[n]);
        assert Takes(dialect, ds[i], n, indexes[n]);
      }
      if Gone(dialect, b, n, indexes[n]) {
        var i :| 0 <= i < |b| && Takes(dialect, b[i], n, indexes[n]);
        assert Takes(dialect, ds[|a| + i], n, indexes[n]);
      }
    }
  }

  lemma KeptIncludes(dialect: Dialect, ds: seq<Statement>, a: map<Name, Index>, b: map<Name, Index>)
    requires Includes(a, b)
    ensures Includes(Kept(dialect, ds, a), Kept(dialect, ds, b))
  {
  }

  lemma CarriesMore(dialect: Dialect, a: Shape, earlier: seq<Statement>, b: Shape, last: seq<Statement>, c: Shape)
    requires Carries(dialect, a, earlier, b) && DeltaIsDifference(dialect, b, last, c)
    ensures Carries(dialect, a, earlier + last, c)
  {
    forall t | t in a.tables
      ensures ColumnsAfter(a.tables[t], earlier + last, t) == Some(c.tables[t])
    {
      ColumnsCompose(a.tables[t], earlier, last, t);
    }
    KeptCompose(dialect, a.indexes, earlier, last);
    KeptIncludes(dialect, last, b.indexes, Kept(dialect, earlier, a.indexes));
    TouchesLater(earlier, last, b, c);
  }

  lemma TouchesLater(earlier: seq<Statement>, last: seq<Statement>, b: Shape, c: Shape)
    requires b.tables.Keys <= c.tables.Keys
    requires forall i, t | 0 <= i < |earlier| && Touches(earlier[i], t) :: t in b.tables
    requires forall i, t | 0 <= i < |last| && Touches(last[i], t) :: t in b.tables
    ensures var ds := earlier + last;
            forall i, t | 0 <= i < |ds| && Touches(ds[i], t) :: t in c.tables
  {
  }

  lemma HistoryStep(pkg: Package, h: seq<Shape>, m: nat)
    requires History(pkg, h) && 1 < m <= pkg.revision
    ensures m - 1 in pkg.deltas && DeltaIsDifference(pkg.dialect, h[m - 1], pkg.deltas[m - 1], h[m])
  {
    assert DeltaIsDifference(pkg.dialect, h[m - 1], pkg.deltas[m - 1], h[m - 1 + 1]);
  }

  /** Along the history, the deltas from `j` to `m` take what is in `h[j]` to its form in `h[m]`. */
  lemma {:induction false} HistoryComposes(pkg: Package, h: seq<Shape>, j: nat, m: nat)
    requires History(pkg, h) && 1 <= j <= m <= pkg.revision
    ensures Carries(pkg.dialect, h[j], DeltasBetween(pkg, j, m), h[m])
    decreases m
  {
    if j < m {
      HistoryComposes(pkg, h, j, m - 1);
      HistoryStep(pkg, h, m);
      CarriesMore(pkg.dialect, h[j], DeltasBetween(pkg, j, m - 1), h[m - 1], pkg.deltas[m - 1], h[m]);
    }
  }

  /** The revision from `r` on in which a table first appears. */
  ghost function Born(h: seq<Shape>, t: Name, r: nat): (j: nat)
    requires 1 <= r < |h| && t in h[|h| - 1].tables
    ensures r <= j < |h| && t in h[j].tables
    ensures forall k | r <= k < j :: t !in h[k].tables
    decreases |h| - r
  {
    if t in h[r].tables then r else Born(h, t, r + 1)
  }

  /** A table that appears later is named by no delta before it appears. */
  lemma {:induction false} NotNamedBeforeBirth(pkg: Package, h: seq<Shape>, t: Name, r: nat, j: nat)
    requires History(pkg, h) && 1 <= r <= j <= pkg.revision
    requires forall k | r <= k < j :: t !in h[k].tables
    ensures forall i | 0 <= i < |DeltasBetween(pkg, r, j)| :: !Touches(DeltasBetween(pkg, r, j)[i], t)
    decreases j
  {
    if r < j {
      NotNamedBeforeBirth(pkg, h, t, r, j - 1);
      assert DeltaIsDifference(pkg.dialect, h[j - 1], pkg.deltas[j - 1], h[j - 1 + 1]);
    }
  }

  lemma {:induction false} DeltasSplit(pkg: Package, r: nat, j: nat, m: nat)
    requires r <= j <= m
    ensures DeltasBetween(pkg, r, m) == DeltasBetween(pkg, r, j) + DeltasBetween(pkg, j, m)
    decreases m
  {
    if j < m {
      DeltasSplit(pkg, r, j, m - 1);
    }
  }

  /** The deltas an upgrade runs, from a table's birth on: the same ones its history ran. */
  lemma BornColumns(pkg: Package, h: seq<Shape>, t: Name, r: nat)
    requires History(pkg, h) && 1 <= r <= pkg.revision && t in h[pkg.revision].tables
    ensures var j := Born(h, t, r);
            ColumnsAfter(h[j].tables[t], DeltasBetween(pkg, r, pkg.revision), t)
            == Some(h[pkg.revision].tables[t])
  {
    var j := Born(h, t, r);
    HistoryComposes(pkg, h, j, pkg.revision);
    NotNamedBeforeBirth(pkg, h, t, r, j);
    DeltasSplit(pkg, r, j, pkg.revision);
    ColumnsCompose(h[j].tables[t], DeltasBetween(pkg, r, j), DeltasBetween(pkg, j, pkg.revision), t);
    UntouchedColumns(h[j].tables[t], DeltasBetween(pkg, r, j), t);
  }

  /**
   A table that first appears after `r` has, in its final form, what the deltas need of it as it had it at first:
   each column that a statement needs, or needs gone, before any other settles it.
   */
  ghost predicate LateTablesFit(pkg: Package, h: seq<Shape>, r: nat)
    requires History(pkg, h) && 1 <= r <= pkg.revision
  {
    forall t | t in h[pkg.revision].tables && t !in h[r].tables :: LateTableFits(pkg, h, r, t)
  }

  ghost predicate LateTableFits(pkg: Package, h: seq<Shape>, r: nat, t: Name)
    requires History(pkg, h) && 1 <= r <= pkg.revision && t in h[pkg.revision].tables
  {
    AlikeWhereNeeded(
      h[Born(h, t, r)].tables[t], h[pkg.revision].tables[t], DeltasBetween(pkg, r, pkg.revision), t)
  }

  /** No table that first appears after `r` has columns its first version lacked, or lacks some it had. */
  ghost predicate LateTablesUnchanged(pkg: Package, h: seq<Shape>, r: nat)
    requires History(pkg, h) && 1 <= r <= pkg.revision
  {
    forall t | t in h[pkg.revision].tables && t !in h[r].tables ::
      h[Born(h, t, r)].tables[t] == h[pkg.revision].tables[t]
  }

  /** Where no delta is guarded, late tables fit if and only if none was altered. */
  lemma PlainFitsOnlyUnchanged(pkg: Package, h: seq<Shape>, r: nat)
    requires History(pkg, h) && 1 <= r <= pkg.revision && Plain(DeltasBetween(pkg, r, pkg.revision))
    ensures LateTablesFit(pkg, h, r) <==> LateTablesUnchanged(pkg, h, r)
  {
    forall t | t in h[pkg.revision].tables && t !in h[r].tables
      ensures LateTableFits(pkg, h, r, t) <==> h[Born(h, t, r)].tables[t] == h[pkg.revision].tables[t]
    {
      BornColumns(pkg, h, t, r);
      RunsAgainOnlyIfUnchanged(h[Born(h, t, r)].tables[t], DeltasBetween(pkg, r, pkg.revision), t);
    }
  }

  /** Where every statement on columns is guarded and no rows are updated, they always fit. */
  lemma GuardedAlwaysFits(pkg: Package, h: seq<Shape>, r: nat)
    requires History(pkg, h) && 1 <= r <= pkg.revision
    requires forall d | d in DeltasBetween(pkg, r, pkg.revision) :: d.DropIndex? || (!d.UpdateRows? && d.guarded)
    ensures LateTablesFit(pkg, h, r)
  {
    assert forall d, t, c | d in DeltasBetween(pkg, r, pkg.revision) :: !Needs(d, t, c);
  }

  /** The database holds what the package had in `was`; what else it holds, the package has no name for. */
  ghost predicate HoldsRevision(s: Shape, was: Shape, target: Shape) {
    && Includes(s.tables, was.tables) && s.tables.Keys * target.tables.Keys <= was.tables.Keys
    && Includes(s.indexes, was.indexes) && s.indexes.Keys * target.indexes.Keys <= was.indexes.Keys
  }

  /** After step 2: what was there, and every missing table in its final form. */
  ghost predicate ReadyForDeltas(s: Shape, x: Shape, target: Shape) {
    && Extends(s.tables, x.tables, target.tables) && target.tables.Keys <= x.tables.Keys
    && Extends(s.indexes, x.indexes, target.indexes)
  }

  lemma MissingTablesCreated(pkg: Package, h: seq<Shape>, s: Shape)
    requires History(pkg, h)
    ensures var x := CreateMissing(pkg, s, pkg.files);
            x.Ok? && x.value.views == s.views && ReadyForDeltas(s, x.value, h[pkg.revision])
  {
    MissingAdvance(pkg, s, h[pkg.revision], pkg.files);
  }

  /** The shape of step 2, in which the deltas start. */
  function StepTwo(pkg: Package, s: Shape): Result<Shape, Error> {
    CreateMissing(pkg, s.(views := Survivors(pkg, s.views)), pkg.files)
  }

  /** The indexes step 2 creates: those of tables that were not there. */
  function LateIndexes(files: seq<File>, tables: set<Name>): set<Name> {
    if files == [] then {}
    else
      var f := files[|files| - 1];
      LateIndexes(files[..|files| - 1], tables) +
      if f.SchemaFile? && f.table !in tables then IndexNames(f.indexes) else {}
  }

  predicate DistinctTables(files: seq<File>) {
    forall i, j | 0 <= i < j < |files| && files[i].SchemaFile? && files[j].SchemaFile? ::
      files[i].table != files[j].table
  }

  lemma {:induction false} IndexesAdded(s: Shape, table: Name, indexes: seq<NewIndex>)
    requires table in s.tables && CreateIndexes(s, table, indexes).Ok?
    ensures CreateIndexes(s, table, indexes).value.indexes.Keys == s.indexes.Keys + IndexNames(indexes)
    ensures CreateIndexes(s, table, indexes).value.tables == s.tables
    decreases |indexes|
  {
    if indexes != [] {
      var index := indexes[0];
      var next := if index.name in s.indexes then s else
        s.(indexes := s.indexes[index.name := Index(table, index.columns, index.definition)]);
      IndexesAdded(next, table, indexes[1..]);
    }
  }

  lemma {:induction false} DistinctIsNew(files: seq<File>)
    requires files != [] && DistinctTables(files) && files[|files| - 1].SchemaFile?
    ensures files[|files| - 1].table !in TablesIn(files[..|files| - 1])
  {
    var init := files[..|files| - 1];
    TablesInMembers(init, files[|files| - 1].table);
    assert forall i | 0 <= i < |init| :: init[i] == files[i];
  }

  lemma {:induction false} TablesInMembers(files: seq<File>, t: Name)
    ensures t in TablesIn(files) <==> exists i :: 0 <= i < |files| && files[i].SchemaFile? && files[i].table == t
  {
    if files != [] {
      var init, last := files[..|files| - 1], files[|files| - 1];
      TablesInMembers(init, t);
      assert forall i | 0 <= i < |init| :: files[i] == init[i];
      if last.SchemaFile? && last.table == t {
        assert files[|files| - 1].table == t;
      }
    }
  }

  /** With one file a table, what step 2 leaves can be read off the files: no other table or index is made. */
  lemma {:induction false} StepTwoAdds(pkg: Package, s: Shape, files: seq<File>)
    requires DistinctTables(files) && CreateMissing(pkg, s, files).Ok?
    ensures var x := CreateMissing(pkg, s, files).value;
            && x.tables.Keys == s.tables.Keys + TablesIn(files)
            && x.indexes.Keys == s.indexes.Keys + LateIndexes(files, s.tables.Keys)
    decreases |files|
  {
    if files != [] {
      var init, last := files[..|files| - 1], files[|files| - 1];
      assert forall i | 0 <= i < |init| :: init[i] == files[i];
      StepTwoAdds(pkg, s, init);
      var x := CreateMissing(pkg, s, init).value;
      if last.SchemaFile? {
        DistinctIsNew(files);
        if last.table !in x.tables {
          IndexesAdded(x.(tables := x.tables[last.table := last.columns]), last.table, last.indexes);
        }
      }
    }
  }

  lemma DeltasOnTable(pkg: Package, h: seq<Shape>, r: nat, s: Shape, x: Shape, t: Name)
    requires History(pkg, h) && 1 <= r <= pkg.revision && HoldsRevision(s, h[r], h[pkg.revision])
    requires ReadyForDeltas(s, x, h[pkg.revision]) && t in x.tables
    ensures var target := h[pkg.revision].tables;
            var after := ColumnsAfter(x.tables[t], DeltasBetween(pkg, r, pkg.revision), t);
            && (after.Some? <==> (t in target && t !in h[r].tables ==> LateTableFits(pkg, h, r, t)))
            && (after.Some? ==> after.value == if t in target then target[t] else s.tables[t])
  {
    HistoryComposes(pkg, h, r, pkg.revision);
    if t !in h[pkg.revision].tables {
      UntouchedColumns(x.tables[t], DeltasBetween(pkg, r, pkg.revision), t);
    } else if t !in h[r].tables {
      BornColumns(pkg, h, t, r);
      RunsAgain(h[Born(h, t, r)].tables[t], DeltasBetween(pkg, r, pkg.revision), t);
    }
  }

  lemma DeltasRunByTable(pkg: Package, h: seq<Shape>, r: nat, s: Shape, x: Shape)
    requires History(pkg, h) && 1 <= r <= pkg.revision && HoldsRevision(s, h[r], h[pkg.revision])
    requires ReadyForDeltas(s, x, h[pkg.revision])
    ensures RunsByTable(x, DeltasBetween(pkg, r, pkg.revision)) <==> LateTablesFit(pkg, h, r)
  {
    forall t | t in x.tables
      ensures ColumnsAfter(x.tables[t], DeltasBetween(pkg, r, pkg.revision), t).Some? <==>
                (t in h[pkg.revision].tables && t !in h[r].tables ==> LateTableFits(pkg, h, r, t))
    {
      DeltasOnTable(pkg, h, r, s, x, t);
    }
  }

  lemma DeltasTouchReady(pkg: Package, h: seq<Shape>, r: nat, s: Shape, x: Shape)
    requires History(pkg, h) && 1 <= r <= pkg.revision && ReadyForDeltas(s, x, h[pkg.revision])
    ensures forall i, t | 0 <= i < |DeltasBetween(pkg, r, pkg.revision)|
                          && Touches(DeltasBetween(pkg, r, pkg.revision)[i], t) :: t in x.tables
  {
    HistoryComposes(pkg, h, r, pkg.revision);
  }

  /** The indexes the package has no name for, as the deltas leave them. */
  function ForeignIndexes(pkg: Package, r: nat, s: Shape, was: Shape): map<Name, Index> {
    Kept(pkg.dialect, DeltasBetween(pkg, r, pkg.revision), s.indexes - was.indexes.Keys)
  }

  /** What the deltas leave when they run: package tables in their final form, other tables as they were. */
  lemma DeltasLeaveTables(pkg: Package, h: seq<Shape>, r: nat, s: Shape, x: Shape)
    requires History(pkg, h) && 1 <= r <= pkg.revision && HoldsRevision(s, h[r], h[pkg.revision])
    requires ReadyForDeltas(s, x, h[pkg.revision]) && RunsByTable(x, DeltasBetween(pkg, r, pkg.revision))
    ensures Told(pkg.dialect, x, DeltasBetween(pkg, r, pkg.revision)).tables == s.tables + h[pkg.revision].tables
  {
    forall t | t in x.tables
      ensures ColumnsAfter(x.tables[t], DeltasBetween(pkg, r, pkg.revision), t)
              == Some((s.tables + h[pkg.revision].tables)[t])
    {
      DeltasOnTable(pkg, h, r, s, x, t);
    }
  }

  lemma DeltasLeaveIndexes(pkg: Package, h: seq<Shape>, r: nat, s: Shape, x: Shape)
    requires History(pkg, h) && 1 <= r <= pkg.revision && HoldsRevision(s, h[r], h[pkg.revision])
    requires ReadyForDeltas(s, x, h[pkg.revision])
    ensures var target := h[pkg.revision].indexes;
            target + Kept(pkg.dialect, DeltasBetween(pkg, r, pkg.revision), x.indexes)
            == target + ForeignIndexes(pkg, r, s, h[r])
  {
    HistoryComposes(pkg, h, r, pkg.revision);
    IndexesLeft(pkg.dialect, DeltasBetween(pkg, r, pkg.revision), s.indexes, h[r].indexes, x.indexes,
                h[pkg.revision].indexes);
  }

  lemma IndexesLeft(dialect: Dialect, ds: seq<Statement>, s: map<Name, Index>, was: map<Name, Index>,
                    x: map<Name, Index>, target: map<Name, Index>)
    requires Includes(s, was) && s.Keys * target.Keys <= was.Keys && Extends(s, x, target)
    requires Includes(target, Kept(dialect, ds, was))
    ensures target + Kept(dialect, ds, x) == target + Kept(dialect, ds, s - was.Keys)
  {
    var mine, foreign := Kept(dialect, ds, x), Kept(dialect, ds, s - was.Keys);
    forall n | n in mine
      ensures if n in target then mine[n] == target[n] else n in foreign && foreign[n] == mine[n]
    {
      if n in was {
        assert n in Kept(dialect, ds, was);
      }
    }
    assert forall n | n in foreign :: n in mine && n !in target && mine[n] == foreign[n];
  }

  /** The deltas run exactly when late tables fit, the drops find their indexes, and nothing is in the way. */
  ghost predicate DeltasCanRun(pkg: Package, h: seq<Shape>, r: nat, x: Shape)
    requires History(pkg, h) && 1 <= r <= pkg.revision
  {
    && LateTablesFit(pkg, h, r)
    && DropsFound(pkg.dialect, x.indexes, DeltasBetween(pkg, r, pkg.revision))
    && NothingInTheWay(pkg.dialect, x, DeltasBetween(pkg, r, pkg.revision))
  }

  lemma DeltasFromReady(pkg: Package, h: seq<Shape>, r: nat, s: Shape, x: Shape)
    requires History(pkg, h) && 1 <= r <= pkg.revision && HoldsRevision(s, h[r], h[pkg.revision])
    requires ReadyForDeltas(s, x, h[pkg.revision])
    ensures var y := RunDelta(pkg.dialect, x, DeltasBetween(pkg, r, pkg.revision));
            && (y.Ok? <==> DeltasCanRun(pkg, h, r, x))
            && (y.Ok? ==> && y.value.tables == s.tables + h[pkg.revision].tables
                          && h[pkg.revision].indexes + y.value.indexes
                             == h[pkg.revision].indexes + ForeignIndexes(pkg, r, s, h[r])
                          && y.value.views == x.views)
  {
    var ds := DeltasBetween(pkg, r, pkg.revision);
    DeltasTouchReady(pkg, h, r, s, x);
    DeltaByTable(pkg.dialect, x, ds);
    DeltasRunByTable(pkg, h, r, s, x);
    if RunDelta(pkg.dialect, x, ds).Ok? {
      DeltasLeaveTables(pkg, h, r, s, x);
      DeltasLeaveIndexes(pkg, h, r, s, x);
    }
  }

  lemma SurvivorsAreForeign(pkg: Package, views: map<Name, View>)
    ensures Survivors(pkg, views).Keys !! ViewsIn(pkg.files)
  {
    forall v | v in Survivors(pkg, views)
      ensures v !in ViewsIn(pkg.files)
    {
      SurvivorsAre(pkg, views, v);
    }
  }

  /** Step 4, on what the deltas have left. */
  lemma RerunAfterDeltas(pkg: Package, target: Shape, tables: map<Name, set<Name>>, y: Shape)
    requires Packaged(pkg, target) && y.tables == tables + target.tables && y.views.Keys !! target.views.Keys
    ensures RunFiles(pkg, y, pkg.files)
            == Ok(Shape(tables + target.tables, target.indexes + y.indexes, target.views + y.views))
  {
    RerunReaches(pkg, y, target);
    assert target.tables + y.tables == tables + target.tables;
  }

  lemma UpgradeFrom(pkg: Package, h: seq<Shape>, r: nat, s: Shape)
    requires History(pkg, h) && 1 <= r < pkg.revision && HoldsRevision(s, h[r], h[pkg.revision])
    ensures var target, u := h[pkg.revision], Upgrade(pkg, s, r);
            && StepTwo(pkg, s).Ok?
            && (u.Ok? <==> DeltasCanRun(pkg, h, r, StepTwo(pkg, s).value))
            && (u.Ok? ==> u.value == Shape(
                  s.tables + target.tables,
                  target.indexes + ForeignIndexes(pkg, r, s, h[r]),
                  target.views + Survivors(pkg, s.views)))
  {
    var bare := s.(views := Survivors(pkg, s.views));
    MissingTablesCreated(pkg, h, bare);
    var x := StepTwo(pkg, s).value;
    DeltasFromReady(pkg, h, r, bare, x);
    var y := RunDelta(pkg.dialect, x, DeltasBetween(pkg, r, pkg.revision));
    if y.Ok? {
      SurvivorsAreForeign(pkg, s.views);
      RerunAfterDeltas(pkg, h[pkg.revision], s.tables, y.value);
    }
  }

  /**
   Upgrading from any revision `r` succeeds if and only if the deltas can run on what step 2 leaves. The result is
   a fresh bootstrap, and beside it the tables, indexes and views that the package has no name for: the tables as
   they were, the indexes the deltas have not taken, and the views that step 1 left.
   */
  lemma UpgradeReachesFresh(pkg: Package, h: seq<Shape>, r: nat, db: Database)
    requires History(pkg, h) && 1 <= r < pkg.revision
    requires db.meta == Some(Meta(pkg.version, r)) && HoldsRevision(db.shape, h[r], h[pkg.revision])
    ensures var target := h[pkg.revision];
            var m := Migrated(pkg, db);
            && RunFiles(pkg, NO_SHAPE, pkg.files) == Ok(target)
            && StepTwo(pkg, db.shape).Ok?
            && (m.Ok? <==> DeltasCanRun(pkg, h, r, StepTwo(pkg, db.shape).value))
            && (m.Ok? ==> m.value == (r, Stamp(pkg, Shape(
                  db.shape.tables + target.tables,
                  target.indexes + ForeignIndexes(pkg, r, db.shape, h[r]),
                  target.views + Survivors(pkg, db.shape.views)))))
  {
    FreshReaches(pkg, h[pkg.revision]);
    assert HasMigrations(pkg, r);
    UpgradeFrom(pkg, h, r, db.shape);
  }

  /** A database that holds nothing but the package's own comes out as a fresh bootstrap. */
  lemma NothingElseNothingLeft(pkg: Package, h: seq<Shape>, r: nat, s: Shape)
    requires History(pkg, h) && 1 <= r < pkg.revision && s.tables == h[r].tables && s.indexes == h[r].indexes
    ensures HoldsRevision(s, h[r], h[pkg.revision])
    ensures s.tables + h[pkg.revision].tables == h[pkg.revision].tables
    ensures h[pkg.revision].indexes + ForeignIndexes(pkg, r, s, h[r]) == h[pkg.revision].indexes
    ensures h[pkg.revision].views + Survivors(pkg, s.views) == h[pkg.revision].views
            <==> Survivors(pkg, s.views) == map[]
  {
    HistoryComposes(pkg, h, r, pkg.revision);
    NoForeignTables(s, h[r], h[pkg.revision]);
    NoForeignIndexes(pkg, r, s, h[r]);
    NothingAdded(h[pkg.revision].indexes, ForeignIndexes(pkg, r, s, h[r]));
    SurvivorsAreForeign(pkg, s.views);
    NothingAdded(h[pkg.revision].views, Survivors(pkg, s.views));
  }

  lemma NoForeignTables(s: Shape, was: Shape, target: Shape)
    requires s.tables == was.tables && s.indexes == was.indexes && was.tables.Keys <= target.tables.Keys
    ensures HoldsRevision(s, was, target) && s.tables + target.tables == target.tables
  {
  }

  lemma NoForeignIndexes(pkg: Package, r: nat, s: Shape, was: Shape)
    requires s.indexes == was.indexes
    ensures ForeignIndexes(pkg, r, s, was) == map[]
  {
    assert s.indexes - was.indexes.Keys == map[];
  }

  lemma NothingAdded<V>(a: map<Name, V>, b: map<Name, V>)
    requires a.Keys !! b.Keys
    ensures a + b == a <==> b == map[]
  {
    if v :| v in b {
      assert v in a + b;
    } else {
      assert b == map[];
    }
  }

  /** A migrated database is accepted by `init`, and migrating again changes nothing. */
  lemma MigratedIsSettled(pkg: Package, db: Database)
    requires Migrated(pkg, db).Ok?
    ensures var after := Migrated(pkg, db).value.1;
            Initialized(pkg, after) == Ok(after) && Migrated(pkg, after) == Ok((pkg.revision, after))
  {
  }

  // ----- Nothing is left without its columns -----

  /** Every index has its columns, and every view all it names. */
  ghost predicate Whole(s: Shape) {
    && (forall n | n in s.indexes :: s.indexes[n].table in s.tables
                                     && s.indexes[n].columns <= s.tables[s.indexes[n].table])
    && (forall v | v in s.views :: Resolves(s, s.views[v]))
  }

  lemma StatementKeepsWhole(dialect: Dialect, s: Shape, d: Statement)
    requires Whole(s) && RunStatement(dialect, s, d).Ok?
    ensures Whole(RunStatement(dialect, s, d).value)
  {
    var x := RunStatement(dialect, s, d).value;
    forall v | v in x.views
      ensures Resolves(x, x.views[v])
    {
      assert Resolves(s, s.views[v]);
    }
  }

  /** No delta that runs leaves an index without its columns or breaks a view, in either dialect. */
  lemma {:induction false} DeltaKeepsWhole(dialect: Dialect, s: Shape, ds: seq<Statement>)
    requires Whole(s) && RunDelta(dialect, s, ds).Ok?
    ensures Whole(RunDelta(dialect, s, ds).value)
  {
    if ds != [] {
      var init := ds[..|ds| - 1];
      DeltaKeepsWhole(dialect, s, init);
      StatementKeepsWhole(dialect, RunDelta(dialect, s, init).value, ds[|ds| - 1]);
    }
  }

  /** So a guarded drop of a column that is not there does nothing. */
  lemma AbsentColumnIsNoDrop(s: Shape, table: Name, column: Name)
    requires Whole(s) && table in s.tables && column !in s.tables[table]
    ensures RunStatement(Postgres, s, DropColumn(table, column, true)) == Ok(s)
  {
    var d := DropColumn(table, column, true);
    assert forall n | n in s.indexes :: !Takes(Postgres, d, n, s.indexes[n]);
    assert Without(Postgres, s.indexes, d) == s.indexes;
    assert s.tables[table] - {column} == s.tables[table];
    assert s.tables[table := s.tables[table]] == s.tables;
  }

  // ----- Views in the way -----

  /** The part of `InTheWay` that is about views. */
  predicate ViewInTheWay(dialect: Dialect, s: Shape, d: Statement) {
    d.DropColumn? && (ColumnRead(s.views, d.table, d.column)
                      || (dialect.Sqlite? && exists v | v in s.views :: !Resolves(s, s.views[v])))
  }

  predicate NoViewInTheWay(dialect: Dialect, s: Shape, ds: seq<Statement>) {
    forall i | 0 <= i < |ds| :: !ViewInTheWay(dialect, Told(dialect, s, ds[..i]), ds[i])
  }

  lemma ViewsAmongAll(dialect: Dialect, s: Shape, ds: seq<Statement>)
    ensures NothingInTheWay(dialect, s, ds) ==> NoViewInTheWay(dialect, s, ds)
    ensures dialect.Postgres? ==> (NothingInTheWay(dialect, s, ds) <==> NoViewInTheWay(dialect, s, ds))
  {
    forall i | 0 <= i < |ds|
      ensures ViewInTheWay(dialect, Told(dialect, s, ds[..i]), ds[i])
              ==> InTheWay(dialect, Told(dialect, s, ds[..i]), ds[i])
      ensures dialect.Postgres? && InTheWay(dialect, Told(dialect, s, ds[..i]), ds[i])
              ==> ViewInTheWay(dialect, Told(dialect, s, ds[..i]), ds[i])
    {
      OnlyViewsOnPostgres(Told(dialect, s, ds[..i]), ds[i]);
    }
  }

  lemma OnlyViewsOnPostgres(s: Shape, d: Statement)
    ensures InTheWay(Postgres, s, d) <==> ViewInTheWay(Postgres, s, d)
  {
  }

  /** No dropped column is read, nor, on SQLite, is a view of the package as soon as a column is dropped. */
  ghost predicate ViewsLetGo(pkg: Package, views: map<Name, View>, ds: seq<Statement>) {
    forall i, v | 0 <= i < |ds| && ds[i].DropColumn? && v in views :: LetsGo(pkg, views[v], ds[i])
  }

  ghost predicate LetsGo(pkg: Package, view: View, d: Statement)
    requires d.DropColumn?
  {
    (d.table, d.column) !in view.columns && (pkg.dialect.Sqlite? ==> view.sources !! ViewsIn(pkg.files))
  }

  lemma {:induction false} UndroppedColumnStays(columns: set<Name>, ds: seq<Statement>, t: Name, c: Name)
    requires ColumnsAfter(columns, ds, t).Some? && c in columns
    requires forall i | 0 <= i < |ds| && ds[i].DropColumn? :: !Sets(ds[i], t, c)
    ensures c in ColumnsAfter(columns, ds, t).value
  {
    if ds != [] {
      UndroppedColumnStays(columns, ds[..|ds| - 1], t, c);
    }
  }

  lemma PrefixRuns(s: Shape, ds: seq<Statement>, i: nat)
    requires RunsByTable(s, ds) && i <= |ds|
    ensures RunsByTable(s, ds[..i])
  {
    assert ds == ds[..i] + ds[i..];
    forall t | t in s.tables
      ensures ColumnsAfter(s.tables[t], ds[..i], t).Some?
    {
      ColumnsCompose(s.tables[t], ds[..i], ds[i..], t);
    }
  }

  lemma StillResolves(dialect: Dialect, x: Shape, ds: seq<Statement>, view: View)
    requires Resolves(x, view) && RunsByTable(x, ds)
    requires forall i | 0 <= i < |ds| && ds[i].DropColumn? :: (ds[i].table, ds[i].column) !in view.columns
    ensures Resolves(Told(dialect, x, ds), view)
  {
    forall p | p in view.columns
      ensures p.1 in Told(dialect, x, ds).tables[p.0]
    {
      UndroppedColumnStays(x.tables[p.0], ds, p.0, p.1);
    }
  }

  /** On SQLite, a surviving view still finds all it reads unless that is a view of the package. */
  lemma SurvivorResolves(pkg: Package, s: Shape, x: Shape, target: Shape, v: Name)
    requires pkg.dialect.Sqlite? && ReadyForDeltas(s.(views := Survivors(pkg, s.views)), x, target)
    requires x.views == Survivors(pkg, s.views) && v in x.views && Resolves(s, x.views[v])
    requires x.tables.Keys !! ViewsIn(pkg.files)
    ensures Resolves(x, x.views[v]) <==> x.views[v].sources !! ViewsIn(pkg.files)
  {
    forall n | n in x.views[v].sources
      ensures n in x.tables.Keys + x.views.Keys <==> n !in ViewsIn(pkg.files)
    {
      SurvivorsAre(pkg, s.views, n);
    }
  }

  /**
   Where every view resolves before the upgrade, as it does on PostgreSQL, views stop no delta if and only if no
   surviving view reads a dropped column, nor on SQLite a view of the package when any column is dropped.
   */
  lemma ViewsLetGoExactly(pkg: Package, h: seq<Shape>, r: nat, s: Shape)
    requires History(pkg, h) && 1 <= r < pkg.revision && HoldsRevision(s, h[r], h[pkg.revision])
    requires s.tables.Keys !! ViewsIn(pkg.files) && forall v | v in s.views :: Resolves(s, s.views[v])
    requires LateTablesFit(pkg, h, r)
    ensures StepTwo(pkg, s).Ok?
    ensures var x, ds := StepTwo(pkg, s).value, DeltasBetween(pkg, r, pkg.revision);
            && (NoViewInTheWay(pkg.dialect, x, ds) <==> ViewsLetGo(pkg, Survivors(pkg, s.views), ds))
            && (NothingInTheWay(pkg.dialect, x, ds) ==> NoViewInTheWay(pkg.dialect, x, ds))
            && (pkg.dialect.Postgres? ==>
                  (NothingInTheWay(pkg.dialect, x, ds) <==> NoViewInTheWay(pkg.dialect, x, ds)))
  {
    var bare := s.(views := Survivors(pkg, s.views));
    MissingTablesCreated(pkg, h, bare);
    var x, ds := StepTwo(pkg, s).value, DeltasBetween(pkg, r, pkg.revision);
    DeltasRunByTable(pkg, h, r, bare, x);
    ViewsLetGoFrom(pkg, s, x, h[pkg.revision], ds);
    ViewsAmongAll(pkg.dialect, x, ds);
  }

  lemma SourceIsGone(pkg: Package, x: Shape, ds: seq<Statement>, view: View)
    requires !(view.sources !! ViewsIn(pkg.files)) && (x.tables.Keys + x.views.Keys) !! ViewsIn(pkg.files)
    ensures !Resolves(Told(pkg.dialect, x, ds), view)
  {
    var n :| n in view.sources && n in ViewsIn(pkg.files);
    assert n !in x.tables.Keys + x.views.Keys;
  }

  lemma LetGoAt(pkg: Package, s: Shape, x: Shape, target: Shape, ds: seq<Statement>, i: nat)
    requires ReadyForDeltas(s.(views := Survivors(pkg, s.views)), x, target) && x.views == Survivors(pkg, s.views)
    requires x.tables.Keys !! ViewsIn(pkg.files) && forall v | v in x.views :: Resolves(s, x.views[v])
    requires RunsByTable(x, ds) && ViewsLetGo(pkg, x.views, ds) && i < |ds|
    ensures !ViewInTheWay(pkg.dialect, Told(pkg.dialect, x, ds[..i]), ds[i])
  {
    if ds[i].DropColumn? && pkg.dialect.Sqlite? {
      PrefixRuns(x, ds, i);
      forall v | v in x.views
        ensures Resolves(Told(pkg.dialect, x, ds[..i]), x.views[v])
      {
        SurvivorResolves(pkg, s, x, target, v);
        StillResolves(pkg.dialect, x, ds[..i], x.views[v]);
      }
    }
  }

  lemma ViewsLetGoFrom(pkg: Package, s: Shape, x: Shape, target: Shape, ds: seq<Statement>)
    requires ReadyForDeltas(s.(views := Survivors(pkg, s.views)), x, target) && x.views == Survivors(pkg, s.views)
    requires x.tables.Keys !! ViewsIn(pkg.files) && forall v | v in s.views :: Resolves(s, s.views[v])
    requires RunsByTable(x, ds)
    ensures NoViewInTheWay(pkg.dialect, x, ds) <==> ViewsLetGo(pkg, x.views, ds)
  {
    forall v | v in x.views
      ensures Resolves(s, x.views[v])
    {
      SurvivorsAre(pkg, s.views, v);
    }
    if ViewsLetGo(pkg, x.views, ds) {
      forall i | 0 <= i < |ds|
        ensures !ViewInTheWay(pkg.dialect, Told(pkg.dialect, x, ds[..i]), ds[i])
      {
        LetGoAt(pkg, s, x, target, ds, i);
      }
    } else {
      var i, v :| 0 <= i < |ds| && ds[i].DropColumn? && v in x.views && !LetsGo(pkg, x.views[v], ds[i]);
      var told := Told(pkg.dialect, x, ds[..i]);
      if (ds[i].table, ds[i].column) in x.views[v].columns {
        assert ColumnRead(told.views, ds[i].table, ds[i].column);
      } else {
        SurvivorsAreForeign(pkg, s.views);
        SourceIsGone(pkg, x, ds[..i], x.views[v]);
        assert !Resolves(told, told.views[v]);
      }
      assert ViewInTheWay(pkg.dialect, told, ds[i]);
    }
  }
}
