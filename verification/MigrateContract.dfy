/** What each statement of an upgrade asks for and changes, and what the files create and leave alone. */
module MigrateContract {
  import opened Wrappers
  import opened StorageMigrate

  // ----- What the statements and the names are -----

  /** The table has this column. */
  predicate Has(s: Shape, table: Name, column: Name) {
    table in s.tables && column in s.tables[table]
  }

  /** What each dialect asks of a dropped column beyond its being there. */
  ghost predicate LetsGo(dialect: Dialect, s: Shape, table: Name, column: Name) {
    && (forall v | v in s.views :: (table, column) !in s.views[v].columns)
    && (dialect.Sqlite? ==>
          && (exists other :: Has(s, table, other) && other != column)
          && (forall n | n in s.indexes :: s.indexes[n].table != table || column !in s.indexes[n].columns)
          && forall v | v in s.views ::
               && (forall name | name in s.views[v].sources :: name in s.tables || name in s.views)
               && forall p | p in s.views[v].columns :: Has(s, p.0, p.1))
  }

  /** When a statement runs; only PostgreSQL has the guarded forms for columns. */
  lemma StatementRuns(dialect: Dialect, s: Shape, d: Statement)
    ensures RunStatement(dialect, s, d).Ok? <==>
            match d
            case AddColumn(table, column, guarded) =>
              table in s.tables && if guarded then dialect.Postgres? else !Has(s, table, column)
            case DropColumn(table, column, guarded) =>
              && table in s.tables && LetsGo(dialect, s, table, column)
              && if guarded then dialect.Postgres? else Has(s, table, column)
            case DropIndex(index, guarded) => guarded || index in s.indexes
            case UpdateRows(uses) => forall p | p in uses :: Has(s, p.0, p.1)
  {
    if d.DropColumn? && dialect.Sqlite? && Has(s, d.table, d.column) {
      var columns := s.tables[d.table];
      if columns != {d.column} {
        var other :| other in columns && other != d.column;
        assert Has(s, d.table, other);
      }
    }
  }

  /** What it changes: one column, or an index; a dropped column takes its indexes along on PostgreSQL. */
  lemma StatementChanges(dialect: Dialect, s: Shape, d: Statement, after: Shape)
    requires RunStatement(dialect, s, d) == Ok(after)
    ensures after.views == s.views && after.tables.Keys == s.tables.Keys
    ensures forall table, column :: Has(after, table, column) <==>
              || (Has(s, table, column) && !(d.DropColumn? && d.table == table && d.column == column))
              || (d.AddColumn? && d.table == table && d.column == column)
    ensures forall n :: n in after.indexes <==>
              && n in s.indexes && !(d.DropIndex? && d.index == n)
              && !(d.DropColumn? && dialect.Postgres? && s.indexes[n].table == d.table
                   && d.column in s.indexes[n].columns)
    ensures forall n | n in after.indexes :: after.indexes[n] == s.indexes[n]
  {
  }

  /** Some file creates this table, this index, this view. */
  ghost predicate Creates(files: seq<File>, table: Name) {
    exists i :: 0 <= i < |files| && files[i].SchemaFile? && files[i].table == table
  }

  ghost predicate CreatesIndex(files: seq<File>, name: Name) {
    exists i, j :: 0 <= i < |files| && files[i].SchemaFile? && 0 <= j < |files[i].indexes|
                   && files[i].indexes[j].name == name
  }

  ghost predicate CreatesView(files: seq<File>, view: Name) {
    exists i :: 0 <= i < |files| && files[i].ViewFile? && files[i].view == view
  }

  lemma {:induction false} IndexNamesAre(indexes: seq<NewIndex>, name: Name)
    ensures name in IndexNames(indexes) <==> exists j :: 0 <= j < |indexes| && indexes[j].name == name
  {
    if indexes != [] {
      var rest := indexes[1..];
      IndexNamesAre(rest, name);
      assert forall j | 0 < j < |indexes| :: indexes[j] == rest[j - 1];
      if j :| 0 <= j < |rest| && rest[j].name == name {
        assert indexes[j + 1].name == name;
      }
    }
  }

  lemma {:induction false} FilesCreate(files: seq<File>, name: Name)
    ensures name in TablesIn(files) <==> Creates(files, name)
    ensures name in IndexesIn(files) <==> CreatesIndex(files, name)
    ensures name in ViewsIn(files) <==> CreatesView(files, name)
    ensures name in ViewNames(files) <==> CreatesView(files, name)
  {
    if files != [] {
      var init, last := files[..|files| - 1], files[|files| - 1];
      FilesCreate(init, name);
      if last.SchemaFile? {
        IndexNamesAre(last.indexes, name);
      }
      FileCreates(init, last, name);
      assert files == init + [last];
    }
  }

  lemma FileCreates(init: seq<File>, last: File, name: Name)
    ensures Creates(init + [last], name) <==> Creates(init, name) || (last.SchemaFile? && last.table == name)
    ensures CreatesIndex(init + [last], name) <==>
              || CreatesIndex(init, name)
              || (last.SchemaFile? && exists j :: 0 <= j < |last.indexes| && last.indexes[j].name == name)
    ensures CreatesView(init + [last], name) <==> CreatesView(init, name) || (last.ViewFile? && last.view == name)
  {
    var files := init + [last];
    assert files[|init|] == last && forall i | 0 <= i < |init| :: files[i] == init[i];
  }

  /**
   Views already there when the files run: SQLite keeps each as it was; PostgreSQL gives each the body of the last
   file for it.
   */
  lemma {:induction false} FilesOnViews(pkg: Package, s: Shape, files: seq<File>, view: Name)
    requires RunFiles(pkg, s, files).Ok? && view in s.views
    ensures view in RunFiles(pkg, s, files).value.views
    ensures pkg.dialect.Sqlite? ==> RunFiles(pkg, s, files).value.views[view] == s.views[view]
    ensures pkg.dialect.Postgres? ==> forall i | IsLastFor(files, i, view) ::
              RunFiles(pkg, s, files).value.views[view] == files[i].body
  {
    if files != [] {
      var init, last := files[..|files| - 1], files[|files| - 1];
      FilesOnViews(pkg, s, init, view);
      var before := RunFiles(pkg, s, init).value;
      FileOnViews(pkg, before, last, view);
      forall i | IsLastFor(files, i, view)
        ensures pkg.dialect.Postgres? ==> RunFiles(pkg, s, files).value.views[view] == files[i].body
      {
        if i < |init| {
          assert init[i] == files[i];
          assert forall k | i < k < |init| :: init[k] == files[k];
          assert IsLastFor(init, i, view);
        }
      }
    }
  }

  predicate IsLastFor(files: seq<File>, i: int, view: Name) {
    && 0 <= i < |files| && files[i].ViewFile? && files[i].view == view
    && forall k | i < k < |files| :: !(files[k].ViewFile? && files[k].view == view)
  }

  lemma FileOnViews(pkg: Package, s: Shape, f: File, view: Name)
    requires RunFile(pkg, s, f).Ok? && view in s.views
    ensures var after := RunFile(pkg, s, f).value;
            && view in after.views
            && after.views[view] == if pkg.dialect.Postgres? && f.ViewFile? && f.view == view then f.body
                                    else s.views[view]
  {
    if f.SchemaFile? {
      var created := if f.table in s.tables then s else s.(tables := s.tables[f.table := f.columns]);
      IndexesKeepViews(created, f.table, f.indexes);
    }
  }

  lemma {:induction false} IndexesKeepViews(s: Shape, table: Name, indexes: seq<NewIndex>)
    requires table in s.tables && CreateIndexes(s, table, indexes).Ok?
    ensures CreateIndexes(s, table, indexes).value.views == s.views
    decreases |indexes|
  {
    if indexes != [] {
      var index := indexes[0];
      IndexesKeepViews(
        if index.name in s.indexes then s
        else s.(indexes := s.indexes[index.name := Index(table, index.columns, index.definition)]),
        table, indexes[1..]);
    }
  }
}
