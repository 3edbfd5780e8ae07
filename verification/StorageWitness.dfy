/**
 Inputs on which storage does not do what one might expect: two current cumulative reports without an owner,
 and an upgrade that fails.
 */
module StorageWitness {
  import opened Wrappers
  import opened StorageIdentity
  import opened StorageModel
  import opened StorageChains
  import Migrate = StorageMigrate

  // ----- Reports without a registered owner -----

  /** A request that starts a chain of cumulative reports without a registered owner. */
  ghost predicate Ownerless(env: Env, req: Request) {
    && Validate(env, req).Ok? && env.project(req.artifact, req.payload, req.binding).Some?
    && req.artifact == REPORT && req.binding.role == Some(CUMULATIVE)
    && req.binding.supersedes == None && req.binding.product == None
  }

  lemma NoIndexObjects(db: Db, id: Str, row: Row)
    requires id !in db.bindings && row.binding.supersedes == None && row.binding.product == None
    ensures InsertBinding(db, id, row) == Ok(db.(bindings := db.bindings[id := row]))
  {
  }

  lemma OwnerlessIngests(env: Env, db: Db, req: Request)
    requires Ownerless(env, req) && IdOf(env, req) !in db.bindings
    ensures Ingest(env, db, req).Ok?
  {
    var id, row := IdOf(env, req), RowOf(env, req);
    NoIndexObjects(InsertEvidence(db, row.digest, |req.payload|), id, row);
    assert PredecessorError(db, id, row) == None;
  }

  lemma OwnerlessBinds(env: Env, db: Db, req: Request)
    requires Ownerless(env, req) && IdOf(env, req) !in db.bindings
    ensures Apply(env, db, Submit(req)).bindings == db.bindings[IdOf(env, req) := RowOf(env, req)]
  {
    OwnerlessIngests(env, db, req);
    IngestEffect(env, db, req);
  }

  lemma RunTwo(env: Env, a: Event, b: Event)
    ensures Run(env, [a, b]) == Apply(env, Apply(env, EMPTY_DB, a), b)
  {
    assert [a, b][..1] == [a] && [a][..0] == [];
    assert Run(env, []) == EMPTY_DB;
    assert Run(env, [a]) == Apply(env, EMPTY_DB, a);
  }

  lemma RootsAreCurrent(db: Db, x: Str, y: Str, row: Row, other: Row)
    requires x != y && db.bindings == map[x := row][y := other]
    requires row.binding.supersedes == None && other.binding.supersedes == None
    ensures IsCurrent(db, x) && IsCurrent(db, y)
  {
  }

  /** Two of them, under whatever run, are both current. */
  lemma BothStayCurrent(env: Env, a: Request, b: Request)
    requires Ownerless(env, a) && Ownerless(env, b) && IdOf(env, a) != IdOf(env, b)
    ensures var db := Run(env, [Submit(a), Submit(b)]);
            && IsCurrent(db, IdOf(env, a)) && db.bindings[IdOf(env, a)] == RowOf(env, a)
            && IsCurrent(db, IdOf(env, b)) && db.bindings[IdOf(env, b)] == RowOf(env, b)
  {
    RunTwo(env, Submit(a), Submit(b));
    OwnerlessBinds(env, EMPTY_DB, a);
    var db := Apply(env, EMPTY_DB, Submit(a));
    OwnerlessBinds(env, db, b);
    RootsAreCurrent(Apply(env, db, Submit(b)), IdOf(env, a), IdOf(env, b), RowOf(env, a), RowOf(env, b));
  }

  /** A stand-in for the hash that tells texts of different length apart. */
  function LengthHash(bytes: seq<byte>): Str {
    seq(|bytes|, i requires 0 <= i < |bytes| => 0x30)
  }

  function PlainEnv(): Env {
    Env(LengthHash, map[REPORT := Profile({CUMULATIVE}, [RunId])], (artifact, payload) => true,
        (artifact, payload, binding) => Some([]))
  }

  /** A cumulative report of scope `s` and run `r`, with as many bytes as asked. */
  function Report(size: nat): Request {
    Request(REPORT, seq(size, i requires 0 <= i < size => 0x20),
            Binding([0x73], None, Some([0x72]), None, None, Some(CUMULATIVE), None, None), [])
  }

  lemma {:induction false} DigitsEncodeEach(s: Str)
    requires forall i | 0 <= i < |s| :: s[i] == 0x30
    ensures |Utf8(s)| == |s|
  {
    if s != [] {
      DigitsEncodeEach(s[1..]);
    }
  }

  lemma NothingMissing(b: Binding)
    requires b.run.Some?
    ensures FirstMissing(b, [RunId]) == None
  {
    assert [RunId][1..] == [] && FirstMissing(b, []) == None;
  }

  lemma PassesChecks(env: Env, artifact: Str, b: Binding)
    requires artifact in env.profiles && b.scope != [] && FirstBadField(BindingFields(b)) == None
    requires b.role.Some? ==> b.role.value in env.profiles[artifact].roles
    requires FirstMissing(b, env.profiles[artifact].required) == None
    ensures ValidateBinding(env, artifact, b) == None
  {
  }

  lemma ReportIsValid(size: nat)
    ensures ValidateBinding(PlainEnv(), REPORT, Report(size).binding) == None
  {
    var b := Report(size).binding;
    FieldsAreClean(b);
    NothingMissing(b);
    PassesChecks(PlainEnv(), REPORT, b);
  }

  lemma FieldsAreClean(b: Binding)
    requires b == Binding([0x73], None, Some([0x72]), None, None, Some(CUMULATIVE), None, None)
    ensures FirstBadField(BindingFields(b)) == None
  {
    assert Clean([0x73]) && Clean([0x72]) && Clean(CUMULATIVE);
    FirstBadFieldSound(BindingFields(b));
  }

  lemma ReportIsOwnerless(size: nat)
    ensures Ownerless(PlainEnv(), Report(size))
  {
    ReportIsValid(size);
    assert Validate(PlainEnv(), Report(size)).Ok?;
  }

  lemma EncodingGrows(c: Context, d: Context)
    requires d == c.(digest := d.digest) && |Utf8(c.digest)| < |Utf8(d.digest)|
    ensures |Encoding(c)| < |Encoding(d)|
  {
  }

  lemma ReportsDiffer()
    ensures IdOf(PlainEnv(), Report(1)) != IdOf(PlainEnv(), Report(2))
  {
    var env, a, b := PlainEnv(), Report(1), Report(2);
    DigitsEncodeEach(LengthHash(a.payload));
    DigitsEncodeEach(LengthHash(b.payload));
    EncodingGrows(ContextOf(LengthHash(a.payload), REPORT, a.binding),
                  ContextOf(LengthHash(b.payload), REPORT, b.binding));
    assert |IdOf(env, a)| < |IdOf(env, b)|;
  }

  lemma PlainIsWellFormed()
    ensures WellFormed(PlainEnv())
  {
    assert Clean(REPORT);
  }

  /** Two cumulative reports of one scope and run, neither with a registered owner: both are current. */
  lemma OwnerlessWitness()
    ensures WellFormed(PlainEnv())
    ensures var env, a, b := PlainEnv(), Report(1), Report(2);
            var db := Run(env, [Submit(a), Submit(b)]);
            && IdOf(env, a) != IdOf(env, b) && IsCurrent(db, IdOf(env, a)) && IsCurrent(db, IdOf(env, b))
            && a.binding == b.binding
  {
    PlainIsWellFormed();
    ReportIsOwnerless(1);
    ReportIsOwnerless(2);
    ReportsDiffer();
    BothStayCurrent(PlainEnv(), Report(1), Report(2));
  }

  // ----- A table altered after it appeared -----

  type Name = Migrate.Name

  function WithTable(t: Name, columns: set<Name>): Migrate.Shape {
    Migrate.Shape(map[t := columns], map[], map[])
  }

  /** Table `t` appears in revision 2, and the statements take it to its form in revision 3. */
  function LatePackage(dialect: Migrate.Dialect, t: Name, ds: seq<Migrate.Statement>, last: set<Name>)
    : Migrate.Package
  {
    Migrate.Package("v1", 3, dialect, [Migrate.SchemaFile(t, last, [])], map[1 := [], 2 := ds])
  }

  function LateHistory(t: Name, first: set<Name>, last: set<Name>): seq<Migrate.Shape> {
    [Migrate.NO_SHAPE, Migrate.NO_SHAPE, WithTable(t, first), WithTable(t, last)]
  }

  ghost predicate OnTable(t: Name, first: set<Name>, ds: seq<Migrate.Statement>, last: set<Name>) {
    && Migrate.ColumnsAfter(first, ds, t) == Some(last)
    && (forall i, u | 0 <= i < |ds| && Migrate.Touches(ds[i], u) :: u == t)
    && (forall d | d in ds :: !d.DropIndex?)
  }

  lemma OneFile(t: Name, columns: set<Name>)
    ensures var files := [Migrate.SchemaFile(t, columns, [])];
            && Migrate.TablesIn(files) == {t} && Migrate.IndexesIn(files) == {} && Migrate.ViewsIn(files) == {}
            && Migrate.ViewNames(files) == [] && Migrate.InOrder(WithTable(t, columns), files)
  {
    var files := [Migrate.SchemaFile(t, columns, [])];
    assert files[..0] == [];
    assert Migrate.TablesIn(files[..0]) == {} && Migrate.IndexesIn(files[..0]) == {};
    assert Migrate.ViewsIn(files[..0]) == {};
    assert Migrate.ViewNames(files[..0]) == [];
    assert Migrate.InOrder(WithTable(t, columns), files[..0]);
  }

  lemma LateIsHistory(dialect: Migrate.Dialect, t: Name, first: set<Name>, ds: seq<Migrate.Statement>, last: set<Name>)
    requires OnTable(t, first, ds, last)
    ensures Migrate.History(LatePackage(dialect, t, ds, last), LateHistory(t, first, last))
  {
    var pkg, h := LatePackage(dialect, t, ds, last), LateHistory(t, first, last);
    OneFile(t, last);
    assert Migrate.Packaged(pkg, h[3]);
    assert Migrate.DeltaIsDifference(dialect, h[1], [], h[2]);
    assert Migrate.Kept(dialect, ds, map[]) == map[];
    assert Migrate.DeltaIsDifference(dialect, h[2], ds, h[3]);
  }

  /** What matters of such a package and its history. */
  ghost predicate IsLate(
    pkg: Migrate.Package, h: seq<Migrate.Shape>, t: Name, first: set<Name>, ds: seq<Migrate.Statement>, last: set<Name>)
  {
    && Migrate.History(pkg, h) && pkg.revision == 3 && h[1] == Migrate.NO_SHAPE
    && h[2] == WithTable(t, first) && h[3] == WithTable(t, last)
    && Migrate.DeltasBetween(pkg, 1, 3) == Migrate.DeltasBetween(pkg, 2, 3) == ds
    && (forall d | d in ds :: !d.DropIndex?) && (pkg.dialect.Sqlite? ==> forall d | d in ds :: d.AddColumn?)
  }

  lemma LateIsLate(dialect: Migrate.Dialect, t: Name, first: set<Name>, ds: seq<Migrate.Statement>, last: set<Name>)
    requires OnTable(t, first, ds, last) && (dialect.Sqlite? ==> forall d | d in ds :: d.AddColumn?)
    ensures IsLate(LatePackage(dialect, t, ds, last), LateHistory(t, first, last), t, first, ds, last)
  {
    LateIsHistory(dialect, t, first, ds, last);
    var pkg := LatePackage(dialect, t, ds, last);
    assert Migrate.DeltasBetween(pkg, 2, 2) == [] && Migrate.DeltasBetween(pkg, 1, 1) == [];
    assert Migrate.DeltasBetween(pkg, 1, 2) == [];
    assert [] + ds == ds;
  }

  lemma NoViewsInTheWay(dialect: Migrate.Dialect, x: Migrate.Shape, ds: seq<Migrate.Statement>)
    requires x.views == map[] && forall d | d in ds :: !d.DropIndex?
    requires dialect.Sqlite? ==> forall d | d in ds :: d.AddColumn?
    ensures Migrate.DropsFound(dialect, x.indexes, ds)
    ensures Migrate.NothingInTheWay(dialect, x, ds) <==> (dialect.Sqlite? ==> forall d | d in ds :: !d.guarded)
  {
    forall i | 0 <= i < |ds|
      ensures Migrate.InTheWay(dialect, Migrate.Told(dialect, x, ds[..i]), ds[i]) <==> dialect.Sqlite? && ds[i].guarded
    {
      assert ds[i] in ds;
    }
  }

  /** Upgrading a database that holds revision `r` and nothing else. */
  lemma OwnUpgrade(pkg: Migrate.Package, h: seq<Migrate.Shape>, r: nat)
    requires Migrate.History(pkg, h) && 1 <= r < pkg.revision && h[r].views == map[]
    ensures Migrate.StepTwo(pkg, h[r]).Ok? && Migrate.StepTwo(pkg, h[r]).value.views == map[]
    ensures Migrate.Migrated(pkg, Migrate.Database(h[r], Some(Migrate.Meta(pkg.version, r)))).Ok?
            <==> Migrate.DeltasCanRun(pkg, h, r, Migrate.StepTwo(pkg, h[r]).value)
  {
    Migrate.NothingElseNothingLeft(pkg, h, r, h[r]);
    Migrate.UpgradeReachesFresh(pkg, h, r, Migrate.Database(h[r], Some(Migrate.Meta(pkg.version, r))));
    NoViewsSurvive(pkg);
    Migrate.MissingTablesCreated(pkg, h, h[r].(views := map[]));
  }

  lemma NoViewsSurvive(pkg: Migrate.Package)
    ensures Migrate.Survivors(pkg, map[]) == map[]
  {
    forall v
      ensures v !in Migrate.Survivors(pkg, map[])
    {
      Migrate.SurvivorsAre(pkg, map[], v);
    }
  }

  lemma LateFits(pkg: Migrate.Package, h: seq<Migrate.Shape>, t: Name, first: set<Name>, ds: seq<Migrate.Statement>,
                 last: set<Name>, r: nat)
    requires IsLate(pkg, h, t, first, ds, last) && 1 <= r <= 2
    ensures Migrate.LateTablesFit(pkg, h, r) <==> r == 2 || Migrate.AlikeWhereNeeded(first, last, ds, t)
  {
    if r == 1 {
      assert Migrate.Born(h, t, 1) == 2;
      assert Migrate.LateTableFits(pkg, h, 1, t) <==> Migrate.AlikeWhereNeeded(first, last, ds, t);
    }
  }

  /** With no index and no view about, only the columns decide, and on SQLite the form of the statements. */
  lemma OnlyColumnsDecide(pkg: Migrate.Package, h: seq<Migrate.Shape>, t: Name, first: set<Name>,
                          ds: seq<Migrate.Statement>, last: set<Name>, r: nat)
    requires IsLate(pkg, h, t, first, ds, last) && 1 <= r <= 2
    ensures Migrate.Migrated(pkg, Migrate.Database(h[r], Some(Migrate.Meta(pkg.version, r)))).Ok?
            <==> (r == 2 || Migrate.AlikeWhereNeeded(first, last, ds, t))
                 && (pkg.dialect.Sqlite? ==> forall d | d in ds :: !d.guarded)
  {
    OwnUpgrade(pkg, h, r);
    NoViewsInTheWay(pkg.dialect, Migrate.StepTwo(pkg, h[r]).value, ds);
    LateFits(pkg, h, t, first, ds, last, r);
  }

  lemma AddsColumn(t: Name, a: Name, b: Name, guarded: bool)
    requires a != b
    ensures OnTable(t, {a}, [Migrate.AddColumn(t, b, guarded)], {a, b})
    ensures Migrate.AlikeWhereNeeded({a}, {a, b}, [Migrate.AddColumn(t, b, guarded)], t) <==> guarded
  {
    var ds := [Migrate.AddColumn(t, b, guarded)];
    Migrate.ColumnsOneMore({a}, [], ds[0], t);
    assert [] + [ds[0]] == ds && {a} + {b} == {a, b};
    if !guarded {
      assert b in {a} + {a, b} && Migrate.Needs(ds[0], t, b) && !Migrate.Settled(ds[..0], t, b);
    }
  }

  /**
   A column added to a late table. In the plain form the upgrade fails from revision 1, where the table is not
   there yet; in the guarded form, which SQLite does not know, it succeeds.
   */
  lemma LateTableWitness(dialect: Migrate.Dialect, t: Name, a: Name, b: Name, guarded: bool, r: nat)
    requires a != b && 1 <= r <= 2
    ensures var pkg := LatePackage(dialect, t, [Migrate.AddColumn(t, b, guarded)], {a, b});
            var db := Migrate.Database(LateHistory(t, {a}, {a, b})[r], Some(Migrate.Meta(pkg.version, r)));
            && Migrate.History(pkg, LateHistory(t, {a}, {a, b}))
            && (Migrate.Migrated(pkg, db).Ok? <==> if guarded then dialect.Postgres? else r == 2)
  {
    var ds, last := [Migrate.AddColumn(t, b, guarded)], {a, b};
    AddsColumn(t, a, b, guarded);
    LateIsLate(dialect, t, {a}, ds, last);
    OnlyColumnsDecide(LatePackage(dialect, t, ds, last), LateHistory(t, {a}, last), t, {a}, ds, last, r);
    assert ds[0] in ds;
  }

  /** Replaces column `a` by `b`, with a backfill between. */
  function Backfill(t: Name, a: Name, b: Name): seq<Migrate.Statement> {
    [Migrate.AddColumn(t, b, true), Migrate.UpdateRows({(t, a), (t, b)}), Migrate.DropColumn(t, a, true)]
  }

  lemma BackfillRuns(t: Name, a: Name, b: Name)
    requires a != b
    ensures OnTable(t, {a}, Backfill(t, a, b), {b})
  {
    assert {a} + {b} == {a, b} && {a, b} - {a} == {b};
    ThreeSteps({a}, {a, b}, {a, b}, {b}, Migrate.AddColumn(t, b, true), Migrate.UpdateRows({(t, a), (t, b)}),
               Migrate.DropColumn(t, a, true), t);
  }

  lemma ThreeSteps(c0: set<Name>, c1: set<Name>, c2: set<Name>, c3: set<Name>, d1: Migrate.Statement,
                   d2: Migrate.Statement, d3: Migrate.Statement, t: Name)
    requires Migrate.ColumnsStep(c0, d1, t) == Some(c1) && Migrate.ColumnsStep(c1, d2, t) == Some(c2)
    requires Migrate.ColumnsStep(c2, d3, t) == Some(c3)
    ensures Migrate.ColumnsAfter(c0, [d1, d2, d3], t) == Some(c3)
  {
    Migrate.ColumnsOneMore(c0, [], d1, t);
    Migrate.ColumnsOneMore(c0, [d1], d2, t);
    Migrate.ColumnsOneMore(c0, [d1, d2], d3, t);
    assert [] + [d1] == [d1] && [d1] + [d2] == [d1, d2] && [d1, d2] + [d3] == [d1, d2, d3];
  }

  lemma BackfillNeedsOld(t: Name, a: Name, b: Name)
    requires a != b
    ensures !Migrate.AlikeWhereNeeded({a}, {b}, Backfill(t, a, b), t)
  {
    var ds := Backfill(t, a, b);
    assert a in {a} + {b} && Migrate.Needs(ds[1], t, a) && !Migrate.Settled(ds[..1], t, a);
  }

  /** Guards do not help a backfill from a column that is gone: it fails from revision 1, not from revision 2. */
  lemma BackfillWitness(t: Name, a: Name, b: Name, r: nat)
    requires a != b && 1 <= r <= 2
    ensures var pkg := LatePackage(Migrate.Postgres, t, Backfill(t, a, b), {b});
            var db := Migrate.Database(LateHistory(t, {a}, {b})[r], Some(Migrate.Meta(pkg.version, r)));
            Migrate.History(pkg, LateHistory(t, {a}, {b})) && (Migrate.Migrated(pkg, db).Ok? <==> r == 2)
  {
    var ds := Backfill(t, a, b);
    BackfillRuns(t, a, b);
    BackfillNeedsOld(t, a, b);
    LateIsLate(Migrate.Postgres, t, {a}, ds, {b});
    OnlyColumnsDecide(LatePackage(Migrate.Postgres, t, ds, {b}), LateHistory(t, {a}, {b}), t, {a}, ds, {b}, r);
  }

  // ----- A view the package has no name for -----

  function ShrinkFiles(t: Name, v: Name, a: Name): seq<Migrate.File> {
    [Migrate.SchemaFile(t, {a}, []), Migrate.ViewFile(v, Migrate.View(v, {t}, {}))]
  }

  /** Column `b` of `t` goes in revision 2; the package also has a view `v` of `t`. */
  function ShrinkPackage(dialect: Migrate.Dialect, t: Name, v: Name, a: Name, b: Name): Migrate.Package {
    Migrate.Package("v1", 2, dialect, ShrinkFiles(t, v, a), map[1 := [Migrate.DropColumn(t, b, false)]])
  }

  function ShrinkHistory(t: Name, v: Name, a: Name, b: Name): seq<Migrate.Shape> {
    [Migrate.NO_SHAPE, WithTable(t, {a, b}), WithTable(t, {a}).(views := map[v := Migrate.View(v, {t}, {})])]
  }

  /** The view of the package, and a view `w` that reads it or the column. */
  function WithForeign(t: Name, v: Name, w: Name, b: Name, ofView: bool): map<Name, Migrate.View> {
    map[v := Migrate.View(v, {t}, {}),
        w := if ofView then Migrate.View(w, {v}, {}) else Migrate.View(w, {t}, {(t, b)})]
  }

  lemma TwoFiles(t: Name, v: Name, a: Name)
    ensures var files := ShrinkFiles(t, v, a);
            && Migrate.TablesIn(files) == {t} && Migrate.IndexesIn(files) == {} && Migrate.ViewsIn(files) == {v}
            && Migrate.InOrder(WithTable(t, {a}).(views := map[v := Migrate.View(v, {t}, {})]), files)
  {
    OneFile(t, {a});
    var files, first := ShrinkFiles(t, v, a), [Migrate.SchemaFile(t, {a}, [])];
    var f := WithTable(t, {a}).(views := map[v := Migrate.View(v, {t}, {})]);
    assert files[..1] == first && first[..0] == [];
    assert Migrate.InOrder(f, []) && Migrate.InOrder(f, first);
  }

  lemma ShrinkIsHistory(dialect: Migrate.Dialect, t: Name, v: Name, a: Name, b: Name)
    requires a != b && t != v
    ensures Migrate.History(ShrinkPackage(dialect, t, v, a, b), ShrinkHistory(t, v, a, b))
  {
    TwoFiles(t, v, a);
    var ds := [Migrate.DropColumn(t, b, false)];
    Migrate.ColumnsOneMore({a, b}, [], ds[0], t);
    assert [] + [ds[0]] == ds && {a, b} - {b} == {a};
    assert Migrate.Kept(dialect, ds, map[]) == map[];
    assert Migrate.DeltaIsDifference(dialect, ShrinkHistory(t, v, a, b)[1], ds, ShrinkHistory(t, v, a, b)[2]);
  }

  lemma ReadsOnlyTheTable(t: Name, v: Name, w: Name, b: Name, p: seq<Name>)
    requires t != v && v != w && t != w
    requires Migrate.ReadingChain(WithForeign(t, v, w, b, false), p) && p[|p| - 1] == w
    ensures p[0] != v
  {
    if |p| > 1 {
      assert p[|p| - 2] in WithForeign(t, v, w, b, false)[w].sources;
    }
  }

  lemma ReadsThePackage(t: Name, v: Name, w: Name, b: Name, ofView: bool)
    requires t != v && v != w && t != w
    ensures Migrate.ReadsThrough(WithForeign(t, v, w, b, ofView), w, {v}) <==> ofView
  {
    if ofView {
      assert Migrate.ReadingChain(WithForeign(t, v, w, b, ofView), [v, w]);
    } else {
      forall p | Migrate.ReadingChain(WithForeign(t, v, w, b, false), p) && p[|p| - 1] == w
        ensures p[0] != v
      {
        ReadsOnlyTheTable(t, v, w, b, p);
      }
    }
  }

  /** The view `w` outlives step 1 unless the cascade takes it. */
  lemma ForeignSurvives(pkg: Migrate.Package, t: Name, v: Name, w: Name, b: Name, ofView: bool)
    requires t != v && v != w && t != w && Migrate.ViewsIn(pkg.files) == {v}
    ensures var views := WithForeign(t, v, w, b, ofView);
            Migrate.Survivors(pkg, views) == if ofView && pkg.dialect.Postgres? then map[] else map[w := views[w]]
  {
    var views := WithForeign(t, v, w, b, ofView);
    ReadsThePackage(t, v, w, b, ofView);
    assert {v} * views.Keys == {v};
    forall n
      ensures n in Migrate.Survivors(pkg, views) <==> n == w && !(ofView && pkg.dialect.Postgres?)
      ensures n in Migrate.Survivors(pkg, views) ==> Migrate.Survivors(pkg, views)[n] == views[n]
    {
      Migrate.SurvivorsAre(pkg, views, n);
    }
  }

  /** The view `w` is in the way of the dropped column unless step 1 has taken it. */
  lemma ForeignInTheWay(pkg: Migrate.Package, t: Name, v: Name, w: Name, b: Name, ofView: bool, x: Migrate.Shape)
    requires t != v && v != w && t != w && Migrate.ViewsIn(pkg.files) == {v} && v !in x.tables
    requires x.views == Migrate.Survivors(pkg, WithForeign(t, v, w, b, ofView))
    ensures Migrate.NothingInTheWay(pkg.dialect, x, [Migrate.DropColumn(t, b, false)])
            <==> ofView && pkg.dialect.Postgres?
  {
    ForeignSurvives(pkg, t, v, w, b, ofView);
    var ds := [Migrate.DropColumn(t, b, false)];
    var told := Migrate.Told(pkg.dialect, x, ds[..0]);
    if !ofView {
      assert (t, b) in told.views[w].columns;
      assert Migrate.ColumnRead(told.views, t, b);
    } else if pkg.dialect.Sqlite? {
      assert v in told.views[w].sources && !Migrate.Resolves(told, told.views[w]);
    }
    assert Migrate.InTheWay(pkg.dialect, told, ds[0]) <==> !(ofView && pkg.dialect.Postgres?);
  }

  lemma ShrinkStepTwo(pkg: Migrate.Package, h: seq<Migrate.Shape>, s: Migrate.Shape, v: Name)
    requires Migrate.History(pkg, h) && v !in s.tables && v in h[pkg.revision].views
    ensures var x := Migrate.StepTwo(pkg, s);
            x.Ok? && x.value.views == Migrate.Survivors(pkg, s.views) && v !in x.value.tables
  {
    Migrate.MissingTablesCreated(pkg, h, s.(views := Migrate.Survivors(pkg, s.views)));
  }

  /** What matters of such a package and its history. */
  ghost predicate Shrinks(pkg: Migrate.Package, h: seq<Migrate.Shape>, t: Name, v: Name, a: Name, b: Name) {
    && Migrate.History(pkg, h) && pkg.revision == 2 && Migrate.ViewsIn(pkg.files) == {v}
    && h[1] == WithTable(t, {a, b}) && h[2].tables == map[t := {a}] && h[2].indexes == map[] && v in h[2].views
    && Migrate.DeltasBetween(pkg, 1, 2) == [Migrate.DropColumn(t, b, false)]
  }

  lemma ShrinkShrinks(dialect: Migrate.Dialect, t: Name, v: Name, a: Name, b: Name)
    requires a != b && t != v
    ensures Shrinks(ShrinkPackage(dialect, t, v, a, b), ShrinkHistory(t, v, a, b), t, v, a, b)
  {
    ShrinkIsHistory(dialect, t, v, a, b);
    TwoFiles(t, v, a);
    assert Migrate.DeltasBetween(ShrinkPackage(dialect, t, v, a, b), 1, 1) == [];
  }

  lemma ShrinkOutcome(pkg: Migrate.Package, h: seq<Migrate.Shape>, t: Name, v: Name, w: Name, a: Name, b: Name,
                      ofView: bool)
    requires Shrinks(pkg, h, t, v, a, b) && t != v && v != w && t != w
    ensures var s := h[1].(views := WithForeign(t, v, w, b, ofView));
            var m := Migrate.Migrated(pkg, Migrate.Database(s, Some(Migrate.Meta(pkg.version, 1))));
            && (m.Ok? <==> ofView && pkg.dialect.Postgres?)
            && (m.Ok? ==> m.value.1.shape == h[2])
  {
    var s := h[1].(views := WithForeign(t, v, w, b, ofView));
    Migrate.NothingElseNothingLeft(pkg, h, 1, s);
    ShrinkStepTwo(pkg, h, s, v);
    ForeignInTheWay(pkg, t, v, w, b, ofView, Migrate.StepTwo(pkg, s).value);
    ForeignSurvives(pkg, t, v, w, b, ofView);
    Migrate.UpgradeReachesFresh(pkg, h, 1, Migrate.Database(s, Some(Migrate.Meta(pkg.version, 1))));
  }

  /**
   A view `w` that the package does not own. If it reads the dropped column, it stops the upgrade. If it reads a
   view of the package, it stops it too on SQLite; on PostgreSQL it goes with that view, without a word.
   */
  lemma ForeignViewWitness(dialect: Migrate.Dialect, t: Name, v: Name, w: Name, a: Name, b: Name, ofView: bool)
    requires a != b && t != v && v != w && t != w
    ensures Migrate.History(ShrinkPackage(dialect, t, v, a, b), ShrinkHistory(t, v, a, b))
    ensures var pkg, h := ShrinkPackage(dialect, t, v, a, b), ShrinkHistory(t, v, a, b);
            var s := h[1].(views := WithForeign(t, v, w, b, ofView));
            var m := Migrate.Migrated(pkg, Migrate.Database(s, Some(Migrate.Meta(pkg.version, 1))));
            && (m.Ok? <==> ofView && dialect.Postgres?)
            && (m.Ok? ==> w in s.views && w !in m.value.1.shape.views)
  {
    ShrinkShrinks(dialect, t, v, a, b);
    ShrinkOutcome(ShrinkPackage(dialect, t, v, a, b), ShrinkHistory(t, v, a, b), t, v, w, a, b, ofView);
  }

  // ----- Dropping an index that is not there -----

  /** One table with one index, dropped by the delta to revision 3; `early`: the delta to revision 2 drops it too. */
  function DropPackage(dialect: Migrate.Dialect, t: Name, a: Name, n: Name, early: bool, ifExists: bool)
    : Migrate.Package
  {
    Migrate.Package("v1", 3, dialect, [Migrate.SchemaFile(t, {a}, [])],
                    map[1 := if early then [Migrate.DropIndex(n, ifExists)] else [],
                        2 := [Migrate.DropIndex(n, ifExists)]])
  }

  function Indexed(t: Name, a: Name, n: Name): Migrate.Shape {
    WithTable(t, {a}).(indexes := map[n := Migrate.Index(t, {a}, n)])
  }

  /** The index is there from revision 2 on, with its table; or from 1 on, and made anew in 2. */
  function DropHistory(t: Name, a: Name, n: Name, early: bool): seq<Migrate.Shape> {
    [Migrate.NO_SHAPE, if early then Indexed(t, a, n) else Migrate.NO_SHAPE, Indexed(t, a, n), WithTable(t, {a})]
  }

  lemma DropIsDifference(dialect: Migrate.Dialect, t: Name, a: Name, n: Name, after: Migrate.Shape, ifExists: bool)
    requires after.tables == Indexed(t, a, n).tables
    ensures Migrate.DeltaIsDifference(dialect, Indexed(t, a, n), [Migrate.DropIndex(n, ifExists)], after)
  {
    var ds, before := [Migrate.DropIndex(n, ifExists)], Indexed(t, a, n);
    Migrate.UntouchedColumns({a}, ds, t);
    assert Migrate.Takes(dialect, ds[0], n, before.indexes[n]);
    assert Migrate.Kept(dialect, ds, before.indexes) == map[];
  }

  /** What matters of such a package and its history. */
  ghost predicate DropsTwice(pkg: Migrate.Package, h: seq<Migrate.Shape>, n: Name, early: bool, ifExists: bool) {
    var d := Migrate.DropIndex(n, ifExists);
    && Migrate.History(pkg, h) && pkg.revision == 3 && h[1].views == map[]
    && Migrate.DeltasBetween(pkg, 1, 3) == (if early then [d, d] else [d])
    && Migrate.StepTwo(pkg, h[1]).Ok? && (n in Migrate.StepTwo(pkg, h[1]).value.indexes <==> early)
  }

  lemma DropIsHistory(dialect: Migrate.Dialect, t: Name, a: Name, n: Name, early: bool, ifExists: bool)
    ensures Migrate.History(DropPackage(dialect, t, a, n, early, ifExists), DropHistory(t, a, n, early))
  {
    var pkg, h := DropPackage(dialect, t, a, n, early, ifExists), DropHistory(t, a, n, early);
    OneFile(t, {a});
    assert Migrate.Packaged(pkg, h[3]);
    DropIsDifference(dialect, t, a, n, h[3], ifExists);
    DropIsDifference(dialect, t, a, n, h[2], ifExists);
    if !early {
      assert Migrate.DeltaIsDifference(dialect, h[1], [], h[2]);
    }
  }

  lemma DropDeltas(dialect: Migrate.Dialect, t: Name, a: Name, n: Name, early: bool, ifExists: bool)
    ensures var d := Migrate.DropIndex(n, ifExists);
            Migrate.DeltasBetween(DropPackage(dialect, t, a, n, early, ifExists), 1, 3)
            == if early then [d, d] else [d]
  {
    var pkg, d := DropPackage(dialect, t, a, n, early, ifExists), Migrate.DropIndex(n, ifExists);
    assert Migrate.DeltasBetween(pkg, 1, 1) == [];
    assert Migrate.DeltasBetween(pkg, 1, 2) == if early then [d] else [];
    assert [d] + [d] == [d, d];
  }

  lemma DropStepTwo(dialect: Migrate.Dialect, t: Name, a: Name, n: Name, early: bool, ifExists: bool)
    ensures var x := Migrate.StepTwo(DropPackage(dialect, t, a, n, early, ifExists), DropHistory(t, a, n, early)[1]);
            x.Ok? && (n in x.value.indexes <==> early)
  {
    var pkg, s := DropPackage(dialect, t, a, n, early, ifExists), DropHistory(t, a, n, early)[1];
    var files := pkg.files;
    NoViewsSurvive(pkg);
    assert s.(views := map[]) == s && files[..0] == [];
    assert Migrate.CreateMissing(pkg, s, []) == Ok(s);
    assert Migrate.LateIndexes([], s.tables.Keys) == {} && Migrate.LateIndexes(files, s.tables.Keys) == {};
    assert Migrate.CreateMissing(pkg, s, files).Ok?;
    Migrate.StepTwoAdds(pkg, s, files);
  }

  lemma DropsFoundOnlyIfExists(dialect: Migrate.Dialect, indexes: map<Name, Migrate.Index>, n: Name,
                               early: bool, ifExists: bool)
    requires n in indexes <==> early
    ensures var d := Migrate.DropIndex(n, ifExists);
            Migrate.DropsFound(dialect, indexes, if early then [d, d] else [d]) <==> ifExists
  {
    var d := Migrate.DropIndex(n, ifExists);
    var ds := if early then [d, d] else [d];
    if !ifExists {
      var i := if early then 1 else 0;
      assert ds[i] == d && Migrate.PlainDrop(d);
      if early {
        assert Migrate.Takes(dialect, ds[..1][0], n, indexes[n]);
      }
      assert n !in Migrate.Kept(dialect, ds[..i], indexes);
    }
  }

  lemma NoColumnsInTheWay(dialect: Migrate.Dialect, x: Migrate.Shape, ds: seq<Migrate.Statement>)
    requires forall d | d in ds :: d.DropIndex?
    ensures Migrate.NothingInTheWay(dialect, x, ds)
  {
    assert forall i | 0 <= i < |ds| :: ds[i] in ds;
  }

  lemma DropOutcome(pkg: Migrate.Package, h: seq<Migrate.Shape>, n: Name, early: bool, ifExists: bool)
    requires DropsTwice(pkg, h, n, early, ifExists)
    ensures Migrate.Migrated(pkg, Migrate.Database(h[1], Some(Migrate.Meta(pkg.version, 1)))).Ok? <==> ifExists
  {
    var x, ds := Migrate.StepTwo(pkg, h[1]).value, Migrate.DeltasBetween(pkg, 1, 3);
    OwnUpgrade(pkg, h, 1);
    DropsFoundOnlyIfExists(pkg.dialect, x.indexes, n, early, ifExists);
    NoColumnsInTheWay(pkg.dialect, x, ds);
    DropsFit(pkg, h);
  }

  lemma DropsFit(pkg: Migrate.Package, h: seq<Migrate.Shape>)
    requires Migrate.History(pkg, h) && pkg.revision == 3
    requires forall d | d in Migrate.DeltasBetween(pkg, 1, 3) :: d.DropIndex?
    ensures Migrate.LateTablesFit(pkg, h, 1)
  {
    Migrate.GuardedAlwaysFits(pkg, h, 1);
  }

  /**
   From revision 1 a plain drop fails: where the table came later, as step 2 made it without the index; and
   where two deltas drop the index, as only step 4 makes it anew. With `IF EXISTS` both succeed.
   */
  lemma DropWitness(dialect: Migrate.Dialect, t: Name, a: Name, n: Name, early: bool, ifExists: bool)
    ensures Migrate.History(DropPackage(dialect, t, a, n, early, ifExists), DropHistory(t, a, n, early))
    ensures var pkg := DropPackage(dialect, t, a, n, early, ifExists);
            var db := Migrate.Database(DropHistory(t, a, n, early)[1], Some(Migrate.Meta(pkg.version, 1)));
            Migrate.Migrated(pkg, db).Ok? <==> ifExists
  {
    DropIsHistory(dialect, t, a, n, early, ifExists);
    DropDeltas(dialect, t, a, n, early, ifExists);
    DropStepTwo(dialect, t, a, n, early, ifExists);
    DropOutcome(DropPackage(dialect, t, a, n, early, ifExists), DropHistory(t, a, n, early), n, early, ifExists);
  }
}
