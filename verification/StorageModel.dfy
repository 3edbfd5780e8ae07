/**
 The storage/v1 tables and, as one pure function, what a fault-free `Store.ingest` does to them.
 Table constraints follow storage/v1/sqlite/schema and storage/v1/sqlite/queries.
 */
module StorageModel {
  import opened Wrappers
  import opened StorageIdentity

  // ----- Rows and tables -----

  datatype Binding = Binding(
    scope: Str,
    subject: Option<Str>,
    run: Option<Str>,
    layer: Option<Str>,
    supersedes: Option<Str>,
    role: Option<Str>,
    product: Option<Str>,
    commit: Option<Str>)

  datatype Row = Row(digest: Str, artifact: Str, binding: Binding)

  /** Every projection table is keyed by the binding and one item key within it. */
  datatype ProjectionKey = ProjectionKey(table: Str, bindingId: Str, item: Str)

  datatype Item = Item(table: Str, item: Str, values: Str)

  datatype Db = Db(
    evidence: map<Str, nat>,
    bindings: map<Str, Row>,
    locations: set<(Str, Str)>,
    projections: map<ProjectionKey, Str>,
    products: set<Str>)

  const EMPTY_DB := Db(map[], map[], {}, map[], {})

  // ----- What the package and the caller supply -----

  datatype Profile = Profile(roles: set<Str>, required: seq<Field>)

  /**
   The hash, the storage profiles, the verdict of the JSON parser and schema validator,
   and the projection of a document (`None` where computing it raises).
   */
  datatype Env = Env(
    sha: seq<byte> -> Str,
    profiles: map<Str, Profile>,
    accepts: (Str, seq<byte>) -> bool,
    project: (Str, seq<byte>, Binding) -> Option<seq<Item>>)

  datatype Request = Request(artifact: Str, payload: seq<byte>, binding: Binding, references: seq<Str>)

  datatype Receipt = Receipt(digest: Str, bindingId: Str, alreadyBound: bool)

  datatype Constraint = ProductRepoForeignKey | OneSuccessor | OneCumulativeRoot

  datatype Error =
    | NotIdle
    | UnknownArtifact
    | InvalidDocument
    | EmptyScope
    | BadField(fieldError: FieldError)
    | RoleNotAllowed
    | MissingField(missing: Field)
    | EmptyReference
    | IdentityCollision
    | SelfSupersession
    | PredecessorNotFound
    | ContextMismatch
    | Violates(constraint: Constraint)
    | ProjectionError
    | DriverFault

  predicate IsHex(s: Str) {
    forall i | 0 <= i < |s| :: 0x30 <= s[i] <= 0x39 || 0x61 <= s[i] <= 0x66
  }

  /** `hexdigest()` only ever returns hexadecimal digits, and schema names are plain text. */
  ghost predicate WellFormed(env: Env) {
    (forall bytes :: IsHex(env.sha(bytes)))
    && forall artifact | artifact in env.profiles :: Clean(artifact)
  }

  // ----- Validation, before any transaction -----

  function ValueOf(b: Binding, field: Field): Option<Str> {
    match field
    case ScopeId => Some(b.scope)
    case SubjectId => b.subject
    case RunId => b.run
    case LayerId => b.layer
    case SupersedesBindingId => b.supersedes
    case Role => b.role
    case ProductRepoId => b.product
    case CommitSha => b.commit
    case _ => None
  }

  function BindingFields(b: Binding): seq<(Field, Option<Str>)> {
    [(ScopeId, Some(b.scope)), (SubjectId, b.subject), (RunId, b.run), (LayerId, b.layer),
     (SupersedesBindingId, b.supersedes), (Role, b.role), (ProductRepoId, b.product),
     (CommitSha, b.commit)]
  }

  function FirstMissing(b: Binding, required: seq<Field>): Option<Field> {
    if required == [] then None
    else if ValueOf(b, required[0]).None? then Some(required[0])
    else FirstMissing(b, required[1..])
  }

  function ValidateBinding(env: Env, artifact: Str, b: Binding): Option<Error>
    requires artifact in env.profiles
  {
    if b.scope == [] then Some(EmptyScope)
    else
      match FirstBadField(BindingFields(b))
      case Some(e) => Some(BadField(e))
      case None =>
        if b.role.Some? && b.role.value !in env.profiles[artifact].roles then Some(RoleNotAllowed)
        else
          match FirstMissing(b, env.profiles[artifact].required)
          case Some(field) => Some(MissingField(field))
          case None => None
  }

  /** What is wrong with one reference. */
  function ReferenceError(reference: Str): Option<Error> {
    if reference == [] then Some(EmptyReference)
    else
      match IdentifierBytes(References, reference)
      case Err(e) => Some(BadField(e))
      case Ok(_) => None
  }

  function FirstReferenceError(references: seq<Str>): Option<Error> {
    if references == [] then None
    else
      match ReferenceError(references[0])
      case Some(e) => Some(e)
      case None => FirstReferenceError(references[1..])
  }

  /** Each element once, where it first occurs. */
  function Deduplicated(references: seq<Str>): seq<Str> {
    if references == [] then []
    else
      var earlier := Deduplicated(references[..|references| - 1]);
      var last := references[|references| - 1];
      if last in earlier then earlier else earlier + [last]
  }

  /** The locations to register, or the first reason nothing may be written. */
  function Validate(env: Env, req: Request): Result<seq<Str>, Error> {
    if req.artifact !in env.profiles then Err(UnknownArtifact)
    else if !env.accepts(req.artifact, req.payload) then Err(InvalidDocument)
    else
      match ValidateBinding(env, req.artifact, req.binding)
      case Some(e) => Err(e)
      case None =>
        match FirstReferenceError(req.references)
        case Some(e) => Err(e)
        case None => Ok(Deduplicated(req.references))
  }

  // ----- Identity -----

  function ContextOf(digest: Str, artifact: Str, b: Binding): Context {
    Context(digest, artifact, b.scope, b.subject, b.run, b.layer, b.role)
  }

  function BindingId(env: Env, digest: Str, artifact: Str, b: Binding): Str {
    env.sha(Encoding(ContextOf(digest, artifact, b)))
  }

  function RowOf(env: Env, req: Request): Row {
    Row(env.sha(req.payload), req.artifact, req.binding)
  }

  function IdOf(env: Env, req: Request): Str {
    BindingId(env, env.sha(req.payload), req.artifact, req.binding)
  }

  /** What a supersession must keep. */
  function Line(row: Row): (Str, Str, Option<Str>, Option<Str>, Option<Str>, Option<Str>, Option<Str>) {
    (row.artifact, row.binding.scope, row.binding.subject, row.binding.run, row.binding.layer,
     row.binding.role, row.binding.product)
  }

  // ----- Statements -----

  function PredecessorError(db: Db, id: Str, row: Row): Option<Error> {
    match row.binding.supersedes
    case None => None
    case Some(predecessor) =>
      if predecessor == id then Some(SelfSupersession)
      else if predecessor !in db.bindings then Some(PredecessorNotFound)
      else if Line(db.bindings[predecessor]) != Line(row) then Some(ContextMismatch)
      else None
  }

  /** The text of the literals in the partial index. */
  const REPORT: Str := [0x72, 0x65, 0x70, 0x6F, 0x72, 0x74]
  const CUMULATIVE: Str := [0x63, 0x75, 0x6D, 0x75, 0x6C, 0x61, 0x74, 0x69, 0x76, 0x65]

  /** The rows idx_artifact_binding_cumulative_root covers. */
  predicate CumulativeRoot(row: Row) {
    row.artifact == REPORT && row.binding.role == Some(CUMULATIVE)
    && row.binding.supersedes == None && row.binding.product.Some?
  }

  /** Equal index keys; in SQL a NULL run_id equals nothing, not even another NULL. */
  predicate SameRootKey(a: Row, b: Row) {
    CumulativeRoot(a) && CumulativeRoot(b)
    && a.binding.scope == b.binding.scope && a.binding.product == b.binding.product
    && a.binding.run.Some? && a.binding.run == b.binding.run
  }

  predicate SameSuccessorKey(a: Row, b: Row) {
    a.binding.supersedes.Some? && a.binding.supersedes == b.binding.supersedes
  }

  function InsertEvidence(db: Db, digest: Str, size: nat): Db {
    if digest in db.evidence then db else db.(evidence := db.evidence[digest := size])
  }

  /** `INSERT ... ON CONFLICT (binding_id) DO NOTHING` under the table's other constraints. */
  function InsertBinding(db: Db, id: Str, row: Row): Result<Db, Error> {
    if id in db.bindings then Ok(db)
    else if exists other | other in db.bindings :: SameSuccessorKey(db.bindings[other], row) then
      Err(Violates(OneSuccessor))
    else if exists other | other in db.bindings :: SameRootKey(db.bindings[other], row) then
      Err(Violates(OneCumulativeRoot))
    else if row.binding.product.Some? && row.binding.product.value !in db.products then
      Err(Violates(ProductRepoForeignKey))
    else
      Ok(db.(bindings := db.bindings[id := row]))
  }

  function InsertLocation(db: Db, id: Str, reference: Str): Db {
    db.(locations := db.locations + {(id, reference)})
  }

  function RegisterLocations(db: Db, id: Str, references: seq<Str>): Db {
    db.(locations := db.locations + (set r | r in references :: (id, r)))
  }

  function InsertItem(rows: map<ProjectionKey, Str>, id: Str, item: Item): map<ProjectionKey, Str> {
    var key := ProjectionKey(item.table, id, item.item);
    if key in rows then rows else rows[key := item.values]
  }

  function InsertItems(rows: map<ProjectionKey, Str>, id: Str, items: seq<Item>): map<ProjectionKey, Str> {
    if items == [] then rows
    else InsertItem(InsertItems(rows, id, items[..|items| - 1]), id, items[|items| - 1])
  }

  function Project(db: Db, id: Str, items: seq<Item>): Db {
    db.(projections := InsertItems(db.projections, id, items))
  }

  // ----- The whole call -----

  /** The transaction body, given the validated locations. */
  function Transact(env: Env, db: Db, req: Request, locations: seq<Str>): Result<(Receipt, Db), Error> {
    var id, row := IdOf(env, req), RowOf(env, req);
    if id in db.bindings then
      if db.bindings[id] != row then Err(IdentityCollision)
      else Ok((Receipt(row.digest, id, true), RegisterLocations(db, id, locations)))
    else
      match PredecessorError(db, id, row)
      case Some(e) => Err(e)
      case None =>
        var db1 := InsertEvidence(db, row.digest, |req.payload|);
        var db2 :- InsertBinding(db1, id, row);
        var db3 := RegisterLocations(db2, id, locations);
        match env.project(req.artifact, req.payload, req.binding)
        case None => Err(ProjectionError)
        case Some(items) => Ok((Receipt(row.digest, id, false), Project(db3, id, items)))
  }

  /** `Store.ingest` on an idle connection when no statement faults. */
  function Ingest(env: Env, db: Db, req: Request): Result<(Receipt, Db), Error> {
    var locations :- Validate(env, req);
    Transact(env, db, req, locations)
  }

  // ----- What the statements add -----

  /** Projection adds rows of the given binding only, and never changes one that is there. */
  lemma {:induction false} ProjectAdds(rows: map<ProjectionKey, Str>, id: Str, items: seq<Item>)
    ensures forall k | k in rows ::
              k in InsertItems(rows, id, items) && InsertItems(rows, id, items)[k] == rows[k]
    ensures forall k | k in InsertItems(rows, id, items) && k !in rows :: k.bindingId == id
  {
    if items != [] {
      ProjectAdds(rows, id, items[..|items| - 1]);
    }
  }

  /** No earlier item has the table and the item key of this one. */
  ghost predicate FirstOfKey(items: seq<Item>, j: nat)
    requires j < |items|
  {
    forall i | 0 <= i < j :: items[i].table != items[j].table || items[i].item != items[j].item
  }

  /** Rows stay, every item has a row, every new row is one of an item, and of items with one key the first counts. */
  ghost predicate Projected(rows: map<ProjectionKey, Str>, id: Str, items: seq<Item>, after: map<ProjectionKey, Str>) {
    && (forall k | k in rows :: k in after && after[k] == rows[k])
    && (forall j | 0 <= j < |items| :: ProjectionKey(items[j].table, id, items[j].item) in after)
    && (forall k | k in after && k !in rows :: OfItem(id, items, k))
    && (forall j | 0 <= j < |items| && FirstOfKey(items, j)
                   && ProjectionKey(items[j].table, id, items[j].item) !in rows ::
          after[ProjectionKey(items[j].table, id, items[j].item)] == items[j].values)
  }

  /** The key of some item. */
  ghost predicate OfItem(id: Str, items: seq<Item>, k: ProjectionKey) {
    exists j :: 0 <= j < |items| && k == ProjectionKey(items[j].table, id, items[j].item)
  }

  lemma OfOneMore(id: Str, init: seq<Item>, last: Item, k: ProjectionKey)
    ensures OfItem(id, init + [last], k) <==> OfItem(id, init, k) || k == ProjectionKey(last.table, id, last.item)
  {
    var items := init + [last];
    assert items[|init|] == last && forall j | 0 <= j < |init| :: items[j] == init[j];
  }

  lemma {:induction false} ItemsProjected(rows: map<ProjectionKey, Str>, id: Str, items: seq<Item>)
    ensures Projected(rows, id, items, InsertItems(rows, id, items))
  {
    if items != [] {
      var init, last := items[..|items| - 1], items[|items| - 1];
      ItemsProjected(rows, id, init);
      assert items == init + [last];
      OneMoreProjected(rows, id, init, last, InsertItems(rows, id, init));
    }
  }

  lemma OneMoreProjected(rows: map<ProjectionKey, Str>, id: Str, init: seq<Item>, last: Item,
                         before: map<ProjectionKey, Str>)
    requires Projected(rows, id, init, before)
    ensures Projected(rows, id, init + [last], InsertItem(before, id, last))
  {
    var items, after, key := init + [last], InsertItem(before, id, last), ProjectionKey(last.table, id, last.item);
    assert forall j | 0 <= j < |init| :: items[j] == init[j];
    assert forall j | 0 <= j < |init| :: FirstOfKey(items, j) <==> FirstOfKey(init, j);
    forall k | k in after && k !in rows
      ensures OfItem(id, items, k)
    {
      OfOneMore(id, init, last, k);
    }
    assert items[|init|] == last;
    if FirstOfKey(items, |init|) && key !in rows {
      assert !OfItem(id, init, key);
    }
  }

  /** Where a binding has no rows yet, projecting it is independent of the rows of others. */
  lemma {:induction false} ProjectOnto(rows: map<ProjectionKey, Str>, id: Str, items: seq<Item>)
    requires forall k | k in rows :: k.bindingId != id
    ensures InsertItems(rows, id, items) == rows + InsertItems(map[], id, items)
  {
    if items != [] {
      var init, last := items[..|items| - 1], items[|items| - 1];
      ProjectOnto(rows, id, init);
      ProjectAdds(map[], id, init);
      var key := ProjectionKey(last.table, id, last.item);
      assert key in InsertItems(rows, id, init) <==> key in InsertItems(map[], id, init);
    }
  }

  function FirstIndex(s: seq<Str>, x: Str): (i: nat)
    requires x in s
    ensures i < |s| && s[i] == x && x !in s[..i]
  {
    if s[0] == x then 0 else 1 + FirstIndex(s[1..], x)
  }

  /** Deduplication keeps exactly the given strings, once each, in order of first occurrence. */
  lemma {:induction false} DeduplicatedInOrder(references: seq<Str>)
    ensures forall r :: r in Deduplicated(references) <==> r in references
    ensures forall i, j | 0 <= i < j < |Deduplicated(references)| ::
              FirstIndex(references, Deduplicated(references)[i])
              < FirstIndex(references, Deduplicated(references)[j])
  {
    if references != [] {
      var init, last := references[..|references| - 1], references[|references| - 1];
      DeduplicatedInOrder(init);
      assert references == init + [last];
      forall x | x in init
        ensures FirstIndex(references, x) == FirstIndex(init, x)
      {
        FirstIndexUnique(references, x, FirstIndex(init, x));
      }
      var result := Deduplicated(references);
      forall i, j | 0 <= i < j < |result|
        ensures FirstIndex(references, result[i]) < FirstIndex(references, result[j])
      {
        if last !in Deduplicated(init) && j == |result| - 1 {
          assert result[i] in init;
          FirstIndexUnique(references, last, |init|);
        }
      }
    }
  }

  lemma FirstIndexUnique(s: seq<Str>, x: Str, i: nat)
    requires i < |s| && s[i] == x && x !in s[..i]
    ensures FirstIndex(s, x) == i
  {
    var k := FirstIndex(s, x);
    assert forall j | 0 <= j < i :: s[j] == s[..i][j];
    assert forall j | 0 <= j < k :: s[j] == s[..k][j];
  }

  /** A validated request always has a binding identity. */
  lemma IdentityAlwaysEncodes(env: Env, req: Request)
    requires WellFormed(env) && Validate(env, req).Ok?
    ensures CleanContext(ContextOf(env.sha(req.payload), req.artifact, req.binding))
  {
    var fields := BindingFields(req.binding);
    FirstBadFieldSound(fields);
    var c := ContextOf(env.sha(req.payload), req.artifact, req.binding);
    assert fields[0].1 == Some(c.scope) && fields[1].1 == c.subject && fields[2].1 == c.run
        && fields[3].1 == c.layer && fields[5].1 == c.role;
    CleanFields(c);
  }
}
