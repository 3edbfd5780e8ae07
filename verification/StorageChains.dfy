/**
 What every run of ingest calls keeps: bindings form finite chains with one tip each.
 */
module StorageChains {
  import opened Wrappers
  import opened StorageIdentity
  import opened StorageModel

  // ----- Runs -----

  /** One thing that happens to a database: a call, a call that failed on a fault, a registration. */
  datatype Event = Submit(req: Request) | Faulted(req: Request) | RegisterProduct(product: Str)

  function Apply(env: Env, db: Db, e: Event): Db {
    match e
    case Submit(req) => (match Ingest(env, db, req) case Ok((_, after)) => after case Err(_) => db)
    case Faulted(_) => db
    case RegisterProduct(product) => db.(products := db.products + {product})
  }

  function Run(env: Env, events: seq<Event>): Db {
    if events == [] then EMPTY_DB
    else Apply(env, Run(env, events[..|events| - 1]), events[|events| - 1])
  }

  /** Binding ids in the order they were first bound. */
  function Order(env: Env, events: seq<Event>): seq<Str> {
    if events == [] then []
    else
      var init, e := events[..|events| - 1], events[|events| - 1];
      var db := Run(env, init);
      Order(env, init) + Bound(env, db, e)
  }

  function Bound(env: Env, db: Db, e: Event): seq<Str> {
    if e.Submit? && Ingest(env, db, e.req).Ok? && !Ingest(env, db, e.req).value.0.alreadyBound
    then [IdOf(env, e.req)] else []
  }

  // ----- The invariant -----

  ghost predicate Supersedes(db: Db, later: Str, earlier: Str) {
    later in db.bindings && db.bindings[later].binding.supersedes == Some(earlier)
  }

  /** `order` lists the bindings, each after the one it supersedes and in the same line. */
  ghost predicate Linked(db: Db, order: seq<Str>) {
    && (forall i, j | 0 <= i < j < |order| :: order[i] != order[j])
    && (forall id :: id in db.bindings <==> id in order)
    && (forall later, earlier | Supersedes(db, later, earlier) ::
          && earlier in db.bindings
          && FirstIndex(order, earlier) < FirstIndex(order, later)
          && Line(db.bindings[earlier]) == Line(db.bindings[later]))
    && (forall a, b, earlier | Supersedes(db, a, earlier) && Supersedes(db, b, earlier) :: a == b)
  }

  /** The row conditions of the invariant other than the links. */
  ghost predicate RowsSound(env: Env, db: Db) {
    && (forall id | id in db.bindings ::
          && id == BindingId(env, db.bindings[id].digest, db.bindings[id].artifact, db.bindings[id].binding)
          && db.bindings[id].digest in db.evidence
          && (db.bindings[id].binding.product.Some? ==> db.bindings[id].binding.product.value in db.products))
    && (forall l | l in db.locations :: l.0 in db.bindings)
    && (forall k | k in db.projections :: k.bindingId in db.bindings)
  }

  ghost predicate RootsUnique(db: Db) {
    forall a, b | a in db.bindings && b in db.bindings
                  && SameRootKey(db.bindings[a], db.bindings[b]) :: a == b
  }

  ghost predicate Inv(env: Env, db: Db, order: seq<Str>) {
    Linked(db, order) && RowsSound(env, db) && RootsUnique(db)
  }

  /** What a successful call leaves, table by table. */
  ghost predicate Effect(env: Env, db: Db, req: Request, receipt: Receipt, after: Db) {
    var digest, id := env.sha(req.payload), IdOf(env, req);
    var row := Row(digest, req.artifact, req.binding);
    && receipt == Receipt(digest, id, id in db.bindings)
    && after.bindings == db.bindings[id := row]
    && (id in db.bindings ==> db.bindings[id] == row)
    && after.products == db.products
    && after.locations == db.locations + (set r | r in req.references :: (id, r))
    && (if id in db.bindings then
          after.evidence == db.evidence && after.projections == db.projections
        else
          && after.evidence == (if digest in db.evidence then db.evidence else db.evidence[digest := |req.payload|])
          && env.project(req.artifact, req.payload, req.binding).Some?
          && Projected(db.projections, id, env.project(req.artifact, req.payload, req.binding).value,
                       after.projections))
    && (forall k | k in db.projections ::
          k in after.projections && after.projections[k] == db.projections[k])
    && (forall k | k in after.projections && k !in db.projections :: k.bindingId == id)
  }

  lemma LocationsAdded(db: Db, id: Str, references: seq<Str>)
    ensures RegisterLocations(db, id, Deduplicated(references))
            == db.(locations := db.locations + (set r | r in references :: (id, r)))
  {
    DeduplicatedInOrder(references);
    assert (set r | r in Deduplicated(references) :: (id, r)) == (set r | r in references :: (id, r));
  }

  lemma RetryEffect(env: Env, db: Db, req: Request)
    requires Ingest(env, db, req).Ok? && IdOf(env, req) in db.bindings
    ensures Effect(env, db, req, Ingest(env, db, req).value.0, Ingest(env, db, req).value.1)
  {
    LocationsAdded(db, IdOf(env, req), req.references);
    assert db.bindings[IdOf(env, req) := RowOf(env, req)] == db.bindings;
  }

  lemma BindResult(env: Env, db: Db, req: Request)
    requires Ingest(env, db, req).Ok? && IdOf(env, req) !in db.bindings
    ensures env.project(req.artifact, req.payload, req.binding).Some?
    ensures var id := IdOf(env, req);
            Ingest(env, db, req).value == (Receipt(env.sha(req.payload), id, false), Db(
              InsertEvidence(db, env.sha(req.payload), |req.payload|).evidence,
              db.bindings[id := RowOf(env, req)],
              db.locations + (set r | r in req.references :: (id, r)),
              InsertItems(db.projections, id, env.project(req.artifact, req.payload, req.binding).value),
              db.products))
  {
    var id, row := IdOf(env, req), RowOf(env, req);
    var db1 := InsertEvidence(db, row.digest, |req.payload|);
    LocationsAdded(InsertBinding(db1, id, row).value, id, req.references);
  }

  lemma BindEffect(env: Env, db: Db, req: Request)
    requires Ingest(env, db, req).Ok? && IdOf(env, req) !in db.bindings
    ensures Effect(env, db, req, Ingest(env, db, req).value.0, Ingest(env, db, req).value.1)
  {
    BindResult(env, db, req);
    ItemsProjected(db.projections, IdOf(env, req), env.project(req.artifact, req.payload, req.binding).value);
    ProjectAdds(db.projections, IdOf(env, req), env.project(req.artifact, req.payload, req.binding).value);
  }

  lemma IngestEffect(env: Env, db: Db, req: Request)
    requires Ingest(env, db, req).Ok?
    ensures Effect(env, db, req, Ingest(env, db, req).value.0, Ingest(env, db, req).value.1)
  {
    if IdOf(env, req) in db.bindings {
      RetryEffect(env, db, req);
    } else {
      BindEffect(env, db, req);
    }
  }

  /**
   The rows a first binding projects: the new keys are exactly those of its items, and each holds the values of the
   first item with that key.
   */
  lemma FirstBindingProjects(env: Env, db: Db, req: Request, items: seq<Item>, k: ProjectionKey)
    requires RowsSound(env, db) && Ingest(env, db, req).Ok? && IdOf(env, req) !in db.bindings
    requires env.project(req.artifact, req.payload, req.binding) == Some(items) && k !in db.projections
    ensures var after := Ingest(env, db, req).value.1.projections;
            && (k in after <==>
                  exists j :: 0 <= j < |items| && k == ProjectionKey(items[j].table, IdOf(env, req), items[j].item))
            && (forall j | 0 <= j < |items| && k == ProjectionKey(items[j].table, IdOf(env, req), items[j].item)
                           && (forall i | 0 <= i < j ::
                                 items[i].table != items[j].table || items[i].item != items[j].item) ::
                  after[k] == items[j].values)
  {
    IngestEffect(env, db, req);
    assert Projected(db.projections, IdOf(env, req), items, Ingest(env, db, req).value.1.projections);
    forall j | 0 <= j < |items|
               && (forall i | 0 <= i < j :: items[i].table != items[j].table || items[i].item != items[j].item)
      ensures FirstOfKey(items, j)
    {
    }
  }

  lemma NewRowInserted(env: Env, db: Db, req: Request)
    requires Ingest(env, db, req).Ok? && IdOf(env, req) !in db.bindings
    ensures PredecessorError(db, IdOf(env, req), RowOf(env, req)).None?
    ensures InsertBinding(InsertEvidence(db, env.sha(req.payload), |req.payload|), IdOf(env, req), RowOf(env, req)).Ok?
  {
  }

  lemma InsertedRowFits(db: Db, id: Str, row: Row)
    requires id !in db.bindings && InsertBinding(db, id, row).Ok?
    ensures forall other | other in db.bindings ::
              !SameSuccessorKey(db.bindings[other], row) && !SameRootKey(db.bindings[other], row)
    ensures row.binding.product.Some? ==> row.binding.product.value in db.products
  {
  }

  /** A call that binds passed the predecessor check and every unique index. */
  lemma NewBindingChecked(env: Env, db: Db, req: Request)
    requires Ingest(env, db, req).Ok? && IdOf(env, req) !in db.bindings
    ensures PredecessorError(db, IdOf(env, req), RowOf(env, req)).None?
    ensures forall other | other in db.bindings ::
              !SameSuccessorKey(db.bindings[other], RowOf(env, req))
              && !SameRootKey(db.bindings[other], RowOf(env, req))
    ensures req.binding.product.Some? ==> req.binding.product.value in db.products
  {
    NewRowInserted(env, db, req);
    InsertedRowFits(InsertEvidence(db, env.sha(req.payload), |req.payload|), IdOf(env, req), RowOf(env, req));
  }

  /** Appending a new id moves no earlier one. */
  lemma AppendKeepsIndex(order: seq<Str>, id: Str, x: Str)
    requires id !in order && (x in order || x == id)
    ensures FirstIndex(order + [id], x) == if x == id then |order| else FirstIndex(order, x)
  {
    if x == id {
      assert (order + [id])[..|order|] == order;
      FirstIndexUnique(order + [id], x, |order|);
    } else {
      assert (order + [id])[..FirstIndex(order, x)] == order[..FirstIndex(order, x)];
      FirstIndexUnique(order + [id], x, FirstIndex(order, x));
    }
  }

  lemma LinkedStep(db: Db, order: seq<Str>, id: Str, row: Row, after: Db)
    requires Linked(db, order) && id !in db.bindings
    requires after.bindings == db.bindings[id := row]
    requires PredecessorError(db, id, row).None?
    requires forall other | other in db.bindings :: !SameSuccessorKey(db.bindings[other], row)
    ensures Linked(after, order + [id])
  {
    forall later, earlier | Supersedes(after, later, earlier)
      ensures earlier in after.bindings
      ensures FirstIndex(order + [id], earlier) < FirstIndex(order + [id], later)
      ensures Line(after.bindings[earlier]) == Line(after.bindings[later])
    {
      if later != id {
        assert Supersedes(db, later, earlier);
      }
      AppendKeepsIndex(order, id, earlier);
      AppendKeepsIndex(order, id, later);
    }
    forall a, b, earlier | Supersedes(after, a, earlier) && Supersedes(after, b, earlier)
      ensures a == b
    {
      if a != id && b != id {
        assert Supersedes(db, a, earlier) && Supersedes(db, b, earlier);
      }
    }
  }

  lemma SameBindingsLinked(db: Db, order: seq<Str>, after: Db)
    requires Linked(db, order) && after.bindings == db.bindings
    ensures Linked(after, order)
  {
    assert forall a, b :: Supersedes(after, a, b) <==> Supersedes(db, a, b);
  }

  lemma RowsSoundStep(env: Env, db: Db, req: Request)
    requires RowsSound(env, db) && Ingest(env, db, req).Ok?
    ensures RowsSound(env, Ingest(env, db, req).value.1)
  {
    IngestEffect(env, db, req);
    if IdOf(env, req) !in db.bindings {
      NewBindingChecked(env, db, req);
    }
    EffectIsSound(env, db, req, Ingest(env, db, req).value.0, Ingest(env, db, req).value.1);
  }

  lemma EffectIsSound(env: Env, db: Db, req: Request, receipt: Receipt, after: Db)
    requires RowsSound(env, db) && Effect(env, db, req, receipt, after)
    requires IdOf(env, req) !in db.bindings && req.binding.product.Some? ==> req.binding.product.value in db.products
    ensures RowsSound(env, after)
  {
  }

  lemma InvNewBinding(env: Env, db: Db, order: seq<Str>, req: Request)
    requires Inv(env, db, order) && Ingest(env, db, req).Ok? && IdOf(env, req) !in db.bindings
    ensures Inv(env, Ingest(env, db, req).value.1, order + [IdOf(env, req)])
  {
    var id, row := IdOf(env, req), RowOf(env, req);
    var after := Ingest(env, db, req).value.1;
    RowsSoundStep(env, db, req);
    assert after.bindings == db.bindings[id := row] by { IngestEffect(env, db, req); }
    NewBindingChecked(env, db, req);
    LinkedStep(db, order, id, row, after);
    RootsUniqueStep(db, id, row, after);
  }

  lemma InvRetry(env: Env, db: Db, order: seq<Str>, req: Request)
    requires Inv(env, db, order) && Ingest(env, db, req).Ok? && IdOf(env, req) in db.bindings
    ensures Inv(env, Ingest(env, db, req).value.1, order)
  {
    var after := Ingest(env, db, req).value.1;
    RowsSoundStep(env, db, req);
    assert after.bindings == db.bindings by {
      IngestEffect(env, db, req);
      assert db.bindings[IdOf(env, req) := RowOf(env, req)] == db.bindings;
    }
    SameBindingsLinked(db, order, after);
  }

  lemma InvStep(env: Env, db: Db, order: seq<Str>, e: Event)
    requires Inv(env, db, order)
    ensures Inv(env, Apply(env, db, e), order + Bound(env, db, e))
  {
    if e.Submit? && Ingest(env, db, e.req).Ok? {
      assert Ingest(env, db, e.req).value.0.alreadyBound == (IdOf(env, e.req) in db.bindings) by {
        IngestEffect(env, db, e.req);
      }
      if IdOf(env, e.req) in db.bindings {
        InvRetry(env, db, order, e.req);
        assert order + Bound(env, db, e) == order;
      } else {
        InvNewBinding(env, db, order, e.req);
      }
    } else {
      assert order + Bound(env, db, e) == order;
      SameBindingsLinked(db, order, Apply(env, db, e));
    }
  }

  lemma RootsUniqueStep(db: Db, id: Str, row: Row, after: Db)
    requires RootsUnique(db) && after.bindings == db.bindings[id := row]
    requires forall other | other in db.bindings :: !SameRootKey(db.bindings[other], row)
    ensures RootsUnique(after)
  {
    forall a, b | a in after.bindings && b in after.bindings
                  && SameRootKey(after.bindings[a], after.bindings[b])
      ensures a == b
    {
      assert SameRootKey(after.bindings[b], after.bindings[a]);
    }
  }

  /** Every reachable database satisfies the invariant, in the order its bindings were made. */
  lemma {:induction false} RunInv(env: Env, events: seq<Event>)
    ensures Inv(env, Run(env, events), Order(env, events))
  {
    if events != [] {
      var init := events[..|events| - 1];
      RunInv(env, init);
      InvStep(env, Run(env, init), Order(env, init), events[|events| - 1]);
    }
  }

  // ----- Chains -----

  /** The bindings from the root to `id`, each superseding the one before. */
  ghost function Chain(db: Db, order: seq<Str>, id: Str): (chain: seq<Str>)
    requires Linked(db, order) && id in db.bindings
    ensures chain != [] && chain[|chain| - 1] == id
    decreases FirstIndex(order, id)
  {
    match db.bindings[id].binding.supersedes
    case None => [id]
    case Some(earlier) =>
      assert Supersedes(db, id, earlier);
      Chain(db, order, earlier) + [id]
  }

  ghost function Root(db: Db, order: seq<Str>, id: Str): Str
    requires Linked(db, order) && id in db.bindings
  {
    Chain(db, order, id)[0]
  }

  ghost predicate IsRoot(db: Db, id: Str) {
    id in db.bindings && db.bindings[id].binding.supersedes.None?
  }

  /** The `current_binding` view: no successor in the same scope. */
  ghost predicate IsCurrent(db: Db, id: Str) {
    id in db.bindings
    && !exists later :: Supersedes(db, later, id)
                        && db.bindings[later].binding.scope == db.bindings[id].binding.scope
  }

  /** The scope test in the view never matters: a successor is always in its predecessor's scope. */
  lemma CurrentMeansUnsuperseded(db: Db, order: seq<Str>, id: Str)
    requires Linked(db, order)
    ensures IsCurrent(db, id) <==> id in db.bindings && !exists later :: Supersedes(db, later, id)
  {
  }

  ghost predicate OnLine(db: Db, order: seq<Str>, chain: seq<Str>, row: Row) {
    forall i | 0 <= i < |chain| ::
      chain[i] in order && chain[i] in db.bindings && Line(db.bindings[chain[i]]) == Line(row)
  }

  ghost predicate Successive(db: Db, chain: seq<Str>) {
    forall i | 0 < i < |chain| :: Supersedes(db, chain[i], chain[i - 1])
  }

  ghost predicate InTime(order: seq<Str>, chain: seq<Str>) {
    && (forall i | 0 <= i < |chain| :: chain[i] in order)
    && forall i, j | 0 <= i < j < |chain| :: FirstIndex(order, chain[i]) < FirstIndex(order, chain[j])
  }

  /** The chain starts at a root, goes forward in time, and keeps the line of `id`. */
  ghost predicate Shaped(db: Db, order: seq<Str>, chain: seq<Str>, id: Str)
    requires id in db.bindings
  {
    && chain != [] && IsRoot(db, chain[0])
    && OnLine(db, order, chain, db.bindings[id]) && Successive(db, chain) && InTime(order, chain)
  }

  lemma OnLineMore(db: Db, order: seq<Str>, before: seq<Str>, earlier: Row, id: Str)
    requires OnLine(db, order, before, earlier) && id in order && id in db.bindings
    requires Line(db.bindings[id]) == Line(earlier)
    ensures OnLine(db, order, before + [id], db.bindings[id])
  {
  }

  lemma SuccessiveMore(db: Db, before: seq<Str>, id: Str)
    requires before != [] && Successive(db, before) && Supersedes(db, id, before[|before| - 1])
    ensures Successive(db, before + [id])
  {
  }

  lemma ShapedMore(db: Db, order: seq<Str>, before: seq<Str>, earlier: Str, id: Str)
    requires earlier in db.bindings && Shaped(db, order, before, earlier) && before[|before| - 1] == earlier
    requires Supersedes(db, id, earlier) && Line(db.bindings[id]) == Line(db.bindings[earlier])
    requires earlier in order && id in order && FirstIndex(order, earlier) < FirstIndex(order, id)
    ensures Shaped(db, order, before + [id], id)
  {
    OnLineMore(db, order, before, db.bindings[earlier], id);
    SuccessiveMore(db, before, id);
    LaterAtTheEnd(order, before, id);
  }

  lemma LaterAtTheEnd(order: seq<Str>, before: seq<Str>, id: Str)
    requires before != [] && InTime(order, before) && id in order
    requires FirstIndex(order, before[|before| - 1]) < FirstIndex(order, id)
    ensures InTime(order, before + [id])
  {
    var chain := before + [id];
    forall i, j | 0 <= i < j < |chain|
      ensures FirstIndex(order, chain[i]) < FirstIndex(order, chain[j])
    {
      if j == |before| && i < |before| - 1 {
        assert FirstIndex(order, before[i]) < FirstIndex(order, before[|before| - 1]);
      }
    }
  }

  /** A chain starts at a root, goes forward in time, and keeps its line throughout. */
  lemma {:induction false} ChainShape(db: Db, order: seq<Str>, id: Str)
    requires Linked(db, order) && id in db.bindings
    ensures Shaped(db, order, Chain(db, order, id), id)
    decreases FirstIndex(order, id)
  {
    if db.bindings[id].binding.supersedes.Some? {
      var earlier := db.bindings[id].binding.supersedes.value;
      assert Supersedes(db, id, earlier);
      ChainShape(db, order, earlier);
      ShapedMore(db, order, Chain(db, order, earlier), earlier, id);
    }
  }

  /** Each element supersedes the one before it. */
  ghost predicate Path(db: Db, p: seq<Str>) {
    forall i | 0 < i < |p| :: Supersedes(db, p[i], p[i - 1])
  }

  /** With one successor per binding, the start of a path determines it. */
  lemma {:induction false} PathsAgree(db: Db, order: seq<Str>, p: seq<Str>, q: seq<Str>, n: nat)
    requires Linked(db, order) && Path(db, p) && Path(db, q)
    requires 0 < n <= |p| && n <= |q| && p[0] == q[0]
    ensures p[..n] == q[..n]
  {
    if n > 1 {
      PathsAgree(db, order, p, q, n - 1);
      assert p[n - 2] == p[..n - 1][n - 2] == q[..n - 1][n - 2] == q[n - 2];
      assert Supersedes(db, p[n - 1], p[n - 2]) && Supersedes(db, q[n - 1], q[n - 2]);
    }
  }

  /** Chains with one root never branch: of two, one continues the other. */
  lemma SameRootComparable(db: Db, order: seq<Str>, a: Str, b: Str)
    requires Linked(db, order) && a in db.bindings && b in db.bindings
    requires Root(db, order, a) == Root(db, order, b)
    ensures Chain(db, order, a) <= Chain(db, order, b) || Chain(db, order, b) <= Chain(db, order, a)
  {
    var p, q := Chain(db, order, a), Chain(db, order, b);
    assert Path(db, p) by { ChainShape(db, order, a); }
    assert Path(db, q) by { ChainShape(db, order, b); }
    RelatedPaths(db, order, p, q);
  }

  lemma RelatedPaths(db: Db, order: seq<Str>, p: seq<Str>, q: seq<Str>)
    requires Linked(db, order) && Path(db, p) && Path(db, q)
    requires p != [] && q != [] && p[0] == q[0]
    ensures p <= q || q <= p
  {
    if |p| <= |q| {
      PathsAgree(db, order, p, q, |p|);
      assert p[..|p|] == p;
    } else {
      PathsAgree(db, order, p, q, |q|);
      assert q[..|q|] == q;
    }
  }

  /** From any binding the chain runs forward to a current one with the same root and line. */
  lemma {:induction false} TipExists(db: Db, order: seq<Str>, id: Str) returns (tip: Str)
    requires Linked(db, order) && id in db.bindings
    ensures IsCurrent(db, tip) && Chain(db, order, id) <= Chain(db, order, tip)
    decreases |order| - FirstIndex(order, id)
  {
    if IsCurrent(db, id) {
      tip := id;
    } else {
      var later :| Supersedes(db, later, id);
      assert Chain(db, order, later) == Chain(db, order, id) + [later];
      tip := TipExists(db, order, later);
    }
  }

  /** Two current bindings with one root are the same binding. */
  lemma TipUnique(db: Db, order: seq<Str>, a: Str, b: Str)
    requires Linked(db, order) && IsCurrent(db, a) && IsCurrent(db, b)
    requires Root(db, order, a) == Root(db, order, b)
    ensures a == b
  {
    SameRootComparable(db, order, a, b);
    if Chain(db, order, a) <= Chain(db, order, b) {
      CurrentHasNoExtension(db, order, a, b);
    } else {
      CurrentHasNoExtension(db, order, b, a);
    }
  }

  lemma CurrentHasNoExtension(db: Db, order: seq<Str>, a: Str, b: Str)
    requires Linked(db, order) && IsCurrent(db, a) && b in db.bindings
    requires Chain(db, order, a) <= Chain(db, order, b)
    ensures a == b
  {
    var p, q := Chain(db, order, a), Chain(db, order, b);
    if |p| < |q| {
      ChainShape(db, order, b);
      assert q[|p| - 1] == a;
      assert Supersedes(db, q[|p|], q[|p| - 1]);
      CurrentMeansUnsuperseded(db, order, a);
    }
  }

  // ----- Counting -----

  ghost function Roots(db: Db): set<Str> {
    set id | id in db.bindings && IsRoot(db, id)
  }

  ghost function Current(db: Db): set<Str> {
    set id | id in db.bindings && IsCurrent(db, id)
  }

  /** What a binding that is not a root supersedes. */
  ghost function Predecessor(db: Db, id: Str): Str {
    if id in db.bindings && db.bindings[id].binding.supersedes.Some?
    then db.bindings[id].binding.supersedes.value else id
  }

  /** As many bindings are superseded as supersede one. */
  lemma {:induction false} PredecessorsCounted(db: Db, order: seq<Str>, laters: set<Str>)
    requires Linked(db, order)
    requires forall id | id in laters :: id in db.bindings && !IsRoot(db, id)
    ensures |set id | id in laters :: Predecessor(db, id)| == |laters|
  {
    var earliers := set id | id in laters :: Predecessor(db, id);
    if x :| x in laters {
      PredecessorsCounted(db, order, laters - {x});
      forall y | y in laters - {x}
        ensures Predecessor(db, y) != Predecessor(db, x)
      {
        assert Supersedes(db, x, Predecessor(db, x)) && Supersedes(db, y, Predecessor(db, y));
      }
      assert earliers == (set id | id in laters - {x} :: Predecessor(db, id)) + {Predecessor(db, x)};
    } else {
      assert earliers == {};
    }
  }

  lemma SupersededAreNotCurrent(db: Db, order: seq<Str>, laters: set<Str>)
    requires Linked(db, order) && laters == db.bindings.Keys - Roots(db)
    ensures (set id | id in laters :: Predecessor(db, id)) == db.bindings.Keys - Current(db)
  {
    forall id
      ensures (exists later :: later in laters && Predecessor(db, later) == id)
              <==> id in db.bindings && !IsCurrent(db, id)
    {
      CurrentMeansUnsuperseded(db, order, id);
      if later :| Supersedes(db, later, id) {
        assert later in laters && Predecessor(db, later) == id;
      }
      if later :| later in laters && Predecessor(db, later) == id {
        assert Supersedes(db, later, id);
      }
    }
  }

  lemma SubsetDifferenceSize(all: set<Str>, part: set<Str>)
    requires part <= all
    ensures |all - part| == |all| - |part|
  {
    assert (all - part) + part == all;
  }

  /** There are exactly as many current bindings as roots: one tip per chain. */
  lemma CurrentCountIsRootCount(db: Db, order: seq<Str>)
    requires Linked(db, order)
    ensures |Current(db)| == |Roots(db)|
  {
    var all := db.bindings.Keys;
    PredecessorsCounted(db, order, all - Roots(db));
    SupersededAreNotCurrent(db, order, all - Roots(db));
    SubsetDifferenceSize(all, Roots(db));
    SubsetDifferenceSize(all, Current(db));
  }

  // ----- Main results over runs -----

  /** Every run: finite chains from a root, forward in time, in one line, each with exactly one tip. */
  lemma BindingsFormChains(env: Env, events: seq<Event>, id: Str)
    requires id in Run(env, events).bindings
    ensures var db, order := Run(env, events), Order(env, events);
            && Inv(env, db, order)
            && IsRoot(db, Root(db, order, id))
            && (forall x | x in Chain(db, order, id) ::
                  x in db.bindings && Line(db.bindings[x]) == Line(db.bindings[id]))
            && (exists tip :: IsCurrent(db, tip) && Chain(db, order, id) <= Chain(db, order, tip))
            && (forall a, b | IsCurrent(db, a) && IsCurrent(db, b)
                              && Root(db, order, a) == Root(db, order, id)
                              && Root(db, order, b) == Root(db, order, id) :: a == b)
            && |Current(db)| == |Roots(db)|
  {
    var db, order := Run(env, events), Order(env, events);
    RunInv(env, events);
    ChainShape(db, order, id);
    var tip := TipExists(db, order, id);
    CurrentCountIsRootCount(db, order);
    forall a, b | IsCurrent(db, a) && IsCurrent(db, b)
                  && Root(db, order, a) == Root(db, order, id)
                  && Root(db, order, b) == Root(db, order, id)
      ensures a == b
    {
      TipUnique(db, order, a, b);
    }
  }

  /** The rows of one findings-current line of succession. */
  ghost predicate FindingsCurrent(row: Row, scope: Str, product: Str, run: Str) {
    row.artifact == REPORT && row.binding.role == Some(CUMULATIVE) && row.binding.scope == scope
    && row.binding.product == Some(product) && row.binding.run == Some(run)
  }

  lemma FindingsTipUnique(env: Env, db: Db, order: seq<Str>, scope: Str, product: Str, run: Str, a: Str, b: Str)
    requires Inv(env, db, order) && IsCurrent(db, a) && IsCurrent(db, b)
    requires FindingsCurrent(db.bindings[a], scope, product, run)
    requires FindingsCurrent(db.bindings[b], scope, product, run)
    ensures a == b
  {
    ChainShape(db, order, a);
    ChainShape(db, order, b);
    assert SameRootKey(db.bindings[Root(db, order, a)], db.bindings[Root(db, order, b)]);
    TipUnique(db, order, a, b);
  }

  lemma FindingsTipExists(db: Db, order: seq<Str>, scope: Str, product: Str, run: Str, id: Str)
    requires Linked(db, order) && id in db.bindings && FindingsCurrent(db.bindings[id], scope, product, run)
    ensures exists tip :: IsCurrent(db, tip) && FindingsCurrent(db.bindings[tip], scope, product, run)
  {
    var tip := TipExists(db, order, id);
    ChainShape(db, order, tip);
    assert Chain(db, order, tip)[|Chain(db, order, id)| - 1] == id;
    assert FindingsCurrent(db.bindings[tip], scope, product, run);
  }

  /**
   Per scope, registered owner and run, exactly one cumulative report is current
   as soon as there is any, whatever their subjects and layers.
   */
  lemma OneCurrentFindingsCurrent(env: Env, events: seq<Event>, scope: Str, product: Str, run: Str)
    ensures var db := Run(env, events);
            && (forall a, b | IsCurrent(db, a) && FindingsCurrent(db.bindings[a], scope, product, run)
                              && IsCurrent(db, b) && FindingsCurrent(db.bindings[b], scope, product, run) :: a == b)
            && (forall id | id in db.bindings && FindingsCurrent(db.bindings[id], scope, product, run) ::
                  exists tip :: IsCurrent(db, tip) && FindingsCurrent(db.bindings[tip], scope, product, run))
  {
    var db, order := Run(env, events), Order(env, events);
    RunInv(env, events);
    forall a, b | IsCurrent(db, a) && FindingsCurrent(db.bindings[a], scope, product, run)
                  && IsCurrent(db, b) && FindingsCurrent(db.bindings[b], scope, product, run)
      ensures a == b
    {
      FindingsTipUnique(env, db, order, scope, product, run, a, b);
    }
    forall id | id in db.bindings && FindingsCurrent(db.bindings[id], scope, product, run)
      ensures exists tip :: IsCurrent(db, tip) && FindingsCurrent(db.bindings[tip], scope, product, run)
    {
      FindingsTipExists(db, order, scope, product, run, id);
    }
  }

  lemma {:induction false} FirstMissingFinds(b: Binding, required: seq<Field>, field: Field)
    requires FirstMissing(b, required).None? && field in required
    ensures ValueOf(b, field).Some?
  {
    if required[0] != field {
      FirstMissingFinds(b, required[1..], field);
    }
  }

  lemma ValidHasRequired(env: Env, artifact: Str, b: Binding, field: Field)
    requires artifact in env.profiles && field in env.profiles[artifact].required
    requires ValidateBinding(env, artifact, b).None?
    ensures ValueOf(b, field).Some?
  {
    FirstMissingFinds(b, env.profiles[artifact].required, field);
  }

  lemma NewReportHasRun(env: Env, db: Db, e: Event, id: Str)
    requires REPORT in env.profiles && RunId in env.profiles[REPORT].required
    requires id !in db.bindings && id in Apply(env, db, e).bindings
    requires Apply(env, db, e).bindings[id].artifact == REPORT
    ensures Apply(env, db, e).bindings[id].binding.run.Some?
  {
    NewRowIsValid(env, db, e, id);
    ValidReportHasRun(env, e.req, Apply(env, db, e).bindings[id]);
  }

  lemma ValidReportHasRun(env: Env, req: Request, row: Row)
    requires REPORT in env.profiles && RunId in env.profiles[REPORT].required
    requires row == RowOf(env, req) && row.artifact == REPORT
    requires req.artifact in env.profiles && ValidateBinding(env, req.artifact, req.binding).None?
    ensures row.binding.run.Some?
  {
    ValidHasRequired(env, REPORT, req.binding, RunId);
  }

  lemma NewRowIsValid(env: Env, db: Db, e: Event, id: Str)
    requires id !in db.bindings && id in Apply(env, db, e).bindings
    ensures e.Submit? && Apply(env, db, e).bindings[id] == RowOf(env, e.req)
    ensures e.req.artifact in env.profiles && ValidateBinding(env, e.req.artifact, e.req.binding).None?
  {
    IngestEffect(env, db, e.req);
    assert Validate(env, e.req).Ok?;
  }

  /**
   The index ignores rows without a run, but the report profile requires one,
   so no report ever escapes it that way.
   */
  lemma {:induction false} ReportsHaveRuns(env: Env, events: seq<Event>, id: Str)
    requires REPORT in env.profiles && RunId in env.profiles[REPORT].required
    requires id in Run(env, events).bindings && Run(env, events).bindings[id].artifact == REPORT
    ensures Run(env, events).bindings[id].binding.run.Some?
  {
    if events != [] {
      var db, e := Run(env, events[..|events| - 1]), events[|events| - 1];
      if id in db.bindings {
        StepGrows(env, db, e);
        ReportsHaveRuns(env, events[..|events| - 1], id);
      } else {
        NewReportHasRun(env, db, e, id);
      }
    }
  }

  /** No two bindings of a chain hold the same bytes; no assumption on the hash is needed. */
  lemma ChainDigestsDistinct(env: Env, db: Db, order: seq<Str>, a: Str, b: Str)
    requires Inv(env, db, order)
    requires a in db.bindings && b in db.bindings && a != b
    requires Root(db, order, a) == Root(db, order, b)
    ensures db.bindings[a].digest != db.bindings[b].digest
  {
    ChainShape(db, order, a);
    ChainShape(db, order, b);
  }

  /**
   Bytes already bound anywhere on a chain can never be bound again over a binding of that
   chain: the call ends in an identity collision, so supersession never closes a cycle.
   */
  lemma RestoringEarlierBytesCollides(env: Env, db: Db, order: seq<Str>, tip: Str, earlier: Str, req: Request)
    requires Inv(env, db, order)
    requires tip in db.bindings && earlier in Chain(db, order, tip) && earlier in db.bindings
    requires env.sha(req.payload) == db.bindings[earlier].digest
    requires Line(RowOf(env, req)) == Line(db.bindings[tip]) && req.binding.supersedes == Some(tip)
    requires Validate(env, req).Ok?
    ensures Ingest(env, db, req) == Err(IdentityCollision)
  {
    ChainShape(db, order, tip);
    assert IdOf(env, req) == earlier;
    assert db.bindings[earlier].binding.supersedes != Some(tip) by {
      assert FirstIndex(order, earlier) <= FirstIndex(order, tip);
      assert !Supersedes(db, earlier, tip);
    }
  }

  // ----- Retries -----

  /** Same bytes, same context, other references: the call succeeds and only adds locations. */
  lemma RetryOnlyAddsLocations(env: Env, db: Db, req: Request, retry: Request)
    requires Ingest(env, db, req).Ok?
    requires retry == req.(references := retry.references) && FirstReferenceError(retry.references).None?
    ensures var after := Ingest(env, db, req).value.1;
            Ingest(env, after, retry) == Ok((
              Receipt(env.sha(req.payload), IdOf(env, req), true),
              after.(locations := after.locations + (set r | r in retry.references :: (IdOf(env, req), r)))))
  {
    IngestEffect(env, db, req);
    LocationsAdded(Ingest(env, db, req).value.1, IdOf(env, req), retry.references);
  }

  /** No later event removes or changes a row; only new rows appear. */
  ghost predicate Grows(a: Db, b: Db) {
    && (forall d | d in a.evidence :: d in b.evidence && b.evidence[d] == a.evidence[d])
    && (forall id | id in a.bindings :: id in b.bindings && b.bindings[id] == a.bindings[id])
    && a.locations <= b.locations
    && (forall k | k in a.projections :: k in b.projections && b.projections[k] == a.projections[k])
    && a.products <= b.products
  }

  lemma StepGrows(env: Env, db: Db, e: Event)
    ensures Grows(db, Apply(env, db, e))
  {
    if e.Submit? && Ingest(env, db, e.req).Ok? {
      IngestEffect(env, db, e.req);
    }
  }

  /** Storage is append-only over any run. */
  lemma {:induction false} RunGrows(env: Env, events: seq<Event>, n: nat)
    requires n <= |events|
    ensures Grows(Run(env, events[..n]), Run(env, events))
    decreases |events|
  {
    if n == |events| {
      assert events[..n] == events;
    } else {
      var init := events[..|events| - 1];
      RunGrows(env, init, n);
      assert init[..n] == events[..n];
      StepGrows(env, Run(env, init), events[|events| - 1]);
    }
  }
}
