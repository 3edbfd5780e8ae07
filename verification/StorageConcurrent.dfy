/**
 Several callers ingest at once on PostgreSQL (READ COMMITTED): each takes the advisory lock on its
 digest's prefix, and unique indexes make an insert wait for an uncommitted conflicting one.
 Every interleaving is shown to have the effect and the answers of one serial order.
 */
module StorageConcurrent {
  import opened Wrappers
  import opened StorageIdentity
  import opened StorageModel
  import opened StorageChains

  // ----- The state machine -----

  /** Uncommitted rows of one transaction. */
  datatype Delta = Delta(
    evidence: map<Str, nat>,
    bindings: map<Str, Row>,
    locations: set<(Str, Str)>,
    projections: map<ProjectionKey, Str>)

  const NO_ROWS := Delta(map[], map[], {}, map[])

  /** What a transaction sees: committed rows and its own. */
  function Visible(db: Db, d: Delta): Db {
    Db(db.evidence + d.evidence, db.bindings + d.bindings, db.locations + d.locations,
       db.projections + d.projections, db.products)
  }

  /** How far one caller's transaction has got. */
  datatype Pc =
    | Ready
    | Locked
    | Retrying
    | Relocated
    | Fresh
    | Checked
    | EvidenceIn
    | BindingIn
    | LocationsIn
    | Projected
    | Done(outcome: Result<Receipt, Error>)

  datatype Client = Client(req: Request, pc: Pc, delta: Delta)

  /** One serialisation point: what happened, for which caller, with which answer. */
  datatype Entry = Entry(event: Event, client: Option<nat>, outcome: Option<Result<Receipt, Error>>)

  datatype System = System(db: Db, clients: seq<Client>, log: seq<Entry>)

  datatype Action =
    | Lock(i: nat) | Read(i: nat) | CheckPredecessor(i: nat) | PutEvidence(i: nat) | PutBinding(i: nat)
    | PutLocations(i: nat) | PutItems(i: nat) | Commit(i: nat) | Fault(i: nat) | Register(product: Str)

  predicate Active(pc: Pc) {
    !pc.Ready? && !pc.Done?
  }

  predicate HoldsBinding(pc: Pc) {
    pc.BindingIn? || pc.LocationsIn? || pc.Projected?
  }

  /** The lock key: the first eight bytes of the digest, sixteen hexadecimal digits. */
  function LockKey(env: Env, req: Request): Str {
    var digest := env.sha(req.payload);
    if |digest| <= 16 then digest else digest[..16]
  }

  /** Payloads share a lock exactly if their digests agree on sixteen digits. */
  lemma LockKeyMeans(env: Env, a: Request, b: Request)
    requires |env.sha(a.payload)| == 64 && |env.sha(b.payload)| == 64
    ensures LockKey(env, a) == LockKey(env, b) <==>
              forall i | 0 <= i < 16 :: env.sha(a.payload)[i] == env.sha(b.payload)[i]
  {
  }

  predicate LockFree(env: Env, s: System, i: nat)
    requires i < |s.clients|
  {
    forall j | 0 <= j < |s.clients| && j != i && Active(s.clients[j].pc) ::
      LockKey(env, s.clients[j].req) != LockKey(env, s.clients[i].req)
  }

  predicate Conflicting(env: Env, a: Request, b: Request) {
    IdOf(env, a) == IdOf(env, b) || SameSuccessorKey(RowOf(env, a), RowOf(env, b))
    || SameRootKey(RowOf(env, a), RowOf(env, b))
  }

  /** No other transaction holds an uncommitted binding the insert would have to wait for. */
  predicate IndexesFree(env: Env, s: System, i: nat)
    requires i < |s.clients|
  {
    forall j | 0 <= j < |s.clients| && j != i && HoldsBinding(s.clients[j].pc) ::
      !Conflicting(env, s.clients[j].req, s.clients[i].req)
  }

  function Move(s: System, i: nat, pc: Pc, delta: Delta): System
    requires i < |s.clients|
  {
    s.(clients := s.clients[i := s.clients[i].(pc := pc, delta := delta)])
  }

  /** The caller gets its answer; its locks and uncommitted rows are gone. */
  function Finish(s: System, i: nat, db: Db, event: Event, outcome: Result<Receipt, Error>): System
    requires i < |s.clients|
  {
    System(db, s.clients[i := s.clients[i].(pc := Done(outcome), delta := NO_ROWS)],
           s.log + [Entry(event, Some(i), Some(outcome))])
  }

  function Refuse(s: System, i: nat, e: Error): System
    requires i < |s.clients|
  {
    Finish(s, i, s.db, Submit(s.clients[i].req), Err(e))
  }

  /** `None`: the action is not that caller's next one, or it has to wait. */
  function Step(env: Env, s: System, a: Action): Option<System> {
    if a.Register? then
      Some(s.(db := s.db.(products := s.db.products + {a.product}),
              log := s.log + [Entry(RegisterProduct(a.product), None, None)]))
    else if a.i >= |s.clients| then None
    else
      var c := s.clients[a.i];
      var id, row := IdOf(env, c.req), RowOf(env, c.req);
      var seen := Visible(s.db, c.delta);
      match a
      case Lock(i) =>
        if !c.pc.Ready? then None
        else if Validate(env, c.req).Err? then Some(Refuse(s, i, Validate(env, c.req).error))
        else if !LockFree(env, s, i) then None
        else Some(Move(s, i, Locked, NO_ROWS))
      case Read(i) =>
        if !c.pc.Locked? then None
        else if id !in seen.bindings then Some(Move(s, i, Fresh, c.delta))
        else if seen.bindings[id] != row then Some(Refuse(s, i, IdentityCollision))
        else Some(Move(s, i, Retrying, c.delta))
      case CheckPredecessor(i) =>
        if !c.pc.Fresh? then None
        else
          (match PredecessorError(seen, id, row)
           case Some(e) => Some(Refuse(s, i, e))
           case None => Some(Move(s, i, Checked, c.delta)))
      case PutEvidence(i) =>
        if !c.pc.Checked? then None
        else if row.digest in seen.evidence then Some(Move(s, i, EvidenceIn, c.delta))
        else Some(Move(s, i, EvidenceIn,
                       c.delta.(evidence := c.delta.evidence[row.digest := |c.req.payload|])))
      case PutBinding(i) =>
        if !c.pc.EvidenceIn? || !IndexesFree(env, s, i) then None
        else if id in seen.bindings then Some(Move(s, i, BindingIn, c.delta))
        else
          (match InsertBinding(seen, id, row)
           case Err(e) => Some(Refuse(s, i, e))
           case Ok(_) =>
             Some(Move(s, i, BindingIn, c.delta.(bindings := c.delta.bindings[id := row]))))
      case PutLocations(i) =>
        if (!c.pc.BindingIn? && !c.pc.Retrying?) || Validate(env, c.req).Err? then None
        else
          var added := (set r | r in Validate(env, c.req).value :: (id, r));
          Some(Move(s, i, if c.pc.BindingIn? then LocationsIn else Relocated,
                    c.delta.(locations := c.delta.locations + added)))
      case PutItems(i) =>
        if !c.pc.LocationsIn? then None
        else
          (match env.project(c.req.artifact, c.req.payload, c.req.binding)
           case None => Some(Refuse(s, i, ProjectionError))
           case Some(items) =>
             var added := InsertItems(seen.projections, id, items) - s.db.projections.Keys;
             Some(Move(s, i, Projected, c.delta.(projections := added))))
      case Commit(i) =>
        if !c.pc.Projected? && !c.pc.Relocated? then None
        else
          var receipt := Receipt(row.digest, id, c.pc.Relocated?);
          Some(Finish(s, i, seen, Submit(c.req), Ok(receipt)))
      case Fault(i) =>
        if c.pc.Done? then None
        else Some(Finish(s, i, s.db, Faulted(c.req), Err(DriverFault)))
  }

  /** Some sequence of actions, none of which was told to wait. */
  function Exec(env: Env, s: System, actions: seq<Action>): Option<System> {
    if actions == [] then Some(s)
    else
      match Exec(env, s, actions[..|actions| - 1])
      case None => None
      case Some(before) => Step(env, before, actions[|actions| - 1])
  }

  function Start(env: Env, past: seq<Event>, reqs: seq<Request>): System {
    System(Run(env, past), seq(|reqs|, i requires 0 <= i < |reqs| => Client(reqs[i], Ready, NO_ROWS)), [])
  }

  // ----- The serial order -----

  function Events(log: seq<Entry>): seq<Event> {
    if log == [] then [] else Events(log[..|log| - 1]) + [log[|log| - 1].event]
  }

  /** The answer one entry gives when the log so far is replayed one call at a time. */
  ghost predicate AnswersSerially(env: Env, past: seq<Event>, log: seq<Entry>, k: nat)
    requires k < |log|
  {
    match log[k].event
    case Submit(req) =>
      (match Ingest(env, Run(env, past + Events(log[..k])), req)
       case Ok((receipt, _)) => log[k].outcome == Some(Ok(receipt))
       case Err(e) => log[k].outcome == Some(Err(e)))
    case Faulted(_) => log[k].outcome == Some(Err(DriverFault))
    case RegisterProduct(_) => true
  }

  predicate ForClient(entry: Entry, i: nat, c: Client) {
    entry.client == Some(i) && c.pc.Done? && entry.outcome == Some(c.pc.outcome)
    && (entry.event == Submit(c.req) || entry.event == Faulted(c.req))
  }

  /** The log has one entry for each caller that has its answer, and none for the others. */
  ghost predicate LogMatches(s: System) {
    && (forall i | 0 <= i < |s.clients| && s.clients[i].pc.Done? ::
          exists k :: 0 <= k < |s.log| && ForClient(s.log[k], i, s.clients[i]))
    && (forall k | 0 <= k < |s.log| && s.log[k].client.Some? ::
          s.log[k].client.value < |s.clients|
          && ForClient(s.log[k], s.log[k].client.value, s.clients[s.log[k].client.value]))
    && (forall k, l | 0 <= k < l < |s.log| && s.log[k].client.Some? :: s.log[k].client != s.log[l].client)
  }

  ghost predicate AllAnswered(env: Env, past: seq<Event>, log: seq<Entry>) {
    forall k {:trigger AnswersSerially(env, past, log, k)} | 0 <= k < |log| :: AnswersSerially(env, past, log, k)
  }

  /** The database and every answer so far are those of running the log one call at a time. */
  ghost predicate Serial(env: Env, past: seq<Event>, s: System) {
    && s.db == Run(env, past + Events(s.log))
    && AllAnswered(env, past, s.log) && LogMatches(s)
  }

  // ----- What each open transaction relies on -----

  function Locations(env: Env, req: Request): set<(Str, Str)>
    requires Validate(env, req).Ok?
  {
    set r | r in Validate(env, req).value :: (IdOf(env, req), r)
  }

  function NewEvidence(env: Env, db: Db, req: Request): map<Str, nat> {
    if env.sha(req.payload) in db.evidence then map[] else map[env.sha(req.payload) := |req.payload|]
  }

  function NewItems(env: Env, req: Request): map<ProjectionKey, Str>
    requires env.project(req.artifact, req.payload, req.binding).Some?
  {
    InsertItems(map[], IdOf(env, req), env.project(req.artifact, req.payload, req.binding).value)
  }

  /** No committed row stands in the way of `row`. */
  ghost predicate Admits(db: Db, row: Row) {
    && (forall other | other in db.bindings ::
          !SameSuccessorKey(db.bindings[other], row) && !SameRootKey(db.bindings[other], row))
    && (row.binding.product.Some? ==> row.binding.product.value in db.products)
  }

  lemma AdmittedRowIsInserted(db: Db, id: Str, row: Row)
    requires id !in db.bindings
    ensures InsertBinding(db, id, row).Ok? <==> Admits(db, row)
    ensures Admits(db, row) ==> InsertBinding(db, id, row) == Ok(db.(bindings := db.bindings[id := row]))
  {
  }

  /** What a transaction has read or been told, and goes on relying on. */
  ghost predicate Facts(env: Env, db: Db, c: Client) {
    var id, row := IdOf(env, c.req), RowOf(env, c.req);
    && (Active(c.pc) ==> Validate(env, c.req).Ok?)
    && (c.pc.Retrying? || c.pc.Relocated? ==> id in db.bindings && db.bindings[id] == row)
    && (c.pc.Fresh? || c.pc.Checked? || c.pc.EvidenceIn? || HoldsBinding(c.pc) ==> id !in db.bindings)
    && (c.pc.Checked? || c.pc.EvidenceIn? || HoldsBinding(c.pc) ==> PredecessorError(db, id, row).None?)
    && (HoldsBinding(c.pc) ==> Admits(db, row))
    && (c.pc.Projected? ==> env.project(c.req.artifact, c.req.payload, c.req.binding).Some?)
  }

  /** The rows it has written by now. */
  ghost function Written(env: Env, db: Db, c: Client): Delta
    requires Facts(env, db, c)
  {
    Delta(
      if c.pc.EvidenceIn? || HoldsBinding(c.pc) then NewEvidence(env, db, c.req) else map[],
      if HoldsBinding(c.pc) then map[IdOf(env, c.req) := RowOf(env, c.req)] else map[],
      if c.pc.Relocated? || c.pc.LocationsIn? || c.pc.Projected? then Locations(env, c.req) else {},
      if c.pc.Projected? then NewItems(env, c.req) else map[])
  }

  ghost predicate ClientOk(env: Env, db: Db, c: Client) {
    Facts(env, db, c) && c.delta == Written(env, db, c)
  }

  /** Open transactions hold different locks, and their uncommitted bindings do not conflict. */
  ghost predicate PairOk(env: Env, a: Client, b: Client) {
    && (Active(a.pc) && Active(b.pc) ==> LockKey(env, a.req) != LockKey(env, b.req))
    && (HoldsBinding(a.pc) && HoldsBinding(b.pc) ==> !Conflicting(env, a.req, b.req))
  }

  ghost predicate Isolated(env: Env, s: System) {
    && RowsSound(env, s.db)
    && AllOk(env, s.db, s.clients) && PairsOk(env, s.clients)
  }

  ghost predicate AllOk(env: Env, db: Db, cs: seq<Client>) {
    forall i {:trigger ClientOk(env, db, cs[i])} | 0 <= i < |cs| :: ClientOk(env, db, cs[i])
  }

  /** The same of all callers but one. */
  ghost predicate OthersOk(env: Env, db: Db, cs: seq<Client>, i: nat) {
    forall j {:trigger ClientOk(env, db, cs[j])} | 0 <= j < |cs| && j != i :: ClientOk(env, db, cs[j])
  }

  ghost predicate PairsOk(env: Env, cs: seq<Client>) {
    forall i, j {:trigger PairOk(env, cs[i], cs[j])} | 0 <= i < |cs| && 0 <= j < |cs| && i != j ::
      PairOk(env, cs[i], cs[j])
  }

  /** The hash gives no two of the callers' bindings one identity unless their bytes agree. */
  ghost predicate NoIdCollision(env: Env, s: System) {
    forall i, j | 0 <= i < |s.clients| && 0 <= j < |s.clients|
                  && IdOf(env, s.clients[i].req) == IdOf(env, s.clients[j].req) ::
      env.sha(s.clients[i].req.payload) == env.sha(s.clients[j].req.payload)
  }

  // ----- Each transaction's view stays true while others commit -----

  /** `after` is `db` with at most the rows request `r` writes, and more registered products. */
  ghost predicate Wrote(env: Env, db: Db, r: Request, after: Db) {
    var id, row := IdOf(env, r), RowOf(env, r);
    && (after.bindings == db.bindings || after.bindings == db.bindings[id := row])
    && (forall d | d in db.evidence :: d in after.evidence)
    && (forall d | d in after.evidence :: d in db.evidence || d == row.digest)
    && (forall b | b in db.bindings :: b in after.bindings && after.bindings[b] == db.bindings[b])
    && db.products <= after.products
  }

  lemma StillAdmitted(env: Env, db: Db, r: Request, after: Db, row: Row)
    requires Admits(db, row) && Wrote(env, db, r, after)
    requires after.bindings != db.bindings ==>
               !SameSuccessorKey(RowOf(env, r), row) && !SameRootKey(RowOf(env, r), row)
    ensures Admits(after, row)
  {
  }

  lemma FactsStayTrue(env: Env, db: Db, r: Request, after: Db, c: Client)
    requires Facts(env, db, c) && Wrote(env, db, r, after)
    requires Active(c.pc) ==> IdOf(env, r) != IdOf(env, c.req)
    requires HoldsBinding(c.pc) && after.bindings != db.bindings ==> !Conflicting(env, r, c.req)
    ensures Facts(env, after, c)
  {
    if HoldsBinding(c.pc) {
      StillAdmitted(env, db, r, after, RowOf(env, c.req));
    }
    if Active(c.pc) {
      assert IdOf(env, c.req) in after.bindings <==> IdOf(env, c.req) in db.bindings;
    }
  }

  lemma StaysTrue(env: Env, db: Db, r: Request, after: Db, c: Client)
    requires ClientOk(env, db, c) && Wrote(env, db, r, after)
    requires Active(c.pc) ==> IdOf(env, r) != IdOf(env, c.req) && env.sha(r.payload) != env.sha(c.req.payload)
    requires HoldsBinding(c.pc) && after.bindings != db.bindings ==> !Conflicting(env, r, c.req)
    ensures ClientOk(env, after, c)
  {
    FactsStayTrue(env, db, r, after, c);
    if Active(c.pc) {
      assert NewEvidence(env, after, c.req) == NewEvidence(env, db, c.req);
    }
  }

  /** The tables after a first binding. */
  ghost function AfterFirst(env: Env, db: Db, req: Request, locations: seq<Str>, items: seq<Item>): Db {
    var id, row := IdOf(env, req), RowOf(env, req);
    Db(InsertEvidence(db, row.digest, |req.payload|).evidence,
       db.bindings[id := row],
       db.locations + (set r | r in locations :: (id, r)),
       InsertItems(db.projections, id, items),
       db.products)
  }

  /** A first binding, computed from the committed tables in one expression. */
  lemma TransactWhenAdmitted(env: Env, db: Db, req: Request, locations: seq<Str>, items: seq<Item>)
    requires IdOf(env, req) !in db.bindings
    requires PredecessorError(db, IdOf(env, req), RowOf(env, req)).None? && Admits(db, RowOf(env, req))
    requires env.project(req.artifact, req.payload, req.binding) == Some(items)
    ensures Transact(env, db, req, locations) ==
            Ok((Receipt(env.sha(req.payload), IdOf(env, req), false), AfterFirst(env, db, req, locations, items)))
  {
    var db1 := InsertEvidence(db, env.sha(req.payload), |req.payload|);
    assert Admits(db1, RowOf(env, req));
    AdmittedRowIsInserted(db1, IdOf(env, req), RowOf(env, req));
  }

  lemma RetryVisible(env: Env, db: Db, c: Client)
    requires ClientOk(env, db, c) && c.pc.Relocated?
    ensures Visible(db, c.delta) == RegisterLocations(db, IdOf(env, c.req), Validate(env, c.req).value)
  {
  }

  lemma EvidenceMerged(env: Env, db: Db, req: Request)
    ensures db.evidence + NewEvidence(env, db, req)
            == InsertEvidence(db, env.sha(req.payload), |req.payload|).evidence
  {
  }

  lemma WrittenAtEnd(env: Env, db: Db, c: Client, items: seq<Item>)
    requires ClientOk(env, db, c) && c.pc.Projected?
    requires env.project(c.req.artifact, c.req.payload, c.req.binding) == Some(items)
    ensures c.delta == Delta(NewEvidence(env, db, c.req), map[IdOf(env, c.req) := RowOf(env, c.req)],
                             Locations(env, c.req), InsertItems(map[], IdOf(env, c.req), items))
  {
  }

  lemma VisibleFirst(env: Env, db: Db, req: Request, items: seq<Item>)
    requires Validate(env, req).Ok? && forall k | k in db.projections :: k.bindingId != IdOf(env, req)
    ensures Visible(db, Delta(NewEvidence(env, db, req), map[IdOf(env, req) := RowOf(env, req)],
                              Locations(env, req), InsertItems(map[], IdOf(env, req), items)))
            == AfterFirst(env, db, req, Validate(env, req).value, items)
  {
    EvidenceMerged(env, db, req);
    ProjectOnto(db.projections, IdOf(env, req), items);
    assert db.bindings + map[IdOf(env, req) := RowOf(env, req)] == db.bindings[IdOf(env, req) := RowOf(env, req)];
  }

  lemma FirstVisible(env: Env, db: Db, c: Client, items: seq<Item>)
    requires ClientOk(env, db, c) && c.pc.Projected?
    requires forall k | k in db.projections :: k.bindingId != IdOf(env, c.req)
    requires env.project(c.req.artifact, c.req.payload, c.req.binding) == Some(items)
    ensures Visible(db, c.delta) == AfterFirst(env, db, c.req, Validate(env, c.req).value, items)
  {
    WrittenAtEnd(env, db, c, items);
    VisibleFirst(env, db, c.req, items);
  }

  /** At commit, the visible tables are exactly what the pure call computes from the committed ones. */
  lemma CommitIsIngest(env: Env, db: Db, c: Client)
    requires RowsSound(env, db) && ClientOk(env, db, c)
    requires c.pc.Projected? || c.pc.Relocated?
    ensures Ingest(env, db, c.req) ==
            Ok((Receipt(env.sha(c.req.payload), IdOf(env, c.req), c.pc.Relocated?), Visible(db, c.delta)))
  {
    var locations := Validate(env, c.req).value;
    assert Ingest(env, db, c.req) == Transact(env, db, c.req, locations);
    if c.pc.Relocated? {
      RetryVisible(env, db, c);
    } else {
      var items := env.project(c.req.artifact, c.req.payload, c.req.binding).value;
      FirstVisible(env, db, c, items);
      TransactWhenAdmitted(env, db, c.req, locations, items);
    }
  }

  // ----- Every step keeps all of it -----

  ghost predicate Good(env: Env, past: seq<Event>, s: System) {
    Isolated(env, s) && Serial(env, past, s) && NoIdCollision(env, s)
  }

  lemma EventsAppend(env: Env, past: seq<Event>, log: seq<Entry>, e: Entry)
    ensures Events(log + [e]) == Events(log) + [e.event]
    ensures Run(env, past + Events(log + [e])) == Apply(env, Run(env, past + Events(log)), e.event)
  {
    assert (log + [e])[..|log|] == log;
    var events := past + Events(log + [e]);
    assert events[..|events| - 1] == past + Events(log);
  }

  lemma AnswersKept(env: Env, past: seq<Event>, log: seq<Entry>, e: Entry)
    requires AllAnswered(env, past, log)
    ensures forall k | 0 <= k < |log| :: AnswersSerially(env, past, log + [e], k)
  {
    forall k | 0 <= k < |log|
      ensures AnswersSerially(env, past, log + [e], k)
    {
      assert AnswersSerially(env, past, log, k);
      assert (log + [e])[..k] == log[..k];
    }
  }

  lemma LogMatchesMove(s: System, i: nat, pc: Pc, delta: Delta)
    requires LogMatches(s) && i < |s.clients| && !s.clients[i].pc.Done? && !pc.Done?
    ensures LogMatches(Move(s, i, pc, delta))
  {
    var after := Move(s, i, pc, delta);
    forall j | 0 <= j < |after.clients| && after.clients[j].pc.Done?
      ensures exists k :: 0 <= k < |after.log| && ForClient(after.log[k], j, after.clients[j])
    {
      var k :| 0 <= k < |s.log| && ForClient(s.log[k], j, s.clients[j]);
      assert ForClient(after.log[k], j, after.clients[j]);
    }
  }

  lemma LogMatchesFinish(s: System, i: nat, db: Db, event: Event, outcome: Result<Receipt, Error>)
    requires LogMatches(s) && i < |s.clients| && !s.clients[i].pc.Done?
    requires event == Submit(s.clients[i].req) || event == Faulted(s.clients[i].req)
    ensures LogMatches(Finish(s, i, db, event, outcome))
  {
    var after := Finish(s, i, db, event, outcome);
    forall j | 0 <= j < |after.clients| && after.clients[j].pc.Done?
      ensures exists k :: 0 <= k < |after.log| && ForClient(after.log[k], j, after.clients[j])
    {
      if j == i {
        assert ForClient(after.log[|s.log|], i, after.clients[i]);
      } else {
        var k :| 0 <= k < |s.log| && ForClient(s.log[k], j, s.clients[j]);
        assert ForClient(after.log[k], j, after.clients[j]);
      }
    }
  }

  lemma PairsKept(env: Env, cs: seq<Client>, i: nat, c: Client)
    requires i < |cs|
    requires PairsOk(env, cs)
    requires forall j | 0 <= j < |cs| && j != i :: PairOk(env, cs[j], c) && PairOk(env, c, cs[j])
    ensures PairsOk(env, cs[i := c])
  {
    var ds := cs[i := c];
    forall j, k | 0 <= j < |ds| && 0 <= k < |ds| && j != k
      ensures PairOk(env, ds[j], ds[k])
    {
      if j != i && k != i {
        assert PairOk(env, cs[j], cs[k]);
      }
    }
  }

  lemma AllKept(env: Env, db: Db, cs: seq<Client>, i: nat, c: Client)
    requires i < |cs| && ClientOk(env, db, c)
    requires OthersOk(env, db, cs, i)
    ensures AllOk(env, db, cs[i := c])
  {
    var ds := cs[i := c];
    forall j | 0 <= j < |ds|
      ensures ClientOk(env, db, ds[j])
    {
      if j != i {
        assert ClientOk(env, db, cs[j]);
      }
    }
  }

  lemma MovePairs(env: Env, s: System, i: nat, c: Client, pc: Pc, delta: Delta)
    requires i < |s.clients| && c == s.clients[i] && !c.pc.Done? && !pc.Done?
    requires PairsOk(env, s.clients)
    requires Active(c.pc) || LockFree(env, s, i)
    requires HoldsBinding(pc) && !HoldsBinding(c.pc) ==> IndexesFree(env, s, i)
    ensures forall j | 0 <= j < |s.clients| && j != i ::
              PairOk(env, s.clients[j], c.(pc := pc, delta := delta))
              && PairOk(env, c.(pc := pc, delta := delta), s.clients[j])
  {
    forall j | 0 <= j < |s.clients| && j != i
      ensures PairOk(env, s.clients[j], c.(pc := pc, delta := delta))
              && PairOk(env, c.(pc := pc, delta := delta), s.clients[j])
    {
      assert PairOk(env, s.clients[j], c) && PairOk(env, c, s.clients[j]);
      assert Conflicting(env, s.clients[j].req, c.req) == Conflicting(env, c.req, s.clients[j].req);
    }
  }

  lemma IsolatedMove(env: Env, s: System, i: nat, pc: Pc, delta: Delta)
    requires Isolated(env, s) && i < |s.clients| && !s.clients[i].pc.Done? && !pc.Done?
    requires ClientOk(env, s.db, s.clients[i].(pc := pc, delta := delta))
    requires Active(s.clients[i].pc) || LockFree(env, s, i)
    requires HoldsBinding(pc) && !HoldsBinding(s.clients[i].pc) ==> IndexesFree(env, s, i)
    ensures Isolated(env, Move(s, i, pc, delta))
  {
    MovePairs(env, s, i, s.clients[i], pc, delta);
    PairsKept(env, s.clients, i, s.clients[i].(pc := pc, delta := delta));
    AllButOne(env, s.db, s.clients, i);
    AllKept(env, s.db, s.clients, i, s.clients[i].(pc := pc, delta := delta));
  }

  lemma SerialMove(env: Env, past: seq<Event>, s: System, i: nat, pc: Pc, delta: Delta)
    requires Serial(env, past, s) && i < |s.clients| && !s.clients[i].pc.Done? && !pc.Done?
    ensures Serial(env, past, Move(s, i, pc, delta))
  {
    LogMatchesMove(s, i, pc, delta);
  }

  /** A transaction goes on: only its own view changes. */
  lemma MoveKeeps(env: Env, past: seq<Event>, s: System, i: nat, pc: Pc, delta: Delta)
    requires Good(env, past, s) && i < |s.clients| && !s.clients[i].pc.Done? && !pc.Done?
    requires ClientOk(env, s.db, s.clients[i].(pc := pc, delta := delta))
    requires Active(s.clients[i].pc) || LockFree(env, s, i)
    requires HoldsBinding(pc) && !HoldsBinding(s.clients[i].pc) ==> IndexesFree(env, s, i)
    ensures Good(env, past, Move(s, i, pc, delta))
  {
    IsolatedMove(env, s, i, pc, delta);
    SerialMove(env, past, s, i, pc, delta);
  }

  lemma IsolatedFinish(env: Env, s: System, i: nat, db: Db, event: Event, outcome: Result<Receipt, Error>)
    requires Isolated(env, s) && i < |s.clients|
    requires OthersOk(env, db, s.clients, i)
    requires RowsSound(env, db)
    ensures Isolated(env, Finish(s, i, db, event, outcome))
  {
    var c := s.clients[i].(pc := Done(outcome), delta := NO_ROWS);
    forall j | 0 <= j < |s.clients| && j != i
      ensures PairOk(env, s.clients[j], c) && PairOk(env, c, s.clients[j])
    {
      DonePairs(env, s.clients[j], c);
    }
    PairsKept(env, s.clients, i, c);
    DoneIsOk(env, db, c);
    AllKept(env, db, s.clients, i, c);
  }

  /** A caller that has its answer stands in nobody's way. */
  lemma DonePairs(env: Env, d: Client, c: Client)
    requires c.pc.Done?
    ensures PairOk(env, d, c) && PairOk(env, c, d)
  {
  }

  lemma DoneIsOk(env: Env, db: Db, c: Client)
    requires c.pc.Done? && c.delta == NO_ROWS
    ensures ClientOk(env, db, c)
  {
  }

  lemma NewAnswer(env: Env, past: seq<Event>, s: System, e: Entry)
    requires Serial(env, past, s) && e.outcome.Some? && Answered(env, s.db, e.event, e.outcome.value)
    ensures AnswersSerially(env, past, s.log + [e], |s.log|)
  {
    assert (s.log + [e])[..|s.log|] == s.log;
  }

  lemma AllAnsweredWith(env: Env, past: seq<Event>, log: seq<Entry>, e: Entry)
    requires AllAnswered(env, past, log) && AnswersSerially(env, past, log + [e], |log|)
    ensures AllAnswered(env, past, log + [e])
  {
    AnswersKept(env, past, log, e);
  }

  lemma SerialFinish(env: Env, past: seq<Event>, s: System, i: nat, event: Event, outcome: Result<Receipt, Error>)
    requires Serial(env, past, s) && i < |s.clients| && !s.clients[i].pc.Done?
    requires event == Submit(s.clients[i].req) || event == Faulted(s.clients[i].req)
    requires Answered(env, s.db, event, outcome)
    ensures Serial(env, past, Finish(s, i, Apply(env, s.db, event), event, outcome))
  {
    var e := Entry(event, Some(i), Some(outcome));
    LogMatchesFinish(s, i, Apply(env, s.db, event), event, outcome);
    EventsAppend(env, past, s.log, e);
    NewAnswer(env, past, s, e);
    AllAnsweredWith(env, past, s.log, e);
  }

  /** The answer the pure call gives on these tables. */
  ghost predicate Answered(env: Env, db: Db, event: Event, outcome: Result<Receipt, Error>) {
    match event
    case Submit(req) =>
      (match Ingest(env, db, req)
       case Ok((receipt, _)) => outcome == Ok(receipt)
       case Err(e) => outcome == Err(e))
    case Faulted(_) => outcome == Err(DriverFault)
    case RegisterProduct(_) => true
  }

  /** A caller gets its answer: the log gains the event that explains it. */
  lemma FinishKeeps(env: Env, past: seq<Event>, s: System, i: nat, event: Event, outcome: Result<Receipt, Error>)
    requires Good(env, past, s) && i < |s.clients| && !s.clients[i].pc.Done?
    requires event == Submit(s.clients[i].req) || event == Faulted(s.clients[i].req)
    requires Answered(env, s.db, event, outcome)
    requires OthersOk(env, Apply(env, s.db, event), s.clients, i)
    requires RowsSound(env, Apply(env, s.db, event))
    ensures Good(env, past, Finish(s, i, Apply(env, s.db, event), event, outcome))
  {
    IsolatedFinish(env, s, i, Apply(env, s.db, event), event, outcome);
    SerialFinish(env, past, s, i, event, outcome);
  }

  /** An answer that is an error leaves the database as it is, now as in the serial order. */
  lemma RefuseKeeps(env: Env, past: seq<Event>, s: System, i: nat, e: Error)
    requires Good(env, past, s) && i < |s.clients| && !s.clients[i].pc.Done?
    requires Ingest(env, s.db, s.clients[i].req) == Err(e)
    ensures Good(env, past, Refuse(s, i, e))
  {
    AllButOne(env, s.db, s.clients, i);
    FinishKeeps(env, past, s, i, Submit(s.clients[i].req), Err(e));
  }

  lemma AllButOne(env: Env, db: Db, cs: seq<Client>, i: nat)
    requires AllOk(env, db, cs)
    ensures OthersOk(env, db, cs, i)
  {
  }

  /** The effect of a commit, as far as another transaction can tell. */
  lemma CommitWrites(env: Env, db: Db, req: Request)
    requires Ingest(env, db, req).Ok?
    ensures Wrote(env, db, req, Ingest(env, db, req).value.1)
    ensures Ingest(env, db, req).value.0.alreadyBound ==> Ingest(env, db, req).value.1.bindings == db.bindings
  {
    IngestEffect(env, db, req);
    assert IdOf(env, req) in db.bindings ==> db.bindings[IdOf(env, req) := RowOf(env, req)] == db.bindings;
  }

  lemma OtherUnaffected(env: Env, db: Db, c: Client, after: Db, d: Client)
    requires Wrote(env, db, c.req, after) && ClientOk(env, db, d) && PairOk(env, c, d)
    requires c.pc.Projected? || c.pc.Relocated?
    requires c.pc.Relocated? ==> after.bindings == db.bindings
    requires IdOf(env, c.req) == IdOf(env, d.req) ==> env.sha(c.req.payload) == env.sha(d.req.payload)
    ensures ClientOk(env, after, d)
  {
    StaysTrue(env, db, c.req, after, d);
  }

  lemma OthersUnaffected(env: Env, s: System, i: nat, after: Db)
    requires Isolated(env, s) && NoIdCollision(env, s) && i < |s.clients|
    requires Wrote(env, s.db, s.clients[i].req, after)
    requires s.clients[i].pc.Projected? || s.clients[i].pc.Relocated?
    requires s.clients[i].pc.Relocated? ==> after.bindings == s.db.bindings
    ensures OthersOk(env, after, s.clients, i)
  {
    forall j | 0 <= j < |s.clients| && j != i
      ensures ClientOk(env, after, s.clients[j])
    {
      assert PairOk(env, s.clients[i], s.clients[j]) && ClientOk(env, s.db, s.clients[j]);
      OtherUnaffected(env, s.db, s.clients[i], after, s.clients[j]);
    }
  }

  lemma CommitStep(env: Env, s: System, i: nat)
    requires Isolated(env, s) && Step(env, s, Commit(i)).Some?
    ensures i < |s.clients| && (s.clients[i].pc.Projected? || s.clients[i].pc.Relocated?)
    ensures var c := s.clients[i];
            Ingest(env, s.db, c.req).Ok? && Step(env, s, Commit(i)) ==
            Some(Finish(s, i, Ingest(env, s.db, c.req).value.1, Submit(c.req), Ok(Ingest(env, s.db, c.req).value.0)))
    ensures s.clients[i].pc.Relocated? ==> Ingest(env, s.db, s.clients[i].req).value.0.alreadyBound
  {
    assert ClientOk(env, s.db, s.clients[i]);
    CommitIsIngest(env, s.db, s.clients[i]);
  }

  lemma CommitKeeps(env: Env, past: seq<Event>, s: System, i: nat)
    requires Good(env, past, s) && Step(env, s, Commit(i)).Some?
    ensures Good(env, past, Step(env, s, Commit(i)).value)
  {
    CommitStep(env, s, i);
    var c := s.clients[i];
    var (receipt, after) := Ingest(env, s.db, c.req).value;
    CommitWrites(env, s.db, c.req);
    OthersUnaffected(env, s, i, after);
    RowsSoundStep(env, s.db, c.req);
    FinishKeeps(env, past, s, i, Submit(c.req), Ok(receipt));
  }

  lemma LogMatchesRegister(s: System, db: Db, e: Entry)
    requires LogMatches(s) && e.client.None?
    ensures LogMatches(s.(db := db, log := s.log + [e]))
  {
    var after := s.(db := db, log := s.log + [e]);
    forall j | 0 <= j < |after.clients| && after.clients[j].pc.Done?
      ensures exists k :: 0 <= k < |after.log| && ForClient(after.log[k], j, after.clients[j])
    {
      var k :| 0 <= k < |s.log| && ForClient(s.log[k], j, s.clients[j]);
      assert ForClient(after.log[k], j, after.clients[j]);
    }
  }

  lemma SerialRegister(env: Env, past: seq<Event>, s: System, product: Str)
    requires Serial(env, past, s)
    ensures Serial(env, past, Step(env, s, Register(product)).value)
  {
    var e := Entry(RegisterProduct(product), None, None);
    LogMatchesRegister(s, Apply(env, s.db, e.event), e);
    EventsAppend(env, past, s.log, e);
    AllAnsweredWith(env, past, s.log, e);
  }

  lemma IsolatedRegister(env: Env, s: System, product: Str)
    requires Isolated(env, s)
    ensures Isolated(env, Step(env, s, Register(product)).value)
  {
    var after := Step(env, s, Register(product)).value;
    forall j | 0 <= j < |s.clients|
      ensures ClientOk(env, after.db, s.clients[j])
    {
      AdmissionGrows(env, s.db, after.db, s.clients[j]);
    }
  }

  lemma RegisterKeeps(env: Env, past: seq<Event>, s: System, product: Str)
    requires Good(env, past, s)
    ensures Good(env, past, Step(env, s, Register(product)).value)
  {
    IsolatedRegister(env, s, product);
    SerialRegister(env, past, s, product);
  }

  lemma AdmissionGrows(env: Env, db: Db, after: Db, c: Client)
    requires ClientOk(env, db, c) && after == db.(products := after.products) && db.products <= after.products
    ensures ClientOk(env, after, c)
  {
    assert Facts(env, after, c);
  }

  lemma ReadNext(env: Env, db: Db, c: Client)
    requires ClientOk(env, db, c) && c.pc.Locked?
    ensures Visible(db, c.delta).bindings == db.bindings
    ensures IdOf(env, c.req) !in db.bindings ==> ClientOk(env, db, c.(pc := Fresh))
    ensures IdOf(env, c.req) in db.bindings ==>
              if db.bindings[IdOf(env, c.req)] == RowOf(env, c.req)
              then ClientOk(env, db, c.(pc := Retrying))
              else Ingest(env, db, c.req) == Err(IdentityCollision)
  {
    assert Visible(db, c.delta).bindings == db.bindings;
    if IdOf(env, c.req) !in db.bindings {
      assert Facts(env, db, c.(pc := Fresh));
    } else if db.bindings[IdOf(env, c.req)] == RowOf(env, c.req) {
      assert Facts(env, db, c.(pc := Retrying));
    }
  }

  lemma ReadKeeps(env: Env, past: seq<Event>, s: System, i: nat)
    requires Good(env, past, s) && Step(env, s, Read(i)).Some?
    ensures Good(env, past, Step(env, s, Read(i)).value)
  {
    var c := s.clients[i];
    assert ClientOk(env, s.db, c);
    ReadNext(env, s.db, c);
    if IdOf(env, c.req) !in s.db.bindings {
      MoveKeeps(env, past, s, i, Fresh, c.delta);
    } else if s.db.bindings[IdOf(env, c.req)] != RowOf(env, c.req) {
      RefuseKeeps(env, past, s, i, IdentityCollision);
    } else {
      MoveKeeps(env, past, s, i, Retrying, c.delta);
    }
  }

  lemma CheckSees(env: Env, db: Db, c: Client)
    requires ClientOk(env, db, c) && c.pc.Fresh?
    ensures PredecessorError(Visible(db, c.delta), IdOf(env, c.req), RowOf(env, c.req))
         == PredecessorError(db, IdOf(env, c.req), RowOf(env, c.req))
  {
    assert Visible(db, c.delta).bindings == db.bindings;
  }

  lemma CheckNext(env: Env, db: Db, c: Client)
    requires ClientOk(env, db, c) && c.pc.Fresh?
    ensures var found := PredecessorError(db, IdOf(env, c.req), RowOf(env, c.req));
            if found.Some? then Ingest(env, db, c.req) == Err(found.value)
            else ClientOk(env, db, c.(pc := Checked))
  {
    if PredecessorError(db, IdOf(env, c.req), RowOf(env, c.req)).None? {
      assert Facts(env, db, c.(pc := Checked));
    }
  }

  lemma CheckStep(env: Env, s: System, i: nat)
    requires AllOk(env, s.db, s.clients) && Step(env, s, CheckPredecessor(i)).Some?
    ensures i < |s.clients| && s.clients[i].pc.Fresh?
    ensures var c := s.clients[i];
            var found := PredecessorError(s.db, IdOf(env, c.req), RowOf(env, c.req));
            if found.Some? then
              Ingest(env, s.db, c.req) == Err(found.value)
              && Step(env, s, CheckPredecessor(i)) == Some(Refuse(s, i, found.value))
            else
              ClientOk(env, s.db, c.(pc := Checked))
              && Step(env, s, CheckPredecessor(i)) == Some(Move(s, i, Checked, c.delta))
  {
    assert i < |s.clients| && s.clients[i].pc.Fresh?;
    assert ClientOk(env, s.db, s.clients[i]);
    CheckSees(env, s.db, s.clients[i]);
    CheckNext(env, s.db, s.clients[i]);
  }

  lemma CheckKeeps(env: Env, past: seq<Event>, s: System, i: nat)
    requires Good(env, past, s) && Step(env, s, CheckPredecessor(i)).Some?
    ensures Good(env, past, Step(env, s, CheckPredecessor(i)).value)
  {
    CheckStep(env, s, i);
    var c := s.clients[i];
    var found := PredecessorError(s.db, IdOf(env, c.req), RowOf(env, c.req));
    if found.Some? {
      RefuseKeeps(env, past, s, i, found.value);
    } else {
      MoveKeeps(env, past, s, i, Checked, c.delta);
    }
  }

  lemma EvidenceNext(env: Env, db: Db, c: Client)
    requires ClientOk(env, db, c) && c.pc.Checked?
    ensures Visible(db, c.delta).evidence == db.evidence && c.delta.evidence == map[]
    ensures ClientOk(env, db, c.(pc := EvidenceIn, delta := c.delta.(evidence := NewEvidence(env, db, c.req))))
  {
    assert Visible(db, c.delta).evidence == db.evidence;
    assert Facts(env, db, c.(pc := EvidenceIn, delta := c.delta.(evidence := NewEvidence(env, db, c.req))));
  }

  lemma EvidenceStep(env: Env, s: System, i: nat)
    requires AllOk(env, s.db, s.clients) && Step(env, s, PutEvidence(i)).Some?
    ensures i < |s.clients| && s.clients[i].pc.Checked?
    ensures var c := s.clients[i];
            var delta := c.delta.(evidence := NewEvidence(env, s.db, c.req));
            ClientOk(env, s.db, c.(pc := EvidenceIn, delta := delta))
            && Step(env, s, PutEvidence(i)) == Some(Move(s, i, EvidenceIn, delta))
  {
    assert i < |s.clients| && s.clients[i].pc.Checked?;
    assert ClientOk(env, s.db, s.clients[i]);
    EvidenceNext(env, s.db, s.clients[i]);
  }

  lemma EvidenceKeeps(env: Env, past: seq<Event>, s: System, i: nat)
    requires Good(env, past, s) && Step(env, s, PutEvidence(i)).Some?
    ensures Good(env, past, Step(env, s, PutEvidence(i)).value)
  {
    EvidenceStep(env, s, i);
    MoveKeeps(env, past, s, i, EvidenceIn, s.clients[i].delta.(evidence := NewEvidence(env, s.db, s.clients[i].req)));
  }

  /** A row the indexes refuse now is refused by the pure call on the same tables. */
  lemma RefusedBindingIsRefused(env: Env, db: Db, req: Request, seen: Db)
    requires Validate(env, req).Ok? && IdOf(env, req) !in db.bindings
    requires PredecessorError(db, IdOf(env, req), RowOf(env, req)).None?
    requires seen.bindings == db.bindings && seen.products == db.products
    requires InsertBinding(seen, IdOf(env, req), RowOf(env, req)).Err?
    ensures Ingest(env, db, req) == Err(InsertBinding(seen, IdOf(env, req), RowOf(env, req)).error)
  {
    var db1 := InsertEvidence(db, env.sha(req.payload), |req.payload|);
    assert db1.bindings == seen.bindings && db1.products == seen.products;
    assert InsertBinding(db1, IdOf(env, req), RowOf(env, req))
        == Err(InsertBinding(seen, IdOf(env, req), RowOf(env, req)).error);
  }

  lemma BindingNext(env: Env, db: Db, c: Client)
    requires ClientOk(env, db, c) && c.pc.EvidenceIn?
    ensures IdOf(env, c.req) !in Visible(db, c.delta).bindings
    ensures var inserted := InsertBinding(Visible(db, c.delta), IdOf(env, c.req), RowOf(env, c.req));
            var written := map[IdOf(env, c.req) := RowOf(env, c.req)];
            if inserted.Err? then Ingest(env, db, c.req) == Err(inserted.error)
            else
              c.delta.bindings[IdOf(env, c.req) := RowOf(env, c.req)] == written
              && ClientOk(env, db, c.(pc := BindingIn, delta := c.delta.(bindings := written)))
  {
    var id, row := IdOf(env, c.req), RowOf(env, c.req);
    var seen := Visible(db, c.delta);
    assert seen.bindings == db.bindings;
    if InsertBinding(seen, id, row).Err? {
      RefusedBindingIsRefused(env, db, c.req, seen);
    } else {
      AdmittedRowIsInserted(seen, id, row);
      assert Admits(db, row);
      assert c.delta.bindings[id := row] == map[id := row];
    }
  }

  lemma BindingStep(env: Env, s: System, i: nat)
    requires AllOk(env, s.db, s.clients) && Step(env, s, PutBinding(i)).Some?
    ensures i < |s.clients| && s.clients[i].pc.EvidenceIn? && IndexesFree(env, s, i)
    ensures var c := s.clients[i];
            var inserted := InsertBinding(Visible(s.db, c.delta), IdOf(env, c.req), RowOf(env, c.req));
            var delta := c.delta.(bindings := map[IdOf(env, c.req) := RowOf(env, c.req)]);
            if inserted.Err? then
              Ingest(env, s.db, c.req) == Err(inserted.error)
              && Step(env, s, PutBinding(i)) == Some(Refuse(s, i, inserted.error))
            else
              ClientOk(env, s.db, c.(pc := BindingIn, delta := delta))
              && Step(env, s, PutBinding(i)) == Some(Move(s, i, BindingIn, delta))
  {
    assert i < |s.clients| && s.clients[i].pc.EvidenceIn?;
    assert ClientOk(env, s.db, s.clients[i]);
    BindingNext(env, s.db, s.clients[i]);
  }

  lemma BindingKeeps(env: Env, past: seq<Event>, s: System, i: nat)
    requires Good(env, past, s) && Step(env, s, PutBinding(i)).Some?
    ensures Good(env, past, Step(env, s, PutBinding(i)).value)
  {
    BindingStep(env, s, i);
    var c := s.clients[i];
    var inserted := InsertBinding(Visible(s.db, c.delta), IdOf(env, c.req), RowOf(env, c.req));
    if inserted.Err? {
      RefuseKeeps(env, past, s, i, inserted.error);
    } else {
      MoveKeeps(env, past, s, i, BindingIn, c.delta.(bindings := map[IdOf(env, c.req) := RowOf(env, c.req)]));
    }
  }

  lemma LocationsNext(env: Env, db: Db, c: Client)
    requires ClientOk(env, db, c) && (c.pc.BindingIn? || c.pc.Retrying?)
    ensures c.delta.locations + Locations(env, c.req) == Locations(env, c.req)
    ensures ClientOk(env, db, c.(pc := if c.pc.BindingIn? then LocationsIn else Relocated,
                                 delta := c.delta.(locations := Locations(env, c.req))))
  {
    assert Facts(env, db, c.(pc := if c.pc.BindingIn? then LocationsIn else Relocated,
                             delta := c.delta.(locations := Locations(env, c.req))));
  }

  lemma LocationsStep(env: Env, s: System, i: nat)
    requires Step(env, s, PutLocations(i)).Some?
    ensures i < |s.clients| && (s.clients[i].pc.BindingIn? || s.clients[i].pc.Retrying?)
    ensures Validate(env, s.clients[i].req).Ok?
    ensures var c := s.clients[i];
            Step(env, s, PutLocations(i)) ==
            Some(Move(s, i, if c.pc.BindingIn? then LocationsIn else Relocated,
                      c.delta.(locations := c.delta.locations + Locations(env, c.req))))
  {
  }

  lemma LocationsKeep(env: Env, past: seq<Event>, s: System, i: nat)
    requires Good(env, past, s) && Step(env, s, PutLocations(i)).Some?
    ensures Good(env, past, Step(env, s, PutLocations(i)).value)
  {
    LocationsStep(env, s, i);
    var c := s.clients[i];
    assert ClientOk(env, s.db, c);
    LocationsNext(env, s.db, c);
    MoveKeeps(env, past, s, i, if c.pc.BindingIn? then LocationsIn else Relocated,
              c.delta.(locations := Locations(env, c.req)));
  }

  lemma ItemsRefused(env: Env, db: Db, c: Client)
    requires ClientOk(env, db, c) && c.pc.LocationsIn?
    requires env.project(c.req.artifact, c.req.payload, c.req.binding).None?
    ensures Ingest(env, db, c.req) == Err(ProjectionError)
  {
    var db1 := InsertEvidence(db, env.sha(c.req.payload), |c.req.payload|);
    assert Admits(db1, RowOf(env, c.req));
    AdmittedRowIsInserted(db1, IdOf(env, c.req), RowOf(env, c.req));
  }

  lemma OwnItems(env: Env, db: Db, req: Request, items: seq<Item>)
    requires env.project(req.artifact, req.payload, req.binding) == Some(items)
    requires forall k | k in db.projections :: k.bindingId != IdOf(env, req)
    ensures InsertItems(db.projections, IdOf(env, req), items) - db.projections.Keys == NewItems(env, req)
  {
    ProjectOnto(db.projections, IdOf(env, req), items);
    ProjectAdds(map[], IdOf(env, req), items);
  }

  lemma ItemsNext(env: Env, db: Db, c: Client, items: seq<Item>)
    requires ClientOk(env, db, c) && c.pc.LocationsIn?
    requires env.project(c.req.artifact, c.req.payload, c.req.binding) == Some(items)
    requires forall k | k in db.projections :: k.bindingId != IdOf(env, c.req)
    ensures InsertItems(Visible(db, c.delta).projections, IdOf(env, c.req), items) - db.projections.Keys
            == NewItems(env, c.req)
    ensures ClientOk(env, db, c.(pc := Projected, delta := c.delta.(projections := NewItems(env, c.req))))
  {
    assert Visible(db, c.delta).projections == db.projections;
    OwnItems(env, db, c.req, items);
    assert Facts(env, db, c.(pc := Projected, delta := c.delta.(projections := NewItems(env, c.req))));
  }

  lemma ItemsStep(env: Env, s: System, i: nat)
    requires RowsSound(env, s.db) && AllOk(env, s.db, s.clients) && Step(env, s, PutItems(i)).Some?
    ensures i < |s.clients| && s.clients[i].pc.LocationsIn?
    ensures var c := s.clients[i];
            if env.project(c.req.artifact, c.req.payload, c.req.binding).None? then
              Ingest(env, s.db, c.req) == Err(ProjectionError)
              && Step(env, s, PutItems(i)) == Some(Refuse(s, i, ProjectionError))
            else
              var delta := c.delta.(projections := NewItems(env, c.req));
              ClientOk(env, s.db, c.(pc := Projected, delta := delta))
              && Step(env, s, PutItems(i)) == Some(Move(s, i, Projected, delta))
  {
    assert i < |s.clients| && s.clients[i].pc.LocationsIn?;
    var c := s.clients[i];
    assert ClientOk(env, s.db, c);
    match env.project(c.req.artifact, c.req.payload, c.req.binding)
    case None => ItemsRefused(env, s.db, c);
    case Some(items) => ItemsNext(env, s.db, c, items);
  }

  lemma ItemsKeep(env: Env, past: seq<Event>, s: System, i: nat)
    requires Good(env, past, s) && Step(env, s, PutItems(i)).Some?
    ensures Good(env, past, Step(env, s, PutItems(i)).value)
  {
    ItemsStep(env, s, i);
    var c := s.clients[i];
    if env.project(c.req.artifact, c.req.payload, c.req.binding).None? {
      RefuseKeeps(env, past, s, i, ProjectionError);
    } else {
      MoveKeeps(env, past, s, i, Projected, c.delta.(projections := NewItems(env, c.req)));
    }
  }

  lemma StepKeeps(env: Env, past: seq<Event>, s: System, a: Action)
    requires Good(env, past, s) && Step(env, s, a).Some?
    ensures Good(env, past, Step(env, s, a).value)
  {
    match a
    case Lock(i) =>
      if Validate(env, s.clients[i].req).Err? {
        RefuseKeeps(env, past, s, i, Validate(env, s.clients[i].req).error);
      } else {
        MoveKeeps(env, past, s, i, Locked, NO_ROWS);
      }
    case Read(i) => ReadKeeps(env, past, s, i);
    case CheckPredecessor(i) => CheckKeeps(env, past, s, i);
    case PutEvidence(i) => EvidenceKeeps(env, past, s, i);
    case PutBinding(i) => BindingKeeps(env, past, s, i);
    case PutLocations(i) => LocationsKeep(env, past, s, i);
    case PutItems(i) => ItemsKeep(env, past, s, i);
    case Commit(i) => CommitKeeps(env, past, s, i);
    case Fault(i) =>
      AllButOne(env, s.db, s.clients, i);
      FinishKeeps(env, past, s, i, Faulted(s.clients[i].req), Err(DriverFault));
    case Register(product) => RegisterKeeps(env, past, s, product);
  }

  // ----- Main results -----

  lemma StartIsolated(env: Env, past: seq<Event>, reqs: seq<Request>)
    requires RowsSound(env, Run(env, past))
    ensures Isolated(env, Start(env, past, reqs))
  {
    AllWaiting(env, Run(env, past), Start(env, past, reqs).clients);
  }

  lemma AllWaiting(env: Env, db: Db, cs: seq<Client>)
    requires forall i | 0 <= i < |cs| :: cs[i].pc.Ready? && cs[i].delta == NO_ROWS
    ensures AllOk(env, db, cs) && PairsOk(env, cs)
  {
    forall i | 0 <= i < |cs|
      ensures ClientOk(env, db, cs[i])
    {
      WaitingIsOk(env, db, cs[i]);
    }
  }

  lemma WaitingIsOk(env: Env, db: Db, c: Client)
    requires c.pc.Ready? && c.delta == NO_ROWS
    ensures ClientOk(env, db, c)
  {
    assert Facts(env, db, c);
  }

  lemma StartSerial(env: Env, past: seq<Event>, reqs: seq<Request>)
    ensures Serial(env, past, Start(env, past, reqs))
  {
    assert past + Events([]) == past;
  }

  lemma StartGood(env: Env, past: seq<Event>, reqs: seq<Request>)
    requires NoIdCollision(env, Start(env, past, reqs))
    ensures Good(env, past, Start(env, past, reqs))
  {
    assert RowsSound(env, Run(env, past)) by { RunInv(env, past); }
    StartIsolated(env, past, reqs);
    StartSerial(env, past, reqs);
  }

  lemma {:induction false} ExecGood(env: Env, past: seq<Event>, s: System, actions: seq<Action>)
    requires Good(env, past, s) && Exec(env, s, actions).Some?
    ensures Good(env, past, Exec(env, s, actions).value)
  {
    if actions != [] {
      var init := actions[..|actions| - 1];
      ExecGood(env, past, s, init);
      StepKeeps(env, past, Exec(env, s, init).value, actions[|actions| - 1]);
    }
  }

  /**
   Every interleaving, faults and concurrent registrations included, leaves the tables and gives
   the answers of one serial run: each answer is that of the pure call at its place in the log.
   */
  lemma EveryInterleavingIsSerial(env: Env, past: seq<Event>, reqs: seq<Request>, actions: seq<Action>)
    requires NoIdCollision(env, Start(env, past, reqs))
    requires Exec(env, Start(env, past, reqs), actions).Some?
    ensures Serial(env, past, Exec(env, Start(env, past, reqs), actions).value)
  {
    StartGood(env, past, reqs);
    ExecGood(env, past, Start(env, past, reqs), actions);
  }

  /** The entry bound a new row. */
  ghost predicate BindsNew(entry: Entry) {
    entry.event.Submit? && entry.outcome.Some? && entry.outcome.value.Ok? && !entry.outcome.value.value.alreadyBound
  }

  lemma {:induction false} EventsAt(log: seq<Entry>, k: nat)
    requires k <= |log|
    ensures |Events(log)| == |log|
    ensures Events(log[..k]) == Events(log)[..k]
    ensures k < |log| ==> Events(log)[k] == log[k].event
  {
    if log != [] {
      var init := log[..|log| - 1];
      if k < |log| {
        EventsAt(init, k);
        assert log[..k] == init[..k];
      } else {
        EventsAt(init, |init|);
        assert log[..k] == log;
      }
    }
  }

  lemma LogGrows(env: Env, past: seq<Event>, log: seq<Entry>, k: nat, l: nat)
    requires k <= l <= |log|
    ensures Grows(Run(env, past + Events(log[..k])), Run(env, past + Events(log[..l])))
  {
    var all := past + Events(log[..l]);
    EventsAt(log[..l], k);
    assert log[..l][..k] == log[..k];
    assert all[..|past| + k] == past + Events(log[..k]);
    RunGrows(env, all, |past| + k);
  }

  lemma NewReceiptBinds(env: Env, db: Db, req: Request, receipt: Receipt, after: Db)
    requires Ingest(env, db, req) == Ok((receipt, after)) && !receipt.alreadyBound
    ensures IdOf(env, req) !in db.bindings
    ensures IdOf(env, req) in after.bindings && after.bindings[IdOf(env, req)] == RowOf(env, req)
  {
    IngestEffect(env, db, req);
  }

  lemma NewAnswerBinds(env: Env, db: Db, entry: Entry)
    requires BindsNew(entry) && Ingest(env, db, entry.event.req).Ok?
    requires entry.outcome == Some(Ok(Ingest(env, db, entry.event.req).value.0))
    ensures var id, after := IdOf(env, entry.event.req), Apply(env, db, entry.event);
            id !in db.bindings && id in after.bindings && after.bindings[id] == RowOf(env, entry.event.req)
  {
    var (receipt, after) := Ingest(env, db, entry.event.req).value;
    NewReceiptBinds(env, db, entry.event.req, receipt, after);
  }

  /** The tables after this log hold the binding `req` asks for. */
  ghost predicate Bound(env: Env, past: seq<Event>, log: seq<Entry>, req: Request) {
    var db := Run(env, past + Events(log));
    IdOf(env, req) in db.bindings && db.bindings[IdOf(env, req)] == RowOf(env, req)
  }

  ghost predicate Unbound(env: Env, past: seq<Event>, log: seq<Entry>, req: Request) {
    IdOf(env, req) !in Run(env, past + Events(log)).bindings
  }

  /** The entry's receipt is the one the pure call gives after this log. */
  ghost predicate Receives(env: Env, past: seq<Event>, before: seq<Entry>, e: Entry)
    requires BindsNew(e)
  {
    var answer := Ingest(env, Run(env, past + Events(before)), e.event.req);
    answer.Ok? && e.outcome == Some(Ok(answer.value.0))
  }

  lemma NewAnswerIsIngest(env: Env, past: seq<Event>, log: seq<Entry>, k: nat)
    requires k < |log| && BindsNew(log[k]) && AnswersSerially(env, past, log, k)
    ensures Receives(env, past, log[..k], log[k])
  {
  }

  lemma BoundNext(env: Env, past: seq<Event>, before: seq<Entry>, e: Entry)
    requires BindsNew(e) && Receives(env, past, before, e)
    ensures Bound(env, past, before + [e], e.event.req) && Unbound(env, past, before, e.event.req)
  {
    EventsAppend(env, past, before, e);
    NewAnswerBinds(env, Run(env, past + Events(before)), e);
  }

  lemma BoundAtOnce(env: Env, past: seq<Event>, log: seq<Entry>, k: nat)
    requires k < |log| && BindsNew(log[k]) && AnswersSerially(env, past, log, k)
    ensures Bound(env, past, log[..k + 1], log[k].event.req) && Unbound(env, past, log[..k], log[k].event.req)
  {
    PrefixNext(log, k);
    NewAnswerIsIngest(env, past, log, k);
    BoundNext(env, past, log[..k], log[k]);
  }

  lemma PrefixNext(log: seq<Entry>, k: nat)
    requires k < |log|
    ensures log[..k + 1] == log[..k] + [log[k]]
  {
  }

  /** A binding made at entry `k` is in the tables from then on. */
  lemma BoundRowStays(env: Env, past: seq<Event>, log: seq<Entry>, k: nat, l: nat)
    requires k < l <= |log| && BindsNew(log[k]) && AnswersSerially(env, past, log, k)
    ensures Bound(env, past, log[..l], log[k].event.req) && Unbound(env, past, log[..k], log[k].event.req)
  {
    BoundAtOnce(env, past, log, k);
    LogGrows(env, past, log, k + 1, l);
  }

  /** Of all callers with one binding identity, at most one is told it made the binding. */
  lemma OneCallerBinds(env: Env, past: seq<Event>, s: System, k: nat, l: nat)
    requires Serial(env, past, s) && k < l < |s.log|
    requires BindsNew(s.log[k]) && BindsNew(s.log[l])
    ensures IdOf(env, s.log[k].event.req) != IdOf(env, s.log[l].event.req)
  {
    assert AnswersSerially(env, past, s.log, k) && AnswersSerially(env, past, s.log, l);
    BoundRowStays(env, past, s.log, k, l);
    BoundRowStays(env, past, s.log, l, |s.log|);
  }

  /** Two callers never both commit a successor of the same binding. */
  lemma OneSuccessorCommits(env: Env, past: seq<Event>, s: System, k: nat, l: nat)
    requires Serial(env, past, s) && k < l < |s.log|
    requires BindsNew(s.log[k]) && BindsNew(s.log[l])
    requires s.log[k].event.req.binding.supersedes.Some?
    ensures s.log[k].event.req.binding.supersedes != s.log[l].event.req.binding.supersedes
  {
    assert AnswersSerially(env, past, s.log, k) && AnswersSerially(env, past, s.log, l);
    BoundRowStays(env, past, s.log, k, |s.log|);
    BoundRowStays(env, past, s.log, l, |s.log|);
    OneCallerBinds(env, past, s, k, l);
    assert s.log[..|s.log|] == s.log;
    RunInv(env, past + Events(s.log));
    if s.log[k].event.req.binding.supersedes == s.log[l].event.req.binding.supersedes {
      var p := s.log[k].event.req.binding.supersedes.value;
      assert Supersedes(s.db, IdOf(env, s.log[k].event.req), p);
      assert Supersedes(s.db, IdOf(env, s.log[l].event.req), p);
    }
  }

  /** When identical callers succeed on an identity not bound before, some caller is told it made the binding. */
  lemma {:induction false} SomeCallerBinds(env: Env, past: seq<Event>, log: seq<Entry>, id: Str)
    requires AllAnswered(env, past, log)
    requires id !in Run(env, past).bindings && id in Run(env, past + Events(log)).bindings
    ensures exists k :: 0 <= k < |log| && BindsNew(log[k]) && IdOf(env, log[k].event.req) == id
  {
    assert past + [] == past;
    if log != [] {
      var init, e := log[..|log| - 1], log[|log| - 1];
      assert log == init + [e];
      EventsAppend(env, past, init, e);
      var db := Run(env, past + Events(init));
      forall k | 0 <= k < |init|
        ensures AnswersSerially(env, past, init, k)
      {
        assert AnswersSerially(env, past, log, k);
        assert init[..k] == log[..k];
      }
      if id in db.bindings {
        SomeCallerBinds(env, past, init, id);
        var k :| 0 <= k < |init| && BindsNew(init[k]) && IdOf(env, init[k].event.req) == id;
        assert BindsNew(log[k]);
      } else {
        assert AnswersSerially(env, past, log, |init|);
        assert log[..|init|] == init;
        IngestEffect(env, db, e.event.req);
        assert BindsNew(log[|init|]);
      }
    }
  }

  /** No deadlock: while any caller is unanswered, some caller can take its next step. */
  lemma NoDeadlock(env: Env, past: seq<Event>, s: System, i: nat)
    requires Good(env, past, s) && i < |s.clients| && !s.clients[i].pc.Done?
    ensures exists a: Action :: !a.Fault? && !a.Register? && Step(env, s, a).Some?
  {
    SomeoneSteps(env, s, i);
  }

  lemma SomeoneSteps(env: Env, s: System, i: nat)
    requires AllOk(env, s.db, s.clients) && i < |s.clients| && !s.clients[i].pc.Done?
    ensures exists a: Action :: !a.Fault? && !a.Register? && Step(env, s, a).Some?
  {
    if j :| 0 <= j < |s.clients| && Active(s.clients[j].pc) && !s.clients[j].pc.EvidenceIn? {
      assert ClientOk(env, s.db, s.clients[j]);
      NeverWaits(env, s, j);
    } else if j :| 0 <= j < |s.clients| && s.clients[j].pc.EvidenceIn? {
      IndexesAreFree(env, s, j);
    } else {
      LocksAreFree(env, s, i);
    }
  }

  /** Past its lock, a caller waits for nothing but the unique indexes. */
  lemma NeverWaits(env: Env, s: System, j: nat)
    requires j < |s.clients| && Active(s.clients[j].pc) && !s.clients[j].pc.EvidenceIn?
    requires Validate(env, s.clients[j].req).Ok?
    ensures Step(env, s, NextAction(s.clients[j].pc, j)).Some?
  {
  }

  lemma IndexesAreFree(env: Env, s: System, j: nat)
    requires j < |s.clients| && s.clients[j].pc.EvidenceIn?
    requires forall k | 0 <= k < |s.clients| && Active(s.clients[k].pc) :: s.clients[k].pc.EvidenceIn?
    ensures Step(env, s, PutBinding(j)).Some?
  {
    assert IndexesFree(env, s, j);
  }

  lemma LocksAreFree(env: Env, s: System, i: nat)
    requires i < |s.clients| && s.clients[i].pc.Ready?
    requires forall k | 0 <= k < |s.clients| :: !Active(s.clients[k].pc)
    ensures Step(env, s, Lock(i)).Some?
  {
    assert LockFree(env, s, i);
  }

  ghost function NextAction(pc: Pc, i: nat): Action {
    match pc
    case Locked => Read(i)
    case Fresh => CheckPredecessor(i)
    case Checked => PutEvidence(i)
    case Retrying => PutLocations(i)
    case BindingIn => PutLocations(i)
    case LocationsIn => PutItems(i)
    case _ => Commit(i)
  }

  /** If the hash has no collision on the encodings, equal identities do mean equal bytes. */
  lemma NoCollisionSuffices(env: Env, s: System)
    requires WellFormed(env)
    requires forall i | 0 <= i < |s.clients| :: Validate(env, s.clients[i].req).Ok?
    requires forall i, j | 0 <= i < |s.clients| && 0 <= j < |s.clients|
                           && IdOf(env, s.clients[i].req) == IdOf(env, s.clients[j].req) ::
               EncodedOf(env, s.clients[i].req) == EncodedOf(env, s.clients[j].req)
    ensures NoIdCollision(env, s)
  {
    forall i, j | 0 <= i < |s.clients| && 0 <= j < |s.clients|
                  && IdOf(env, s.clients[i].req) == IdOf(env, s.clients[j].req)
      ensures env.sha(s.clients[i].req.payload) == env.sha(s.clients[j].req.payload)
    {
      var a, b := s.clients[i].req, s.clients[j].req;
      IdentityAlwaysEncodes(env, a);
      IdentityAlwaysEncodes(env, b);
      EncodingInjective(ContextOf(env.sha(a.payload), a.artifact, a.binding),
                        ContextOf(env.sha(b.payload), b.artifact, b.binding));
    }
  }

  function EncodedOf(env: Env, req: Request): seq<byte> {
    Encoding(ContextOf(env.sha(req.payload), req.artifact, req.binding))
  }
}
