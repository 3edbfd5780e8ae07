/**
 `Store` as it runs: one connection, one transaction at a time, and any statement may raise.
 The committed tables are what other connections see; the working tables are the open transaction.
 */
module StorageStore {
  import opened Wrappers
  import opened StorageIdentity
  import opened StorageModel

  datatype Dialect = Sqlite | Postgres

  /** An `IngestError`: its cause, and whether the rollback after it failed too. */
  datatype Failure = Failure(cause: Error, rollbackFailed: bool)

  class Store {
    const env: Env
    const dialect: Dialect
    var committed: Db
    var working: Db
    /** A transaction is open on the connection. */
    var active: bool
    /** How many statements have raised by themselves. */
    ghost var faults: nat

    constructor (env: Env, dialect: Dialect)
      ensures this.env == env && this.dialect == dialect
      ensures committed == EMPTY_DB && !active && faults == 0
    {
      this.env := env;
      this.dialect := dialect;
      committed := EMPTY_DB;
      working := EMPTY_DB;
      active := false;
      faults := 0;
    }

    // ----- Statements: each either takes effect or raises -----

    /** One more fault, or none. */
    twostate predicate Raised(fault: bool)
      reads this
    {
      faults == old(faults) + (if fault then 1 else 0)
    }

    /** A statement without effect on the tables (a lock or a read). */
    method Execute() returns (r: Result<(), Error>)
      modifies `faults
      ensures (r.Err? ==> r.error == DriverFault) && Raised(r.Err?)
    {
      var fault: bool := *;
      r := Ok(());
      if fault {
        faults := faults + 1;
        r := Err(DriverFault);
      }
    }

    method Begin() returns (r: Result<(), Error>)
      requires !active
      modifies `active, `working, `faults
      ensures active == r.Ok?
      ensures r.Ok? ==> working == committed
      ensures (r.Err? ==> r.error == DriverFault) && Raised(r.Err?)
    {
      r := Execute();
      if r.Ok? {
        active := true;
        working := committed;
      }
    }

    method Commit() returns (r: Result<(), Error>)
      requires active
      modifies `active, `committed, `faults
      ensures active == r.Err?
      ensures committed == if r.Ok? then working else old(committed)
      ensures (r.Err? ==> r.error == DriverFault) && Raised(r.Err?)
    {
      r := Execute();
      if r.Ok? {
        committed := working;
        active := false;
      }
    }

    /** `_rollback`: reports whether the rollback itself failed. */
    method Rollback() returns (failed: bool)
      modifies `active, `faults
      ensures active == (old(active) && failed) && Raised(failed)
      ensures failed ==> old(active)
    {
      failed := false;
      if active {
        var r := Execute();
        failed := r.Err?;
        active := failed;
      }
    }

    method BindingRow(id: Str) returns (r: Result<Option<Row>, Error>)
      modifies `faults
      ensures Raised(r.Err?)
      ensures r.Ok? ==> r.value == if id in working.bindings then Some(working.bindings[id]) else None
      ensures r.Err? ==> r.error == DriverFault
    {
      var e := Execute();
      if e.Err? {
        return Err(e.error);
      }
      return Ok(if id in working.bindings then Some(working.bindings[id]) else None);
    }

    method UpsertEvidence(digest: Str, size: nat) returns (r: Result<(), Error>)
      modifies `working, `faults
      ensures Raised(r == Err(DriverFault))
      ensures r.Ok? ==> working == InsertEvidence(old(working), digest, size)
      ensures r.Err? ==> r.error == DriverFault
    {
      r := Execute();
      if r.Ok? {
        working := InsertEvidence(working, digest, size);
      }
    }

    method UpsertBinding(id: Str, row: Row) returns (r: Result<(), Error>)
      modifies `working, `faults
      ensures Raised(r == Err(DriverFault))
      ensures r.Ok? ==> InsertBinding(old(working), id, row) == Ok(working)
      ensures r.Err? ==> r.error == DriverFault || InsertBinding(old(working), id, row) == Err(r.error)
    {
      r := Execute();
      if r.Ok? {
        var inserted := InsertBinding(working, id, row);
        if inserted.Err? {
          return Err(inserted.error);
        }
        working := inserted.value;
      }
    }

    method UpsertLocation(id: Str, reference: Str) returns (r: Result<(), Error>)
      modifies `working, `faults
      ensures Raised(r == Err(DriverFault))
      ensures r.Ok? ==> working == InsertLocation(old(working), id, reference)
      ensures r.Err? ==> r.error == DriverFault
    {
      r := Execute();
      if r.Ok? {
        working := InsertLocation(working, id, reference);
      }
    }

    method UpsertItem(id: Str, item: Item) returns (r: Result<(), Error>)
      modifies `working, `faults
      ensures Raised(r == Err(DriverFault))
      ensures r.Ok? ==> working == old(working).(projections := InsertItem(old(working.projections), id, item))
      ensures r.Err? ==> r.error == DriverFault
    {
      r := Execute();
      if r.Ok? {
        working := working.(projections := InsertItem(working.projections, id, item));
      }
    }

    // ----- The parts of ingest -----

    method RegisterAll(id: Str, references: seq<Str>) returns (r: Result<(), Error>)
      modifies `working, `faults
      ensures Raised(r == Err(DriverFault))
      ensures r.Ok? ==> working == RegisterLocations(old(working), id, references)
      ensures r.Err? ==> r.error == DriverFault
    {
      for i := 0 to |references|
        invariant working == RegisterLocations(old(working), id, references[..i]) && Raised(false)
      {
        assert references[..i + 1] == references[..i] + [references[i]];
        r := UpsertLocation(id, references[i]);
        if r.Err? {
          return;
        }
      }
      assert references[..|references|] == references;
      return Ok(());
    }

    method ProjectAll(req: Request, id: Str) returns (r: Result<(), Error>)
      modifies `working, `faults
      ensures Raised(r == Err(DriverFault))
      ensures var computed := env.project(req.artifact, req.payload, req.binding);
              if r.Ok? then computed.Some? && working == Project(old(working), id, computed.value)
              else r.error == DriverFault || (r.error == ProjectionError && computed.None?)
    {
      var computed := env.project(req.artifact, req.payload, req.binding);
      if computed.None? {
        return Err(ProjectionError);
      }
      var items := computed.value;
      for i := 0 to |items|
        invariant working == Project(old(working), id, items[..i]) && Raised(false)
      {
        assert items[..i + 1][..i] == items[..i];
        r := UpsertItem(id, items[i]);
        if r.Err? {
          return;
        }
      }
      assert items[..|items|] == items;
      return Ok(());
    }

    method RequirePredecessor(id: Str, row: Row) returns (r: Result<(), Error>)
      requires row.binding.supersedes.Some?
      modifies `faults
      ensures Raised(r == Err(DriverFault))
      ensures r.Ok? ==> PredecessorError(working, id, row).None?
      ensures r.Err? ==> r.error == DriverFault || PredecessorError(working, id, row) == Some(r.error)
    {
      var predecessorId := row.binding.supersedes.value;
      if predecessorId == id {
        return Err(SelfSupersession);
      }
      var found := BindingRow(predecessorId);
      if found.Err? {
        return Err(found.error);
      }
      if found.value.None? {
        return Err(PredecessorNotFound);
      }
      if Line(found.value.value) != Line(row) {
        return Err(ContextMismatch);
      }
      return Ok(());
    }

    /** Evidence, binding, locations and projection of a first ingest. */
    method WriteAll(req: Request, id: Str, locations: seq<Str>) returns (r: Result<(), Error>)
      modifies `working, `faults
      ensures Raised(r == Err(DriverFault))
      ensures var row, computed := RowOf(env, req), env.project(req.artifact, req.payload, req.binding);
              var bound := InsertBinding(InsertEvidence(old(working), row.digest, |req.payload|), id, row);
              && (r.Ok? ==>
                    && bound.Ok? && computed.Some?
                    && working == Project(RegisterLocations(bound.value, id, locations), id, computed.value))
              && (r.Err? ==>
                    r.error == DriverFault || bound == Err(r.error)
                    || (bound.Ok? && computed.None? && r.error == ProjectionError))
    {
      var row := RowOf(env, req);
      r := UpsertEvidence(row.digest, |req.payload|);
      if r.Ok? {
        r := UpsertBinding(id, row);
      }
      if r.Ok? {
        r := RegisterAll(id, locations);
      }
      if r.Ok? {
        r := ProjectAll(req, id);
      }
    }

    /** Everything between BEGIN and the end of the `try` block. */
    method Attempt(req: Request, id: Str, locations: seq<Str>) returns (r: Result<Receipt, Error>)
      requires active && working == committed && id == IdOf(env, req)
      modifies this
      ensures Raised(r == Err(DriverFault))
      ensures r.Ok? ==> !active && Transact(env, old(committed), req, locations) == Ok((r.value, committed))
      ensures r.Err? ==> active && committed == old(committed)
      ensures r.Err? ==> r.error == DriverFault || Transact(env, old(committed), req, locations) == Err(r.error)
    {
      var row := RowOf(env, req);
      var e: Result<(), Error>;
      if dialect.Postgres? {
        e := Execute();
        if e.Err? {
          return Err(e.error);
        }
      }
      var existing := BindingRow(id);
      if existing.Err? {
        return Err(existing.error);
      }
      if existing.value.Some? {
        if existing.value.value != row {
          return Err(IdentityCollision);
        }
        e := RegisterAll(id, locations);
        if e.Ok? {
          e := Commit();
        }
        if e.Err? {
          return Err(e.error);
        }
        return Ok(Receipt(row.digest, id, true));
      }
      if req.binding.supersedes.Some? {
        e := RequirePredecessor(id, row);
        if e.Err? {
          return Err(e.error);
        }
      }
      e := WriteAll(req, id, locations);
      if e.Ok? {
        e := Commit();
      }
      if e.Err? {
        return Err(e.error);
      }
      return Ok(Receipt(row.digest, id, false));
    }

    /**
     `Store.ingest`. Either every table is as the pure call leaves it, or none has changed;
     unless a statement raises, the answer is that of the pure call; and a caller's own open
     transaction is left alone. The connection stays busy only when a rollback fails.
     */
    method Ingest(req: Request) returns (r: Result<Receipt, Failure>)
      requires WellFormed(env)
      modifies this
      ensures old(active) ==> r == Err(Failure(NotIdle, false))
                              && committed == old(committed) && working == old(working) && active
      ensures r.Ok? ==> StorageModel.Ingest(env, old(committed), req) == Ok((r.value, committed)) && !active
      ensures r.Err? ==> committed == old(committed)
      ensures r.Err? && !old(active) ==>
                (r.error.cause == DriverFault
                 || StorageModel.Ingest(env, old(committed), req) == Err(r.error.cause))
                && (active <==> r.error.rollbackFailed)
      ensures faults == old(faults) + (if r.Err? && r.error.cause == DriverFault then 1 else 0)
                                    + (if r.Err? && r.error.rollbackFailed then 1 else 0)
    {
      if active {
        return Err(Failure(NotIdle, false));
      }
      var locations := Validated(req);
      if locations.Err? {
        return Err(Failure(locations.error, false));
      }
      var digest := env.sha(req.payload);
      IdentityAlwaysEncodes(env, req);
      var bytes := BindingBytes(ContextOf(digest, req.artifact, req.binding));
      EncodableIffClean(ContextOf(digest, req.artifact, req.binding));
      r := InTransaction(req, env.sha(bytes.value), locations.value);
    }

    /** BEGIN, the `try` block, and what follows if it raises. */
    method InTransaction(req: Request, id: Str, locations: seq<Str>) returns (r: Result<Receipt, Failure>)
      requires !active && id == IdOf(env, req)
      modifies this
      ensures r.Ok? ==> !active && Transact(env, old(committed), req, locations) == Ok((r.value, committed))
      ensures r.Err? ==> committed == old(committed) && (active <==> r.error.rollbackFailed)
      ensures r.Err? ==>
                r.error.cause == DriverFault || Transact(env, old(committed), req, locations) == Err(r.error.cause)
      ensures faults == old(faults) + (if r.Err? && r.error.cause == DriverFault then 1 else 0)
                                    + (if r.Err? && r.error.rollbackFailed then 1 else 0)
    {
      var e := Begin();
      if e.Err? {
        return Err(Failure(e.error, false));
      }
      var receipt := Attempt(req, id, locations);
      if receipt.Err? {
        var failed := Rollback();
        return Err(Failure(receipt.error, failed));
      }
      return Ok(receipt.value);
    }

    /** The checks before BEGIN. */
    method Validated(req: Request) returns (r: Result<seq<Str>, Error>)
      ensures r == Validate(env, req) && r != Err(DriverFault)
    {
      if req.artifact !in env.profiles {
        return Err(UnknownArtifact);
      }
      if !env.accepts(req.artifact, req.payload) {
        return Err(InvalidDocument);
      }
      var wrong := ValidateBinding(env, req.artifact, req.binding);
      if wrong.Some? {
        return Err(wrong.value);
      }
      r := DeduplicateReferences(req.references);
    }
  }

  /** `_references`: one pass that checks and deduplicates. */
  method DeduplicateReferences(references: seq<Str>) returns (r: Result<seq<Str>, Error>)
    ensures r == match FirstReferenceError(references)
                 case Some(e) => Err(e)
                 case None => Ok(Deduplicated(references))
    ensures r.Err? ==> r.error.EmptyReference? || r.error.BadField?
  {
    var seen: seq<Str> := [];
    for i := 0 to |references|
      invariant seen == Deduplicated(references[..i])
      invariant FirstReferenceError(references) == FirstReferenceError(references[i..])
    {
      assert references[i..][0] == references[i] && references[i..][1..] == references[i + 1..];
      assert references[..i + 1][..i] == references[..i];
      if references[i] == [] {
        return Err(EmptyReference);
      }
      var bytes := IdentifierBytes(References, references[i]);
      if bytes.Err? {
        return Err(BadField(bytes.error));
      }
      if references[i] !in seen {
        seen := seen + [references[i]];
      }
    }
    assert references[..|references|] == references;
    return Ok(seen);
  }
}
