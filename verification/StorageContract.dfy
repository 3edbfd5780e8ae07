/**
 `Store.ingest` told without the functions that compute it: what is refused and in which order, what a binding's
 identity covers, and what is stored.
 */
module StorageContract {
  import opened Wrappers
  import opened StorageIdentity
  import opened StorageModel
  import opened StorageChains

  // ----- Validation -----

  /** Text without NUL and without lone surrogates. */
  predicate Plain(s: Str) {
    forall i | 0 <= i < |s| :: s[i] != 0 && (s[i] < 0xD800 || 0xE000 <= s[i])
  }

  predicate PlainIfGiven(s: Option<Str>) {
    s.Some? ==> Plain(s.value)
  }

  /** The binding gives this field a value. */
  predicate Gives(b: Binding, field: Field) {
    match field
    case ScopeId => true
    case SubjectId => b.subject != None
    case RunId => b.run != None
    case LayerId => b.layer != None
    case SupersedesBindingId => b.supersedes != None
    case Role => b.role != None
    case ProductRepoId => b.product != None
    case CommitSha => b.commit != None
    case _ => false
  }

  ghost predicate PlainBinding(b: Binding) {
    && b.scope != [] && Plain(b.scope) && PlainIfGiven(b.subject) && PlainIfGiven(b.run) && PlainIfGiven(b.layer)
    && PlainIfGiven(b.supersedes) && PlainIfGiven(b.role) && PlainIfGiven(b.product) && PlainIfGiven(b.commit)
  }

  ghost predicate FitsProfile(profile: Profile, b: Binding) {
    && (b.role.Some? ==> b.role.value in profile.roles)
    && forall i | 0 <= i < |profile.required| :: Gives(b, profile.required[i])
  }

  ghost predicate PlainReferences(references: seq<Str>) {
    forall i | 0 <= i < |references| :: references[i] != [] && Plain(references[i])
  }

  lemma CleanIsPlain(s: Str)
    ensures Clean(s) <==> Plain(s)
    ensures IdentifierBytes(ScopeId, s).Ok? <==> Plain(s)
  {
    assert 0 in s ==> exists i :: 0 <= i < |s| && s[i] == 0;
  }

  lemma {:induction false} FirstMissingMeans(b: Binding, required: seq<Field>)
    ensures FirstMissing(b, required).None? <==> forall i | 0 <= i < |required| :: Gives(b, required[i])
    ensures forall field | FirstMissing(b, required) == Some(field) ::
              exists i :: 0 <= i < |required| && required[i] == field && !Gives(b, field)
                          && forall k | 0 <= k < i :: Gives(b, required[k])
  {
    if required != [] {
      var rest := required[1..];
      FirstMissingMeans(b, rest);
      assert forall i | 0 < i < |required| :: required[i] == rest[i - 1];
      if Gives(b, required[0]) && FirstMissing(b, rest).Some? {
        var i :| 0 <= i < |rest| && rest[i] == FirstMissing(b, rest).value && !Gives(b, rest[i])
          && forall k | 0 <= k < i :: Gives(b, rest[k]);
        assert required[i + 1] == rest[i] && forall k | 0 < k < i + 1 :: required[k] == rest[k - 1];
      }
    }
  }

  /** NUL is reported before bad Unicode, in the same field. */
  ghost predicate FieldRefused(field: Field, value: Option<Str>, e: FieldError) {
    value.Some? && !Plain(value.value)
    && e == (if 0 in value.value then NulByte(field) else InvalidUnicode(field))
  }

  /** The texts of a binding, in the order in which they are looked at. */
  function Texts(b: Binding): seq<(Field, Option<Str>)> {
    [(ScopeId, Some(b.scope)), (SubjectId, b.subject), (RunId, b.run), (LayerId, b.layer),
     (SupersedesBindingId, b.supersedes), (Role, b.role), (ProductRepoId, b.product), (CommitSha, b.commit)]
  }

  /** This is the refusal of the first of these texts that is not plain. */
  ghost predicate FirstRefused(fields: seq<(Field, Option<Str>)>, e: FieldError) {
    exists i :: 0 <= i < |fields| && FieldRefused(fields[i].0, fields[i].1, e)
                && forall k | 0 <= k < i :: PlainIfGiven(fields[k].1)
  }

  /** Which field is refused: the first that is not plain. */
  lemma {:induction false} FirstBadMeans(fields: seq<(Field, Option<Str>)>, e: FieldError)
    ensures FirstBadField(fields) == Some(e) <==> FirstRefused(fields, e)
  {
    if fields != [] {
      var rest := fields[1..];
      FirstBadMeans(rest, e);
      assert forall i | 0 < i < |fields| :: fields[i] == rest[i - 1];
      if fields[0].1.Some? {
        CleanIsPlain(fields[0].1.value);
      }
      if PlainIfGiven(fields[0].1) {
        if i :| 0 <= i < |rest| && FieldRefused(rest[i].0, rest[i].1, e)
                && forall k | 0 <= k < i :: PlainIfGiven(rest[k].1) {
          assert fields[i + 1] == rest[i] && forall k | 0 < k < i + 1 :: fields[k] == rest[k - 1];
        }
        if i :| 0 <= i < |fields| && FieldRefused(fields[i].0, fields[i].1, e)
                && forall k | 0 <= k < i :: PlainIfGiven(fields[k].1) {
          assert rest[i - 1] == fields[i] && forall k | 0 <= k < i - 1 :: rest[k] == fields[k + 1];
        }
      }
    }
  }

  lemma NoneBadMeans(b: Binding)
    ensures b.scope != [] ==> (FirstBadField(BindingFields(b)).None? <==> PlainBinding(b))
  {
    var f := BindingFields(b);
    FirstBadFieldSound(f);
    assert f[0].1 == Some(b.scope) && f[1].1 == b.subject && f[2].1 == b.run && f[3].1 == b.layer;
    assert f[4].1 == b.supersedes && f[5].1 == b.role && f[6].1 == b.product && f[7].1 == b.commit;
    AllPlain(b);
  }

  lemma AllPlain(b: Binding)
    ensures PlainBinding(b) <==>
              b.scope != [] && Clean(b.scope) && CleanOption(b.subject) && CleanOption(b.run) && CleanOption(b.layer)
              && CleanOption(b.supersedes) && CleanOption(b.role) && CleanOption(b.product) && CleanOption(b.commit)
  {
    forall s: Str
      ensures Clean(s) <==> Plain(s)
    {
      CleanIsPlain(s);
    }
  }

  lemma {:induction false} ReferencesMean(references: seq<Str>)
    ensures FirstReferenceError(references).None? <==> PlainReferences(references)
    ensures FirstReferenceError(references) == Some(EmptyReference) <==>
              exists i :: 0 <= i < |references| && references[i] == [] && PlainReferences(references[..i])
    ensures forall e | FirstReferenceError(references) == Some(e) && e != EmptyReference ::
              exists i :: 0 <= i < |references| && references[i] != [] && !Plain(references[i])
                          && PlainReferences(references[..i])
                          && e == BadField(
                               if 0 in references[i] then NulByte(References) else InvalidUnicode(References))
  {
    if references != [] {
      var rest := references[1..];
      ReferencesMean(rest);
      CleanIsPlain(references[0]);
      assert forall i | 0 < i < |references| :: references[i] == rest[i - 1];
      assert references[..0] == [];
      if references[0] != [] && Plain(references[0]) {
        forall i | 0 <= i < |rest|
          ensures PlainReferences(references[..i + 1]) <==> PlainReferences(rest[..i])
        {
          ReferencesStep(references, i);
        }
        if FirstReferenceError(rest) == Some(EmptyReference) {
          var i :| 0 <= i < |rest| && rest[i] == [] && PlainReferences(rest[..i]);
          assert references[i + 1] == [] && PlainReferences(references[..i + 1]);
        }
        if FirstReferenceError(rest).Some? && FirstReferenceError(rest).value != EmptyReference {
          var e := FirstReferenceError(rest).value;
          var i :| 0 <= i < |rest| && rest[i] != [] && !Plain(rest[i]) && PlainReferences(rest[..i])
            && e == BadField(if 0 in rest[i] then NulByte(References) else InvalidUnicode(References));
          assert references[i + 1] == rest[i] && PlainReferences(references[..i + 1]);
        }
        if i :| 0 <= i < |references| && references[i] == [] && PlainReferences(references[..i]) {
          assert rest[i - 1] == [] && PlainReferences(rest[..i - 1]);
        }
      } else {
        forall i | 0 < i <= |references|
          ensures !PlainReferences(references[..i])
        {
          assert references[..i][0] == references[0];
        }
      }
    }
  }

  lemma ReferencesStep(references: seq<Str>, i: nat)
    requires i < |references| - 1 && references[0] != [] && Plain(references[0])
    ensures PlainReferences(references[..i + 1]) <==> PlainReferences(references[1..][..i])
  {
    var a, b := references[..i + 1], references[1..][..i];
    assert |a| == |b| + 1 && a[0] == references[0];
    assert forall k | 0 <= k < |b| :: b[k] == a[k + 1];
    if PlainReferences(b) {
      forall k | 0 <= k < |a|
        ensures a[k] != [] && Plain(a[k])
      {
        if k > 0 {
          assert a[k] == b[k - 1];
        }
      }
    }
  }

  /** What is valid, and the answer to everything else, in the order in which it is found. */
  lemma ValidationMeans(env: Env, req: Request)
    ensures var v := Validate(env, req);
            if req.artifact !in env.profiles then v == Err(UnknownArtifact)
            else if !env.accepts(req.artifact, req.payload) then v == Err(InvalidDocument)
            else if req.binding.scope == [] then v == Err(EmptyScope)
            else if !PlainBinding(req.binding) then
              exists e :: v == Err(BadField(e)) && FirstRefused(Texts(req.binding), e)
            else if req.binding.role.Some? && req.binding.role.value !in env.profiles[req.artifact].roles then
              v == Err(RoleNotAllowed)
            else if !FitsProfile(env.profiles[req.artifact], req.binding) then
              exists i :: 0 <= i < |env.profiles[req.artifact].required|
                          && v == Err(MissingField(env.profiles[req.artifact].required[i]))
                          && !Gives(req.binding, env.profiles[req.artifact].required[i])
                          && forall k | 0 <= k < i :: Gives(req.binding, env.profiles[req.artifact].required[k])
            else if !PlainReferences(req.references) then
              exists i :: 0 <= i < |req.references| && PlainReferences(req.references[..i])
                          && if req.references[i] == [] then v == Err(EmptyReference)
                             else !Plain(req.references[i]) && v == Err(BadField(
                               if 0 in req.references[i] then NulByte(References) else InvalidUnicode(References)))
            else v == Ok(Deduplicated(req.references))
  {
    NoneBadMeans(req.binding);
    ReferencesMean(req.references);
    assert BindingFields(req.binding) == Texts(req.binding);
    if FirstBadField(Texts(req.binding)).Some? {
      FirstBadMeans(Texts(req.binding), FirstBadField(Texts(req.binding)).value);
    }
    if req.artifact in env.profiles {
      FirstMissingMeans(req.binding, env.profiles[req.artifact].required);
    }
  }

  // ----- Identity -----

  /** A field that may be absent: one byte says whether it is there. */
  function Given(text: Option<Str>): seq<byte> {
    if text == None then [0] else [1] + Utf8(text.value) + [0]
  }

  /** A role is written only if there is one. */
  function GivenRole(text: Option<Str>): seq<byte> {
    if text == None then [] else [1] + Utf8(text.value) + [0]
  }

  lemma ConcatEight(a: seq<byte>, b: seq<byte>, c: seq<byte>, d: seq<byte>, e: seq<byte>, f: seq<byte>, g: seq<byte>,
                    h: seq<byte>)
    ensures a + (b + (c + (d + (e + (f + (g + (h + []))))))) == a + b + c + d + e + f + g + h
  {
  }

  /** The bytes that are hashed: the domain, and every field with its end marked. */
  lemma EncodingLayout(c: Context)
    ensures Encoding(c) ==
            [0x74, 0x72, 0x61, 0x75, 0x73, 0x74, 0x2D, 0x62, 0x69, 0x6E, 0x64, 0x69, 0x6E, 0x67, 0x2D, 0x76, 0x31, 0x00]
            + (Utf8(c.digest) + [0]) + (Utf8(c.artifact) + [0]) + (Utf8(c.scope) + [0])
            + Given(c.subject) + Given(c.run) + Given(c.layer) + GivenRole(c.role)
  {
    PartsAre(c);
    assert Tail(c, 7) == [] && Tail(c, 6) == Part(c, 6) + Tail(c, 7) && Tail(c, 5) == Part(c, 5) + Tail(c, 6);
    assert Tail(c, 4) == Part(c, 4) + Tail(c, 5) && Tail(c, 3) == Part(c, 3) + Tail(c, 4);
    assert Tail(c, 2) == Part(c, 2) + Tail(c, 3) && Tail(c, 1) == Part(c, 1) + Tail(c, 2);
    assert Tail(c, 0) == Part(c, 0) + Tail(c, 1);
    ConcatEight(BINDING_DOMAIN, Part(c, 0), Part(c, 1), Part(c, 2), Part(c, 3), Part(c, 4), Part(c, 5), Part(c, 6));
  }

  lemma PartsAre(c: Context)
    ensures Part(c, 0) == Utf8(c.digest) + [0] && Part(c, 1) == Utf8(c.artifact) + [0]
    ensures Part(c, 2) == Utf8(c.scope) + [0]
    ensures Part(c, 3) == Given(c.subject) && Part(c, 4) == Given(c.run) && Part(c, 5) == Given(c.layer)
    ensures Part(c, 6) == GivenRole(c.role)
  {
  }

  /** What an identity covers: the bytes' digest and seven texts, and neither supersession, owner nor commit. */
  lemma IdentityCovers(env: Env, req: Request)
    ensures IdOf(env, req) == env.sha(Encoding(Context(
              env.sha(req.payload), req.artifact, req.binding.scope, req.binding.subject, req.binding.run,
              req.binding.layer, req.binding.role)))
  {
  }

  // ----- The transaction -----

  /** The same line of succession: all but digest, supersession and commit. */
  predicate SameLine(a: Row, b: Row) {
    && a.artifact == b.artifact && a.binding.scope == b.binding.scope && a.binding.subject == b.binding.subject
    && a.binding.run == b.binding.run && a.binding.layer == b.binding.layer && a.binding.role == b.binding.role
    && a.binding.product == b.binding.product
  }

  /** A first cumulative report with a registered owner: artifact `report`, role `cumulative`. */
  predicate FirstReport(row: Row) {
    && row.artifact == [0x72, 0x65, 0x70, 0x6F, 0x72, 0x74]
    && row.binding.role == Some([0x63, 0x75, 0x6D, 0x75, 0x6C, 0x61, 0x74, 0x69, 0x76, 0x65])
    && row.binding.supersedes == None && row.binding.product != None
  }

  ghost predicate AlreadySucceeded(db: Db, row: Row) {
    row.binding.supersedes != None
    && exists other :: other in db.bindings && db.bindings[other].binding.supersedes == row.binding.supersedes
  }

  ghost predicate AlreadyReported(db: Db, row: Row) {
    FirstReport(row) && row.binding.run != None
    && exists other :: other in db.bindings && FirstReport(db.bindings[other])
                       && db.bindings[other].binding.scope == row.binding.scope
                       && db.bindings[other].binding.product == row.binding.product
                       && db.bindings[other].binding.run == row.binding.run
  }

  /** What a valid call answers, in the order in which the statements find it. */
  lemma TransactionMeans(env: Env, db: Db, req: Request)
    requires Validate(env, req).Ok?
    ensures var id, row := IdOf(env, req), Row(env.sha(req.payload), req.artifact, req.binding);
            var before, answer := req.binding.supersedes, Ingest(env, db, req);
            if id in db.bindings then
              if db.bindings[id] == row then answer.Ok? else answer == Err(IdentityCollision)
            else if before == Some(id) then answer == Err(SelfSupersession)
            else if before.Some? && before.value !in db.bindings then answer == Err(PredecessorNotFound)
            else if before.Some? && !SameLine(db.bindings[before.value], row) then answer == Err(ContextMismatch)
            else if AlreadySucceeded(db, row) then answer == Err(Violates(OneSuccessor))
            else if AlreadyReported(db, row) then answer == Err(Violates(OneCumulativeRoot))
            else if req.binding.product.Some? && req.binding.product.value !in db.products then
              answer == Err(Violates(ProductRepoForeignKey))
            else if env.project(req.artifact, req.payload, req.binding) == None then answer == Err(ProjectionError)
            else answer.Ok?
  {
    var id, row := IdOf(env, req), Row(env.sha(req.payload), req.artifact, req.binding);
    if id !in db.bindings {
      PredecessorMeans(db, id, row);
      var db1 := InsertEvidence(db, row.digest, |req.payload|);
      InsertionMeans(db1, id, row);
    }
  }

  lemma PredecessorMeans(db: Db, id: Str, row: Row)
    ensures var before, answer := row.binding.supersedes, PredecessorError(db, id, row);
            if before == Some(id) then answer == Some(SelfSupersession)
            else if before.Some? && before.value !in db.bindings then answer == Some(PredecessorNotFound)
            else if before.Some? && !SameLine(db.bindings[before.value], row) then answer == Some(ContextMismatch)
            else answer == None
  {
  }

  lemma InsertionMeans(db: Db, id: Str, row: Row)
    requires id !in db.bindings
    ensures InsertBinding(db, id, row) ==
            if AlreadySucceeded(db, row) then Err(Violates(OneSuccessor))
            else if AlreadyReported(db, row) then Err(Violates(OneCumulativeRoot))
            else if row.binding.product.Some? && row.binding.product.value !in db.products then
              Err(Violates(ProductRepoForeignKey))
            else Ok(db.(bindings := db.bindings[id := row]))
  {
    assert AlreadySucceeded(db, row) <==>
             exists other | other in db.bindings :: SameSuccessorKey(db.bindings[other], row);
    assert AlreadyReported(db, row) <==> exists other | other in db.bindings :: SameRootKey(db.bindings[other], row);
  }
}
