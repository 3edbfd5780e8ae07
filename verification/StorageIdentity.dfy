/**
 The storage/v1 binding identity: the byte string that is hashed to name a binding,
 and a decoder that shows nothing is lost in it.
 */
module StorageIdentity {
  import opened Wrappers

  type CodePoint = c: int | 0 <= c < 0x11_0000

  /** A Python str: code points, lone surrogates included. */
  type Str = seq<CodePoint>

  type byte = b: int | 0 <= b < 0x100

  /** Names of the caller's text fields, as error messages give them. */
  datatype Field =
    | ArtifactDigest | ArtifactName | ScopeId | SubjectId | RunId | LayerId | Role
    | SupersedesBindingId | ProductRepoId | CommitSha | References

  datatype FieldError = NulByte(field: Field) | InvalidUnicode(field: Field)

  predicate Surrogate(c: CodePoint) {
    0xD800 <= c < 0xE000
  }

  /** What `_identifier_bytes` accepts. */
  predicate Clean(s: Str) {
    forall i | 0 <= i < |s| :: s[i] != 0 && !Surrogate(s[i])
  }

  /**
   UTF-8 (section 3 of RFC 3629) for one scalar value. Lone surrogates never get here:
   `IdentifierBytes` refuses them first.
   */
  function EncodeScalar(c: CodePoint): (bs: seq<byte>) {
    if c < 0x80 then
      [c]
    else if c < 0x800 then
      [0xC0 + c / 0x40, 0x80 + c % 0x40]
    else if c < 0x1_0000 then
      [0xE0 + c / 0x1000, 0x80 + c / 0x40 % 0x40, 0x80 + c % 0x40]
    else
      [0xF0 + c / 0x4_0000, 0x80 + c / 0x1000 % 0x40, 0x80 + c / 0x40 % 0x40, 0x80 + c % 0x40]
  }

  function Utf8(s: Str): seq<byte> {
    if s == [] then [] else EncodeScalar(s[0]) + Utf8(s[1..])
  }

  function IdentifierBytes(field: Field, value: Str): Result<seq<byte>, FieldError> {
    if 0 in value then
      Err(NulByte(field))
    else if exists i | 0 <= i < |value| :: Surrogate(value[i]) then
      Err(InvalidUnicode(field))
    else
      Ok(Utf8(value))
  }

  // ----- The decoder -----

  /** The six payload bits of a continuation byte. */
  function Payload(b: byte): int {
    b as int - 0x80
  }

  /** Read one scalar value, by the length its first byte announces. */
  function DecodeScalar(bs: seq<byte>): Option<(int, nat)>
    requires bs != []
  {
    var first: int := bs[0];
    if first < 0x80 then
      Some((first, 1))
    else if first < 0xE0 then
      if |bs| < 2 then None else
        Some(((first - 0xC0) * 0x40 + Payload(bs[1]), 2))
    else if first < 0xF0 then
      if |bs| < 3 then None else
        Some(((first - 0xE0) * 0x1000 + Payload(bs[1]) * 0x40 + Payload(bs[2]), 3))
    else
      if |bs| < 4 then None else
        Some(((first - 0xF0) * 0x4_0000 + Payload(bs[1]) * 0x1000
              + Payload(bs[2]) * 0x40 + Payload(bs[3]), 4))
  }

  function DecodeUtf8(bs: seq<byte>): Option<Str>
    decreases |bs|
  {
    if bs == [] then Some([]) else
      match DecodeScalar(bs)
      case None => None
      case Some((c, width)) =>
        if !(0 <= c < 0x11_0000) then None else
          match DecodeUtf8(bs[width..])
          case None => None
          case Some(rest) => Some([c] + rest)
  }

  /** The bytes before the first zero byte, and what follows that byte. */
  function TakeField(bs: seq<byte>): Option<(seq<byte>, seq<byte>)> {
    if bs == [] then None
    else if bs[0] == 0 then Some(([], bs[1..]))
    else
      match TakeField(bs[1..])
      case None => None
      case Some((field, rest)) => Some(([bs[0]] + field, rest))
  }

  function TakeText(bs: seq<byte>): Option<(Str, seq<byte>)> {
    match TakeField(bs)
    case None => None
    case Some((field, rest)) =>
      match DecodeUtf8(field)
      case None => None
      case Some(text) => Some((text, rest))
  }

  function TakeOptional(bs: seq<byte>): Option<(Option<Str>, seq<byte>)> {
    if bs == [] then None
    else if bs[0] == 0 then Some((Option.None, bs[1..]))
    else if bs[0] != 1 then None
    else
      match TakeText(bs[1..])
      case None => None
      case Some((text, rest)) => Some((Option.Some(text), rest))
  }

  // ----- The encoding -----

  /** The context tuple a binding identity covers. */
  datatype Context = Context(
    digest: Str,
    artifact: Str,
    scope: Str,
    subject: Option<Str>,
    run: Option<Str>,
    layer: Option<Str>,
    role: Option<Str>)

  predicate CleanOption(o: Option<Str>) {
    o.Some? ==> Clean(o.value)
  }

  predicate CleanContext(c: Context) {
    forall i | 0 <= i < 7 :: CleanOption(Fields(c)[i].1)
  }

  /** The fields in the order they are written, under the names errors use. */
  function Fields(c: Context): (fields: seq<(Field, Option<Str>)>)
    ensures |fields| == 7
  {
    [(ArtifactDigest, Some(c.digest)), (ArtifactName, Some(c.artifact)),
     (ScopeId, Some(c.scope)), (SubjectId, c.subject), (RunId, c.run),
     (LayerId, c.layer), (Role, c.role)]
  }

  /** `b"traust-binding-v1\x00"`. */
  const BINDING_DOMAIN: seq<byte> :=
    [0x74, 0x72, 0x61, 0x75, 0x73, 0x74, 0x2D, 0x62, 0x69, 0x6E, 0x64, 0x69, 0x6E, 0x67,
     0x2D, 0x76, 0x31, 0x00]

  function RequiredBytes(s: Str): seq<byte> {
    Utf8(s) + [0]
  }

  function OptionalBytes(o: Option<Str>): seq<byte> {
    match o
    case None => [0]
    case Some(s) => [1] + RequiredBytes(s)
  }

  function RoleBytes(o: Option<Str>): seq<byte> {
    match o
    case None => []
    case Some(s) => [1] + RequiredBytes(s)
  }

  /** What field `i` contributes, in the documented layout. */
  function Part(c: Context, i: nat): seq<byte>
    requires i < 7
  {
    if i == 0 then RequiredBytes(c.digest)
    else if i == 1 then RequiredBytes(c.artifact)
    else if i == 2 then RequiredBytes(c.scope)
    else if i == 3 then OptionalBytes(c.subject)
    else if i == 4 then OptionalBytes(c.run)
    else if i == 5 then OptionalBytes(c.layer)
    else RoleBytes(c.role)
  }

  function Tail(c: Context, i: nat): seq<byte>
    requires i <= 7
    decreases 7 - i
  {
    if i == 7 then [] else Part(c, i) + Tail(c, i + 1)
  }

  function Encoding(c: Context): seq<byte> {
    BINDING_DOMAIN + Tail(c, 0)
  }

  /** The first field, in the order they are written, that is refused. */
  function FirstBadField(fields: seq<(Field, Option<Str>)>): Option<FieldError> {
    if fields == [] then None
    else if fields[0].1.None? then FirstBadField(fields[1..])
    else
      match IdentifierBytes(fields[0].0, fields[0].1.value)
      case Err(e) => Some(e)
      case Ok(_) => FirstBadField(fields[1..])
  }

  function Decode(bs: seq<byte>): Option<Context> {
    if !(BINDING_DOMAIN <= bs) then None else
    match TakeText(bs[|BINDING_DOMAIN|..]) { case None => None case Some((digest, b1)) =>
    match TakeText(b1) { case None => None case Some((artifact, b2)) =>
    match TakeText(b2) { case None => None case Some((scope, b3)) =>
    match TakeOptional(b3) { case None => None case Some((subject, b4)) =>
    match TakeOptional(b4) { case None => None case Some((run, b5)) =>
    match TakeOptional(b5) { case None => None case Some((layer, b6)) =>
      if b6 == [] then
        Some(Context(digest, artifact, scope, subject, run, layer, None))
      else
        match TakeOptional(b6)
        case None => None
        case Some((role, end)) =>
          if role.None? || end != [] then None else
            Some(Context(digest, artifact, scope, subject, run, layer, role))
    }}}}}}
  }

  // ----- UTF-8 facts -----

  /** Splitting a number into base-64 digits loses nothing. */
  lemma Base64Digits(c: nat)
    ensures c == c / 0x40 * 0x40 + c % 0x40
    ensures c / 0x40 == c / 0x1000 * 0x40 + c / 0x40 % 0x40
    ensures c / 0x1000 == c / 0x4_0000 * 0x40 + c / 0x1000 % 0x40
  {
    assert c / 0x40 / 0x40 == c / 0x1000;
    assert c / 0x1000 / 0x40 == c / 0x4_0000;
  }

  lemma DecodeEncodeScalar(c: CodePoint, rest: seq<byte>)
    ensures DecodeScalar(EncodeScalar(c) + rest) == Some((c, |EncodeScalar(c)|))
  {
    Base64Digits(c);
    var bs := EncodeScalar(c) + rest;
    assert forall i | 0 <= i < |EncodeScalar(c)| :: bs[i] == EncodeScalar(c)[i];
  }

  /** A zero byte is written for NUL and for nothing else. */
  lemma {:induction false} ZeroByteOnlyForNul(s: Str)
    ensures 0 in Utf8(s) <==> 0 in s
  {
    if s != [] {
      ZeroByteOnlyForNul(s[1..]);
      assert s == [s[0]] + s[1..];
      assert 0 in EncodeScalar(s[0]) <==> s[0] == 0;
    }
  }

  lemma {:induction false} DecodeUtf8Inverse(s: Str)
    ensures DecodeUtf8(Utf8(s)) == Some(s)
  {
    if s != [] {
      DecodeEncodeScalar(s[0], Utf8(s[1..]));
      assert Utf8(s)[|EncodeScalar(s[0])|..] == Utf8(s[1..]);
      DecodeUtf8Inverse(s[1..]);
      assert [s[0]] + s[1..] == s;
    }
  }

  // ----- Fields are delimited -----

  lemma {:induction false} TakeFieldInverse(field: seq<byte>, rest: seq<byte>)
    requires 0 !in field
    ensures TakeField(field + [0] + rest) == Some((field, rest))
  {
    var bs := field + [0] + rest;
    if field == [] {
      assert bs[1..] == rest;
    } else {
      assert bs[1..] == field[1..] + [0] + rest;
      TakeFieldInverse(field[1..], rest);
      assert [field[0]] + field[1..] == field;
    }
  }

  lemma TakeTextInverse(s: Str, rest: seq<byte>)
    requires Clean(s)
    ensures TakeText(RequiredBytes(s) + rest) == Some((s, rest))
  {
    ZeroByteOnlyForNul(s);
    TakeFieldInverse(Utf8(s), rest);
    DecodeUtf8Inverse(s);
  }

  lemma TakeOptionalInverse(o: Option<Str>, rest: seq<byte>)
    requires CleanOption(o)
    ensures TakeOptional(OptionalBytes(o) + rest) == Some((o, rest))
  {
    if o.Some? {
      assert (OptionalBytes(o) + rest)[1..] == RequiredBytes(o.value) + rest;
      TakeTextInverse(o.value, rest);
    } else {
      assert (OptionalBytes(o) + rest)[1..] == rest;
    }
  }

  /** The encoding is uniquely decodable: every field, and its absence, is recovered. */
  lemma DecodeInverse(c: Context)
    requires CleanContext(c)
    ensures Decode(Encoding(c)) == Some(c)
  {
    CleanFields(c);
    assert Encoding(c)[|BINDING_DOMAIN|..] == Tail(c, 0);
    TakeTextInverse(c.digest, Tail(c, 1));
    TakeTextInverse(c.artifact, Tail(c, 2));
    TakeTextInverse(c.scope, Tail(c, 3));
    TakeOptionalInverse(c.subject, Tail(c, 4));
    TakeOptionalInverse(c.run, Tail(c, 5));
    TakeOptionalInverse(c.layer, Tail(c, 6));
    if c.role.Some? {
      TakeOptionalInverse(c.role, []);
      assert Tail(c, 6) == OptionalBytes(c.role) + [];
    }
    assert Tail(c, 7) == [];
  }

  lemma CleanFields(c: Context)
    ensures CleanContext(c) <==>
            Clean(c.digest) && Clean(c.artifact) && Clean(c.scope) && CleanOption(c.subject)
            && CleanOption(c.run) && CleanOption(c.layer) && CleanOption(c.role)
  {
    var f := Fields(c);
    assert f[0].1 == Some(c.digest) && f[1].1 == Some(c.artifact) && f[2].1 == Some(c.scope);
    assert f[3].1 == c.subject && f[4].1 == c.run && f[5].1 == c.layer && f[6].1 == c.role;
  }

  /** Equal bytes mean equal contexts; in particular absent is not empty, and a role is never lost. */
  lemma EncodingInjective(c: Context, d: Context)
    requires CleanContext(c) && CleanContext(d)
    ensures Encoding(c) == Encoding(d) <==> c == d
  {
    DecodeInverse(c);
    DecodeInverse(d);
  }

  lemma {:induction false} FirstBadFieldSound(fields: seq<(Field, Option<Str>)>)
    ensures FirstBadField(fields).None? <==> forall i | 0 <= i < |fields| :: CleanOption(fields[i].1)
  {
    if fields != [] {
      FirstBadFieldSound(fields[1..]);
      assert fields == [fields[0]] + fields[1..];
    }
  }

  /** A context is encoded exactly when no field holds NUL or a lone surrogate. */
  lemma EncodableIffClean(c: Context)
    ensures FirstBadField(Fields(c)).None? <==> CleanContext(c)
  {
    FirstBadFieldSound(Fields(c));
  }

  // ----- The builder -----

  /** The first `i` parts are written. */
  predicate Encoded(c: Context, i: nat, encoded: seq<byte>)
    requires i <= 7
  {
    encoded + Tail(c, i) == Encoding(c)
  }

  lemma RequiredNext(c: Context, i: nat, encoded: seq<byte>, s: Str)
    requires i < 7 && Encoded(c, i, encoded) && Part(c, i) == RequiredBytes(s)
    ensures Encoded(c, i + 1, encoded + Utf8(s) + [0])
  {
    AppendRequired(encoded, s, Tail(c, i + 1));
  }

  lemma AbsentNext(c: Context, i: nat, encoded: seq<byte>)
    requires i < 7 && Encoded(c, i, encoded) && Part(c, i) == OptionalBytes(None)
    ensures Encoded(c, i + 1, encoded + [0])
  {
    AppendAbsent(encoded, Tail(c, i + 1));
  }

  lemma PresentNext(c: Context, i: nat, encoded: seq<byte>, s: Str)
    requires i < 7 && Encoded(c, i, encoded) && Part(c, i) == [1] + RequiredBytes(s)
    ensures Encoded(c, i + 1, encoded + [1] + Utf8(s) + [0])
  {
    AppendPresent(encoded, s, Tail(c, i + 1));
  }

  /** One turn of the first loop. */
  method WriteRequired(field: Field, value: Str, encoded: seq<byte>, ghost c: Context, ghost i: nat)
    returns (r: Result<seq<byte>, FieldError>)
    requires i < 7 && Encoded(c, i, encoded) && Part(c, i) == RequiredBytes(value)
    ensures match IdentifierBytes(field, value)
            case Err(e) => r == Err(e)
            case Ok(_) => r.Ok? && Encoded(c, i + 1, r.value)
  {
    var bytes := IdentifierBytes(field, value);
    if bytes.Err? {
      return Err(bytes.error);
    }
    RequiredNext(c, i, encoded, value);
    return Ok(encoded + bytes.value + [0]);
  }

  /** One turn of the second loop. */
  method WriteOptional(field: Field, value: Option<Str>, encoded: seq<byte>, ghost c: Context, ghost i: nat)
    returns (r: Result<seq<byte>, FieldError>)
    requires i < 7 && Encoded(c, i, encoded) && Part(c, i) == OptionalBytes(value)
    ensures if value.None? then r.Ok? && Encoded(c, i + 1, r.value)
            else
              match IdentifierBytes(field, value.value)
              case Err(e) => r == Err(e)
              case Ok(_) => r.Ok? && Encoded(c, i + 1, r.value)
  {
    if value.None? {
      AbsentNext(c, i, encoded);
      return Ok(encoded + [0]);
    }
    var bytes := IdentifierBytes(field, value.value);
    if bytes.Err? {
      return Err(bytes.error);
    }
    PresentNext(c, i, encoded, value.value);
    return Ok(encoded + [1] + bytes.value + [0]);
  }

  /** The bytes `binding_id` hashes, or the error of the first refused field. */
  method BindingBytes(c: Context) returns (r: Result<seq<byte>, FieldError>)
    ensures r == match FirstBadField(Fields(c))
                 case Some(e) => Err(e)
                 case None => Ok(Encoding(c))
  {
    ghost var fields := Fields(c);
    var encoded := BINDING_DOMAIN;
    var required := [(ArtifactDigest, c.digest), (ArtifactName, c.artifact), (ScopeId, c.scope)];
    for i := 0 to 3
      invariant Encoded(c, i, encoded)
      invariant FirstBadField(fields) == FirstBadField(fields[i..])
    {
      DropOne(fields, i);
      var longer := WriteRequired(required[i].0, required[i].1, encoded, c, i);
      if longer.Err? {
        return Err(longer.error);
      }
      encoded := longer.value;
    }
    r := OptionalPart(c, encoded);
  }

  /** The second half of `binding_id`: the optional fields and the trailing role. */
  method OptionalPart(c: Context, start: seq<byte>) returns (r: Result<seq<byte>, FieldError>)
    requires Encoded(c, 3, start)
    ensures r == match FirstBadField(Fields(c)[3..])
                 case Some(e) => Err(e)
                 case None => Ok(Encoding(c))
  {
    ghost var fields := Fields(c)[3..];
    var encoded := start;
    var optional := [(SubjectId, c.subject), (RunId, c.run), (LayerId, c.layer)];
    for i := 0 to 3
      invariant Encoded(c, 3 + i, encoded)
      invariant FirstBadField(fields) == FirstBadField(fields[i..])
    {
      DropOne(fields, i);
      var longer := WriteOptional(optional[i].0, optional[i].1, encoded, c, 3 + i);
      if longer.Err? {
        return Err(longer.error);
      }
      encoded := longer.value;
    }
    r := RolePart(c, encoded);
  }

  /** The role, written only when there is one. */
  method RolePart(c: Context, start: seq<byte>) returns (r: Result<seq<byte>, FieldError>)
    requires Encoded(c, 6, start)
    ensures r == match FirstBadField(Fields(c)[3..][3..])
                 case Some(e) => Err(e)
                 case None => Ok(Encoding(c))
  {
    ghost var fields := Fields(c)[3..];
    var encoded := start;
    DropOne(fields, 3);
    EndOfFields(fields);
    if c.role.Some? {
      var bytes := IdentifierBytes(Role, c.role.value);
      if bytes.Err? {
        return Err(bytes.error);
      }
      PresentNext(c, 6, encoded, c.role.value);
      encoded := encoded + [1];
      encoded := encoded + bytes.value;
      encoded := encoded + [0];
    }
    assert encoded + Tail(c, 7) == encoded;
    return Ok(encoded);
  }

  lemma AppendRequired(encoded: seq<byte>, s: Str, tail: seq<byte>)
    ensures encoded + (RequiredBytes(s) + tail) == encoded + Utf8(s) + [0] + tail
  {
  }

  lemma AppendAbsent(encoded: seq<byte>, tail: seq<byte>)
    ensures encoded + (OptionalBytes(None) + tail) == encoded + [0] + tail
  {
  }

  lemma AppendPresent(encoded: seq<byte>, s: Str, tail: seq<byte>)
    ensures encoded + (([1] + RequiredBytes(s)) + tail) == encoded + [1] + Utf8(s) + [0] + tail
  {
  }

  /** One step of `FirstBadField` along a list. */
  lemma DropOne(fields: seq<(Field, Option<Str>)>, i: nat)
    requires i < |fields|
    ensures FirstBadField(fields[i..]) ==
            (if fields[i].1.None? then FirstBadField(fields[i + 1..]) else
               match IdentifierBytes(fields[i].0, fields[i].1.value)
               case Err(e) => Some(e)
               case Ok(_) => FirstBadField(fields[i + 1..]))
  {
    assert fields[i..][0] == fields[i] && fields[i..][1..] == fields[i + 1..];
  }

  lemma EndOfFields(fields: seq<(Field, Option<Str>)>)
    ensures FirstBadField(fields[|fields|..]).None?
  {
  }
}
