/**
 What `reachable` is about, told on the documents themselves: paths that cross no `if`, the enums at their ends, and
 the places their references name.
 */
module ReachMeaning {
  import opened Wrappers
  import opened PyText
  import opened EnumPointer
  import opened RawPointer
  import opened MemoSearch
  import opened EnumReach

  // ----- Where a reference leads -----

  /** Each segment, unescaped, is the key or the index of the step beside it, and the steps lead to a node. */
  ghost predicate Takes(node: Json, segments: seq<string>, path: seq<Step>) {
    && At(node, path).Some? && |path| == |segments|
    && forall i | 0 <= i < |path| :: Spells(Unescape(segments[i]), path[i])
  }

  predicate Spells(segment: string, step: Step) {
    match step
    case Key(k) => segment == k
    case Item(n) => IsDecimal(segment) && ParseDecimal(segment) == n
  }

  lemma EnterTakes(node: Json, segment: string)
    ensures Enter(node, segment).Some? ==>
              At(node, [StepInto(node, segment)]) == Enter(node, segment) && Spells(segment, StepInto(node, segment))
    ensures forall step | At(node, [step]).Some? && Spells(segment, step) ::
              Enter(node, segment) == At(node, [step]) && StepInto(node, segment) == step
  {
    forall step: Step
      ensures [step][1..] == []
    {
    }
  }

  lemma TakesStep(node: Json, segments: seq<string>, path: seq<Step>, child: Json)
    requires path != [] && segments != [] && At(node, [path[0]]) == Some(child)
    ensures Takes(node, segments, path) <==>
              Spells(Unescape(segments[0]), path[0]) && Takes(child, segments[1..], path[1..])
  {
    AtStep(node, path, child);
    var s, p := segments[1..], path[1..];
    assert forall i | 0 <= i < |p| :: p[i] == path[i + 1];
    assert forall i | 0 <= i < |s| :: s[i] == segments[i + 1];
    assert Takes(child, s, p) && Spells(Unescape(segments[0]), path[0]) ==> Takes(node, segments, path) by {
      assert forall i | 0 < i < |path| :: path[i] == p[i - 1];
      assert forall i | 0 < i < |segments| :: segments[i] == s[i - 1];
    }
  }

  lemma {:induction false} FollowTakes(node: Json, segments: seq<string>, path: seq<Step>)
    ensures FollowPath(node, segments) == Some(path) <==> Takes(node, segments, path)
    decreases |segments|
  {
    if segments != [] {
      var segment := Unescape(segments[0]);
      EnterTakes(node, segment);
      if path != [] && At(node, [path[0]]).Some? {
        TakesStep(node, segments, path, At(node, [path[0]]).value);
        FollowTakes(At(node, [path[0]]).value, segments[1..], path[1..]);
      }
      FollowFirst(node, segments, path);
    }
  }

  lemma FollowFirst(node: Json, segments: seq<string>, path: seq<Step>)
    requires segments != []
    ensures FollowPath(node, segments) == Some(path) <==>
              && Enter(node, Unescape(segments[0])).Some? && path != []
              && path[0] == StepInto(node, Unescape(segments[0]))
              && FollowPath(Enter(node, Unescape(segments[0])).value, segments[1..]) == Some(path[1..])
    ensures Takes(node, segments, path) ==> path != [] && At(node, [path[0]]).Some?
  {
    if path != [] {
      assert [path[0]] + path[1..] == path && [path[0]][1..] == [];
    }
  }

  /** Dropping the empty segments: none is left, and the others keep their order. */
  lemma {:induction false} NonEmptyMeans(a: seq<string>, b: seq<string>)
    ensures NonEmpty(a + [""] + b) == NonEmpty(a + b)
    ensures "" !in a ==> NonEmpty(a) == a
  {
    if a == [] {
      assert [] + [""] + b == [""] + b && [] + b == b;
      LeadingEmptyPart(b);
    } else {
      NonEmptyMeans(a[1..], b);
      assert (a + [""] + b)[1..] == a[1..] + [""] + b && (a + b)[1..] == a[1..] + b;
      assert a == [a[0]] + a[1..];
    }
  }

  lemma {:induction false} SplitJoins(s: string)
    ensures var parts := Split(s, '/'); NoSlash(parts) && parts[0] + Joined(parts[1..]) == s
  {
    if s != "" {
      SplitJoins(s[1..]);
      var rest := Split(s[1..], '/');
      assert s == [s[0]] + s[1..];
      if s[0] == '/' {
        assert ([""] + rest)[1..] == rest;
      } else {
        assert ([[s[0]] + rest[0]] + rest[1..])[1..] == rest[1..];
        JoinsRegroup([s[0]], rest[0], Joined(rest[1..]));
      }
    }
  }

  /** The reference is a file name, or none for the file it stands in, and after a `#` slash-separated segments. */
  ghost predicate ReadsAs(ref: string, file: string, segments: seq<string>) {
    && '#' !in file && segments != [] && NoSlash(segments)
    && (ref == file + ['#'] + (segments[0] + Joined(segments[1..])) || (ref == file && segments == [""]))
  }

  /** A reference in the file `base` names this place: empty segments are passed over. */
  ghost predicate Leads(schemas: Schemas, ref: string, base: string, loc: Loc) {
    exists file, segments ::
      && ReadsAs(ref, file, segments)
      && loc.schema == (if file == "" then base else file) && loc.schema in schemas
      && Takes(schemas[loc.schema], NonEmpty(segments), loc.path)
  }

  lemma ReadsAsParts(ref: string, file: string, segments: seq<string>)
    ensures ReadsAs(ref, file, segments) <==>
              Partition(ref, '#').0 == file && Split(Partition(ref, '#').1, '/') == segments
  {
    var (before, after) := Partition(ref, '#');
    PartitionCut(ref, '#');
    SplitJoins(after);
    if ReadsAs(ref, file, segments) {
      if ref == file + ['#'] + (segments[0] + Joined(segments[1..])) {
        PartitionAppend(file, '#', segments[0] + Joined(segments[1..]));
        JoinedSplits(segments);
      } else {
        PartitionWhole(file, '#');
      }
    }
    if file == before && segments == Split(after, '/') && after == "" && ref == before {
      assert segments == [""];
    }
  }

  /** The place `resolve` ends at is the one the reference names. */
  lemma LocateMeans(schemas: Schemas, ref: string, base: string, loc: Loc)
    ensures Locate(schemas, ref, base) == Some(loc) <==> Leads(schemas, ref, base, loc)
  {
    var (file, fragment) := Partition(ref, '#');
    var segments := Split(fragment, '/');
    ReadsAsParts(ref, file, segments);
    if loc.schema in schemas {
      FollowTakes(schemas[loc.schema], NonEmpty(segments), loc.path);
    }
    if Leads(schemas, ref, base, loc) {
      var f, s :| ReadsAs(ref, f, s) && loc.schema == (if f == "" then base else f)
                  && Takes(schemas[loc.schema], NonEmpty(s), loc.path);
      ReadsAsParts(ref, f, s);
    }
  }

  /** What `resolve` returns: the file and the node that the reference names. */
  lemma ResolvedMeans(schemas: Schemas, ref: string, base: string, file: string, node: Json)
    ensures Resolved(schemas, ref, base) == Some((file, node)) <==>
              exists path :: Leads(schemas, ref, base, Loc(file, path)) && At(schemas[file], path) == Some(node)
  {
    LocateIsResolve(schemas, ref, base);
    if Locate(schemas, ref, base).Some? {
      LocateMeans(schemas, ref, base, Locate(schemas, ref, base).value);
    }
    if path :| Leads(schemas, ref, base, Loc(file, path)) && At(schemas[file], path) == Some(node) {
      LocateMeans(schemas, ref, base, Loc(file, path));
    }
  }

  // ----- What one place holds and refers to -----

  /** An object below the node, on a path that crosses no `if`. */
  ghost predicate Below(node: Json, sub: Json) {
    exists path :: At(node, path) == Some(sub) && sub.Object? && Key("if") !in path
  }

  lemma BelowMeans(node: Json, sub: Json)
    requires DistinctKeys(node)
    ensures Below(node, sub) <==> exists v :: v in Walk(node, "", false) && !v.inIf && v.node == sub
  {
    var visits := Walk(node, "", false);
    if path :| At(node, path) == Some(sub) && sub.Object? && Key("if") !in path {
      PathIsVisited(node, "", false, path);
    }
    if v :| v in visits && !v.inIf && v.node == sub {
      var k :| 0 <= k < |visits| && visits[k] == v;
      var path := VisitHasPath(node, "", false, k);
      VisitsAreObjects(node, "", false, v);
      assert At(node, path) == Some(sub);
    }
  }

  lemma {:induction false} VisitsAreObjects(node: Json, pointer: string, inIf: bool, v: Visit)
    requires v in Walk(node, pointer, inIf)
    ensures v.node.Object?
    decreases node, 1
  {
    match node
    case Object(members) =>
      if v != Visit(node, pointer, inIf) {
        MemberVisitsAreObjects(members, pointer, inIf, v);
      }
    case Array(items) =>
      ItemVisitsAreObjects(items, 0, pointer, inIf, v);
  }

  lemma {:induction false} MemberVisitsAreObjects(members: seq<Member>, pointer: string, inIf: bool, v: Visit)
    requires v in WalkMembers(members, pointer, inIf)
    ensures v.node.Object?
    decreases members, 0
  {
    var at, crossed := pointer + "/" + Escape(members[0].key), inIf || members[0].key == "if";
    if v in Walk(members[0].value, at, crossed) {
      VisitsAreObjects(members[0].value, at, crossed, v);
    } else {
      MemberVisitsAreObjects(members[1..], pointer, inIf, v);
    }
  }

  lemma {:induction false} ItemVisitsAreObjects(items: seq<Json>, first: nat, pointer: string, inIf: bool, v: Visit)
    requires v in WalkItems(items, first, pointer, inIf)
    ensures v.node.Object?
    decreases items, 0
  {
    var at := pointer + "/" + Decimal(first);
    if v in Walk(items[0], at, inIf) {
      VisitsAreObjects(items[0], at, inIf, v);
    } else {
      ItemVisitsAreObjects(items[1..], first + 1, pointer, inIf, v);
    }
  }

  /** Some object below the node has exactly this enum. */
  ghost predicate Carries(node: Json, values: Values) {
    exists sub :: Below(node, sub) && HasEnum(sub, values)
  }

  lemma {:induction false} OwnHasVisit(visits: seq<Visit>, values: Values)
    ensures values in OwnValues(visits) <==>
              exists v :: v in visits && !v.inIf && StringValues(v.node) == Some(values)
  {
    if visits != [] {
      var init := visits[..|visits| - 1];
      assert visits == init + [visits[|visits| - 1]];
      OwnHasVisit(init, values);
    }
  }

  lemma OwnMeans(node: Json, values: Values)
    requires DistinctKeys(node)
    ensures values in OwnValues(Walk(node, "", false)) <==> Carries(node, values)
  {
    var visits := Walk(node, "", false);
    OwnHasVisit(visits, values);
    if v :| v in visits && !v.inIf && StringValues(v.node) == Some(values) {
      BelowMeans(node, v.node);
      StringValuesAre(v.node, values);
    }
    if sub :| Below(node, sub) && HasEnum(sub, values) {
      BelowMeans(node, sub);
      StringValuesAre(sub, values);
    }
  }

  /** Some object below the node has a `$ref` that names this place. */
  ghost predicate Refers(schemas: Schemas, node: Json, base: string, target: Loc) {
    exists sub, ref :: Below(node, sub) && Reads(sub.members, "$ref", Text(ref)) && Leads(schemas, ref, base, target)
  }

  lemma {:induction false} ReferencesHaveVisits(schemas: Schemas, base: string, visits: seq<Visit>, target: Loc)
    ensures target in References(schemas, base, visits) <==>
              exists v :: v in visits && !v.inIf && RefTarget(schemas, base, v.node) == Some(target)
  {
    if visits != [] {
      var init := visits[..|visits| - 1];
      assert visits == init + [visits[|visits| - 1]];
      ReferencesHaveVisits(schemas, base, init, target);
    }
  }

  lemma RefTargetMeans(schemas: Schemas, base: string, sub: Json, target: Loc)
    requires sub.Object?
    ensures RefTarget(schemas, base, sub) == Some(target) <==>
              exists ref :: Reads(sub.members, "$ref", Text(ref)) && Leads(schemas, ref, base, target)
  {
    FindReads(sub.members, "$ref");
    match Find(sub.members, "$ref")
    case Some(Text(ref)) => LocateMeans(schemas, ref, base, target);
    case _ =>
  }

  lemma ReferencesMean(schemas: Schemas, base: string, node: Json, target: Loc)
    requires DistinctKeys(node)
    ensures target in References(schemas, base, Walk(node, "", false)) <==> Refers(schemas, node, base, target)
  {
    var visits := Walk(node, "", false);
    ReferencesHaveVisits(schemas, base, visits, target);
    if v :| v in visits && !v.inIf && RefTarget(schemas, base, v.node) == Some(target) {
      BelowMeans(node, v.node);
      RefTargetMeans(schemas, base, v.node, target);
    }
    if sub, ref :| Below(node, sub) && Reads(sub.members, "$ref", Text(ref)) && Leads(schemas, ref, base, target) {
      BelowMeans(node, sub);
      RefTargetMeans(schemas, base, sub, target);
    }
  }

  // ----- What validating a file may lead to -----

  lemma {:induction false} DistinctBelow(node: Json, path: seq<Step>)
    requires DistinctKeys(node) && At(node, path).Some?
    ensures DistinctKeys(At(node, path).value)
    decreases |path|
  {
    if path != [] {
      match path[0]
      case Key(k) =>
        DistinctMember(node.members, k);
        DistinctBelow(Find(node.members, k).value, path[1..]);
      case Item(i) =>
        DistinctBelow(node.items[i], path[1..]);
    }
  }

  lemma {:induction false} DistinctMember(members: seq<Member>, key: string)
    requires DistinctInMembers(members) && Find(members, key).Some?
    ensures DistinctKeys(Find(members, key).value)
  {
    if members[0].key != key {
      DistinctMember(members[1..], key);
    }
  }

  /** Wherever a path ends at an object, it has no key twice. */
  ghost predicate NoKeyTwice(node: Json) {
    forall path, i, j | At(node, path).Some? && At(node, path).value.Object?
                        && 0 <= i < j < |At(node, path).value.members| ::
      At(node, path).value.members[i].key != At(node, path).value.members[j].key
  }

  lemma ChildHasNoKeyTwice(node: Json, step: Step)
    requires NoKeyTwice(node) && At(node, [step]).Some?
    ensures NoKeyTwice(At(node, [step]).value)
  {
    var child := At(node, [step]).value;
    forall path
      ensures At(node, [step] + path) == At(child, path)
    {
      assert ([step] + path)[1..] == path && [([step] + path)[0]] == [step];
      AtStep(node, [step] + path, child);
    }
  }

  lemma {:induction false} NoKeyTwiceIsDistinct(node: Json)
    requires NoKeyTwice(node)
    ensures DistinctKeys(node)
    decreases node, 1
  {
    match node
    case Object(members) =>
      assert At(node, []) == Some(node);
      forall i | 0 <= i < |members|
        ensures NoKeyTwice(members[i].value)
      {
        FindMember(members, i);
        assert [Key(members[i].key)][1..] == [];
        ChildHasNoKeyTwice(node, Key(members[i].key));
      }
      MembersDistinct(members);
    case Array(items) =>
      forall i | 0 <= i < |items|
        ensures DistinctKeys(items[i])
      {
        assert [Item(i)][1..] == [];
        ChildHasNoKeyTwice(node, Item(i));
        NoKeyTwiceIsDistinct(items[i]);
      }
    case _ =>
  }

  lemma {:induction false} MembersDistinct(members: seq<Member>)
    requires forall i | 0 <= i < |members| :: NoKeyTwice(members[i].value)
    ensures DistinctInMembers(members)
    decreases members, 0
  {
    if members != [] {
      NoKeyTwiceIsDistinct(members[0].value);
      MembersDistinct(members[1..]);
    }
  }

  /** What the documents are taken to be: no object in them has a key twice. */
  lemma DistinctKeysMean(node: Json)
    ensures DistinctKeys(node) <==> NoKeyTwice(node)
  {
    if DistinctKeys(node) {
      forall path | At(node, path).Some?
        ensures DistinctKeys(At(node, path).value)
      {
        DistinctBelow(node, path);
      }
    }
    if NoKeyTwice(node) {
      NoKeyTwiceIsDistinct(node);
    }
  }

  /** Every document has distinct keys, as parsing makes them. */
  ghost predicate Parsed(schemas: Schemas) {
    forall name | name in schemas :: DistinctKeys(schemas[name])
  }

  /** The node at one place refers to the other place. */
  ghost predicate Onward(schemas: Schemas, a: Loc, b: Loc) {
    && a.schema in schemas && At(schemas[a.schema], a.path).Some?
    && Refers(schemas, At(schemas[a.schema], a.path).value, a.schema, b)
  }

  ghost predicate CarriesAt(schemas: Schemas, a: Loc, values: Values) {
    && a.schema in schemas && At(schemas[a.schema], a.path).Some?
    && Carries(At(schemas[a.schema], a.path).value, values)
  }

  /** References one after another from the top of the file to a place with this enum. */
  ghost predicate Trail(schemas: Schemas, name: string, p: seq<Loc>, values: Values) {
    && p != [] && p[0] == Loc(name, [])
    && OnwardAll(schemas, p)
    && CarriesAt(schemas, p[|p| - 1], values)
  }

  lemma PlaceMeans(schemas: Schemas, a: Loc, b: Loc, values: Values)
    requires Parsed(schemas) && a in Places(schemas)
    ensures Edge(GraphOf(schemas), a, b) <==> Onward(schemas, a, b)
    ensures values in GraphOf(schemas).own[a] <==> CarriesAt(schemas, a, values)
  {
    PlaceIsThere(schemas, a);
    DistinctBelow(schemas[a.schema], a.path);
    var node := At(schemas[a.schema], a.path).value;
    ReferencesMean(schemas, a.schema, node, b);
    OwnMeans(node, values);
  }

  lemma OnwardStaysInside(schemas: Schemas, a: Loc, b: Loc)
    requires Parsed(schemas) && a in Places(schemas) && Onward(schemas, a, b)
    ensures b in Places(schemas)
  {
    PlaceMeans(schemas, a, b, {});
    ReferencesStayInside(schemas, a, b);
  }

  ghost predicate OnwardAll(schemas: Schemas, p: seq<Loc>) {
    forall i | 0 < i < |p| :: Onward(schemas, p[i - 1], p[i])
  }

  lemma {:induction false} StaysInside(schemas: Schemas, p: seq<Loc>, k: nat)
    requires Parsed(schemas) && k < |p| && p[0] in Places(schemas) && OnwardAll(schemas, p)
    ensures p[k] in Places(schemas)
  {
    if k > 0 {
      StaysInside(schemas, p, k - 1);
      OnwardStaysInside(schemas, p[k - 1], p[k]);
    }
  }

  lemma OnwardIsRoute(schemas: Schemas, p: seq<Loc>)
    requires Parsed(schemas) && p != [] && p[0] in Places(schemas) && OnwardAll(schemas, p)
    ensures Route(GraphOf(schemas), p) && p[|p| - 1] in Places(schemas)
  {
    StaysInside(schemas, p, |p| - 1);
    var g := GraphOf(schemas);
    forall i | 0 < i < |p|
      ensures Edge(g, p[i - 1], p[i])
    {
      OnwardIsEdge(schemas, p, i);
    }
    EdgesAreRoute(g, p);
  }

  lemma OnwardIsEdge(schemas: Schemas, p: seq<Loc>, i: nat)
    requires Parsed(schemas) && 0 < i < |p| && p[0] in Places(schemas) && OnwardAll(schemas, p)
    ensures Edge(GraphOf(schemas), p[i - 1], p[i])
  {
    StaysInside(schemas, p, i - 1);
    PlaceMeans(schemas, p[i - 1], p[i], {});
  }

  lemma EdgesAreRoute(g: Graph<Loc, Values>, p: seq<Loc>)
    requires p != [] && forall i | 0 < i < |p| :: Edge(g, p[i - 1], p[i])
    ensures Route(g, p)
  {
  }

  lemma RouteIsOnward(schemas: Schemas, p: seq<Loc>)
    requires Parsed(schemas) && Route(GraphOf(schemas), p)
    ensures OnwardAll(schemas, p)
  {
    forall i | 0 < i < |p|
      ensures Onward(schemas, p[i - 1], p[i])
    {
      assert Edge(GraphOf(schemas), p[i - 1], p[i]);
      PlaceMeans(schemas, p[i - 1], p[i], {});
    }
  }

  /** What a search is meant to find for a file: the enums at the ends of its trails. */
  lemma HoldsMeans(schemas: Schemas, name: string, values: Values)
    requires Parsed(schemas) && name in schemas
    ensures Holds(GraphOf(schemas), Loc(name, []), values) <==> exists p :: Trail(schemas, name, p, values)
  {
    var g, start := GraphOf(schemas), Loc(name, []);
    assert start in Places(schemas);
    if m :| Reaches(g, start, m) && m in g.own && values in g.own[m] {
      var p :| Joins(g, p, start, m);
      RouteIsOnward(schemas, p);
      PlaceMeans(schemas, m, m, values);
      assert Trail(schemas, name, p, values);
    }
    if p :| Trail(schemas, name, p, values) {
      OnwardIsRoute(schemas, p);
      var m := p[|p| - 1];
      assert Joins(g, p, start, m);
      PlaceMeans(schemas, m, m, values);
    }
  }
}
