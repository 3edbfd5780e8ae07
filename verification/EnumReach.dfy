/**
 `reachable`: the value sets each schema file validates, following `$ref` across files.
 A node is identified by where it is; `collect` identifies it by object identity.
 */
module EnumReach {
  import opened Wrappers
  import opened PyText
  import opened EnumPointer
  import opened MemoSearch
  import opened MemoNames

  datatype Loc = Loc(schema: string, path: seq<Step>)

  type Schemas = map<string, Json>

  type Values = set<string>

  // ----- Resolving to a place -----

  /** The step a segment takes, where `Enter` succeeds. */
  function StepInto(node: Json, segment: string): Step
    requires Enter(node, segment).Some?
  {
    if node.Object? then Key(segment) else Item(ParseDecimal(segment))
  }

  function FollowPath(node: Json, segments: seq<string>): Option<seq<Step>>
    decreases |segments|
  {
    if segments == [] then Some([])
    else
      var segment := Unescape(segments[0]);
      match Enter(node, segment)
      case None => None
      case Some(child) =>
        match FollowPath(child, segments[1..])
        case None => None
        case Some(rest) => Some([StepInto(node, segment)] + rest)
  }

  /** `resolve`, keeping the place of the node instead of the node. */
  function Locate(schemas: Schemas, ref: string, base: string): Option<Loc> {
    var (filePart, fragment) := Partition(ref, '#');
    var target := if filePart == "" then base else filePart;
    if target !in schemas then None
    else
      match FollowPath(schemas[target], NonEmpty(Split(fragment, '/')))
      case None => None
      case Some(path) => Some(Loc(target, path))
  }

  function NodeAt(schemas: Schemas, loc: Loc): Option<Json> {
    if loc.schema !in schemas then None else At(schemas[loc.schema], loc.path)
  }

  lemma {:induction false} FollowPathIsFollow(node: Json, segments: seq<string>)
    ensures FollowPath(node, segments).Some? <==> Follow(node, segments).Some?
    ensures FollowPath(node, segments).Some? ==>
              At(node, FollowPath(node, segments).value) == Follow(node, segments)
    decreases |segments|
  {
    if segments != [] {
      var segment := Unescape(segments[0]);
      if Enter(node, segment).Some? {
        var child := Enter(node, segment).value;
        FollowPathIsFollow(child, segments[1..]);
        if FollowPath(child, segments[1..]).Some? {
          var rest := FollowPath(child, segments[1..]).value;
          assert ([StepInto(node, segment)] + rest)[1..] == rest;
        }
      }
    }
  }

  /** The place found is where `resolve` ends. */
  lemma LocateIsResolve(schemas: Schemas, ref: string, base: string)
    ensures match Locate(schemas, ref, base)
            case None => Resolved(schemas, ref, base).None?
            case Some(loc) =>
              NodeAt(schemas, loc).Some?
              && Resolved(schemas, ref, base) == Some((loc.schema, NodeAt(schemas, loc).value))
  {
    var (filePart, fragment) := Partition(ref, '#');
    var target := if filePart == "" then base else filePart;
    if target in schemas {
      FollowPathIsFollow(schemas[target], NonEmpty(Split(fragment, '/')));
    }
  }

  // ----- Which printed references lead back -----

  lemma {:induction false} FollowPathLength(node: Json, segments: seq<string>)
    requires FollowPath(node, segments).Some?
    ensures |FollowPath(node, segments).value| == |segments|
    decreases |segments|
  {
    if segments != [] {
      FollowPathLength(Enter(node, Unescape(segments[0])).value, segments[1..]);
    }
  }

  /** Only empty keys print as empty segments. */
  lemma {:induction false} EmptyKeysShorten(path: seq<Step>)
    ensures |NonEmpty(Segments(path))| <= |path|
    ensures |NonEmpty(Segments(path))| == |path| <==> Key("") !in path
  {
    if path != [] {
      EmptyKeysShorten(path[1..]);
      CutStep(path);
      match path[0]
      case Key(k) => EscapedHasNoSlash(k);
      case Item(i) => DecimalIsPlain(i);
    }
  }

  lemma CutStep(path: seq<Step>)
    requires path != []
    ensures Key("") in path <==> path[0] == Key("") || Key("") in path[1..]
  {
    assert path == [path[0]] + path[1..];
  }

  /** One step of a walk back along a printed path. */
  lemma EnterStep(node: Json, step: Step)
    requires step != Key("") && At(node, [step]).Some?
    ensures Segment(step) != "" && Enter(node, Unescape(Segment(step))) == At(node, [step])
    ensures StepInto(node, Unescape(Segment(step))) == step
  {
    assert [step][1..] == [];
    match step
    case Key(k) =>
      EscapedHasNoSlash(k);
      UnescapeInverse(k);
    case Item(i) =>
      DecimalIsPlain(i);
      ParseDecimalInverse(i);
  }

  lemma {:induction false} FollowPathIsPath(node: Json, path: seq<Step>)
    requires Key("") !in path && At(node, path).Some?
    ensures FollowPath(node, NonEmpty(Segments(path))) == Some(path)
    decreases |path|
  {
    if path != [] {
      assert At(node, [path[0]]).Some? by { assert [path[0]][1..] == []; }
      var child := At(node, [path[0]]).value;
      EnterStep(node, path[0]);
      AtStep(node, path, child);
      CutStep(path);
      FollowPathIsPath(child, path[1..]);
      assert NonEmpty(Segments(path)) == [Segment(path[0])] + NonEmpty(Segments(path[1..]));
      assert [path[0]] + path[1..] == path;
    }
  }

  /** The reference printed for a place leads back to that place if and only if no key on the way is empty. */
  lemma RefNamesItself(schemas: Schemas, name: string, path: seq<Step>, base: string)
    requires name in schemas && name != "" && '#' !in name && At(schemas[name], path).Some?
    ensures Locate(schemas, name + "#" + Pointer(path), base) == Some(Loc(name, path)) <==> Key("") !in path
  {
    RefPartitions(name, Pointer(path));
    PointerParts(path);
    var segments := NonEmpty(Segments(path));
    EmptyKeysShorten(path);
    if Key("") !in path {
      FollowPathIsPath(schemas[name], path);
    } else if FollowPath(schemas[name], segments).Some? {
      FollowPathLength(schemas[name], segments);
    }
  }

  // ----- What one node holds and refers to -----

  /** `sub.get("$ref")`, where it is a string. */
  function RefIn(node: Json): Option<string> {
    if !node.Object? then None
    else
      match Find(node.members, "$ref")
      case Some(Text(ref)) => Some(ref)
      case _ => None
  }

  function RefTarget(schemas: Schemas, base: string, node: Json): Option<Loc> {
    match RefIn(node)
    case None => None
    case Some(ref) => Locate(schemas, ref, base)
  }

  /** The value sets among some visits, `if` conditions left out. */
  function OwnValues(visits: seq<Visit>): set<Values> {
    if visits == [] then {}
    else
      var v, values := visits[|visits| - 1], StringValues(visits[|visits| - 1].node);
      OwnValues(visits[..|visits| - 1]) + (if !v.inIf && values.Some? then {values.value} else {})
  }

  /** The places referred to, in the order of the visits. */
  function References(schemas: Schemas, base: string, visits: seq<Visit>): seq<Loc> {
    if visits == [] then []
    else
      var v, target := visits[|visits| - 1], RefTarget(schemas, base, visits[|visits| - 1].node);
      References(schemas, base, visits[..|visits| - 1])
      + (if !v.inIf && target.Some? then [target.value] else [])
  }

  function VisitsOf(schemas: Schemas, loc: Loc): seq<Visit> {
    match NodeAt(schemas, loc)
    case None => []
    case Some(node) => Walk(node, "", false)
  }

  // ----- The finite graph of places -----

  function Targets(schemas: Schemas, base: string, visits: seq<Visit>): set<Loc> {
    if visits == [] then {}
    else
      var target := RefTarget(schemas, base, visits[|visits| - 1].node);
      Targets(schemas, base, visits[..|visits| - 1]) + (if target.Some? then {target.value} else {})
  }

  /** The files themselves and every place a reference in a file leads to. */
  ghost function Places(schemas: Schemas): set<Loc> {
    (set name | name in schemas :: Loc(name, []))
    + (set name, loc | name in schemas && loc in Targets(schemas, name, Walk(schemas[name], "", false)) :: loc)
  }

  ghost function GraphOf(schemas: Schemas): Graph<Loc, Values> {
    Graph(map loc | loc in Places(schemas) :: OwnValues(VisitsOf(schemas, loc)),
          map loc | loc in Places(schemas) :: References(schemas, loc.schema, VisitsOf(schemas, loc)))
  }

  lemma {:induction false} TargetListed(schemas: Schemas, base: string, visits: seq<Visit>, v: Visit)
    requires v in visits && RefTarget(schemas, base, v.node).Some?
    ensures RefTarget(schemas, base, v.node).value in Targets(schemas, base, visits)
  {
    if v != visits[|visits| - 1] {
      assert v in visits[..|visits| - 1];
      TargetListed(schemas, base, visits[..|visits| - 1], v);
    }
  }

  lemma {:induction false} TargetIsThere(schemas: Schemas, base: string, visits: seq<Visit>, loc: Loc)
    requires loc in Targets(schemas, base, visits)
    ensures NodeAt(schemas, loc).Some?
  {
    var v := visits[|visits| - 1];
    if loc in Targets(schemas, base, visits[..|visits| - 1]) {
      TargetIsThere(schemas, base, visits[..|visits| - 1], loc);
    } else {
      LocateIsResolve(schemas, RefIn(v.node).value, base);
    }
  }

  /** What is visited below a node is visited from the top of its document too. */
  lemma {:induction false} VisitedBelow(doc: Json, path: seq<Step>, v: Visit, pointer: string, inIf: bool)
    returns (w: Visit)
    requires At(doc, path).Some? && v in Walk(At(doc, path).value, "", false)
    ensures w in Walk(doc, pointer, inIf) && w.node == v.node
    decreases |path|
  {
    if path == [] {
      w := SameVisit(doc, "", false, v, pointer, inIf);
    } else if path[0].Key? {
      var key := path[0].key;
      var child := Find(doc.members, key).value;
      w := VisitedBelow(child, path[1..], v, pointer + "/" + Escape(key), inIf || key == "if");
      MemberIsWalked(doc.members, pointer, inIf, key, w);
    } else {
      var i := path[0].index;
      w := VisitedBelow(doc.items[i], path[1..], v, pointer + "/" + Decimal(i), inIf);
      ItemIsWalked(doc.items, 0, pointer, inIf, i, w);
    }
  }

  /** The nodes visited do not depend on where the walk says it starts. */
  lemma {:induction false} SameVisit(node: Json, p: string, f: bool, v: Visit, q: string, g: bool) returns (w: Visit)
    requires v in Walk(node, p, f)
    ensures w in Walk(node, q, g) && w.node == v.node
    decreases node, 1
  {
    match node
    case Object(members) =>
      if v == Visit(node, p, f) {
        w := Visit(node, q, g);
        assert Walk(node, q, g)[0] == w;
      } else {
        w := SameMemberVisit(members, p, f, v, q, g);
      }
    case Array(items) =>
      w := SameItemVisit(items, 0, p, f, v, q, g);
    case _ =>
      w := v;
  }

  lemma {:induction false} SameMemberVisit(members: seq<Member>, p: string, f: bool, v: Visit, q: string, g: bool)
    returns (w: Visit)
    requires v in WalkMembers(members, p, f)
    ensures w in WalkMembers(members, q, g) && w.node == v.node
    decreases members, 0
  {
    var m := members[0];
    if v in Walk(m.value, p + "/" + Escape(m.key), f || m.key == "if") {
      w := SameVisit(m.value, p + "/" + Escape(m.key), f || m.key == "if", v,
                     q + "/" + Escape(m.key), g || m.key == "if");
    } else {
      w := SameMemberVisit(members[1..], p, f, v, q, g);
    }
  }

  lemma {:induction false} SameItemVisit(items: seq<Json>, first: nat, p: string, f: bool, v: Visit, q: string, g: bool)
    returns (w: Visit)
    requires v in WalkItems(items, first, p, f)
    ensures w in WalkItems(items, first, q, g) && w.node == v.node
    decreases items, 0
  {
    if v in Walk(items[0], p + "/" + Decimal(first), f) {
      w := SameVisit(items[0], p + "/" + Decimal(first), f, v, q + "/" + Decimal(first), g);
    } else {
      w := SameItemVisit(items[1..], first + 1, p, f, v, q, g);
    }
  }

  lemma PlaceIsThere(schemas: Schemas, loc: Loc)
    requires loc in Places(schemas)
    ensures NodeAt(schemas, loc).Some?
  {
    if name :| name in schemas && loc in Targets(schemas, name, Walk(schemas[name], "", false)) {
      TargetIsThere(schemas, name, Walk(schemas[name], "", false), loc);
    }
  }

  lemma {:induction false} ReferenceHasVisit(schemas: Schemas, base: string, visits: seq<Visit>, loc: Loc)
    returns (v: Visit)
    requires loc in References(schemas, base, visits)
    ensures v in visits && RefTarget(schemas, base, v.node) == Some(loc)
  {
    v := visits[|visits| - 1];
    if loc in References(schemas, base, visits[..|visits| - 1]) {
      v := ReferenceHasVisit(schemas, base, visits[..|visits| - 1], loc);
    }
  }

  /** Every reference from a place leads to a place: the search stays in a finite graph. */
  lemma ReferencesStayInside(schemas: Schemas, loc: Loc, target: Loc)
    requires loc in Places(schemas) && target in References(schemas, loc.schema, VisitsOf(schemas, loc))
    ensures target in Places(schemas)
  {
    PlaceIsThere(schemas, loc);
    var doc := schemas[loc.schema];
    var v := ReferenceHasVisit(schemas, loc.schema, VisitsOf(schemas, loc), target);
    var w := VisitedBelow(doc, loc.path, v, "", false);
    TargetListed(schemas, loc.schema, Walk(doc, "", false), w);
  }

  lemma GraphIsClosed(schemas: Schemas)
    ensures Closed(GraphOf(schemas))
  {
    var g := GraphOf(schemas);
    forall n, i | n in g.refs && 0 <= i < |g.refs[n]|
      ensures g.refs[n][i] in g.refs
    {
      ReferencesStayInside(schemas, n, g.refs[n][i]);
    }
  }

  // ----- The search as it runs -----

  /** Marks the place a search is at, so that only its part of the graph is looked at. */
  ghost predicate Searched(loc: Loc) {
    true
  }

  /** `g` lists, for each place, what its visits hold and refer to. */
  ghost predicate Describes(g: Graph<Loc, Values>, schemas: Schemas) {
    && Closed(g)
    && forall loc {:trigger Searched(loc)} | loc in g.refs && Searched(loc) ::
         && NodeAt(schemas, loc).Some?
         && g.own[loc] == OwnValues(VisitsOf(schemas, loc))
         && g.refs[loc] == References(schemas, loc.schema, VisitsOf(schemas, loc))
  }

  lemma GraphDescribes(schemas: Schemas)
    ensures Describes(GraphOf(schemas), schemas)
  {
    GraphIsClosed(schemas);
    forall loc | loc in Places(schemas)
      ensures NodeAt(schemas, loc).Some?
    {
      PlaceIsThere(schemas, loc);
    }
  }

  /** What `collect` has after some visits: the values found, and the memo. */
  ghost function SoFar(g: Graph<Loc, Values>, schemas: Schemas, base: string, visits: seq<Visit>,
                       inner: set<Loc>, memo: Memo<Loc, Values>): (set<Values>, Memo<Loc, Values>)
    requires Closed(g) && forall t | t in References(schemas, base, visits) :: t in g.refs
  {
    var (below, m) := CollectEach(g, References(schemas, base, visits), inner, memo);
    (OwnValues(visits) + below, m)
  }

  lemma SoFarStart(g: Graph<Loc, Values>, schemas: Schemas, base: string, inner: set<Loc>, memo: Memo<Loc, Values>)
    requires Closed(g)
    ensures References(schemas, base, []) == []
    ensures SoFar(g, schemas, base, [], inner, memo) == ({}, memo)
  {
    var none: set<Values> := {};
    assert none + none == none;
  }

  /** One more visit. */
  lemma SoFarStep(g: Graph<Loc, Values>, schemas: Schemas, base: string, visits: seq<Visit>, v: Visit,
                  inner: set<Loc>, memo: Memo<Loc, Values>)
    requires Closed(g) && forall t | t in References(schemas, base, visits + [v]) :: t in g.refs
    ensures forall t | t in References(schemas, base, visits) :: t in g.refs
    ensures var (found, m) := SoFar(g, schemas, base, visits, inner, memo);
            var values := if v.inIf then None else StringValues(v.node);
            var target := if v.inIf then None else RefTarget(schemas, base, v.node);
            var grown := if values.Some? then found + {values.value} else found;
            && (target.Some? ==> target.value in g.refs)
            && SoFar(g, schemas, base, visits + [v], inner, memo) ==
               if target.None? then (grown, m)
               else
                 var (below, after) := MemoSearch.Collect(g, target.value, inner, m);
                 (grown + below, after)
  {
    assert (visits + [v])[..|visits|] == visits;
    var refs := References(schemas, base, visits);
    var target := if v.inIf then None else RefTarget(schemas, base, v.node);
    var all := References(schemas, base, visits + [v]);
    var (below, m) := CollectEach(g, refs, inner, memo);
    if target.Some? {
      assert all == refs + [target.value];
      assert all[..|all| - 1] == refs;
      assert all[|refs|] == target.value;
      var (more, after) := MemoSearch.Collect(g, target.value, inner, m);
      assert CollectEach(g, all, inner, memo) == (below + more, after);
      assert OwnValues(visits + [v]) + (below + more) == (OwnValues(visits + [v]) + below) + more;
      SetsRegroup(OwnValues(visits), below, if v.inIf then None else StringValues(v.node));
    } else {
      assert all == refs;
    }
    SetsRegroup(OwnValues(visits), below, if v.inIf then None else StringValues(v.node));
  }

  lemma SetsRegroup(own: set<Values>, below: set<Values>, values: Option<Values>)
    ensures own + {} == own
    ensures values.Some? ==> (own + {values.value}) + below == (own + below) + {values.value}
  {
  }

  class Collector {
    const schemas: Schemas
    ghost const g: Graph<Loc, Values>
    var memo: map<Loc, set<Values>>

    constructor (schemas: Schemas)
      ensures this.schemas == schemas && g == GraphOf(schemas) && memo == map[]
    {
      this.schemas := schemas;
      g := GraphOf(schemas);
      memo := map[];
    }

    /** The nested function `collect`. */
    method Collect(loc: Loc, stack: set<Loc>) returns (found: set<Values>)
      requires Describes(g, schemas) && loc in g.refs
      modifies this
      ensures (found, memo) == MemoSearch.Collect(g, loc, stack, old(memo))
      decreases g.refs.Keys - stack, 0
    {
      if loc in memo {
        return memo[loc];
      }
      if loc in stack {
        return {};
      }
      var inner := stack + {loc};
      assert loc in g.refs.Keys - stack && g.refs.Keys - inner < g.refs.Keys - stack;
      assert Searched(loc);
      found := CollectVisits(loc.schema, Walk(NodeAt(schemas, loc).value, "", false), inner);
      memo := memo[loc := found];
    }

    /** Its loop over what the walk yields. */
    method CollectVisits(base: string, visits: seq<Visit>, inner: set<Loc>) returns (found: set<Values>)
      requires Describes(g, schemas) && forall t | t in References(schemas, base, visits) :: t in g.refs
      modifies this
      ensures (found, memo) == SoFar(g, schemas, base, visits, inner, old(memo))
      decreases g.refs.Keys - inner, 1
    {
      found := {};
      SoFarStart(g, schemas, base, inner, memo);
      assert visits[..0] == [];
      for i := 0 to |visits|
        invariant forall t | t in References(schemas, base, visits[..i]) :: t in g.refs
        invariant (found, memo) == SoFar(g, schemas, base, visits[..i], inner, old(memo))
      {
        PrefixReferences(schemas, base, visits, i + 1);
        assert visits[..i + 1] == visits[..i] + [visits[i]];
        SoFarStep(g, schemas, base, visits[..i], visits[i], inner, old(memo));
        if !visits[i].inIf {
          var values := StringValues(visits[i].node);
          if values.Some? {
            found := found + {values.value};
          }
          var target := RefTarget(schemas, base, visits[i].node);
          if target.Some? {
            var below := Collect(target.value, inner);
            found := found + below;
          }
        }
      }
      assert visits[..|visits|] == visits;
    }
  }

  /** References of the first visits are references of all of them. */
  lemma {:induction false} PrefixReferences(schemas: Schemas, base: string, visits: seq<Visit>, n: nat)
    requires n <= |visits|
    ensures forall t | t in References(schemas, base, visits[..n]) :: t in References(schemas, base, visits)
  {
    if n < |visits| {
      PrefixReferences(schemas, base, visits[..|visits| - 1], n);
      assert visits[..|visits| - 1][..n] == visits[..n];
    } else {
      assert visits[..n] == visits;
    }
  }

  ghost function RootsOf(names: seq<string>): (roots: seq<Loc>)
    ensures |roots| == |names| && forall i | 0 <= i < |names| :: roots[i] == Loc(names[i], [])
  {
    seq(|names|, i requires 0 <= i < |names| => Loc(names[i], []))
  }

  lemma RootsAreThere(schemas: Schemas, names: seq<string>)
    requires forall name | name in names :: name in schemas
    ensures Closed(GraphOf(schemas))
    ensures forall i | 0 <= i < |names| :: RootsOf(names)[i] in GraphOf(schemas).refs
    ensures |CollectRoots(GraphOf(schemas), RootsOf(names)).0| == |names|
  {
    var g, roots := GraphOf(schemas), RootsOf(names);
    GraphIsClosed(schemas);
    forall j | 0 <= j < |names|
      ensures roots[j] in g.refs
    {
      assert names[j] in schemas;
      assert Loc(names[j], []) in Places(schemas);
    }
    RootsKeep(g, roots);
  }

  lemma NoRoots(g: Graph<Loc, Values>)
    requires Closed(g)
    ensures CollectRoots(g, []) == ([], map[])
  {
  }

  lemma RootsStep(g: Graph<Loc, Values>, roots: seq<Loc>, root: Loc)
    requires Closed(g) && root in g.refs && forall j | 0 <= j < |roots| :: roots[j] in g.refs
    ensures var (earlier, m) := CollectRoots(g, roots);
            var (found, after) := MemoSearch.Collect(g, root, {}, m);
            CollectRoots(g, roots + [root]) == (earlier + [found], after)
  {
    assert (roots + [root])[..|roots|] == roots;
  }

  method CollectRoot(collector: Collector, root: Loc, ghost roots: seq<Loc>, ghost all: seq<set<Values>>)
    returns (found: set<Values>)
    requires Describes(collector.g, collector.schemas) && root in collector.g.refs
    requires forall j | 0 <= j < |roots| :: roots[j] in collector.g.refs
    requires (all, collector.memo) == CollectRoots(collector.g, roots)
    modifies collector
    ensures (all + [found], collector.memo) == CollectRoots(collector.g, roots + [root])
  {
    RootsStep(collector.g, roots, root);
    found := collector.Collect(root, {});
  }

  /** The comprehension in `reachable`: one search per file, all with one memo. */
  method CollectNames(collector: Collector, names: seq<string>) returns (table: seq<(string, set<Values>)>)
    requires Describes(collector.g, collector.schemas) && collector.memo == map[]
    requires forall i | 0 <= i < |names| :: RootsOf(names)[i] in collector.g.refs
    modifies collector
    ensures Tabled(table, names, CollectRoots(collector.g, RootsOf(names)).0)
  {
    ghost var roots := RootsOf(names);
    ghost var all: seq<set<Values>> := [];
    table := [];
    NoRoots(collector.g);
    for i := 0 to |names|
      invariant (all, collector.memo) == CollectRoots(collector.g, roots[..i])
      invariant Tabled(table, names[..i], all)
    {
      assert roots[..i + 1] == roots[..i] + [Loc(names[i], [])];
      var found := CollectRoot(collector, Loc(names[i], []), roots[..i], all);
      TabledStep(table, names[..i], all, names[i], found);
      assert names[..i + 1] == names[..i] + [names[i]];
      table, all := table + [(names[i], found)], all + [found];
    }
    assert roots[..|names|] == roots && names[..|names|] == names;
  }

  /** The names with what was found for them. */
  ghost predicate Tabled(table: seq<(string, set<Values>)>, names: seq<string>, found: seq<set<Values>>) {
    |table| == |names| == |found| && forall i | 0 <= i < |names| :: table[i] == (names[i], found[i])
  }

  lemma TabledStep(table: seq<(string, set<Values>)>, names: seq<string>, found: seq<set<Values>>,
                   name: string, values: set<Values>)
    requires Tabled(table, names, found)
    ensures Tabled(table + [(name, values)], names + [name], found + [values])
  {
  }

  /** `reachable`: `names` are the keys of `schemas` in dict order. */
  method Reachable(schemas: Schemas, names: seq<string>) returns (table: seq<(string, set<Values>)>)
    requires forall name :: name in names <==> name in schemas
    ensures Closed(GraphOf(schemas))
    ensures forall i | 0 <= i < |names| :: RootsOf(names)[i] in GraphOf(schemas).refs
    ensures Tabled(table, names, CollectRoots(GraphOf(schemas), RootsOf(names)).0)
  {
    RootsAreThere(schemas, names);
    GraphDescribes(schemas);
    var collector := new Collector(schemas);
    table := CollectNames(collector, names);
  }

  /**
   The table never lists a value set that validation cannot reach, and lists all of them for every file whose
   search finds every place; that is so where the file shares with the files before it only places with no cycle
   ahead.
   */
  lemma TableIsSound(schemas: Schemas, names: seq<string>, i: nat, v: Values)
    requires forall name | name in names :: name in schemas
    requires i < |names|
    ensures Closed(GraphOf(schemas))
    ensures forall j | 0 <= j < |names| :: RootsOf(names)[j] in GraphOf(schemas).refs
    ensures |CollectRoots(GraphOf(schemas), RootsOf(names)).0| == |names|
    ensures v in CollectRoots(GraphOf(schemas), RootsOf(names)).0[i] ==> Holds(GraphOf(schemas), Loc(names[i], []), v)
    ensures SharesNoCycle(GraphOf(schemas), RootsOf(names), i) ==> FindsAll(GraphOf(schemas), RootsOf(names), i)
    ensures FindsAll(GraphOf(schemas), RootsOf(names), i) ==>
              (v in CollectRoots(GraphOf(schemas), RootsOf(names)).0[i]
               <==> Holds(GraphOf(schemas), Loc(names[i], []), v))
  {
    var g, roots := GraphOf(schemas), RootsOf(names);
    RootsAreThere(schemas, names);
    SearchIsSoundAt(g, roots, i, v);
    if SharesNoCycle(g, roots, i) {
      SharingNoCycleFindsAll(g, roots, i);
    }
    CompleteExactly(g, roots, i);
  }

  // ----- Two schemas of which the second loses a value set -----

  /** `{"enum": [first, second], "$ref": ref}`. */
  function Recursive(first: string, second: string, ref: string): Json {
    Object([Member("enum", Array([Text(first), Text(second)])), Member("$ref", Text(ref))])
  }

  function RecursiveSchemas(): Schemas {
    map["a" := Recursive("p", "q", "b"), "b" := Recursive("r", "s", "a")]
  }

  lemma TextsAreNotVisited(items: seq<Json>, first: nat, pointer: string)
    requires |items| == 2 && items[0].Text? && items[1].Text?
    ensures WalkItems(items, first, pointer, false) == []
  {
    assert items[1..][1..] == [] && items[1..][0] == items[1];
    assert WalkItems(items[1..], first + 1, pointer, false) == [];
  }

  lemma RecursiveWalk(first: string, second: string, ref: string)
    ensures var doc := Recursive(first, second, ref); Walk(doc, "", false) == [Visit(doc, "", false)]
  {
    var members := Recursive(first, second, ref).members;
    TextsAreNotVisited([Text(first), Text(second)], 0, "" + "/" + Escape("enum"));
    assert members[1..] == [Member("$ref", Text(ref))] && members[1..][1..] == [];
    assert WalkMembers(members[1..], "", false) == [];
    assert "enum"[0] != "if"[0];
    assert WalkMembers(members, "", false) == [];
  }

  lemma RecursiveValues(first: string, second: string, ref: string)
    ensures StringValues(Recursive(first, second, ref)) == Some({first, second})
  {
    var items := [Text(first), Text(second)];
    assert items[1..] == [Text(second)] && items[1..][1..] == [];
    assert EnumPointer.Strings([]) == [];
    assert EnumPointer.Strings(items[1..]) == [second];
    assert EnumPointer.Strings(items) == [first, second];
    assert (set s | s in [first, second]) == {first, second};
  }

  lemma RecursiveTarget(schemas: Schemas, first: string, second: string, ref: string, base: string)
    requires ref in schemas && ref != "" && '#' !in ref
    ensures RefTarget(schemas, base, Recursive(first, second, ref)) == Some(Loc(ref, []))
  {
    var members := Recursive(first, second, ref).members;
    assert "enum" != "$ref" by { assert "enum"[0] != "$ref"[0]; }
    assert members[1..][0] == Member("$ref", Text(ref));
    assert Find(members, "$ref") == Some(Text(ref));
    PartitionWhole(ref, '#');
    assert Split("", '/') == [""] && NonEmpty([""]) == [] by { assert [""][1..] == []; }
  }

  /** What the graph says of such a file. */
  lemma RecursiveNode(schemas: Schemas, name: string, first: string, second: string, ref: string)
    requires name in schemas && schemas[name] == Recursive(first, second, ref)
    requires ref in schemas && ref != "" && '#' !in ref
    ensures Loc(name, []) in GraphOf(schemas).refs && Loc(name, []) in GraphOf(schemas).own
    ensures GraphOf(schemas).refs[Loc(name, [])] == [Loc(ref, [])]
    ensures GraphOf(schemas).own[Loc(name, [])] == {{first, second}}
  {
    var loc, doc := Loc(name, []), schemas[name];
    RecursiveWalk(first, second, ref);
    RecursiveValues(first, second, ref);
    RecursiveTarget(schemas, first, second, ref, name);
    var visits := [Visit(doc, "", false)];
    assert VisitsOf(schemas, loc) == visits;
    assert visits[..0] == [] && OwnValues([]) == {} && References(schemas, name, []) == [];
    assert OwnValues(visits) == {{first, second}};
    assert References(schemas, name, visits) == [Loc(ref, [])];
    assert loc in Places(schemas);
  }

  /** Any two such files that refer to each other: the second loses what only the first lists. */
  lemma RecursivePair(schemas: Schemas, a: string, b: string, p: string, q: string, r: string, s: string)
    requires a != b && a != "" && b != "" && '#' !in a && '#' !in b && a in schemas && b in schemas
    requires schemas[a] == Recursive(p, q, b) && schemas[b] == Recursive(r, s, a) && {p, q} != {r, s}
    ensures Loses(GraphOf(schemas), Loc(a, []), Loc(b, []), {p, q})
  {
    GraphIsClosed(schemas);
    RecursiveNode(schemas, a, p, q, b);
    RecursiveNode(schemas, b, r, s, a);
    assert {p, q} in {{p, q}} && {p, q} !in {{r, s}};
    CycleLoses(GraphOf(schemas), Loc(a, []), Loc(b, []), {p, q});
  }

  /** Two mutually recursive schemas of which the second loses a value set of the first. */
  lemma RecursiveSchemasWitness()
    ensures Loses(GraphOf(RecursiveSchemas()), Loc("a", []), Loc("b", []), {"p", "q"})
  {
    assert "a"[0] != "b"[0];
    assert "p"[0] != "r"[0] && "p"[0] != "s"[0];
    assert "p" in {"p", "q"} && "p" !in {"r", "s"};
    RecursivePair(RecursiveSchemas(), "a", "b", "p", "q", "r", "s");
  }
}
