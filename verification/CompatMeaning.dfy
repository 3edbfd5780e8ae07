/**
 What the gate's search means, told on the two schemas themselves: which `$defs` no artifact of the old schema may
 hold anything under, by paths and by what the old parents admit.
 */
module CompatMeaning {
  import opened Wrappers
  import opened PyText
  import opened EnumPointer
  import opened CompatGate
  import opened RawPointer

  // ----- What the gate remembers of the old schema -----

  /** The walk of the old schema does not enter a value under one of these keys. */
  predicate Annotates(step: Step) {
    step.Key? && step.key in {"$schema", "$id", "title", "description", "examples", "const", "enum", "default"}
  }

  predicate BelowAnnotation(path: seq<Step>) {
    exists i | 0 <= i < |path| :: Annotates(path[i])
  }

  lemma AnnotationStep(step: Step, rest: seq<Step>)
    ensures BelowAnnotation([step] + rest) <==> Annotates(step) || BelowAnnotation(rest)
  {
    var path := [step] + rest;
    assert path[0] == step && forall i | 0 < i < |path| :: path[i] == rest[i - 1];
    if i :| 0 <= i < |rest| && Annotates(rest[i]) {
      assert path[i + 1] == rest[i];
    }
  }

  /** An object at this place, which the walk enters. */
  ghost predicate NodeAtPlace(node: Json, pointer: string, at: string, found: Json, path: seq<Step>) {
    At(node, path) == Some(found) && found.Object? && !BelowAnnotation(path) && at == pointer + Raw(path)
  }

  lemma NodeStep(node: Json, pointer: string, at: string, found: Json, step: Step, child: Json, rest: seq<Step>)
    requires At(node, [step]) == Some(child) && !Annotates(step)
    requires NodeAtPlace(child, pointer + "/" + RawSegment(step), at, found, rest)
    ensures NodeAtPlace(node, pointer, at, found, [step] + rest)
  {
    var path := [step] + rest;
    assert path[0] == step && path[1..] == rest && [path[0]] == [step];
    AtStep(node, path, child);
    AnnotationStep(step, rest);
    RawStep(pointer, step, rest);
  }

  lemma {:induction false} NodeHasPath(node: Json, pointer: string, at: string) returns (path: seq<Step>)
    requires DistinctKeys(node) && at in NodesByPointer(node, pointer)
    ensures NodeAtPlace(node, pointer, at, NodesByPointer(node, pointer)[at], path)
    decreases node, 1
  {
    match node
    case Object(members) =>
      if at in NodesInMembers(members, pointer) {
        var i, rest := MemberNodeHasPath(members, pointer, at);
        FindMember(members, i);
        path := [Key(members[i].key)] + rest;
        NodeStep(node, pointer, at, NodesByPointer(node, pointer)[at], Key(members[i].key), members[i].value, rest);
      } else {
        path := [];
      }
    case Array(items) =>
      var i, rest := ItemNodeHasPath(items, 0, pointer, at);
      path := [Item(i)] + rest;
      NodeStep(node, pointer, at, NodesByPointer(node, pointer)[at], Item(i), items[i], rest);
  }

  lemma {:induction false} MemberNodeHasPath(members: seq<Member>, pointer: string, at: string)
    returns (i: nat, rest: seq<Step>)
    requires DistinctInMembers(members) && at in NodesInMembers(members, pointer)
    ensures i < |members| && !Annotates(Key(members[i].key))
    ensures NodeAtPlace(members[i].value, pointer + "/" + members[i].key, at,
                        NodesInMembers(members, pointer)[at], rest)
    decreases members, 0
  {
    if at in NodesInMembers(members[1..], pointer) {
      i, rest := MemberNodeHasPath(members[1..], pointer, at);
      i := i + 1;
    } else {
      i := 0;
      rest := NodeHasPath(members[0].value, pointer + "/" + members[0].key, at);
    }
  }

  lemma {:induction false} ItemNodeHasPath(items: seq<Json>, first: nat, pointer: string, at: string)
    returns (i: nat, rest: seq<Step>)
    requires (forall j | 0 <= j < |items| :: DistinctKeys(items[j])) && at in NodesInItems(items, first, pointer)
    ensures i < |items|
    ensures NodeAtPlace(items[i], pointer + "/" + Decimal(first + i), at, NodesInItems(items, first, pointer)[at], rest)
    decreases items, 0
  {
    if at in NodesInItems(items[1..], first + 1, pointer) {
      i, rest := ItemNodeHasPath(items[1..], first + 1, pointer, at);
      i := i + 1;
    } else {
      i := 0;
      rest := NodeHasPath(items[0], pointer + "/" + Decimal(first), at);
    }
  }

  lemma {:induction false} PathIsNode(node: Json, pointer: string, path: seq<Step>)
    requires At(node, path).Some? && At(node, path).value.Object? && !BelowAnnotation(path)
    ensures pointer + Raw(path) in NodesByPointer(node, pointer)
    decreases |path|
  {
    if path == [] {
      assert pointer + Raw(path) == pointer;
    } else {
      var step, rest := path[0], path[1..];
      assert path == [step] + rest;
      RawStep(pointer, step, rest);
      AnnotationStep(step, rest);
      match step
      case Key(k) =>
        PathIsNode(Find(node.members, k).value, pointer + "/" + k, rest);
        MemberIsNode(node.members, pointer, k, pointer + Raw(path));
      case Item(i) =>
        PathIsNode(node.items[i], pointer + "/" + Decimal(i), rest);
        ItemIsNode(node.items, 0, pointer, i, pointer + Raw(path));
    }
  }

  lemma {:induction false} MemberIsNode(members: seq<Member>, pointer: string, key: string, at: string)
    requires Find(members, key).Some? && !Annotates(Key(key))
    requires at in NodesByPointer(Find(members, key).value, pointer + "/" + key)
    ensures at in NodesInMembers(members, pointer)
  {
    if members[0].key != key {
      MemberIsNode(members[1..], pointer, key, at);
    }
  }

  lemma {:induction false} ItemIsNode(items: seq<Json>, first: nat, pointer: string, i: nat, at: string)
    requires i < |items| && at in NodesByPointer(items[i], pointer + "/" + Decimal(first + i))
    ensures at in NodesInItems(items, first, pointer)
  {
    if i > 0 {
      ItemIsNode(items[1..], first + 1, pointer, i - 1, at);
    }
  }

  /** The node declares the property. */
  ghost predicate Declares(node: Json, name: string) {
    node.Object? && exists properties: seq<Member>, i ::
      Reads(node.members, "properties", Object(properties)) && 0 <= i < |properties| && properties[i].key == name
  }

  ghost predicate DeclaredAtPlace(node: Json, pointer: string, at: string, path: seq<Step>, name: string) {
    At(node, path).Some? && Declares(At(node, path).value, name) && at == pointer + Raw(path) + "/properties/" + name
  }

  lemma DeclaredStep(node: Json, pointer: string, at: string, step: Step, child: Json, rest: seq<Step>, name: string)
    requires At(node, [step]) == Some(child)
    requires DeclaredAtPlace(child, pointer + "/" + RawSegment(step), at, rest, name)
    ensures DeclaredAtPlace(node, pointer, at, [step] + rest, name)
  {
    var path := [step] + rest;
    assert path[0] == step && path[1..] == rest && [path[0]] == [step];
    AtStep(node, path, child);
    RawStep(pointer, step, rest);
  }

  /** A property of this member, which is `properties`, or one declared further down. */
  ghost predicate DeclaredBy(m: Member, pointer: string, at: string, rest: seq<Step>, name: string, here: bool) {
    if here then
      m.key == "properties" && m.value.Object?
      && (exists i :: 0 <= i < |m.value.members| && m.value.members[i].key == name)
      && at == pointer + "/properties/" + name
    else DeclaredAtPlace(m.value, pointer + "/" + m.key, at, rest, name)
  }

  lemma {:induction false} PropertyHasPath(node: Json, pointer: string, at: string)
    returns (path: seq<Step>, name: string)
    requires DistinctKeys(node) && at in PropertyPointers(node, pointer)
    ensures DeclaredAtPlace(node, pointer, at, path, name)
    decreases node, 1
  {
    match node
    case Object(members) =>
      var i, rest, n, here := MemberPropertyHasPath(members, pointer, at);
      FindMember(members, i);
      FindReads(members, members[i].key);
      name := n;
      if here {
        path := [];
        assert Reads(members, "properties", Object(members[i].value.members));
        assert pointer + Raw([]) == pointer;
      } else {
        path := [Key(members[i].key)] + rest;
        DeclaredStep(node, pointer, at, Key(members[i].key), members[i].value, rest, name);
      }
    case Array(items) =>
      var i, rest, n := ItemPropertyHasPath(items, 0, pointer, at);
      path, name := [Item(i)] + rest, n;
      DeclaredStep(node, pointer, at, Item(i), items[i], rest, name);
  }

  lemma {:induction false} MemberPropertyHasPath(members: seq<Member>, pointer: string, at: string)
    returns (i: nat, rest: seq<Step>, name: string, here: bool)
    requires DistinctInMembers(members) && at in PointersInMembers(members, pointer)
    ensures i < |members| && DeclaredBy(members[i], pointer, at, rest, name, here)
    decreases members, 0
  {
    var m := members[0];
    if at in PointersInMembers(members[1..], pointer) {
      i, rest, name, here := MemberPropertyHasPath(members[1..], pointer, at);
      i := i + 1;
    } else if at in PropertyPointers(m.value, pointer + "/" + m.key) {
      i, here := 0, false;
      rest, name := PropertyHasPath(m.value, pointer + "/" + m.key, at);
    } else {
      i, here, rest := 0, true, [];
      var k :| 0 <= k < |m.value.members| && at == pointer + "/properties/" + m.value.members[k].key;
      name := m.value.members[k].key;
    }
  }

  lemma {:induction false} ItemPropertyHasPath(items: seq<Json>, first: nat, pointer: string, at: string)
    returns (i: nat, rest: seq<Step>, name: string)
    requires (forall j | 0 <= j < |items| :: DistinctKeys(items[j])) && at in PointersInItems(items, first, pointer)
    ensures i < |items|
    ensures DeclaredAtPlace(items[i], pointer + "/" + Decimal(first + i), at, rest, name)
    decreases items, 0
  {
    if at in PointersInItems(items[1..], first + 1, pointer) {
      i, rest, name := ItemPropertyHasPath(items[1..], first + 1, pointer, at);
      i := i + 1;
    } else {
      i := 0;
      rest, name := PropertyHasPath(items[0], pointer + "/" + Decimal(first), at);
    }
  }

  lemma {:induction false} PathIsProperty(node: Json, pointer: string, path: seq<Step>, name: string)
    requires At(node, path).Some? && Declares(At(node, path).value, name)
    ensures pointer + Raw(path) + "/properties/" + name in PropertyPointers(node, pointer)
    decreases |path|
  {
    var at := pointer + Raw(path) + "/properties/" + name;
    if path == [] {
      assert pointer + Raw(path) == pointer;
      var properties: seq<Member>, i :|
        Reads(node.members, "properties", Object(properties)) && 0 <= i < |properties| && properties[i].key == name;
      OwnProperty(node.members, pointer, properties, i);
    } else {
      var step, rest := path[0], path[1..];
      assert path == [step] + rest;
      RawStep(pointer, step, rest);
      match step
      case Key(k) =>
        PathIsProperty(Find(node.members, k).value, pointer + "/" + k, rest, name);
        MemberIsProperty(node.members, pointer, k, at);
      case Item(i) =>
        PathIsProperty(node.items[i], pointer + "/" + Decimal(i), rest, name);
        ItemIsProperty(node.items, 0, pointer, i, at);
    }
  }

  lemma {:induction false} OwnProperty(members: seq<Member>, pointer: string, properties: seq<Member>, i: nat)
    requires Reads(members, "properties", Object(properties)) && i < |properties|
    ensures pointer + "/properties/" + properties[i].key in PointersInMembers(members, pointer)
  {
    ReadsLater(members, "properties", Object(properties));
    if members[0].key != "properties" {
      OwnProperty(members[1..], pointer, properties, i);
    }
  }

  lemma {:induction false} MemberIsProperty(members: seq<Member>, pointer: string, key: string, at: string)
    requires Find(members, key).Some? && at in PropertyPointers(Find(members, key).value, pointer + "/" + key)
    ensures at in PointersInMembers(members, pointer)
  {
    if members[0].key != key {
      MemberIsProperty(members[1..], pointer, key, at);
    }
  }

  lemma {:induction false} ItemIsProperty(items: seq<Json>, first: nat, pointer: string, i: nat, at: string)
    requires i < |items| && at in PropertyPointers(items[i], pointer + "/" + Decimal(first + i))
    ensures at in PointersInItems(items, first, pointer)
  {
    if i > 0 {
      ItemIsProperty(items[1..], first + 1, pointer, i - 1, at);
    }
  }

  // ----- What the old parent admits -----

  /**
   A node admits a property if it is no object, or is not closed by `"additionalProperties": false`, or has
   `patternProperties` that Python takes for true, or declares the property.
   */
  ghost predicate Admits(node: Json, name: string) {
    || !node.Object?
    || !Reads(node.members, "additionalProperties", Bool(false))
    || (exists p :: Reads(node.members, "patternProperties", p) && p != Null && p != Bool(false) && p != Number(0)
                    && p != Text("") && p != Array([]) && p != Object([]))
    || Declares(node, name)
  }

  /** The old schema has a node at this pointer, and that node does not admit the property. */
  ghost predicate Forbids(earlier: Json, pointer: string, name: string) {
    exists path :: Raw(path) == pointer && At(earlier, path).Some? && !BelowAnnotation(path)
                   && !Admits(At(earlier, path).value, name)
  }

  /** Closed, whatever it declares. */
  ghost predicate IsClosed(node: Json) {
    && node.Object?
    && Reads(node.members, "additionalProperties", Bool(false))
    && !(exists p :: Reads(node.members, "patternProperties", p) && p != Null && p != Bool(false) && p != Number(0)
                     && p != Text("") && p != Array([]) && p != Object([]))
  }

  lemma ClosedInGate(node: Json)
    requires node.Object?
    ensures IsClosed(node) <==>
              Find(node.members, "additionalProperties") == Some(Bool(false))
              && (match Find(node.members, "patternProperties")
                  case None => true
                  case Some(patterns) => !Truthy(patterns))
  {
    FindReads(node.members, "additionalProperties");
    FindReads(node.members, "patternProperties");
    match Find(node.members, "patternProperties")
    case None =>
      if p :| Reads(node.members, "patternProperties", p) {
        assert false;
      }
    case Some(patterns) => assert Reads(node.members, "patternProperties", patterns);
  }

  lemma SamePlace(earlier: Json, p: seq<Step>, q: seq<Step>, a: string, b: string)
    requires PlainKeys(earlier) && At(earlier, p).Some? && At(earlier, q).Some? && '/' !in a && '/' !in b
    requires Raw(p) + "/properties/" + a == Raw(q) + "/properties/" + b
    ensures p == q && a == b
  {
    PlainSegments(p);
    PlainSegments(q);
    var x, y := RawSegments(p) + ["properties", a], RawSegments(q) + ["properties", b];
    JoinedPair("properties", a);
    JoinedPair("properties", b);
    JoinedAppend(RawSegments(p), ["properties", a]);
    JoinedAppend(RawSegments(q), ["properties", b]);
    JoinsRegroup(Raw(p), "/properties/", a);
    JoinsRegroup(Raw(q), "/properties/", b);
    assert '/' !in "properties";
    JoinedTells(x, y);
    assert x[|x| - 1] == a && y[|y| - 1] == b && x[..|x| - 2] == RawSegments(p) && y[..|y| - 2] == RawSegments(q);
    SegmentsTell(earlier, p, q);
  }

  lemma JoinedPair(a: string, b: string)
    ensures Joined([a, b]) == "/" + a + ("/" + b)
    ensures Joined(["properties", b]) == "/properties/" + b
  {
    assert Joined([b]) == "/" + b + Joined([]);
    assert [a, b][1..] == [b] && ["properties", b][1..] == [b];
    assert "/" + "properties" + ("/" + b) == "/properties/" + b;
  }

  /** A place whose last key is the property's: its name has no slash. */
  lemma DeclaredIsPlain(earlier: Json, path: seq<Step>, name: string)
    requires PlainKeys(earlier) && At(earlier, path).Some? && Declares(At(earlier, path).value, name)
    ensures '/' !in name
  {
    var node := At(earlier, path).value;
    var properties: seq<Member>, i :|
      Reads(node.members, "properties", Object(properties)) && 0 <= i < |properties| && properties[i].key == name;
    FindReads(node.members, "properties");
    FindReads(properties, name);
    var tail := [Key("properties"), Key(name)];
    AtAppend(earlier, path, tail);
    AtProperty(node, properties, name);
    assert Key(name) == (path + tail)[|path| + 1];
  }

  lemma AtProperty(node: Json, properties: seq<Member>, name: string)
    requires node.Object? && Find(node.members, "properties") == Some(Object(properties))
    requires Find(properties, name).Some?
    ensures At(node, [Key("properties"), Key(name)]).Some?
  {
    var tail := [Key("properties"), Key(name)];
    assert tail[1..] == [Key(name)] && [Key(name)][1..] == [];
    assert At(Object(properties), [Key(name)]).Some?;
  }

  lemma {:induction false} AtAppend(node: Json, a: seq<Step>, b: seq<Step>)
    requires At(node, a).Some?
    ensures At(node, a + b) == At(At(node, a).value, b)
    decreases |a|
  {
    if a == [] {
      assert a + b == b;
    } else {
      assert (a + b)[0] == a[0] && (a + b)[1..] == a[1..] + b;
      match a[0]
      case Key(k) => AtAppend(Find(node.members, k).value, a[1..], b);
      case Item(i) => AtAppend(node.items[i], a[1..], b);
    }
  }

  lemma SamePointer(earlier: Json, p: seq<Step>, q: seq<Step>)
    requires PlainKeys(earlier) && At(earlier, p).Some? && At(earlier, q).Some? && Raw(p) == Raw(q)
    ensures p == q
  {
    PlainSegments(p);
    PlainSegments(q);
    JoinedTells(RawSegments(p), RawSegments(q));
    SegmentsTell(earlier, p, q);
  }

  lemma DeclaredOnlyThere(earlier: Json, path: seq<Step>, name: string)
    requires DistinctKeys(earlier) && PlainKeys(earlier) && At(earlier, path).Some? && '/' !in name
    ensures Raw(path) + "/properties/" + name in PropertyPointers(earlier, "")
            <==> Declares(At(earlier, path).value, name)
  {
    var at := Raw(path) + "/properties/" + name;
    assert "" + Raw(path) == Raw(path);
    if Declares(At(earlier, path).value, name) {
      PathIsProperty(earlier, "", path, name);
    }
    if at in PropertyPointers(earlier, "") {
      var q, n := PropertyHasPath(earlier, "", at);
      assert "" + Raw(q) == Raw(q);
      DeclaredIsPlain(earlier, q, n);
      SamePlace(earlier, path, q, name, n);
    }
  }

  /** The gate's test, on what it remembers, is what the old schema itself says. */
  lemma ImpossibleIsForbidden(earlier: Json, pointer: string, name: string)
    requires DistinctKeys(earlier) && PlainKeys(earlier) && '/' !in name
    ensures ImpossibleBefore(OldOf(earlier), pointer, name) <==> Forbids(earlier, pointer, name)
  {
    var nodes := NodesByPointer(earlier, "");
    if pointer in nodes {
      var path := NodeHasPath(earlier, "", pointer);
      assert "" + Raw(path) == Raw(path);
      ClosedInGate(nodes[pointer]);
      DeclaredOnlyThere(earlier, path, name);
      if ImpossibleBefore(OldOf(earlier), pointer, name) {
        assert !Admits(At(earlier, path).value, name);
      }
      forall q | Raw(q) == pointer && At(earlier, q).Some?
        ensures q == path
      {
        SamePointer(earlier, path, q);
      }
    }
    if path :| Raw(path) == pointer && At(earlier, path).Some? && !BelowAnnotation(path)
               && !Admits(At(earlier, path).value, name) {
      PathIsNode(earlier, "", path);
      assert "" + Raw(path) == Raw(path);
    }
  }

  // ----- Which references the search meets -----

  /** One step of the gate's walk: into a member or an item, or through `properties` to one of them. */
  datatype Move = Into(step: Step) | Property(name: string)

  function Moved(node: Json, move: Move): Option<Json> {
    match move
    case Into(Item(i)) => if node.Array? && i < |node.items| then Some(node.items[i]) else None
    case Into(Key(k)) =>
      if !node.Object? || k == "$defs" then None
      else
        (match Find(node.members, k)
         case Some(Object(_)) => if k == "properties" then None else Find(node.members, k)
         case found => found)
    case Property(name) =>
      if !node.Object? then None
      else
        (match Find(node.members, "properties")
         case Some(Object(properties)) => Find(properties, name)
         case _ => None)
  }

  function Steps(move: Move): seq<Step> {
    match move
    case Into(step) => [step]
    case Property(name) => [Key("properties"), Key(name)]
  }

  function MovedAll(node: Json, moves: seq<Move>): Option<Json>
    decreases |moves|
  {
    if moves == [] then Some(node)
    else
      match Moved(node, moves[0])
      case None => None
      case Some(child) => MovedAll(child, moves[1..])
  }

  /** On the way, a property is entered that the old schema forbade at that place. */
  ghost predicate Crosses(before: Old, pointer: string, moves: seq<Move>)
    decreases |moves|
  {
    moves != [] &&
    ((moves[0].Property? && ImpossibleBefore(before, pointer, moves[0].name))
     || Crosses(before, pointer + Raw(Steps(moves[0])), moves[1..]))
  }

  /** `{"$ref": "#/$defs/name"}`. */
  ghost predicate RefersTo(node: Json, name: string) {
    node.Object? && Reads(node.members, "$ref", Text("#/$defs/" + name))
  }

  ghost predicate Met(before: Old, node: Json, pointer: string, crossed: bool, u: Use, moves: seq<Move>) {
    && MovedAll(node, moves).Some? && RefersTo(MovedAll(node, moves).value, u.name)
    && u.crossed == (crossed || Crosses(before, pointer, moves))
  }

  lemma RefNameReads(node: Json, name: string)
    requires node.Object?
    ensures RefName(node.members) == Some(name) <==> RefersTo(node, name)
  {
    FindReads(node.members, "$ref");
    match Find(node.members, "$ref")
    case Some(Text(ref)) =>
      if "#/$defs/" <= ref {
        assert ref == "#/$defs/" + ref[|"#/$defs/"|..];
      }
      assert ("#/$defs/" + name)[|"#/$defs/"|..] == name;
    case _ =>
  }

  lemma MetStep(before: Old, node: Json, pointer: string, crossed: bool, u: Use, move: Move, child: Json,
                rest: seq<Move>)
    requires Moved(node, move) == Some(child)
    requires var inside := crossed || (move.Property? && ImpossibleBefore(before, pointer, move.name));
             Met(before, child, pointer + Raw(Steps(move)), inside, u, rest)
    ensures Met(before, node, pointer, crossed, u, [move] + rest)
  {
    var moves := [move] + rest;
    assert moves[0] == move && moves[1..] == rest;
  }

  lemma IntoPointer(pointer: string, step: Step)
    ensures pointer + Raw(Steps(Into(step))) == pointer + "/" + RawSegment(step)
  {
    RawOne(step);
    JoinsRegroup(pointer, "/", RawSegment(step));
  }

  lemma PropertyPointer(pointer: string, name: string)
    ensures pointer + Raw(Steps(Property(name))) == pointer + "/properties/" + name
  {
    assert RawSegments([Key("properties"), Key(name)]) == ["properties", name] by {
      assert RawSegments([Key(name)]) == [name];
      assert [Key("properties"), Key(name)][1..] == [Key(name)];
    }
    JoinedPair("properties", name);
    JoinsRegroup(pointer, "/properties/", name);
  }

  /** How the member `m` of a node is entered, and what is found there. */
  ghost predicate EntersBy(m: Member, move: Move, child: Json) {
    match move
    case Into(Key(k)) => m.key == k && k != "$defs" && !(k == "properties" && m.value.Object?) && child == m.value
    case Into(Item(_)) => false
    case Property(name) => m.key == "properties" && m.value.Object? && Find(m.value.members, name) == Some(child)
  }

  lemma EntersIsMove(node: Json, i: nat, move: Move, child: Json)
    requires node.Object? && DistinctKeys(node) && i < |node.members| && EntersBy(node.members[i], move, child)
    ensures Moved(node, move) == Some(child)
  {
    FindMember(node.members, i);
  }

  /** What is left of the way once the first step is taken. */
  ghost predicate MetAfter(before: Old, pointer: string, crossed: bool, u: Use, move: Move, child: Json,
                           rest: seq<Move>)
  {
    var inside := crossed || (move.Property? && ImpossibleBefore(before, pointer, move.name));
    Met(before, child, pointer + Raw(Steps(move)), inside, u, rest)
  }

  lemma {:induction false} UseHasMoves(before: Old, node: Json, pointer: string, crossed: bool, u: Use)
    returns (moves: seq<Move>)
    requires DistinctKeys(node) && u in Uses(before, node, pointer, crossed)
    ensures Met(before, node, pointer, crossed, u, moves)
    decreases node, 1
  {
    match node
    case Object(members) =>
      RefNameReads(node, u.name);
      if u in UsesInMembers(before, members, pointer, crossed) {
        var i, move, child, rest := MemberUseHasMoves(before, members, pointer, crossed, u);
        EntersIsMove(node, i, move, child);
        MetStep(before, node, pointer, crossed, u, move, child, rest);
        moves := [move] + rest;
      } else {
        moves := [];
      }
    case Array(items) =>
      var i, rest := ItemUseHasMoves(before, items, 0, pointer, crossed, u);
      IntoPointer(pointer, Item(i));
      MetStep(before, node, pointer, crossed, u, Into(Item(i)), items[i], rest);
      moves := [Into(Item(i))] + rest;
  }

  lemma {:induction false} MemberUseHasMoves(before: Old, members: seq<Member>, pointer: string, crossed: bool, u: Use)
    returns (i: nat, move: Move, child: Json, rest: seq<Move>)
    requires DistinctInMembers(members) && u in UsesInMembers(before, members, pointer, crossed)
    ensures i < |members| && EntersBy(members[i], move, child)
    ensures MetAfter(before, pointer, crossed, u, move, child, rest)
    decreases members, 0
  {
    var m := members[0];
    if u in UsesInMembers(before, members[1..], pointer, crossed) {
      i, move, child, rest := MemberUseHasMoves(before, members[1..], pointer, crossed, u);
      i := i + 1;
    } else if m.key == "properties" && m.value.Object? {
      var k;
      k, rest := PropertyUseHasMoves(before, m.value.members, pointer, crossed, u);
      DistinctMembers(m.value);
      FindMember(m.value.members, k);
      i, move, child := 0, Property(m.value.members[k].key), m.value.members[k].value;
    } else {
      IntoPointer(pointer, Key(m.key));
      rest := UseHasMoves(before, m.value, pointer + "/" + m.key, crossed, u);
      i, move, child := 0, Into(Key(m.key)), m.value;
    }
  }

  lemma DistinctMembers(node: Json)
    requires DistinctKeys(node) && node.Object?
    ensures forall i, j | 0 <= i < j < |node.members| :: node.members[i].key != node.members[j].key
    ensures DistinctInMembers(node.members)
  {
  }

  lemma {:induction false} PropertyUseHasMoves(before: Old, properties: seq<Member>, pointer: string, crossed: bool,
                                               u: Use)
    returns (k: nat, rest: seq<Move>)
    requires DistinctInMembers(properties) && u in UsesInProperties(before, properties, pointer, crossed)
    ensures k < |properties|
    ensures MetAfter(before, pointer, crossed, u, Property(properties[k].key), properties[k].value, rest)
    decreases properties, 0
  {
    if u in UsesInProperties(before, properties[1..], pointer, crossed) {
      k, rest := PropertyUseHasMoves(before, properties[1..], pointer, crossed, u);
      k := k + 1;
    } else {
      var p := properties[0];
      k := 0;
      PropertyPointer(pointer, p.key);
      rest := UseHasMoves(before, p.value, pointer + "/properties/" + p.key,
                          crossed || ImpossibleBefore(before, pointer, p.key), u);
    }
  }

  lemma {:induction false} ItemUseHasMoves(before: Old, items: seq<Json>, first: nat, pointer: string, crossed: bool,
                                           u: Use)
    returns (i: nat, rest: seq<Move>)
    requires (forall j | 0 <= j < |items| :: DistinctKeys(items[j]))
    requires u in UsesInItems(before, items, first, pointer, crossed)
    ensures i < |items| && Met(before, items[i], pointer + "/" + Decimal(first + i), crossed, u, rest)
    decreases items, 0
  {
    if u in UsesInItems(before, items[1..], first + 1, pointer, crossed) {
      i, rest := ItemUseHasMoves(before, items[1..], first + 1, pointer, crossed, u);
      i := i + 1;
    } else {
      i := 0;
      rest := UseHasMoves(before, items[0], pointer + "/" + Decimal(first), crossed, u);
    }
  }

  lemma {:induction false} MovesAreUse(before: Old, node: Json, pointer: string, crossed: bool, u: Use,
                                       moves: seq<Move>)
    requires Met(before, node, pointer, crossed, u, moves)
    ensures u in Uses(before, node, pointer, crossed)
    decreases |moves|
  {
    if moves == [] {
      RefNameReads(node, u.name);
    } else {
      var move, rest := moves[0], moves[1..];
      var child := Moved(node, move).value;
      var inside := crossed || (move.Property? && ImpossibleBefore(before, pointer, move.name));
      MovesAreUse(before, child, pointer + Raw(Steps(move)), inside, u, rest);
      match move
      case Into(Item(i)) =>
        IntoPointer(pointer, Item(i));
        ItemIsUse(before, node.items, 0, pointer, crossed, u, i);
      case Into(Key(k)) =>
        IntoPointer(pointer, Key(k));
        MemberIsUse(before, node.members, pointer, crossed, u, k);
      case Property(name) =>
        PropertyPointer(pointer, name);
        PropertyIsUse(before, Find(node.members, "properties").value.members, pointer, crossed, u, name);
        PropertiesAreUses(before, node.members, pointer, crossed, u);
    }
  }

  lemma {:induction false} ItemIsUse(before: Old, items: seq<Json>, first: nat, pointer: string, crossed: bool, u: Use,
                                     i: nat)
    requires i < |items| && u in Uses(before, items[i], pointer + "/" + Decimal(first + i), crossed)
    ensures u in UsesInItems(before, items, first, pointer, crossed)
  {
    if i > 0 {
      ItemIsUse(before, items[1..], first + 1, pointer, crossed, u, i - 1);
    }
  }

  lemma {:induction false} MemberIsUse(before: Old, members: seq<Member>, pointer: string, crossed: bool, u: Use,
                                       key: string)
    requires key != "$defs" && Find(members, key).Some? && !(key == "properties" && Find(members, key).value.Object?)
    requires u in Uses(before, Find(members, key).value, pointer + "/" + key, crossed)
    ensures u in UsesInMembers(before, members, pointer, crossed)
  {
    if members[0].key != key {
      MemberIsUse(before, members[1..], pointer, crossed, u, key);
    }
  }

  lemma {:induction false} PropertyIsUse(before: Old, properties: seq<Member>, pointer: string, crossed: bool, u: Use,
                                         name: string)
    requires Find(properties, name).Some?
    requires u in Uses(before, Find(properties, name).value, pointer + "/properties/" + name,
                       crossed || ImpossibleBefore(before, pointer, name))
    ensures u in UsesInProperties(before, properties, pointer, crossed)
  {
    if properties[0].key != name {
      PropertyIsUse(before, properties[1..], pointer, crossed, u, name);
    }
  }

  lemma {:induction false} PropertiesAreUses(before: Old, members: seq<Member>, pointer: string, crossed: bool, u: Use)
    requires Find(members, "properties").Some? && Find(members, "properties").value.Object?
    requires u in UsesInProperties(before, Find(members, "properties").value.members, pointer, crossed)
    ensures u in UsesInMembers(before, members, pointer, crossed)
  {
    if members[0].key != "properties" {
      PropertiesAreUses(before, members[1..], pointer, crossed, u);
    }
  }

  // ----- Chains of references -----

  /** No property on the way was forbidden by the old schema where it stands. */
  ghost predicate Admitted(earlier: Json, pointer: string, moves: seq<Move>)
    decreases |moves|
  {
    moves != [] ==>
      && (moves[0].Property? ==> !Forbids(earlier, pointer, moves[0].name))
      && Admitted(earlier, pointer + Raw(Steps(moves[0])), moves[1..])
  }

  /** Below the node, a reference to the def, with only admitted properties on the way. */
  ghost predicate RefersBelow(node: Json, earlier: Json, pointer: string, name: string) {
    exists moves :: MovedAll(node, moves).Some? && RefersTo(MovedAll(node, moves).value, name)
                    && Admitted(earlier, pointer, moves)
  }

  ghost predicate HasDef(current: Json, name: string, body: Json) {
    current.Object? && exists defs: seq<Member> ::
      Reads(current.members, "$defs", Object(defs)) && Reads(defs, name, body)
  }

  ghost predicate DefRefersTo(current: Json, earlier: Json, d: string, e: string) {
    exists body: Json :: HasDef(current, d, body) && body.Object? && RefersBelow(body, earlier, "/$defs/" + d, e)
  }

  /** A chain of references from the root to `name` on which every property entered was admitted. */
  ghost predicate MayReach(current: Json, earlier: Json, name: string) {
    exists c: seq<string> ::
      && c != [] && c[|c| - 1] == name && RefersBelow(current, earlier, "", c[0])
      && forall i | 0 < i < |c| :: DefRefersTo(current, earlier, c[i - 1], c[i])
  }

  lemma PlainChild(node: Json, move: Move, child: Json)
    requires PlainKeys(node) && Moved(node, move) == Some(child)
    ensures PlainKeys(child) && (move.Property? ==> '/' !in move.name)
  {
    MovedIsAt(node, move, child);
    if move.Property? {
      assert Key(move.name) == Steps(move)[1];
    }
    forall path, k | At(child, path).Some? && Key(k) in path
      ensures '/' !in k
    {
      AtAppend(node, Steps(move), path);
      assert Key(k) in Steps(move) + path;
    }
  }

  lemma MovedIsAt(node: Json, move: Move, child: Json)
    requires Moved(node, move) == Some(child)
    ensures At(node, Steps(move)) == Some(child)
  {
    match move
    case Into(step) => assert [step][1..] == [];
    case Property(name) =>
      var properties := Find(node.members, "properties").value;
      assert [Key("properties"), Key(name)][1..] == [Key(name)] && [Key(name)][1..] == [];
      assert At(properties, [Key(name)]) == Some(child);
  }

  lemma {:induction false} CrossedOrAdmitted(node: Json, earlier: Json, pointer: string, moves: seq<Move>)
    requires DistinctKeys(earlier) && PlainKeys(earlier) && PlainKeys(node) && MovedAll(node, moves).Some?
    ensures Crosses(OldOf(earlier), pointer, moves) <==> !Admitted(earlier, pointer, moves)
    decreases |moves|
  {
    if moves != [] {
      var child := Moved(node, moves[0]).value;
      PlainChild(node, moves[0], child);
      CrossedOrAdmitted(child, earlier, pointer + Raw(Steps(moves[0])), moves[1..]);
      if moves[0].Property? {
        ImpossibleIsForbidden(earlier, pointer, moves[0].name);
      }
    }
  }

  lemma UseIsReference(node: Json, earlier: Json, pointer: string, name: string)
    requires DistinctKeys(earlier) && PlainKeys(earlier) && DistinctKeys(node) && PlainKeys(node)
    ensures Use(name, false) in Uses(OldOf(earlier), node, pointer, false)
            <==> RefersBelow(node, earlier, pointer, name)
  {
    var before, u := OldOf(earlier), Use(name, false);
    if u in Uses(before, node, pointer, false) {
      var moves := UseHasMoves(before, node, pointer, false, u);
      CrossedOrAdmitted(node, earlier, pointer, moves);
    }
    if moves :| MovedAll(node, moves).Some? && RefersTo(MovedAll(node, moves).value, name)
                && Admitted(earlier, pointer, moves) {
      CrossedOrAdmitted(node, earlier, pointer, moves);
      MovesAreUse(before, node, pointer, false, u, moves);
    }
  }

  lemma DefsRead(current: Json, name: string)
    ensures IsDef(current, name) ==> HasDef(current, name, Find(Defs(current), name).value)
    ensures forall body: Json | HasDef(current, name, body) && body.Object? ::
              IsDef(current, name) && body == Find(Defs(current), name).value
  {
    if current.Object? {
      FindReads(current.members, "$defs");
      FindReads(Defs(current), name);
    }
  }

  lemma LinkIsReference(current: Json, earlier: Json, d: string, e: string)
    requires DistinctKeys(earlier) && PlainKeys(earlier) && DistinctKeys(current) && PlainKeys(current)
    ensures Link(current, OldOf(earlier), d, e) <==> DefRefersTo(current, earlier, d, e)
  {
    DefsRead(current, d);
    if IsDef(current, d) {
      var body := Find(Defs(current), d).value;
      DefIsBelow(current, d, body);
      UseIsReference(body, earlier, "/$defs/" + d, e);
    }
  }

  lemma DefIsBelow(current: Json, d: string, body: Json)
    requires DistinctKeys(current) && PlainKeys(current) && IsDef(current, d) && body == Find(Defs(current), d).value
    ensures DistinctKeys(body) && PlainKeys(body)
  {
    var defs := Find(current.members, "$defs").value;
    var path := [Key("$defs"), Key(d)];
    assert path[1..] == [Key(d)] && [Key(d)][1..] == [];
    assert At(defs, [Key(d)]) == Some(body);
    assert At(current, path) == Some(body);
    DistinctFound(current.members, "$defs");
    DistinctMembers(defs);
    DistinctFound(defs.members, d);
    forall rest, k | At(body, rest).Some? && Key(k) in rest
      ensures '/' !in k
    {
      AtAppend(current, path, rest);
      assert Key(k) in path + rest;
    }
  }

  lemma {:induction false} DistinctFound(members: seq<Member>, key: string)
    requires DistinctInMembers(members) && Find(members, key).Some?
    ensures DistinctKeys(Find(members, key).value)
  {
    if members[0].key != key {
      DistinctFound(members[1..], key);
    }
  }

  /** The search's open chains are the chains of references that an old artifact may follow. */
  lemma ReachableMeans(current: Json, earlier: Json, name: string)
    requires DistinctKeys(earlier) && PlainKeys(earlier) && DistinctKeys(current) && PlainKeys(current)
    ensures Reachable(current, OldOf(earlier), name) <==> MayReach(current, earlier, name)
  {
    var start := Uses(OldOf(earlier), current, "", false);
    forall c: seq<string> | c != []
      ensures OpenChain(current, OldOf(earlier), start, c) <==>
                RefersBelow(current, earlier, "", c[0])
                && forall i | 0 < i < |c| :: DefRefersTo(current, earlier, c[i - 1], c[i])
    {
      UseIsReference(current, earlier, "", c[0]);
      forall i | 0 < i < |c|
        ensures Link(current, OldOf(earlier), c[i - 1], c[i]) <==> DefRefersTo(current, earlier, c[i - 1], c[i])
      {
        LinkIsReference(current, earlier, c[i - 1], c[i]);
      }
    }
  }

  ghost predicate NamesDef(current: Json, name: string) {
    exists body :: HasDef(current, name, body)
  }

  lemma DefNamesAre(current: Json, name: string)
    ensures name in DefNames(current) <==> NamesDef(current, name)
  {
    if current.Object? {
      FindReads(current.members, "$defs");
      FindReads(Defs(current), name);
      if Find(Defs(current), name).Some? {
        FoundIsNamed(Defs(current), name);
        assert Find(current.members, "$defs") == Some(Object(Defs(current)));
        assert HasDef(current, name, Find(Defs(current), name).value);
      }
    }
  }

  /**
   `_defs_reachable_only_via_new_properties`: exactly the defs to which no chain of references from the root enters
   only properties that the old schema admitted where they stand.
   */
  method UnreachableDefs(current: Json, earlier: Json) returns (names: set<string>)
    ensures forall name :: name in names <==> name in DefNames(current) && !Reachable(current, OldOf(earlier), name)
    ensures DistinctKeys(earlier) && PlainKeys(earlier) && DistinctKeys(current) && PlainKeys(current) ==>
              forall name :: name in names <==> NamesDef(current, name) && !MayReach(current, earlier, name)
  {
    var walker := new Walker(current, OldOf(earlier));
    walker.Walk(current, "", false, {});
    names := set name | name in DefNames(current) && Use(name, false) !in walker.arrivals;
    forall name {
      ArrivesIffReachable(current, OldOf(earlier), name);
    }
    if DistinctKeys(earlier) && PlainKeys(earlier) && DistinctKeys(current) && PlainKeys(current) {
      forall name
        ensures name in names <==> NamesDef(current, name) && !MayReach(current, earlier, name)
      {
        DefNamesAre(current, name);
        ReachableMeans(current, earlier, name);
      }
    }
  }

  // ----- Absence alone forbids nothing -----

  /** An object that declares `a`, open or closed. */
  function Earlier(a: string, closed: bool): Json {
    var declared := [Member("properties", Object([Member(a, Object([]))]))];
    Object(if closed then declared + [Member("additionalProperties", Bool(false))] else declared)
  }

  /** It gains a property `b` that refers to a new def. */
  function Current(a: string, b: string, name: string): Json {
    var ref := Object([Member("$ref", Text("#/$defs/" + name))]);
    Object([Member("properties", Object([Member(a, Object([])), Member(b, ref)])),
            Member("$defs", Object([Member(name, Object([]))]))])
  }

  lemma RootIsEmpty(path: seq<Step>)
    requires Raw(path) == ""
    ensures path == []
  {
  }

  lemma KeysApart()
    ensures "properties" != "additionalProperties" && "properties" != "patternProperties" && "properties" != "$defs"
    ensures "additionalProperties" != "patternProperties"
  {
    assert "properties"[1] == 'r' && "additionalProperties"[1] == 'd' && "patternProperties"[1] == 'a';
    assert "$defs"[1] == 'd';
  }

  /** Whether the root of the earlier schema forbids the new property: exactly if it is closed. */
  lemma ForbiddenIfClosed(a: string, b: string, closed: bool)
    requires a != b
    ensures Forbids(Earlier(a, closed), "", b) <==> closed
  {
    KeysApart();
    var earlier := Earlier(a, closed);
    var declared := Object([Member(a, Object([]))]);
    FindReads(earlier.members, "additionalProperties");
    FindReads(earlier.members, "patternProperties");
    FindReads(earlier.members, "properties");
    assert Find(earlier.members, "properties") == Some(declared);
    assert earlier.members[0].key == "properties";
    if closed {
      assert earlier.members[1..] == [Member("additionalProperties", Bool(false))];
      assert Find(earlier.members, "additionalProperties") == Some(Bool(false));
      assert Find(earlier.members, "patternProperties") == None;
      assert Raw([]) == "" && At(earlier, []) == Some(earlier) && !BelowAnnotation([]);
      assert !Admits(earlier, b);
    } else {
      assert Find(earlier.members, "additionalProperties") == None;
    }
    forall path | Raw(path) == ""
      ensures path == []
    {
      RootIsEmpty(path);
    }
  }

  function RefTo(name: string): Json {
    Object([Member("$ref", Text("#/$defs/" + name))])
  }

  lemma RefersByName(name: string)
    ensures RefersTo(RefTo(name), name)
  {
    FindReads(RefTo(name).members, "$ref");
  }

  lemma PropertyThere(a: string, b: string, name: string)
    requires a != b
    ensures MovedAll(Current(a, b, name), [Property(b)]) == Some(RefTo(name))
  {
    var current := Current(a, b, name);
    var properties := Object([Member(a, Object([])), Member(b, RefTo(name))]);
    assert properties.members[1..] == [Member(b, RefTo(name))];
    assert Find(properties.members, b) == Some(RefTo(name));
    assert Find(current.members, "properties") == Some(properties);
    assert Moved(current, Property(b)) == Some(RefTo(name));
    assert [Property(b)][1..] == [];
  }

  lemma DefThere(a: string, b: string, name: string)
    ensures NamesDef(Current(a, b, name), name)
  {
    KeysApart();
    var current, defs := Current(a, b, name), Object([Member(name, Object([]))]);
    FindReads(current.members, "$defs");
    FindReads(defs.members, name);
    assert current.members[1..] == [Member("$defs", defs)];
    assert Find(current.members, "$defs") == Some(defs) && Find(defs.members, name) == Some(Object([]));
    assert HasDef(current, name, Object([]));
  }

  /** On an open object the def behind the new property may be reached by an old artifact. */
  lemma OpenObjectWitness(a: string, b: string, name: string)
    requires a != b
    ensures NamesDef(Current(a, b, name), name) && MayReach(Current(a, b, name), Earlier(a, false), name)
  {
    DefThere(a, b, name);
    PropertyThere(a, b, name);
    RefersByName(name);
    ForbiddenIfClosed(a, b, false);
    ReachedAtOnce(Current(a, b, name), Earlier(a, false), b, RefTo(name), name);
  }

  lemma ReachedAtOnce(current: Json, earlier: Json, b: string, ref: Json, name: string)
    requires MovedAll(current, [Property(b)]) == Some(ref) && RefersTo(ref, name) && !Forbids(earlier, "", b)
    ensures MayReach(current, earlier, name)
  {
    AdmittedOne(earlier, b);
    assert RefersBelow(current, earlier, "", name);
    ChainOfOne(current, earlier, name);
  }

  lemma AdmittedOne(earlier: Json, b: string)
    requires !Forbids(earlier, "", b)
    ensures Admitted(earlier, "", [Property(b)])
  {
    var moves := [Property(b)];
    assert moves[1..] == [] && Admitted(earlier, "" + Raw(Steps(moves[0])), []);
  }

  lemma ChainOfOne(current: Json, earlier: Json, name: string)
    requires RefersBelow(current, earlier, "", name)
    ensures MayReach(current, earlier, name)
  {
    var c := [name];
    assert c != [] && c[|c| - 1] == name && c[0] == name;
  }

  // ----- Keys with a slash -----

  /** An open object at the property `a`, and beside `properties` a key that prints like the way to it. */
  function Slashed(a: string): Json {
    Object([Member("properties", Object([Member(a, Object([]))])), Member("properties/" + a, CLOSED)])
  }

  const CLOSED := Object([Member("additionalProperties", Bool(false))])

  lemma ClosedHasNothing(pointer: string)
    ensures PropertyPointers(CLOSED, pointer) == {} && NodesByPointer(CLOSED, pointer) == map[pointer := CLOSED]
    ensures Find(CLOSED.members, "additionalProperties") == Some(Bool(false))
    ensures Find(CLOSED.members, "patternProperties") == None
  {
    KeysApart();
    assert CLOSED.members[1..] == [];
    assert PointersInMembers([], pointer) == {} && NodesInMembers([], pointer) == map[];
    assert PropertyPointers(Bool(false), pointer + "/" + "additionalProperties") == {};
    assert NodesByPointer(Bool(false), pointer + "/" + "additionalProperties") == map[];
  }

  lemma OpenHasNothing(a: string, pointer: string)
    ensures PropertyPointers(Object([Member(a, Object([]))]), pointer) == {}
  {
    var members := [Member(a, Object([]))];
    assert members[1..] == [];
    assert PointersInMembers([], pointer) == {} && PropertyPointers(Object([]), pointer + "/" + a) == {};
    assert PointersInMembers(members, pointer) == {};
  }

  lemma LastMember(member: Member, pointer: string)
    requires member.key !in ANNOTATION_KEYS && member.key != "properties"
    ensures NodesInMembers([member], pointer) == NodesByPointer(member.value, pointer + "/" + member.key)
    ensures PointersInMembers([member], pointer) == PropertyPointers(member.value, pointer + "/" + member.key)
  {
    assert [member][1..] == [];
    assert NodesInMembers([], pointer) == map[] && PointersInMembers([], pointer) == {};
  }

  lemma SlashedKey(a: string)
    requires a != ""
    ensures "properties/" + a !in ANNOTATION_KEYS && "properties/" + a != "properties"
    ensures "" + "/" + ("properties/" + a) == "/properties/" + a && "" + "/properties/" + a == "/properties/" + a
  {
    assert |"properties/" + a| >= 12;
    assert forall k | k in ANNOTATION_KEYS :: |k| <= 11;
  }

  lemma SlashedInGate(a: string)
    requires a != ""
    ensures var earlier, pointer := Slashed(a), "/properties/" + a;
            && pointer in NodesByPointer(earlier, "") && NodesByPointer(earlier, "")[pointer] == CLOSED
            && PropertyPointers(earlier, "") == {pointer}
  {
    var earlier, pointer := Slashed(a), "/properties/" + a;
    var open, last := Object([Member(a, Object([]))]), Member("properties/" + a, CLOSED);
    SlashedKey(a);
    LastMember(last, "");
    ClosedHasNothing("" + "/" + last.key);
    OpenHasNothing(a, "" + "/" + "properties");
    assert earlier.members[1..] == [last];
    assert NodesInMembers([last], "") == map[pointer := CLOSED];
    assert open.members[0].key == a;
    assert PointersInMembers([last], "") == {};
  }

  /**
   Pointers are joined without escaping, so a key with a slash may print like another place, and the later node stays:
   then a new property of an open object counts as impossible.
   */
  lemma SlashWitness(a: string, b: string)
    requires a != ""
    ensures var earlier, path := Slashed(a), [Key("properties"), Key(a)];
            && At(earlier, path) == Some(Object([])) && Admits(Object([]), b)
            && ImpossibleBefore(OldOf(earlier), Raw(path), b)
  {
    var earlier, path := Slashed(a), [Key("properties"), Key(a)];
    SlashedInGate(a);
    ClosedHasNothing("");
    assert path[1..] == [Key(a)] && [Key(a)][1..] == [];
    assert At(Object([Member(a, Object([]))]), [Key(a)]) == Some(Object([]));
    JoinedPair("properties", a);
    assert RawSegments(path) == ["properties", a] by {
      assert RawSegments([Key(a)]) == [a];
    }
    assert |"/properties/" + a + "/properties/" + b| > |"/properties/" + a|;
  }
}
