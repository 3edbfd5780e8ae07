/**
 The compatibility gate's search for `$defs` that no artifact of the old schema could reach.
 */
module CompatGate {
  import opened Wrappers
  import opened PyText
  import opened EnumPointer

  // ----- What the old schema allowed -----

  /** Keys under which `_walk_schema` does not look for nodes. */
  const ANNOTATION_KEYS: set<string> :=
    {"$schema", "$id", "title", "description", "examples", "const", "enum", "default"}

  /** `property_pointers`: where a property was declared, anywhere in a schema. */
  function PropertyPointers(node: Json, pointer: string): set<string>
    decreases node, 1
  {
    match node
    case Object(members) => PointersInMembers(members, pointer)
    case Array(items) => PointersInItems(items, 0, pointer)
    case _ => {}
  }

  function PointersInMembers(members: seq<Member>, pointer: string): set<string>
    decreases members, 0
  {
    if members == [] then {}
    else
      var m := members[0];
      (if m.key == "properties" && m.value.Object?
       then set i | 0 <= i < |m.value.members| :: pointer + "/properties/" + m.value.members[i].key else {})
      + PropertyPointers(m.value, pointer + "/" + m.key)
      + PointersInMembers(members[1..], pointer)
  }

  function PointersInItems(items: seq<Json>, first: nat, pointer: string): set<string>
    decreases items, 0
  {
    if items == [] then {}
    else
      PropertyPointers(items[0], pointer + "/" + Decimal(first)) + PointersInItems(items[1..], first + 1, pointer)
  }

  /** `dict(_walk_schema(schema, []))`: objects by pointer; of two with one pointer the later stays. */
  function NodesByPointer(node: Json, pointer: string): map<string, Json>
    decreases node, 1
  {
    match node
    case Object(members) => map[pointer := node] + NodesInMembers(members, pointer)
    case Array(items) => NodesInItems(items, 0, pointer)
    case _ => map[]
  }

  function NodesInMembers(members: seq<Member>, pointer: string): map<string, Json>
    decreases members, 0
  {
    if members == [] then map[]
    else
      (if members[0].key in ANNOTATION_KEYS then map[]
       else NodesByPointer(members[0].value, pointer + "/" + members[0].key))
      + NodesInMembers(members[1..], pointer)
  }

  function NodesInItems(items: seq<Json>, first: nat, pointer: string): map<string, Json>
    decreases items, 0
  {
    if items == [] then map[]
    else NodesByPointer(items[0], pointer + "/" + Decimal(first)) + NodesInItems(items[1..], first + 1, pointer)
  }

  /** What the gate remembers of the old schema. */
  datatype Old = Old(properties: set<string>, nodes: map<string, Json>)

  function OldOf(schema: Json): Old {
    Old(PropertyPointers(schema, ""), NodesByPointer(schema, ""))
  }

  predicate Truthy(node: Json) {
    match node
    case Null => false
    case Bool(b) => b
    case Number(n) => n != 0
    case Text(s) => s != ""
    case Array(items) => items != []
    case Object(members) => members != []
  }

  /** The old parent was closed and did not have this property: no old artifact carries it. */
  predicate ImpossibleBefore(before: Old, parent: string, name: string) {
    && parent + "/properties/" + name !in before.properties
    && parent in before.nodes && before.nodes[parent].Object?
    && Find(before.nodes[parent].members, "additionalProperties") == Some(Bool(false))
    && (match Find(before.nodes[parent].members, "patternProperties")
        case None => true
        case Some(patterns) => !Truthy(patterns))
  }

  // ----- References in the current schema -----

  /** One reference to a `$def`, and whether a forbidden property was crossed on the way to it. */
  datatype Use = Use(name: string, crossed: bool)

  const DEFS_PREFIX: string := "#/$defs/"

  function RefName(members: seq<Member>): Option<string> {
    match Find(members, "$ref")
    case Some(Text(ref)) => if DEFS_PREFIX <= ref then Some(ref[|DEFS_PREFIX|..]) else None
    case _ => None
  }

  /** The references met in a node without following any; `$defs` below it are skipped. */
  function Uses(before: Old, node: Json, pointer: string, crossed: bool): seq<Use>
    decreases node, 1
  {
    match node
    case Object(members) =>
      (match RefName(members) case Some(name) => [Use(name, crossed)] case None => [])
      + UsesInMembers(before, members, pointer, crossed)
    case Array(items) => UsesInItems(before, items, 0, pointer, crossed)
    case _ => []
  }

  function UsesInMembers(before: Old, members: seq<Member>, pointer: string, crossed: bool): seq<Use>
    decreases members, 0
  {
    if members == [] then []
    else
      var m := members[0];
      (if m.key == "$defs" then []
       else if m.key == "properties" && m.value.Object? then
         UsesInProperties(before, m.value.members, pointer, crossed)
       else Uses(before, m.value, pointer + "/" + m.key, crossed))
      + UsesInMembers(before, members[1..], pointer, crossed)
  }

  function UsesInProperties(before: Old, properties: seq<Member>, pointer: string, crossed: bool): seq<Use>
    decreases properties, 0
  {
    if properties == [] then []
    else
      var p := properties[0];
      Uses(before, p.value, pointer + "/properties/" + p.key, crossed || ImpossibleBefore(before, pointer, p.key))
      + UsesInProperties(before, properties[1..], pointer, crossed)
  }

  function UsesInItems(before: Old, items: seq<Json>, first: nat, pointer: string, crossed: bool): seq<Use>
    decreases items, 0
  {
    if items == [] then []
    else
      Uses(before, items[0], pointer + "/" + Decimal(first), crossed)
      + UsesInItems(before, items[1..], first + 1, pointer, crossed)
  }

  /** `current.get("$defs") or {}`. */
  function Defs(doc: Json): seq<Member> {
    if !doc.Object? then []
    else
      match Find(doc.members, "$defs")
      case Some(Object(members)) => members
      case _ => []
  }

  function DefNames(doc: Json): set<string> {
    set i | 0 <= i < |Defs(doc)| :: Defs(doc)[i].key
  }

  predicate IsDef(doc: Json, name: string) {
    match Find(Defs(doc), name)
    case Some(target) => target.Object?
    case None => false
  }

  function DefPointer(name: string): string {
    "/$defs/" + name
  }

  /** The references in the body of a def, reached with or without crossing. */
  function BodyUses(doc: Json, before: Old, name: string, crossed: bool): seq<Use>
    requires IsDef(doc, name)
  {
    Uses(before, Find(Defs(doc), name).value, DefPointer(name), crossed)
  }

  lemma {:induction false} FoundIsNamed(members: seq<Member>, name: string)
    requires Find(members, name).Some?
    ensures exists i :: 0 <= i < |members| && members[i].key == name
  {
    if members[0].key != name {
      FoundIsNamed(members[1..], name);
      var i :| 0 <= i < |members[1..]| && members[1..][i].key == name;
      assert members[i + 1].key == name;
    }
  }

  // ----- The search -----

  /** The arrivals of the search: every reference, and those of each def not yet on the way. */
  ghost function Arrivals(doc: Json, before: Old, uses: seq<Use>, seen: set<string>): set<Use>
    decreases DefNames(doc) - seen, |uses|
  {
    if uses == [] then {}
    else
      var u := uses[0];
      {u}
      + (if u.name !in seen && IsDef(doc, u.name) then
           assert DefNames(doc) - (seen + {u.name}) < DefNames(doc) - seen by {
             FoundIsNamed(Defs(doc), u.name);
             assert u.name in DefNames(doc) - seen;
           }
           Arrivals(doc, before, BodyUses(doc, before, u.name, u.crossed), seen + {u.name})
         else {})
      + Arrivals(doc, before, uses[1..], seen)
  }

  lemma {:induction false} ArrivalsAppend(doc: Json, before: Old, a: seq<Use>, b: seq<Use>, seen: set<string>)
    ensures Arrivals(doc, before, a + b, seen) == Arrivals(doc, before, a, seen) + Arrivals(doc, before, b, seen)
    decreases |a|
  {
    if a == [] {
      assert a + b == b;
    } else {
      assert (a + b)[1..] == a[1..] + b;
      ArrivalsAppend(doc, before, a[1..], b, seen);
    }
  }

  class Walker {
    const doc: Json
    const before: Old
    /** `(name, crossed)` for each arrival: the dict of sets, flattened. */
    var arrivals: set<Use>

    constructor (doc: Json, before: Old)
      ensures this.doc == doc && this.before == before && arrivals == {}
    {
      this.doc := doc;
      this.before := before;
      arrivals := {};
    }

    /** The nested `walk`, for one node. */
    method Walk(node: Json, pointer: string, crossed: bool, seen: set<string>)
      modifies this
      ensures arrivals == old(arrivals) + Arrivals(doc, before, Uses(before, node, pointer, crossed), seen)
      decreases DefNames(doc) - seen, node, 1
    {
      match node
      case Object(members) =>
        var ref := RefName(members);
        ghost var own := if ref.Some? then [Use(ref.value, crossed)] else [];
        ArrivalsAppend(doc, before, own, UsesInMembers(before, members, pointer, crossed), seen);
        if ref.Some? {
          arrivals := arrivals + {Use(ref.value, crossed)};
          if ref.value !in seen && IsDef(doc, ref.value) {
            FoundIsNamed(Defs(doc), ref.value);
            assert ref.value in DefNames(doc) - seen;
            Walk(Find(Defs(doc), ref.value).value, DefPointer(ref.value), crossed, seen + {ref.value});
          }
          assert own[1..] == [];
          assert Arrivals(doc, before, own[1..], seen) == {};
        }
        WalkMembers(members, pointer, crossed, seen);
      case Array(items) =>
        WalkItems(items, 0, pointer, crossed, seen);
      case _ =>
    }

    method WalkMembers(members: seq<Member>, pointer: string, crossed: bool, seen: set<string>)
      modifies this
      ensures arrivals == old(arrivals) + Arrivals(doc, before, UsesInMembers(before, members, pointer, crossed), seen)
      decreases DefNames(doc) - seen, members, 0
    {
      if members != [] {
        var m := members[0];
        ghost var first := if m.key == "$defs" then []
          else if m.key == "properties" && m.value.Object? then
            UsesInProperties(before, m.value.members, pointer, crossed)
          else Uses(before, m.value, pointer + "/" + m.key, crossed);
        ArrivalsAppend(doc, before, first, UsesInMembers(before, members[1..], pointer, crossed), seen);
        if m.key == "$defs" {
        } else if m.key == "properties" && m.value.Object? {
          WalkProperties(m.value.members, pointer, crossed, seen);
        } else {
          Walk(m.value, pointer + "/" + m.key, crossed, seen);
        }
        WalkMembers(members[1..], pointer, crossed, seen);
      }
    }

    method WalkProperties(properties: seq<Member>, pointer: string, crossed: bool, seen: set<string>)
      modifies this
      ensures arrivals == old(arrivals)
                          + Arrivals(doc, before, UsesInProperties(before, properties, pointer, crossed), seen)
      decreases DefNames(doc) - seen, properties, 0
    {
      if properties != [] {
        var p := properties[0];
        var isNew := crossed || ImpossibleBefore(before, pointer, p.key);
        ArrivalsAppend(doc, before, Uses(before, p.value, pointer + "/properties/" + p.key, isNew),
                       UsesInProperties(before, properties[1..], pointer, crossed), seen);
        Walk(p.value, pointer + "/properties/" + p.key, isNew, seen);
        WalkProperties(properties[1..], pointer, crossed, seen);
      }
    }

    method WalkItems(items: seq<Json>, first: nat, pointer: string, crossed: bool, seen: set<string>)
      modifies this
      ensures arrivals == old(arrivals)
                          + Arrivals(doc, before, UsesInItems(before, items, first, pointer, crossed), seen)
      decreases DefNames(doc) - seen, items, 0
    {
      if items != [] {
        ArrivalsAppend(doc, before, Uses(before, items[0], pointer + "/" + Decimal(first), crossed),
                       UsesInItems(before, items[1..], first + 1, pointer, crossed), seen);
        Walk(items[0], pointer + "/" + Decimal(first), crossed, seen);
        WalkItems(items[1..], first + 1, pointer, crossed, seen);
      }
    }
  }

  // ----- Reference chains -----

  /** From `d` to `e` without crossing: a reference in the body of `d`. */
  ghost predicate Link(doc: Json, before: Old, d: string, e: string) {
    IsDef(doc, d) && Use(e, false) in BodyUses(doc, before, d, false)
  }

  /** A chain of references, the first of them among `start`, none crossing a forbidden property. */
  ghost predicate OpenChain(doc: Json, before: Old, start: seq<Use>, c: seq<string>) {
    c != [] && Use(c[0], false) in start && forall i | 0 < i < |c| :: Link(doc, before, c[i - 1], c[i])
  }

  /** No def occurs twice before the end. */
  ghost predicate Simple(c: seq<string>) {
    forall i, j | 0 <= i < j < |c| - 1 :: c[i] != c[j]
  }

  /** Once a forbidden property is crossed, everything after it is crossed. */
  lemma {:induction false} CrossedUses(before: Old, node: Json, pointer: string)
    ensures forall u | u in Uses(before, node, pointer, true) :: u.crossed
    decreases node, 1
  {
    match node
    case Object(members) => CrossedInMembers(before, members, pointer);
    case Array(items) => CrossedInItems(before, items, 0, pointer);
    case _ =>
  }

  lemma {:induction false} CrossedInMembers(before: Old, members: seq<Member>, pointer: string)
    ensures forall u | u in UsesInMembers(before, members, pointer, true) :: u.crossed
    decreases members, 0
  {
    if members != [] {
      var m := members[0];
      if m.key == "properties" && m.value.Object? {
        CrossedInProperties(before, m.value.members, pointer);
      } else {
        CrossedUses(before, m.value, pointer + "/" + m.key);
      }
      CrossedInMembers(before, members[1..], pointer);
    }
  }

  lemma {:induction false} CrossedInProperties(before: Old, properties: seq<Member>, pointer: string)
    ensures forall u | u in UsesInProperties(before, properties, pointer, true) :: u.crossed
    decreases properties, 0
  {
    if properties != [] {
      CrossedUses(before, properties[0].value, pointer + "/properties/" + properties[0].key);
      CrossedInProperties(before, properties[1..], pointer);
    }
  }

  lemma {:induction false} CrossedInItems(before: Old, items: seq<Json>, first: nat, pointer: string)
    ensures forall u | u in UsesInItems(before, items, first, pointer, true) :: u.crossed
    decreases items, 0
  {
    if items != [] {
      CrossedUses(before, items[0], pointer + "/" + Decimal(first));
      CrossedInItems(before, items[1..], first + 1, pointer);
    }
  }

  lemma {:induction false} CrossedArrivals(doc: Json, before: Old, uses: seq<Use>, seen: set<string>)
    requires forall u | u in uses :: u.crossed
    ensures forall u | u in Arrivals(doc, before, uses, seen) :: u.crossed
    decreases DefNames(doc) - seen, |uses|
  {
    if uses != [] {
      var u := uses[0];
      if u.name !in seen && IsDef(doc, u.name) {
        FoundIsNamed(Defs(doc), u.name);
        assert u.name in DefNames(doc) - seen;
        CrossedUses(before, Find(Defs(doc), u.name).value, DefPointer(u.name));
        CrossedArrivals(doc, before, BodyUses(doc, before, u.name, true), seen + {u.name});
      }
      CrossedArrivals(doc, before, uses[1..], seen);
    }
  }

  /** An arrival without crossing has an open chain. */
  lemma {:induction false} ArrivalHasChain(doc: Json, before: Old, uses: seq<Use>, seen: set<string>, name: string)
    returns (c: seq<string>)
    requires Use(name, false) in Arrivals(doc, before, uses, seen)
    ensures OpenChain(doc, before, uses, c) && c[|c| - 1] == name
    decreases DefNames(doc) - seen, |uses|
  {
    var u := uses[0];
    if Use(name, false) == u {
      c := [name];
    } else if Use(name, false) in Arrivals(doc, before, uses[1..], seen) {
      c := ArrivalHasChain(doc, before, uses[1..], seen, name);
    } else {
      FoundIsNamed(Defs(doc), u.name);
      assert u.name in DefNames(doc) - seen;
      if u.crossed {
        CrossedUses(before, Find(Defs(doc), u.name).value, DefPointer(u.name));
        CrossedArrivals(doc, before, BodyUses(doc, before, u.name, true), seen + {u.name});
      }
      var rest := ArrivalHasChain(doc, before, BodyUses(doc, before, u.name, u.crossed), seen + {u.name}, name);
      c := [u.name] + rest;
      forall i | 0 < i < |c|
        ensures Link(doc, before, c[i - 1], c[i])
      {
        if i > 1 {
          assert Link(doc, before, rest[i - 2], rest[i - 1]);
        }
      }
    }
  }

  lemma {:induction false} UseArrives(doc: Json, before: Old, uses: seq<Use>, seen: set<string>, u: Use)
    requires u in uses
    ensures u in Arrivals(doc, before, uses, seen)
    ensures u.name !in seen && IsDef(doc, u.name) ==>
              Arrivals(doc, before, BodyUses(doc, before, u.name, u.crossed), seen + {u.name})
              <= Arrivals(doc, before, uses, seen)
    decreases |uses|
  {
    if uses[0] != u {
      UseArrives(doc, before, uses[1..], seen, u);
    }
  }

  /** The search follows every open chain that repeats no def before its end. */
  lemma {:induction false} SimpleChainArrives(doc: Json, before: Old, uses: seq<Use>, seen: set<string>, c: seq<string>)
    requires OpenChain(doc, before, uses, c) && Simple(c)
    requires forall i | 0 <= i < |c| - 1 :: c[i] !in seen
    ensures Use(c[|c| - 1], false) in Arrivals(doc, before, uses, seen)
    decreases |c|
  {
    UseArrives(doc, before, uses, seen, Use(c[0], false));
    if |c| > 1 {
      var rest := c[1..];
      assert Link(doc, before, c[0], c[1]);
      assert forall i | 0 < i < |rest| :: rest[i] == c[i + 1] && Link(doc, before, c[i], c[i + 1]);
      assert forall i | 0 <= i < |rest| - 1 :: rest[i] == c[i + 1] && c[0] != c[i + 1];
      SimpleChainArrives(doc, before, BodyUses(doc, before, c[0], false), seen + {c[0]}, rest);
    }
  }

  /** Cutting the loops out of an open chain leaves an open chain to the same def. */
  lemma {:induction false} LoopsCutOut(doc: Json, before: Old, uses: seq<Use>, c: seq<string>) returns (s: seq<string>)
    requires OpenChain(doc, before, uses, c)
    ensures OpenChain(doc, before, uses, s) && Simple(s) && s[|s| - 1] == c[|c| - 1]
    decreases |c|
  {
    if Simple(c) {
      s := c;
    } else {
      var i, j :| 0 <= i < j < |c| - 1 && c[i] == c[j];
      var shorter := c[..i + 1] + c[j + 1..];
      forall k | 0 < k < |shorter|
        ensures Link(doc, before, shorter[k - 1], shorter[k])
      {
        if k <= i {
          assert Link(doc, before, c[k - 1], c[k]);
        } else {
          assert Link(doc, before, c[j + (k - i) - 1], c[j + (k - i)]);
        }
      }
      s := LoopsCutOut(doc, before, uses, shorter);
    }
  }

  /** Some open chain from the root ends at `name`: an old artifact may reach it. */
  ghost predicate Reachable(doc: Json, before: Old, name: string) {
    exists c :: OpenChain(doc, before, Uses(before, doc, "", false), c) && c[|c| - 1] == name
  }

  /** A search that never re-enters a def already on the way loses no uncrossed arrival. */
  lemma ArrivesIffReachable(doc: Json, before: Old, name: string)
    ensures Use(name, false) in Arrivals(doc, before, Uses(before, doc, "", false), {}) <==>
              Reachable(doc, before, name)
  {
    var start := Uses(before, doc, "", false);
    if Use(name, false) in Arrivals(doc, before, start, {}) {
      var c := ArrivalHasChain(doc, before, start, {}, name);
    }
    if c :| OpenChain(doc, before, start, c) && c[|c| - 1] == name {
      var s := LoopsCutOut(doc, before, start, c);
      SimpleChainArrives(doc, before, start, {}, s);
    }
  }
}
