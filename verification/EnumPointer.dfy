/**
 JSON documents, the walk that finds enum sites in them, and the JSON Pointers that name the sites.
 */
module EnumPointer {
  import opened Wrappers
  import opened PyText

  /** A parsed document; `Object` keeps the order of a Python dict, whose keys are distinct. */
  datatype Json =
    | Null
    | Bool(flag: bool)
    | Number(number: int)
    | Text(text: string)
    | Array(items: seq<Json>)
    | Object(members: seq<Member>)

  datatype Member = Member(key: string, value: Json)

  function Find(members: seq<Member>, key: string): Option<Json> {
    if members == [] then None
    else if members[0].key == key then Some(members[0].value)
    else Find(members[1..], key)
  }

  predicate DistinctKeys(node: Json)
    decreases node, 1
  {
    match node
    case Object(members) =>
      (forall i, j | 0 <= i < j < |members| :: members[i].key != members[j].key)
      && DistinctInMembers(members)
    case Array(items) => forall i | 0 <= i < |items| :: DistinctKeys(items[i])
    case _ => true
  }

  predicate DistinctInMembers(members: seq<Member>)
    decreases members, 0
  {
    members == [] || (DistinctKeys(members[0].value) && DistinctInMembers(members[1..]))
  }

  // ----- Segments -----

  /** `_escape` (section 3 of RFC 6901): first every `~`, then every `/`. */
  function Escape(segment: string): string {
    Replace(Replace(segment, "~", "~0"), "/", "~1")
  }

  /** `_unescape` (section 4 of RFC 6901): first every `~1`, then every `~0`. */
  function Unescape(segment: string): string {
    Replace(Replace(segment, "~1", "/"), "~0", "~")
  }

  /** The first escaping pass alone. */
  function EscapeTildes(segment: string): string {
    Replace(segment, "~", "~0")
  }

  lemma ReplaceCharStep(c: char, rest: string, needle: char, insert: string)
    ensures Replace([c] + rest, [needle], insert)
            == (if c == needle then insert else [c]) + Replace(rest, [needle], insert)
  {
    assert ([c] + rest)[..1] == [c] && ([c] + rest)[1..] == rest;
  }

  lemma ReplaceTwoStep(a: char, b: char, rest: string, x: char, y: char, insert: string)
    requires x != y
    ensures a == x && b == y ==> Replace([a, b] + rest, [x, y], insert) == insert + Replace(rest, [x, y], insert)
    ensures a == x && b != y && b != x ==>
              Replace([a, b] + rest, [x, y], insert) == [a, b] + Replace(rest, [x, y], insert)
  {
    if a == x && b == y {
      ReplaceHit(x, y, rest, insert);
    }
    if a == x && b != y && b != x {
      ReplaceOtherStep(b, rest, x, y, insert);
      ReplaceMiss(a, b, rest, x, y, insert);
      assert [a] + ([b] + Replace(rest, [x, y], insert)) == [a, b] + Replace(rest, [x, y], insert);
    }
  }

  lemma ReplaceHit(x: char, y: char, rest: string, insert: string)
    ensures Replace([x, y] + rest, [x, y], insert) == insert + Replace(rest, [x, y], insert)
  {
    var s := [x, y] + rest;
    assert s[..2] == [x, y] && s[2..] == rest;
  }

  lemma ReplaceMiss(a: char, b: char, rest: string, x: char, y: char, insert: string)
    requires b != y
    ensures Replace([a, b] + rest, [x, y], insert) == [a] + Replace([b] + rest, [x, y], insert)
  {
    var s := [a, b] + rest;
    assert s[..2][1] == b && s[1..] == [b] + rest;
  }

  lemma ReplaceOtherStep(c: char, rest: string, x: char, y: char, insert: string)
    requires c != x
    ensures Replace([c] + rest, [x, y], insert) == [c] + Replace(rest, [x, y], insert)
  {
    var s := [c] + rest;
    assert s[1..] == rest;
    if |s| >= 2 {
      assert s[..2][0] == c;
    }
  }

  /** The second escaping pass is undone by the first unescaping pass. */
  lemma {:induction false} SlashesUndone(x: string)
    ensures Replace(Escape(x), "~1", "/") == EscapeTildes(x)
  {
    if x != [] {
      var c, rest := x[0], x[1..];
      assert x == [c] + rest;
      ReplaceCharStep(c, rest, '~', "~0");
      SlashesUndone(rest);
      var tail := Escape(rest);
      if c == '~' {
        var mid := EscapeTildes(rest);
        assert "~0" + mid == ['~'] + (['0'] + mid);
        ReplaceCharStep('~', ['0'] + mid, '/', "~1");
        ReplaceCharStep('0', mid, '/', "~1");
        assert Escape(x) == ['~', '0'] + tail;
        ReplaceTwoStep('~', '0', tail, '~', '1', "/");
      } else if c == '/' {
        ReplaceCharStep('/', EscapeTildes(rest), '/', "~1");
        assert Escape(x) == ['~', '1'] + tail;
        ReplaceTwoStep('~', '1', tail, '~', '1', "/");
      } else {
        ReplaceCharStep(c, EscapeTildes(rest), '/', "~1");
        assert Escape(x) == [c] + tail;
        ReplaceOtherStep(c, tail, '~', '1', "/");
      }
    }
  }

  lemma {:induction false} TildesUndone(x: string)
    ensures Replace(EscapeTildes(x), "~0", "~") == x
  {
    if x != [] {
      var c, rest := x[0], x[1..];
      assert x == [c] + rest;
      ReplaceCharStep(c, rest, '~', "~0");
      TildesUndone(rest);
      if c == '~' {
        ReplaceTwoStep('~', '0', EscapeTildes(rest), '~', '0', "~");
      } else {
        ReplaceOtherStep(c, EscapeTildes(rest), '~', '0', "~");
      }
    }
  }

  /** Escaping loses nothing, on every string. */
  lemma UnescapeInverse(x: string)
    ensures Unescape(Escape(x)) == x
  {
    SlashesUndone(x);
    TildesUndone(x);
  }

  lemma {:induction false} EscapedHasNoSlash(x: string)
    ensures '/' !in Escape(x) && (Escape(x) == "" <==> x == "")
  {
    if x != [] {
      NoSlashAfterReplace(EscapeTildes(x));
      assert x == [x[0]] + x[1..];
      ReplaceCharStep(x[0], x[1..], '~', "~0");
      var mid := EscapeTildes(x);
      assert mid == [mid[0]] + mid[1..];
      ReplaceCharStep(mid[0], mid[1..], '/', "~1");
    }
  }

  lemma {:induction false} NoSlashAfterReplace(x: string)
    ensures '/' !in Replace(x, "/", "~1")
  {
    if x != [] {
      assert x == [x[0]] + x[1..];
      ReplaceCharStep(x[0], x[1..], '/', "~1");
      NoSlashAfterReplace(x[1..]);
    }
  }

  // ----- Paths, their pointers, and following them -----

  datatype Step = Key(key: string) | Item(index: nat)

  function At(node: Json, path: seq<Step>): Option<Json>
    decreases |path|
  {
    if path == [] then Some(node)
    else
      match path[0]
      case Key(k) =>
        if !node.Object? then None
        else
          (match Find(node.members, k)
           case None => None
           case Some(child) => At(child, path[1..]))
      case Item(i) =>
        if !node.Array? || i >= |node.items| then None else At(node.items[i], path[1..])
  }

  function Segment(step: Step): string {
    match step
    case Key(k) => Escape(k)
    case Item(i) => Decimal(i)
  }

  function Pointer(path: seq<Step>): string {
    if path == [] then "" else "/" + Segment(path[0]) + Pointer(path[1..])
  }

  predicate CrossesIf(path: seq<Step>) {
    Key("if") in path
  }

  /** One segment of `resolve`: a key of a dict, or an index of a list. */
  function Enter(node: Json, segment: string): Option<Json> {
    if node.Object? && Find(node.members, segment).Some? then Find(node.members, segment)
    else if node.Array? && IsDecimal(segment) && ParseDecimal(segment) < |node.items| then
      Some(node.items[ParseDecimal(segment)])
    else None
  }

  function Follow(node: Json, segments: seq<string>): Option<Json>
    decreases |segments|
  {
    if segments == [] then Some(node)
    else
      match Enter(node, Unescape(segments[0]))
      case None => None
      case Some(child) => Follow(child, segments[1..])
  }

  function NonEmpty(parts: seq<string>): seq<string> {
    if parts == [] then []
    else (if parts[0] == "" then [] else [parts[0]]) + NonEmpty(parts[1..])
  }

  /** `resolve`, as a function of its arguments. */
  function Resolved(schemas: map<string, Json>, ref: string, base: string): Option<(string, Json)> {
    var (filePart, fragment) := Partition(ref, '#');
    var target := if filePart == "" then base else filePart;
    if target !in schemas then None
    else
      match Follow(schemas[target], NonEmpty(Split(fragment, '/')))
      case None => None
      case Some(node) => Some((target, node))
  }

  /** `resolve`: one step into the document per non-empty segment. */
  method Resolve(schemas: map<string, Json>, ref: string, base: string) returns (hit: Option<(string, Json)>)
    ensures hit == Resolved(schemas, ref, base)
  {
    var (filePart, fragment) := Partition(ref, '#');
    var target := if filePart == "" then base else filePart;
    if target !in schemas {
      return None;
    }
    var node := schemas[target];
    var parts := Split(fragment, '/');
    for i := 0 to |parts|
      invariant Follow(schemas[target], NonEmpty(parts)) == Follow(node, NonEmpty(parts[i..]))
    {
      assert parts[i..][0] == parts[i] && parts[i..][1..] == parts[i + 1..];
      if parts[i] != "" {
        var segment := Unescape(parts[i]);
        assert NonEmpty(parts[i..])[1..] == NonEmpty(parts[i + 1..]);
        if node.Object? && Find(node.members, segment).Some? {
          node := Find(node.members, segment).value;
        } else if node.Array? && IsDecimal(segment) && ParseDecimal(segment) < |node.items| {
          node := node.items[ParseDecimal(segment)];
        } else {
          return None;
        }
      } else {
        assert NonEmpty(parts[i..]) == NonEmpty(parts[i + 1..]);
      }
    }
    return Some((target, node));
  }

  // ----- Printing a path and resolving it again -----

  function Segments(path: seq<Step>): seq<string> {
    if path == [] then [] else [Segment(path[0])] + Segments(path[1..])
  }

  lemma DecimalIsPlain(n: nat)
    ensures '/' !in Decimal(n) && Decimal(n) != "" && Unescape(Decimal(n)) == Decimal(n)
  {
    ParseDecimalInverse(n);
    NoTildes(Decimal(n));
    NoEscapes(Decimal(n));
  }

  lemma {:induction false} NoEscapes(s: string)
    requires '~' !in s
    ensures Unescape(s) == s
  {
    if s != [] {
      assert s == [s[0]] + s[1..];
      ReplaceOtherStep(s[0], s[1..], '~', '1', "/");
      NoEscapes(s[1..]);
      var mid := Replace(s[1..], "~1", "/");
      ReplaceOtherStep(s[0], mid, '~', '0', "~");
    }
  }

  lemma NoTildes(s: string)
    requires IsDecimal(s)
    ensures '~' !in s && '/' !in s
  {
  }

  lemma SegmentHasNoSlash(step: Step)
    ensures '/' !in Segment(step)
  {
    if step.Key? {
      EscapedHasNoSlash(step.key);
    } else {
      DecimalIsPlain(step.index);
    }
  }

  lemma {:induction false} PointerSplits(path: seq<Step>)
    requires path != []
    ensures Split(Segment(path[0]) + Pointer(path[1..]), '/') == Segments(path)
  {
    var segment := Segment(path[0]);
    SegmentHasNoSlash(path[0]);
    if |path| == 1 {
      assert segment + Pointer(path[1..]) == segment;
      SplitWhole(segment, '/');
    } else {
      PointerSplits(path[1..]);
      var next := Segment(path[1]) + Pointer(path[1..][1..]);
      assert segment + Pointer(path[1..]) == segment + ['/'] + next;
      SplitAppend(segment, '/', next);
    }
  }

  lemma LeadingEmptyPart(parts: seq<string>)
    ensures NonEmpty([""] + parts) == NonEmpty(parts)
  {
    assert ([""] + parts)[1..] == parts;
  }

  lemma PointerParts(path: seq<Step>)
    ensures NonEmpty(Split(Pointer(path), '/')) == NonEmpty(Segments(path))
  {
    if path != [] {
      PointerSplits(path);
      var body := Segment(path[0]) + Pointer(path[1..]);
      SplitAppend("", '/', body);
      assert Pointer(path) == "" + ['/'] + body;
      LeadingEmptyPart(Segments(path));
    } else {
      LeadingEmptyPart([]);
    }
  }

  lemma RefPartitions(name: string, pointer: string)
    requires '#' !in name
    ensures Partition(name + "#" + pointer, '#') == (name, pointer)
  {
    PartitionAppend(name, '#', pointer);
    assert name + "#" + pointer == name + ['#'] + pointer;
  }

  /** What a printed reference resolves to: the path with its empty keys left out. */
  lemma PrintedRefResolves(schemas: map<string, Json>, name: string, path: seq<Step>, base: string)
    requires name in schemas && name != "" && '#' !in name
    ensures Resolved(schemas, name + "#" + Pointer(path), base) ==
            match Follow(schemas[name], NonEmpty(Segments(path)))
            case None => None
            case Some(node) => Some((name, node))
  {
    RefPartitions(name, Pointer(path));
    PointerParts(path);
  }

  lemma {:induction false} FollowIsAt(node: Json, path: seq<Step>)
    requires Key("") !in path && At(node, path).Some?
    ensures Follow(node, NonEmpty(Segments(path))) == At(node, path)
    decreases |path|
  {
    if path != [] {
      var rest := Segments(path[1..]);
      if path[0].Key? {
        EscapedHasNoSlash(path[0].key);
        UnescapeInverse(path[0].key);
        FollowIsAt(Find(node.members, path[0].key).value, path[1..]);
      } else {
        DecimalIsPlain(path[0].index);
        ParseDecimalInverse(path[0].index);
        FollowIsAt(node.items[path[0].index], path[1..]);
      }
      assert NonEmpty(Segments(path)) == [Segment(path[0])] + NonEmpty(rest);
    }
  }

  // ----- The walk -----

  datatype Visit = Visit(node: Json, pointer: string, inIf: bool)

  /** `_walk`: every object, outermost first, with its pointer and whether an `if` is above it. */
  function Walk(node: Json, pointer: string, inIf: bool): seq<Visit>
    decreases node, 1
  {
    match node
    case Object(members) => [Visit(node, pointer, inIf)] + WalkMembers(members, pointer, inIf)
    case Array(items) => WalkItems(items, 0, pointer, inIf)
    case _ => []
  }

  function WalkMembers(members: seq<Member>, pointer: string, inIf: bool): seq<Visit>
    decreases members, 0
  {
    if members == [] then []
    else
      Walk(members[0].value, pointer + "/" + Escape(members[0].key), inIf || members[0].key == "if")
      + WalkMembers(members[1..], pointer, inIf)
  }

  function WalkItems(items: seq<Json>, first: nat, pointer: string, inIf: bool): seq<Visit>
    decreases items, 0
  {
    if items == [] then []
    else
      Walk(items[0], pointer + "/" + Decimal(first), inIf)
      + WalkItems(items[1..], first + 1, pointer, inIf)
  }

  /** The visit describes the object at `path` below the start of the walk. */
  ghost predicate VisitAt(v: Visit, node: Json, pointer: string, inIf: bool, path: seq<Step>) {
    && At(node, path) == Some(v.node)
    && v.pointer == pointer + Pointer(path)
    && v.inIf == (inIf || CrossesIf(path))
  }

  lemma {:induction false} VisitHasPath(node: Json, pointer: string, inIf: bool, k: nat) returns (path: seq<Step>)
    requires DistinctKeys(node) && k < |Walk(node, pointer, inIf)|
    ensures VisitAt(Walk(node, pointer, inIf)[k], node, pointer, inIf, path)
    decreases node, 1
  {
    match node
    case Object(members) =>
      if k == 0 {
        path := [];
      } else {
        var i, rest := MemberVisitHasPath(members, pointer, inIf, k - 1);
        FindMember(members, i);
        path := [Key(members[i].key)] + rest;
        PathStep(node, pointer, inIf, Walk(node, pointer, inIf)[k], members[i].value, path);
      }
    case Array(items) =>
      var i, rest := ItemVisitHasPath(items, 0, pointer, inIf, k);
      path := [Item(i)] + rest;
      PathStep(node, pointer, inIf, Walk(node, pointer, inIf)[k], items[i], path);
    case _ =>
      path := [];
  }

  lemma AtStep(node: Json, path: seq<Step>, child: Json)
    requires path != [] && At(node, [path[0]]) == Some(child)
    ensures At(node, path) == At(child, path[1..])
  {
    assert [path[0]][1..] == [];
  }

  lemma PointerStep(start: string, path: seq<Step>)
    requires path != []
    ensures start + Pointer(path) == start + "/" + Segment(path[0]) + Pointer(path[1..])
  {
    Regroup(start, "/", Segment(path[0]), Pointer(path[1..]));
  }

  lemma Regroup(a: string, b: string, c: string, d: string)
    ensures a + (b + c + d) == a + b + c + d
  {
  }

  lemma CrossesStep(path: seq<Step>)
    requires path != []
    ensures CrossesIf(path) <==> path[0] == Key("if") || CrossesIf(path[1..])
  {
    assert path == [path[0]] + path[1..];
  }

  /** One more step in front of a path. */
  lemma PathStep(node: Json, pointer: string, inIf: bool, v: Visit, child: Json, path: seq<Step>)
    requires path != [] && At(node, [path[0]]) == Some(child)
    requires VisitAt(v, child, pointer + "/" + Segment(path[0]), inIf || path[0] == Key("if"), path[1..])
    ensures VisitAt(v, node, pointer, inIf, path)
  {
    AtStep(node, path, child);
    PointerStep(pointer, path);
    CrossesStep(path);
  }

  lemma {:induction false} FindMember(members: seq<Member>, i: nat)
    requires i < |members| && forall a, b | 0 <= a < b < |members| :: members[a].key != members[b].key
    ensures Find(members, members[i].key) == Some(members[i].value)
  {
    if i > 0 {
      FindMember(members[1..], i - 1);
    }
  }

  lemma {:induction false} MemberVisitHasPath(members: seq<Member>, pointer: string, inIf: bool, k: nat)
    returns (i: nat, path: seq<Step>)
    requires DistinctInMembers(members) && k < |WalkMembers(members, pointer, inIf)|
    ensures i < |members|
    ensures VisitAt(WalkMembers(members, pointer, inIf)[k], members[i].value,
                    pointer + "/" + Escape(members[i].key), inIf || members[i].key == "if", path)
    decreases members, 0
  {
    var n := |Walk(members[0].value, pointer + "/" + Escape(members[0].key), inIf || members[0].key == "if")|;
    if k < n {
      i := 0;
      path := VisitHasPath(members[0].value, pointer + "/" + Escape(members[0].key), inIf || members[0].key == "if", k);
    } else {
      var j;
      j, path := MemberVisitHasPath(members[1..], pointer, inIf, k - n);
      i := j + 1;
    }
  }

  lemma {:induction false} ItemVisitHasPath(items: seq<Json>, first: nat, pointer: string, inIf: bool, k: nat)
    returns (i: nat, path: seq<Step>)
    requires (forall j | 0 <= j < |items| :: DistinctKeys(items[j])) && k < |WalkItems(items, first, pointer, inIf)|
    ensures i < |items|
    ensures VisitAt(WalkItems(items, first, pointer, inIf)[k], items[i],
                    pointer + "/" + Decimal(first + i), inIf, path)
    decreases items, 0
  {
    var n := |Walk(items[0], pointer + "/" + Decimal(first), inIf)|;
    if k < n {
      i := 0;
      path := VisitHasPath(items[0], pointer + "/" + Decimal(first), inIf, k);
    } else {
      var j;
      j, path := ItemVisitHasPath(items[1..], first + 1, pointer, inIf, k - n);
      i := j + 1;
    }
  }

  /** Every object of the document is visited. */
  lemma {:induction false} PathIsVisited(node: Json, pointer: string, inIf: bool, path: seq<Step>)
    requires At(node, path).Some? && At(node, path).value.Object?
    ensures Visit(At(node, path).value, pointer + Pointer(path), inIf || CrossesIf(path))
            in Walk(node, pointer, inIf)
    decreases |path|
  {
    var v := Visit(At(node, path).value, pointer + Pointer(path), inIf || CrossesIf(path));
    if path == [] {
      assert Walk(node, pointer, inIf)[0] == v;
    } else {
      var segment := pointer + "/" + Segment(path[0]);
      PointerStep(pointer, path);
      CrossesStep(path);
      match path[0]
      case Key(k) =>
        PathIsVisited(Find(node.members, k).value, segment, inIf || k == "if", path[1..]);
        MemberIsWalked(node.members, pointer, inIf, k, v);
      case Item(i) =>
        PathIsVisited(node.items[i], segment, inIf, path[1..]);
        ItemIsWalked(node.items, 0, pointer, inIf, i, v);
    }
  }

  lemma {:induction false} MemberIsWalked(members: seq<Member>, pointer: string, inIf: bool, key: string, v: Visit)
    requires Find(members, key).Some?
    requires v in Walk(Find(members, key).value, pointer + "/" + Escape(key), inIf || key == "if")
    ensures v in WalkMembers(members, pointer, inIf)
  {
    if members[0].key != key {
      MemberIsWalked(members[1..], pointer, inIf, key, v);
    }
  }

  lemma {:induction false} ItemIsWalked(items: seq<Json>, first: nat, pointer: string, inIf: bool, i: nat, v: Visit)
    requires i < |items| && v in Walk(items[i], pointer + "/" + Decimal(first + i), inIf)
    ensures v in WalkItems(items, first, pointer, inIf)
  {
    if i > 0 {
      ItemIsWalked(items[1..], first + 1, pointer, inIf, i - 1, v);
    }
  }

  // ----- Sites -----

  datatype Site = Site(schema: string, pointer: string, values: set<string>)

  function Ref(site: Site): string {
    site.schema + "#" + site.pointer
  }

  function Strings(items: seq<Json>): seq<string> {
    if items == [] then []
    else (if items[0].Text? then [items[0].text] else []) + Strings(items[1..])
  }

  /** `_string_values`: two or more strings, and otherwise only nulls. */
  function StringValues(node: Json): Option<set<string>> {
    if !node.Object? then None
    else
      match Find(node.members, "enum")
      case Some(Array(raw)) =>
        if |Strings(raw)| < 2 || exists i | 0 <= i < |raw| :: !raw[i].Null? && !raw[i].Text? then None
        else Some(set s | s in Strings(raw))
      case _ => None
  }

  /** The member that `node["key"]` reads: the first of that key, and the only one where keys are distinct. */
  ghost predicate Reads(members: seq<Member>, key: string, value: Json) {
    exists i :: 0 <= i < |members| && members[i] == Member(key, value) && forall k | 0 <= k < i :: members[k].key != key
  }

  lemma {:induction false} FindReads(members: seq<Member>, key: string)
    ensures Find(members, key).Some? ==> Reads(members, key, Find(members, key).value)
    ensures Find(members, key).None? <==> forall i | 0 <= i < |members| :: members[i].key != key
    ensures forall value | Reads(members, key, value) :: Find(members, key) == Some(value)
  {
    if members != [] {
      var rest := members[1..];
      FindReads(rest, key);
      assert forall i | 0 < i < |members| :: members[i] == rest[i - 1];
      if members[0].key != key && Find(rest, key).Some? {
        var i :| 0 <= i < |rest| && rest[i] == Member(key, Find(rest, key).value)
          && forall k | 0 <= k < i :: rest[k].key != key;
        assert members[i + 1] == rest[i];
      }
      forall value | Reads(members, key, value)
        ensures Find(members, key) == Some(value)
      {
        ReadsLater(members, key, value);
      }
    }
  }

  lemma ReadsLater(members: seq<Member>, key: string, value: Json)
    requires Reads(members, key, value)
    ensures if members[0].key == key then members[0].value == value else Reads(members[1..], key, value)
  {
    var i :| 0 <= i < |members| && members[i] == Member(key, value) && forall k | 0 <= k < i :: members[k].key != key;
    if i > 0 {
      assert members[1..][i - 1] == members[i];
      assert forall k | 0 <= k < i - 1 :: members[1..][k] == members[k + 1];
    }
  }

  /** The node has an enum of texts and nulls, two texts or more, and these are the texts. */
  ghost predicate HasEnum(node: Json, values: set<string>) {
    node.Object? && exists raw: seq<Json> ::
      && Reads(node.members, "enum", Array(raw))
      && (forall i | 0 <= i < |raw| :: raw[i].Text? || raw[i].Null?)
      && (exists i, j :: 0 <= i < j < |raw| && raw[i].Text? && raw[j].Text?)
      && (forall s :: s in values <==> Text(s) in raw)
  }

  lemma {:induction false} StringsAre(items: seq<Json>)
    ensures forall s :: s in Strings(items) <==> Text(s) in items
    ensures |Strings(items)| >= 1 <==> exists i :: 0 <= i < |items| && items[i].Text?
    ensures |Strings(items)| >= 2 <==> exists i, j :: 0 <= i < j < |items| && items[i].Text? && items[j].Text?
  {
    if items != [] {
      StringsAre(items[1..]);
      assert items == [items[0]] + items[1..];
      TextsLater(items);
    }
  }

  lemma TextsLater(items: seq<Json>)
    requires items != []
    ensures var rest := items[1..];
            && ((exists i :: 0 <= i < |items| && items[i].Text?)
                <==> items[0].Text? || exists i :: 0 <= i < |rest| && rest[i].Text?)
            && ((exists i, j :: 0 <= i < j < |items| && items[i].Text? && items[j].Text?)
                <==> || (items[0].Text? && exists i :: 0 <= i < |rest| && rest[i].Text?)
                     || exists i, j :: 0 <= i < j < |rest| && rest[i].Text? && rest[j].Text?)
  {
    var rest := items[1..];
    assert forall i | 0 <= i < |rest| :: rest[i] == items[i + 1];
    if i, j :| 0 <= i < j < |items| && items[i].Text? && items[j].Text? {
      assert rest[j - 1] == items[j];
      assert i > 0 ==> rest[i - 1] == items[i];
    }
    if i :| 0 <= i < |items| && items[i].Text? {
      assert i > 0 ==> rest[i - 1] == items[i];
    }
    if i, j :| 0 <= i < j < |rest| && rest[i].Text? && rest[j].Text? {
      assert items[i + 1] == rest[i] && items[j + 1] == rest[j];
    }
    if i :| 0 <= i < |rest| && rest[i].Text? {
      assert items[i + 1] == rest[i];
    }
  }

  /** What `_string_values` returns, told of the entries themselves. */
  lemma StringValuesAre(node: Json, values: set<string>)
    ensures StringValues(node) == Some(values) <==> HasEnum(node, values)
  {
    if node.Object? {
      FindReads(node.members, "enum");
      match Find(node.members, "enum")
      case Some(Array(raw)) =>
        StringsAre(raw);
        assert Reads(node.members, "enum", Array(raw));
        assert values == (set s | s in Strings(raw)) <==> forall s :: s in values <==> Text(s) in raw;
      case _ =>
    }
  }

  function SitesIn(name: string, visits: seq<Visit>): seq<Site> {
    if visits == [] then []
    else
      var v, init := visits[|visits| - 1], SitesIn(name, visits[..|visits| - 1]);
      var values := StringValues(v.node);
      if values.Some? && !v.inIf then init + [Site(name, v.pointer, values.value)] else init
  }

  function SitesInAll(schemas: map<string, Json>, names: seq<string>): seq<Site>
    requires forall i | 0 <= i < |names| :: names[i] in schemas
  {
    if names == [] then []
    else
      var init, last := names[..|names| - 1], names[|names| - 1];
      SitesInAll(schemas, init) + SitesIn(last, Walk(schemas[last], "", false))
  }

  /** `iter_sites`: `names` are the keys of `schemas` in dict order. */
  method IterSites(schemas: map<string, Json>, names: seq<string>) returns (sites: seq<Site>)
    requires forall i | 0 <= i < |names| :: names[i] in schemas
    ensures sites == SitesInAll(schemas, names)
  {
    sites := [];
    for i := 0 to |names|
      invariant sites == SitesInAll(schemas, names[..i])
    {
      assert names[..i + 1][..i] == names[..i];
      var found := SitesOfFile(names[i], schemas[names[i]]);
      sites := sites + found;
    }
    assert names[..|names|] == names;
  }

  /** The sites of all files are those of each. */
  lemma {:induction false} SitesInAllMembers(schemas: map<string, Json>, names: seq<string>, site: Site)
    requires forall i | 0 <= i < |names| :: names[i] in schemas
    ensures site in SitesInAll(schemas, names) <==>
              site.schema in names && site in SitesIn(site.schema, Walk(schemas[site.schema], "", false))
  {
    if names != [] {
      var init, last := names[..|names| - 1], names[|names| - 1];
      SitesInAllMembers(schemas, init, site);
      assert names == init + [last];
      if site in SitesIn(last, Walk(schemas[last], "", false)) {
        var k := SiteHasVisit(last, Walk(schemas[last], "", false), site);
      }
    }
  }

  /** The loop of `iter_sites` over one schema file. */
  method SitesOfFile(name: string, schema: Json) returns (sites: seq<Site>)
    ensures sites == SitesIn(name, Walk(schema, "", false))
  {
    sites := [];
    var visits := Walk(schema, "", false);
    for i := 0 to |visits|
      invariant sites == SitesIn(name, visits[..i])
    {
      assert visits[..i + 1][..i] == visits[..i];
      var values := StringValues(visits[i].node);
      if values.Some? && !visits[i].inIf {
        sites := sites + [Site(name, visits[i].pointer, values.value)];
      }
    }
    assert visits[..|visits|] == visits;
  }

  lemma {:induction false} SiteHasVisit(name: string, visits: seq<Visit>, site: Site) returns (k: nat)
    requires site in SitesIn(name, visits)
    ensures k < |visits| && !visits[k].inIf
    ensures StringValues(visits[k].node) == Some(site.values)
    ensures site == Site(name, visits[k].pointer, site.values)
  {
    var last := visits[|visits| - 1];
    if site in SitesIn(name, visits[..|visits| - 1]) {
      k := SiteHasVisit(name, visits[..|visits| - 1], site);
    } else {
      k := |visits| - 1;
    }
  }

  lemma {:induction false} VisitMakesSite(name: string, visits: seq<Visit>, v: Visit)
    requires v in visits && !v.inIf && StringValues(v.node).Some?
    ensures Site(name, v.pointer, StringValues(v.node).value) in SitesIn(name, visits)
  {
    if v != visits[|visits| - 1] {
      assert v in visits[..|visits| - 1];
      VisitMakesSite(name, visits[..|visits| - 1], v);
    }
  }

  /**
   The sites are exactly the enum nodes outside every `if`, and the reference printed for a site
   whose path has no empty key resolves, from any base, to that very node and its value set.
   */
  lemma SiteRefResolvesBack(schemas: map<string, Json>, name: string, site: Site, base: string)
    requires name in schemas && name != "" && '#' !in name && DistinctKeys(schemas[name])
    requires site in SitesIn(name, Walk(schemas[name], "", false))
    ensures exists path ::
              && At(schemas[name], path).Some? && site.pointer == Pointer(path) && !CrossesIf(path)
              && HasEnum(At(schemas[name], path).value, site.values)
              && (Key("") !in path ==>
                    Resolved(schemas, Ref(site), base) == Some((name, At(schemas[name], path).value)))
  {
    var k := SiteHasVisit(name, Walk(schemas[name], "", false), site);
    var path := VisitHasPath(schemas[name], "", false, k);
    assert "" + Pointer(path) == Pointer(path);
    PrintedRefResolves(schemas, name, path, base);
    StringValuesAre(At(schemas[name], path).value, site.values);
    if Key("") !in path {
      FollowIsAt(schemas[name], path);
    }
  }

  lemma EverySiteIsFound(name: string, schema: Json, path: seq<Step>, values: set<string>)
    requires At(schema, path).Some? && HasEnum(At(schema, path).value, values) && !CrossesIf(path)
    ensures Site(name, Pointer(path), values) in SitesIn(name, Walk(schema, "", false))
  {
    StringValuesAre(At(schema, path).value, values);
    PathIsVisited(schema, "", false, path);
    assert "" + Pointer(path) == Pointer(path);
    VisitMakesSite(name, Walk(schema, "", false), Visit(At(schema, path).value, Pointer(path), false));
  }

  /** With an empty key on the path, the printed reference names another node. */
  lemma EmptyKeyWitness()
    ensures var inner := Object([Member("x", Null)]);
            var doc := Object([Member("", inner)]);
            && At(doc, [Key("")]) == Some(inner)
            && Resolved(map["a" := doc], "a" + "#" + Pointer([Key("")]), "") == Some(("a", doc))
            && doc != inner
  {
    var inner := Object([Member("x", Null)]);
    var doc := Object([Member("", inner)]);
    var path := [Key("")];
    assert Escape("") == "";
    assert Segments(path) == [""];
    assert NonEmpty([""]) == [];
    PrintedRefResolves(map["a" := doc], "a", path, "");
    assert Find(doc.members, "") == Some(inner);
  }
}
