/**
 The compatibility gate's exemption for requirements new in a branch of an `anyOf`: given only where the
 `anyOf` can reject no artifact that met the old schema's own requirements.
 */
module AnyOfExemption {
  import opened Wrappers
  import opened PyText
  import opened EnumPointer
  import opened RawPointer

  /** What Python raises: an index past the end or in digits that are no number, or a bad `required`. */
  datatype Error = IndexOut | NotANumber | NotStrings

  /** What `isdigit` accepts, superscripts included, and the numerals `int` can read. */
  datatype Script = Script(numerals: Numerals, isDigit: char -> bool)

  ghost predicate Sensible(t: Script) {
    forall c: char :: (IsNumeral(t.numerals, c) ==> t.isDigit(c)) && (c < '\U{80}' ==> t.isDigit(c) == IsDigit(c))
  }

  /** `segment.isdigit()`. */
  predicate AllDigits(t: Script, segment: string) {
    segment != [] && forall i | 0 <= i < |segment| :: t.isDigit(segment[i])
  }

  /** `node[int(segment)]`. */
  function ItemAt(t: Script, items: seq<Json>, segment: string): Result<Json, Error> {
    if !IsNumber(t.numerals, segment) then Err(NotANumber)
    else if ParseNumber(t.numerals, segment) >= |items| then Err(IndexOut)
    else Ok(items[ParseNumber(t.numerals, segment)])
  }

  /** `pointer.strip("/")`. */
  function StripSlashes(s: string): string
    decreases |s|
  {
    if s != [] && s[0] == '/' then StripSlashes(s[1..])
    else if s != [] && s[|s| - 1] == '/' then StripSlashes(s[..|s| - 1])
    else s
  }

  /** The nested `resolve`: no unescaping, and a list index is not checked. */
  function Descended(t: Script, node: Json, segments: seq<string>): Result<Option<Json>, Error>
    decreases |segments|
  {
    if segments == [] then Ok(Some(node))
    else if node.Array? && AllDigits(t, segments[0]) then
      var item :- ItemAt(t, node.items, segments[0]);
      Descended(t, item, segments[1..])
    else if node.Object? && Find(node.members, segments[0]).Some? then
      Descended(t, Find(node.members, segments[0]).value, segments[1..])
    else Ok(None)
  }

  method Descend(t: Script, schema: Json, segments: seq<string>) returns (r: Result<Option<Json>, Error>)
    ensures r == Descended(t, schema, segments)
  {
    var node := schema;
    for i := 0 to |segments|
      invariant Descended(t, schema, segments) == Descended(t, node, segments[i..])
    {
      var segment := segments[i];
      assert segments[i..][0] == segment && segments[i..][1..] == segments[i + 1..];
      if node.Array? && AllDigits(t, segment) {
        var item := ItemAt(t, node.items, segment);
        if item.Err? {
          return Err(item.error);
        }
        node := item.value;
      } else if node.Object? && Find(node.members, segment).Some? {
        node := Find(node.members, segment).value;
      } else {
        return Ok(None);
      }
    }
    assert segments[|segments|..] == [];
    return Ok(Some(node));
  }

  /** On paths of ASCII segments every sensible script descends alike. */
  lemma {:induction false} AsciiDescends(t: Script, u: Script, node: Json, segments: seq<string>)
    requires Sensible(t) && Sensible(u)
    requires forall i, k | 0 <= i < |segments| && 0 <= k < |segments[i]| :: segments[i][k] < '\U{80}'
    ensures Descended(t, node, segments) == Descended(u, node, segments)
    decreases |segments|
  {
    if segments != [] {
      var s := segments[0];
      AsciiDigits(t, s);
      AsciiDigits(u, s);
      assert forall i | 0 <= i < |segments| - 1 :: segments[1..][i] == segments[i + 1];
      if node.Array? && IsDecimal(s) && ParseDecimal(s) < |node.items| {
        AsciiDescends(t, u, node.items[ParseDecimal(s)], segments[1..]);
      } else if node.Object? && Find(node.members, s).Some? {
        AsciiDescends(t, u, Find(node.members, s).value, segments[1..]);
      }
    }
  }

  lemma AsciiDigits(t: Script, s: string)
    requires Sensible(t) && forall k | 0 <= k < |s| :: s[k] < '\U{80}'
    ensures AllDigits(t, s) <==> IsDecimal(s)
    ensures IsDecimal(s) ==> IsNumber(t.numerals, s) && ParseNumber(t.numerals, s) == ParseDecimal(s)
  {
    if IsDecimal(s) {
      DecimalIsNumber(t.numerals, s);
    }
  }

  function Strings(items: seq<Json>): Result<set<string>, Error> {
    if items == [] then Ok({})
    else if !items[0].Text? then Err(NotStrings)
    else
      var rest :- Strings(items[1..]);
      Ok({items[0].text} + rest)
  }

  /** `set(old_parent.get("required") or [])`. */
  function RequiredBy(members: seq<Member>): Result<set<string>, Error> {
    match Find(members, "required")
    case None => Ok({})
    case Some(Null) => Ok({})
    case Some(Array(items)) => Strings(items)
    case Some(_) => Err(NotStrings)
  }

  /** `set(b["required"])`: unlike the old parent's, a null is no list here. */
  function AskedBy(members: seq<Member>): Result<set<string>, Error> {
    match Find(members, "required")
    case Some(Array(items)) => Strings(items)
    case _ => Err(NotStrings)
  }

  /** A branch that holds `required` and nothing else. */
  predicate Bare(branch: Json) {
    branch.Object? && branch.members != [] &&
    forall i | 0 <= i < |branch.members| :: branch.members[i].key == "required"
  }

  predicate AllBare(branches: seq<Json>) {
    forall i | 0 <= i < |branches| :: Bare(branches[i])
  }

  /** The final `any`: it stops at the first branch that asks for nothing new. */
  function AnyWithin(branches: seq<Json>, fields: set<string>): Result<bool, Error>
    requires AllBare(branches)
  {
    if branches == [] then Ok(false)
    else
      match AskedBy(branches[0].members)
      case Err(e) => Err(e)
      case Ok(asked) => if asked <= fields then Ok(true) else AnyWithin(branches[1..], fields)
  }

  function Decided(branches: Option<Json>, oldParent: Option<Json>): Result<bool, Error> {
    match (branches, oldParent)
    case (Some(Array(bs)), Some(Object(members))) =>
      if !AllBare(bs) then Ok(false)
      else
        var fields :- RequiredBy(members);
        AnyWithin(bs, fields)
    case _ => Ok(false)
  }

  predicate NamesBranch(parts: seq<string>) {
    |parts| >= 2 && parts[|parts| - 2] == "anyOf"
  }

  function Branches(parts: seq<string>): seq<string>
    requires |parts| >= 2
  {
    parts[..|parts| - 2] + ["anyOf"]
  }

  /** An artifact with these fields matches some branch. */
  ghost predicate Accepted(branches: seq<Json>, fields: set<string>) {
    exists i :: 0 <= i < |branches| && Bare(branches[i]) && AskedBy(branches[i].members).Ok?
                && AskedBy(branches[i].members).value <= fields
  }

  /** What the exemption is for: over bare branches, nothing that met the old requirements is rejected. */
  ghost predicate RejectsNoOld(branches: Option<Json>, oldParent: Option<Json>) {
    && branches.Some? && branches.value.Array? && AllBare(branches.value.items)
    && oldParent.Some? && oldParent.value.Object? && RequiredBy(oldParent.value.members).Ok?
    && forall fields | RequiredBy(oldParent.value.members).value <= fields :: Accepted(branches.value.items, fields)
  }

  lemma {:induction false} AnyWithinIsAccepted(branches: seq<Json>, fields: set<string>)
    requires AllBare(branches) && AnyWithin(branches, fields).Ok?
    ensures AnyWithin(branches, fields).value <==> Accepted(branches, fields)
  {
    if branches != [] {
      var asked := AskedBy(branches[0].members).value;
      if !(asked <= fields) {
        AnyWithinIsAccepted(branches[1..], fields);
        assert forall i | 0 < i < |branches| :: branches[i] == branches[1..][i - 1];
      }
    }
  }

  /** Accepting the least artifact of the old schema is accepting them all. */
  lemma DecisionIsExact(branches: Option<Json>, oldParent: Option<Json>)
    requires Decided(branches, oldParent).Ok?
    ensures Decided(branches, oldParent).value <==> RejectsNoOld(branches, oldParent)
  {
    if branches.Some? && branches.value.Array? && AllBare(branches.value.items)
       && oldParent.Some? && oldParent.value.Object? && RequiredBy(oldParent.value.members).Ok?
    {
      var bs, least := branches.value.items, RequiredBy(oldParent.value.members).value;
      AnyWithinIsAccepted(bs, least);
      if Accepted(bs, least) {
        var i :| 0 <= i < |bs| && Bare(bs[i]) && AskedBy(bs[i].members).Ok? && AskedBy(bs[i].members).value <= least;
        forall fields | least <= fields
          ensures Accepted(bs, fields)
        {
          assert AskedBy(bs[i].members).value <= fields;
        }
      }
    }
  }

  // ----- What the exemption means -----

  /** The step a segment takes: a key as it is, or an index in digits of any script. */
  predicate Fits(t: Script, segment: string, step: Step) {
    match step
    case Key(k) => k == segment
    case Item(i) => AllDigits(t, segment) && IsNumber(t.numerals, segment) && ParseNumber(t.numerals, segment) == i
  }

  ghost predicate FitsAll(t: Script, segments: seq<string>, path: seq<Step>) {
    |path| == |segments| && forall i | 0 <= i < |path| :: Fits(t, segments[i], path[i])
  }

  /** The segments lead to this node. */
  ghost predicate LeadTo(t: Script, node: Json, segments: seq<string>, found: Json) {
    exists path: seq<Step> :: FitsAll(t, segments, path) && At(node, path) == Some(found)
  }

  lemma LeadStep(t: Script, node: Json, segments: seq<string>, step: Step, child: Json, found: Json)
    requires segments != [] && Fits(t, segments[0], step) && At(node, [step]) == Some(child)
    requires LeadTo(t, child, segments[1..], found)
    ensures LeadTo(t, node, segments, found)
  {
    var rest: seq<Step> :| FitsAll(t, segments[1..], rest) && At(child, rest) == Some(found);
    var path := [step] + rest;
    assert path[0] == step && path[1..] == rest && [step] == [path[0]];
    AtStep(node, path, child);
    assert forall i | 0 < i < |path| :: path[i] == rest[i - 1] && segments[i] == segments[1..][i - 1];
    assert FitsAll(t, segments, path);
  }

  /** `resolve` finds exactly the node that the segments lead to. */
  lemma {:induction false} DescendedIsLed(t: Script, node: Json, segments: seq<string>, found: Json)
    ensures Descended(t, node, segments) == Ok(Some(found)) <==> LeadTo(t, node, segments, found)
    decreases |segments|
  {
    if segments == [] {
      assert FitsAll(t, [], []) && At(node, []) == Some(node);
    } else {
      if Descended(t, node, segments) == Ok(Some(found)) {
        DescendedLeads(t, node, segments, found);
      }
      if path: seq<Step> :| FitsAll(t, segments, path) && At(node, path) == Some(found) {
        assert Fits(t, segments[0], path[0]);
        assert forall i | 0 <= i < |path| - 1 :: path[1..][i] == path[i + 1] && segments[1..][i] == segments[i + 1];
        assert FitsAll(t, segments[1..], path[1..]);
        match path[0]
        case Key(k) => DescendedIsLed(t, Find(node.members, k).value, segments[1..], found);
        case Item(i) => DescendedIsLed(t, node.items[i], segments[1..], found);
      }
    }
  }

  lemma {:induction false} DescendedLeads(t: Script, node: Json, segments: seq<string>, found: Json)
    requires segments != [] && Descended(t, node, segments) == Ok(Some(found))
    ensures LeadTo(t, node, segments, found)
    decreases |segments|, 0
  {
    if node.Array? && AllDigits(t, segments[0]) {
      var i := ParseNumber(t.numerals, segments[0]);
      Led(t, node.items[i], segments[1..], found);
      assert At(node, [Item(i)]) == Some(node.items[i]) by { assert [Item(i)][1..] == []; }
      LeadStep(t, node, segments, Item(i), node.items[i], found);
    } else {
      var child := Find(node.members, segments[0]).value;
      Led(t, child, segments[1..], found);
      assert At(node, [Key(segments[0])]) == Some(child) by { assert [Key(segments[0])][1..] == []; }
      LeadStep(t, node, segments, Key(segments[0]), child, found);
    }
  }

  lemma {:induction false} Led(t: Script, node: Json, segments: seq<string>, found: Json)
    requires Descended(t, node, segments) == Ok(Some(found))
    ensures LeadTo(t, node, segments, found)
    decreases |segments|, 1
  {
    if segments == [] {
      assert FitsAll(t, [], []) && At(node, []) == Some(node);
    } else {
      DescendedLeads(t, node, segments, found);
    }
  }

  /** At a list, the next segment is a number past the end, or digits that are no number. */
  ghost predicate RaisesAt(t: Script, node: Json, segments: seq<string>, k: nat, items: seq<Json>, e: Error) {
    && k < |segments| && LeadTo(t, node, segments[..k], Array(items)) && AllDigits(t, segments[k])
    && if IsNumber(t.numerals, segments[k]) then e == IndexOut && ParseNumber(t.numerals, segments[k]) >= |items|
       else e == NotANumber
  }

  lemma RaisesLater(t: Script, node: Json, segments: seq<string>, step: Step, child: Json, k: nat, items: seq<Json>,
                    e: Error)
    requires segments != [] && Fits(t, segments[0], step) && At(node, [step]) == Some(child)
    requires RaisesAt(t, child, segments[1..], k, items, e)
    ensures RaisesAt(t, node, segments, k + 1, items, e)
  {
    assert segments[..k + 1][1..] == segments[1..][..k] && segments[..k + 1][0] == segments[0];
    LeadStep(t, node, segments[..k + 1], step, child, Array(items));
  }

  lemma FitsLater(t: Script, node: Json, segments: seq<string>, path: seq<Step>, found: Json)
    requires path != [] && FitsAll(t, segments, path) && At(node, path) == Some(found)
    ensures Fits(t, segments[0], path[0]) && At(node, [path[0]]).Some?
    ensures LeadTo(t, At(node, [path[0]]).value, segments[1..], found)
  {
    assert [path[0]][1..] == [];
    assert forall i | 0 <= i < |path| - 1 :: path[1..][i] == path[i + 1] && segments[1..][i] == segments[i + 1];
    assert FitsAll(t, segments[1..], path[1..]);
  }

  /** There it does raise. */
  lemma {:induction false} RaisesThere(t: Script, node: Json, segments: seq<string>, k: nat, items: seq<Json>, e: Error)
    requires RaisesAt(t, node, segments, k, items, e)
    ensures Descended(t, node, segments) == Err(e)
    decreases k
  {
    var path: seq<Step> :| FitsAll(t, segments[..k], path) && At(node, path) == Some(Array(items));
    if k > 0 {
      FitsLater(t, node, segments[..k], path, Array(items));
      var child := At(node, [path[0]]).value;
      assert segments[..k][0] == segments[0] && segments[..k][1..] == segments[1..][..k - 1];
      assert [path[0]][1..] == [];
      RaisesThere(t, child, segments[1..], k - 1, items, e);
    }
  }

  /** Where it raises. */
  lemma {:induction false} DescendRaises(t: Script, node: Json, segments: seq<string>)
    returns (k: nat, items: seq<Json>)
    requires Descended(t, node, segments).Err?
    ensures RaisesAt(t, node, segments, k, items, Descended(t, node, segments).error)
    decreases |segments|
  {
    var s := segments[0];
    if node.Array? && ItemAt(t, node.items, s).Err? {
      k, items := 0, node.items;
      assert segments[..0] == [] && FitsAll(t, [], []) && At(node, []) == Some(node);
    } else {
      var step := if node.Array? then Item(ParseNumber(t.numerals, s)) else Key(s);
      var child := if node.Array? then node.items[ParseNumber(t.numerals, s)] else Find(node.members, s).value;
      k, items := DescendRaises(t, child, segments[1..]);
      assert At(node, [step]) == Some(child) by { assert [step][1..] == []; }
      RaisesLater(t, node, segments, step, child, k, items, Descended(t, node, segments).error);
      k := k + 1;
    }
  }

  /** All texts, and these. */
  ghost predicate Lists(items: seq<Json>, names: set<string>) {
    (forall i | 0 <= i < |items| :: items[i].Text?) && forall s :: s in names <==> Text(s) in items
  }

  /** `{"required": [...]}` and nothing else, asking for these. */
  ghost predicate OnlyRequires(branch: Json, names: set<string>) {
    && branch.Object? && (forall i | 0 <= i < |branch.members| :: branch.members[i].key == "required")
    && exists items: seq<Json> :: Reads(branch.members, "required", Array(items)) && Lists(items, names)
  }

  /** The old schema requires these: none if it says nothing or null. */
  ghost predicate OldRequires(parent: Json, names: set<string>) {
    parent.Object? &&
    if (forall i | 0 <= i < |parent.members| :: parent.members[i].key != "required")
       || Reads(parent.members, "required", Null)
    then names == {}
    else exists items: seq<Json> :: Reads(parent.members, "required", Array(items)) && Lists(items, names)
  }

  lemma {:induction false} StringsLists(items: seq<Json>)
    ensures forall names :: Strings(items) == Ok(names) <==> Lists(items, names)
    ensures Strings(items).Err? ==> Strings(items) == Err(NotStrings)
    ensures Strings(items).Ok? <==> forall i | 0 <= i < |items| :: items[i].Text?
  {
    if items != [] {
      StringsLists(items[1..]);
      assert items == [items[0]] + items[1..];
      assert forall i | 0 < i < |items| :: items[i] == items[1..][i - 1];
    }
    forall names
      ensures Strings(items) == Ok(names) <==> Lists(items, names)
    {
      if Strings(items).Ok? {
        assert Lists(items, Strings(items).value);
        if Lists(items, names) {
          assert names == Strings(items).value;
        }
      }
    }
  }

  lemma AskedMeans(branch: Json, names: set<string>)
    ensures branch.Object? && Bare(branch) && AskedBy(branch.members) == Ok(names) <==> OnlyRequires(branch, names)
  {
    if branch.Object? {
      FindReads(branch.members, "required");
      match Find(branch.members, "required")
      case Some(Array(items)) =>
        StringsLists(items);
        assert Reads(branch.members, "required", Array(items));
      case _ =>
    }
  }

  lemma RequiredMeans(parent: Json, names: set<string>)
    ensures parent.Object? && RequiredBy(parent.members) == Ok(names) <==> OldRequires(parent, names)
  {
    if parent.Object? {
      FindReads(parent.members, "required");
      match Find(parent.members, "required")
      case Some(Array(items)) =>
        StringsLists(items);
        assert Reads(parent.members, "required", Array(items));
      case _ =>
    }
  }

  lemma {:induction false} StripsLeft(s: string)
    requires s != [] && s[0] == '/'
    ensures StripSlashes(s) == StripSlashes(s[1..])
  {
  }

  /** The pointer of these segments is taken apart into them again. */
  lemma PartsOfPointer(segments: seq<string>)
    requires NoSlash(segments) && segments != [] && segments[0] != "" && segments[|segments| - 1] != ""
    ensures Split(StripSlashes(Joined(segments)), '/') == segments
  {
    EndsPlain(segments);
    StripsPointer(segments[0], Joined(segments[1..]));
    JoinedSplits(segments);
  }

  lemma StripsPointer(first: string, rest: string)
    requires first != "" && '/' !in first && ("/" + first + rest)[|first + rest|] != '/'
    ensures StripSlashes("/" + first + rest) == first + rest
  {
    JoinsRegroup("/", first, rest);
    assert (first + rest)[0] == first[0] && first[0] in first;
    StripsOne(first + rest);
  }

  lemma StripsOne(body: string)
    requires body != [] && body[0] != '/' && ("/" + body)[|body|] != '/'
    ensures StripSlashes("/" + body) == body
  {
    assert ("/" + body)[1..] == body && ("/" + body)[|body|] == body[|body| - 1];
    StripsLeft("/" + body);
  }

  lemma {:induction false} EndsPlain(segments: seq<string>)
    requires NoSlash(segments) && segments != [] && segments[|segments| - 1] != ""
    ensures Joined(segments) != [] && Joined(segments)[|Joined(segments)| - 1] != '/'
    ensures Joined(segments) == "/" + segments[0] + Joined(segments[1..])
  {
    var last := segments[|segments| - 1];
    if |segments| == 1 {
      assert Joined(segments) == "/" + last + Joined([]);
      assert Joined(segments)[|Joined(segments)| - 1] == last[|last| - 1];
    } else {
      EndsPlain(segments[1..]);
      assert Joined(segments) == "/" + segments[0] + Joined(segments[1..]);
    }
  }

  /**
   The branches are bare requirements, and one of them asks for nothing that the old parent did not require. These
   are the lists at the pointer's `anyOf` in the current schema, and at the pointer's parent in the old one.
   */
  ghost predicate Exempt(t: Script, current: Json, before: Json, parts: seq<string>) {
    && |parts| >= 2 && parts[|parts| - 2] == "anyOf"
    && exists branches: seq<Json>, parent: Json, required: set<string> ::
         && LeadTo(t, current, parts[..|parts| - 1], Array(branches))
         && LeadTo(t, before, parts[..|parts| - 2], parent) && OldRequires(parent, required)
         && OnlyRequirements(branches) && AsksNothingNew(branches, required)
  }

  ghost predicate OnlyRequirements(branches: seq<Json>) {
    forall i | 0 <= i < |branches| ::
      branches[i].Object? && branches[i].members != []
      && forall k | 0 <= k < |branches[i].members| :: branches[i].members[k].key == "required"
  }

  ghost predicate AsksNothingNew(branches: seq<Json>, required: set<string>) {
    exists i, asked :: 0 <= i < |branches| && OnlyRequires(branches[i], asked) && asked <= required
  }

  lemma AcceptedMeans(branches: seq<Json>, required: set<string>)
    ensures AllBare(branches) <==> OnlyRequirements(branches)
    ensures Accepted(branches, required) <==> AsksNothingNew(branches, required)
  {
    if i :| 0 <= i < |branches| && Bare(branches[i]) && AskedBy(branches[i].members).Ok?
            && AskedBy(branches[i].members).value <= required {
      AskedMeans(branches[i], AskedBy(branches[i].members).value);
    }
    if i, asked :| 0 <= i < |branches| && OnlyRequires(branches[i], asked) && asked <= required {
      AskedMeans(branches[i], asked);
    }
  }

  lemma DecidedIsExempt(t: Script, current: Json, before: Json, parts: seq<string>)
    requires NamesBranch(parts)
    requires Descended(t, current, Branches(parts)).Ok? && Descended(t, before, parts[..|parts| - 2]).Ok?
    requires var branches := Descended(t, current, Branches(parts)).value;
             Decided(branches, Descended(t, before, parts[..|parts| - 2]).value).Ok?
    ensures Decided(Descended(t, current, Branches(parts)).value,
                    Descended(t, before, parts[..|parts| - 2]).value).value
            <==> Exempt(t, current, before, parts)
  {
    var branches := Descended(t, current, Branches(parts)).value;
    var oldParent := Descended(t, before, parts[..|parts| - 2]).value;
    assert Branches(parts) == parts[..|parts| - 1];
    forall found
      ensures LeadTo(t, current, parts[..|parts| - 1], found) <==> branches == Some(found)
      ensures LeadTo(t, before, parts[..|parts| - 2], found) <==> oldParent == Some(found)
    {
      DescendedIsLed(t, current, parts[..|parts| - 1], found);
      DescendedIsLed(t, before, parts[..|parts| - 2], found);
    }
    if branches.Some? && branches.value.Array? && oldParent.Some? {
      DecidedOnValues(branches.value.items, oldParent.value);
      assert LeadTo(t, current, parts[..|parts| - 1], Array(branches.value.items));
      assert LeadTo(t, before, parts[..|parts| - 2], oldParent.value);
    }
  }

  lemma DecidedOnValues(branches: seq<Json>, parent: Json)
    requires Decided(Some(Array(branches)), Some(parent)).Ok?
    ensures Decided(Some(Array(branches)), Some(parent)).value <==>
              exists required: set<string> ::
                OldRequires(parent, required) && OnlyRequirements(branches) && AsksNothingNew(branches, required)
  {
    AcceptedMeans(branches, {});
    if parent.Object? && AllBare(branches) {
      var required := RequiredBy(parent.members).value;
      RequiredMeans(parent, required);
      AnyWithinIsAccepted(branches, required);
      AcceptedMeans(branches, required);
      forall other | OldRequires(parent, other)
        ensures other == required
      {
        RequiredMeans(parent, other);
      }
    }
  }

  /** `_anyof_satisfied_by_old_required`. Where it answers, it says exactly that; it raises only where it must. */
  method AnyOfSatisfied(t: Script, current: Json, before: Json, pointer: string) returns (r: Result<bool, Error>)
    ensures var parts := Split(StripSlashes(pointer), '/');
            && (r.Ok? ==> (r.value <==> Exempt(t, current, before, parts)))
            && (!NamesBranch(parts) ==> r == Ok(false))
            && (NamesBranch(parts) ==>
                  var branches := Descended(t, current, Branches(parts));
                  var oldParent := Descended(t, before, parts[..|parts| - 2]);
                  if branches.Err? then r == Err(branches.error)
                  else if oldParent.Err? then r == Err(oldParent.error)
                  else r.Ok? ==> (r.value <==> RejectsNoOld(branches.value, oldParent.value)))
  {
    var parts := Split(StripSlashes(pointer), '/');
    if !NamesBranch(parts) {
      return Ok(false);
    }
    var branches := Descend(t, current, Branches(parts));
    var oldParent := Descend(t, before, parts[..|parts| - 2]);
    if branches.Err? {
      return Err(branches.error);
    }
    if oldParent.Err? {
      return Err(oldParent.error);
    }
    r := Decided(branches.value, oldParent.value);
    if r.Ok? {
      DecisionIsExact(branches.value, oldParent.value);
      DecidedIsExempt(t, current, before, parts);
    }
  }
}
