/** Each site is listed once: no two sites of a run of `iter_sites` share a reference. */
module EnumSites {
  import opened PyText
  import opened EnumPointer

  ghost predicate DistinctPointers(visits: seq<Visit>) {
    forall i, j | 0 <= i < j < |visits| :: visits[i].pointer != visits[j].pointer
  }

  ghost predicate Apart(a: seq<Visit>, b: seq<Visit>) {
    forall i, j | 0 <= i < |a| && 0 <= j < |b| :: a[i].pointer != b[j].pointer
  }

  lemma DistinctParts(a: seq<Visit>, b: seq<Visit>)
    requires DistinctPointers(a) && DistinctPointers(b) && Apart(a, b)
    ensures DistinctPointers(a + b)
  {
  }

  /** Printed paths with the same text begin with the same step. */
  lemma FirstSegmentTells(start: string, a: Step, p: seq<Step>, b: Step, q: seq<Step>)
    requires start + "/" + Segment(a) + Pointer(p) == start + "/" + Segment(b) + Pointer(q)
    ensures Segment(a) == Segment(b)
  {
    StripStart(start, Segment(a), Pointer(p));
    StripStart(start, Segment(b), Pointer(q));
    FirstPart(a, p);
    FirstPart(b, q);
  }

  lemma StripStart(start: string, first: string, rest: string)
    ensures (start + "/" + first + rest)[|start| + 1..] == first + rest
  {
  }

  lemma FirstPart(a: Step, p: seq<Step>)
    ensures Split(Segment(a) + Pointer(p), '/')[0] == Segment(a)
  {
    var path := [a] + p;
    assert path[0] == a && path[1..] == p;
    PointerSplits(path);
  }

  lemma DecimalTells(m: nat, n: nat)
    requires Decimal(m) == Decimal(n)
    ensures m == n
  {
    ParseDecimalInverse(m);
    ParseDecimalInverse(n);
  }

  /** The walk visits each place once. */
  lemma {:induction false} WalkDistinct(node: Json, pointer: string, inIf: bool)
    requires DistinctKeys(node)
    ensures DistinctPointers(Walk(node, pointer, inIf))
    decreases node, 1
  {
    match node
    case Object(members) =>
      var below := WalkMembers(members, pointer, inIf);
      MembersDistinct(members, pointer, inIf);
      forall k | 0 <= k < |below|
        ensures below[k].pointer != pointer
      {
        var i, path := MemberVisitHasPath(members, pointer, inIf, k);
        assert |below[k].pointer| > |pointer|;
      }
      DistinctParts([Visit(node, pointer, inIf)], below);
    case Array(items) =>
      ItemsDistinct(items, 0, pointer, inIf);
    case _ =>
  }

  lemma {:induction false} MembersDistinct(members: seq<Member>, pointer: string, inIf: bool)
    requires DistinctInMembers(members)
    requires forall a, b | 0 <= a < b < |members| :: members[a].key != members[b].key
    ensures DistinctPointers(WalkMembers(members, pointer, inIf))
    decreases members, 0
  {
    if members != [] {
      var m, rest := members[0], members[1..];
      var first := Walk(m.value, pointer + "/" + Escape(m.key), inIf || m.key == "if");
      WalkDistinct(m.value, pointer + "/" + Escape(m.key), inIf || m.key == "if");
      MembersDistinct(rest, pointer, inIf);
      var others := WalkMembers(rest, pointer, inIf);
      forall i, j | 0 <= i < |first| && 0 <= j < |others|
        ensures first[i].pointer != others[j].pointer
      {
        MembersApart(m, rest, pointer, inIf, i, j);
      }
      DistinctParts(first, others);
    }
  }

  lemma MembersApart(m: Member, rest: seq<Member>, pointer: string, inIf: bool, i: nat, j: nat)
    requires DistinctKeys(m.value) && DistinctInMembers(rest)
    requires forall k | 0 <= k < |rest| :: rest[k].key != m.key
    requires i < |Walk(m.value, pointer + "/" + Escape(m.key), inIf || m.key == "if")|
    requires j < |WalkMembers(rest, pointer, inIf)|
    ensures Walk(m.value, pointer + "/" + Escape(m.key), inIf || m.key == "if")[i].pointer
            != WalkMembers(rest, pointer, inIf)[j].pointer
  {
    var p := VisitHasPath(m.value, pointer + "/" + Escape(m.key), inIf || m.key == "if", i);
    var k, q := MemberVisitHasPath(rest, pointer, inIf, j);
    var left := Walk(m.value, pointer + "/" + Escape(m.key), inIf || m.key == "if")[i].pointer;
    if left == WalkMembers(rest, pointer, inIf)[j].pointer {
      FirstSegmentTells(pointer, Key(m.key), p, Key(rest[k].key), q);
      UnescapeInverse(m.key);
      UnescapeInverse(rest[k].key);
      assert false;
    }
  }

  lemma {:induction false} ItemsDistinct(items: seq<Json>, first: nat, pointer: string, inIf: bool)
    requires forall i | 0 <= i < |items| :: DistinctKeys(items[i])
    ensures DistinctPointers(WalkItems(items, first, pointer, inIf))
    decreases items, 0
  {
    if items != [] {
      var rest := items[1..];
      var head := Walk(items[0], pointer + "/" + Decimal(first), inIf);
      var tail := WalkItems(rest, first + 1, pointer, inIf);
      WalkDistinct(items[0], pointer + "/" + Decimal(first), inIf);
      ItemsDistinct(rest, first + 1, pointer, inIf);
      forall i, j | 0 <= i < |head| && 0 <= j < |tail|
        ensures head[i].pointer != tail[j].pointer
      {
        ItemsApart(items[0], rest, first, pointer, inIf, i, j);
      }
      DistinctParts(head, tail);
    }
  }

  lemma ItemsApart(item: Json, rest: seq<Json>, first: nat, pointer: string, inIf: bool, i: nat, j: nat)
    requires DistinctKeys(item) && forall k | 0 <= k < |rest| :: DistinctKeys(rest[k])
    requires i < |Walk(item, pointer + "/" + Decimal(first), inIf)|
    requires j < |WalkItems(rest, first + 1, pointer, inIf)|
    ensures Walk(item, pointer + "/" + Decimal(first), inIf)[i].pointer
            != WalkItems(rest, first + 1, pointer, inIf)[j].pointer
  {
    var p := VisitHasPath(item, pointer + "/" + Decimal(first), inIf, i);
    var k, q := ItemVisitHasPath(rest, first + 1, pointer, inIf, j);
    var left := Walk(item, pointer + "/" + Decimal(first), inIf)[i].pointer;
    if left == WalkItems(rest, first + 1, pointer, inIf)[j].pointer {
      FirstSegmentTells(pointer, Item(first), p, Item(first + 1 + k), q);
      DecimalTells(first, first + 1 + k);
      assert false;
    }
  }

  // ----- The sites -----

  ghost predicate DistinctSites(sites: seq<Site>) {
    forall i, j | 0 <= i < j < |sites| ::
      sites[i].schema != sites[j].schema || sites[i].pointer != sites[j].pointer
  }

  lemma {:induction false} SitesOfFileDistinct(name: string, visits: seq<Visit>)
    requires DistinctPointers(visits)
    ensures DistinctSites(SitesIn(name, visits))
  {
    if visits != [] {
      var init, sites := visits[..|visits| - 1], SitesIn(name, visits[..|visits| - 1]);
      assert forall i | 0 <= i < |init| :: init[i] == visits[i];
      SitesOfFileDistinct(name, init);
      forall i | 0 <= i < |sites|
        ensures sites[i].pointer != visits[|visits| - 1].pointer
      {
        var k := SiteHasVisit(name, init, sites[i]);
        assert init[k] == visits[k];
      }
    }
  }

  lemma {:induction false} SitesDistinct(schemas: map<string, Json>, names: seq<string>)
    requires forall i | 0 <= i < |names| :: names[i] in schemas && DistinctKeys(schemas[names[i]])
    requires forall i, j | 0 <= i < j < |names| :: names[i] != names[j]
    ensures DistinctSites(SitesInAll(schemas, names))
  {
    if names != [] {
      var init, last := names[..|names| - 1], names[|names| - 1];
      var earlier, added := SitesInAll(schemas, init), SitesIn(last, Walk(schemas[last], "", false));
      SitesDistinct(schemas, init);
      WalkDistinct(schemas[last], "", false);
      SitesOfFileDistinct(last, Walk(schemas[last], "", false));
      forall i, j | 0 <= i < |earlier| && 0 <= j < |added|
        ensures earlier[i].schema != added[j].schema
      {
        SitesInAllMembers(schemas, init, earlier[i]);
        var k := SiteHasVisit(last, Walk(schemas[last], "", false), added[j]);
      }
    }
  }

  /** Over files with names of their own, no two sites have the same reference. */
  lemma RefsAreUnique(schemas: map<string, Json>, names: seq<string>, i: nat, j: nat)
    requires forall k | 0 <= k < |names| :: names[k] in schemas && DistinctKeys(schemas[names[k]])
    requires forall k, l | 0 <= k < l < |names| :: names[k] != names[l]
    requires forall k | 0 <= k < |names| :: '#' !in names[k]
    requires i < j < |SitesInAll(schemas, names)|
    ensures Ref(SitesInAll(schemas, names)[i]) != Ref(SitesInAll(schemas, names)[j])
  {
    var a, b := SitesInAll(schemas, names)[i], SitesInAll(schemas, names)[j];
    SitesDistinct(schemas, names);
    SitesInAllMembers(schemas, names, a);
    SitesInAllMembers(schemas, names, b);
    RefPartitions(a.schema, a.pointer);
    RefPartitions(b.schema, b.pointer);
  }
}
