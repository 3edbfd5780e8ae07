/**
 JSON pointers as the compatibility gate prints them: segments joined by slashes, without escaping.
 */
module RawPointer {
  import opened PyText
  import opened EnumPointer

  /** `str(step)`. */
  function RawSegment(step: Step): string {
    match step
    case Key(k) => k
    case Item(i) => Decimal(i)
  }

  function RawSegments(path: seq<Step>): seq<string> {
    if path == [] then [] else [RawSegment(path[0])] + RawSegments(path[1..])
  }

  function Joined(segments: seq<string>): string {
    if segments == [] then "" else "/" + segments[0] + Joined(segments[1..])
  }

  function Raw(path: seq<Step>): string {
    Joined(RawSegments(path))
  }

  predicate NoSlash(segments: seq<string>) {
    forall i | 0 <= i < |segments| :: '/' !in segments[i]
  }

  lemma {:induction false} JoinedAppend(a: seq<string>, b: seq<string>)
    ensures Joined(a + b) == Joined(a) + Joined(b)
  {
    if a == [] {
      assert a + b == b;
    } else {
      JoinedAppend(a[1..], b);
      assert (a + b)[0] == a[0] && (a + b)[1..] == a[1..] + b;
      JoinsRegroup("/" + a[0], Joined(a[1..]), Joined(b));
    }
  }

  lemma JoinsRegroup(a: string, b: string, c: string)
    ensures a + b + c == a + (b + c)
  {
  }

  lemma {:induction false} JoinedSplits(segments: seq<string>)
    requires segments != [] && NoSlash(segments)
    ensures Split(segments[0] + Joined(segments[1..]), '/') == segments
  {
    if |segments| == 1 {
      assert segments[0] + Joined(segments[1..]) == segments[0];
      SplitWhole(segments[0], '/');
    } else {
      var rest := segments[1..];
      JoinedSplits(rest);
      assert segments[0] + Joined(rest) == segments[0] + ['/'] + (rest[0] + Joined(rest[1..]));
      SplitAppend(segments[0], '/', rest[0] + Joined(rest[1..]));
    }
  }

  /** Segments without slashes can be read off the pointer. */
  lemma JoinedTells(a: seq<string>, b: seq<string>)
    requires NoSlash(a) && NoSlash(b) && Joined(a) == Joined(b)
    ensures a == b
  {
    if a != [] && b != [] {
      assert Joined(a)[1..] == a[0] + Joined(a[1..]) && Joined(b)[1..] == b[0] + Joined(b[1..]);
      JoinedSplits(a);
      JoinedSplits(b);
    }
  }

  lemma SegmentsCons(step: Step, rest: seq<Step>)
    ensures RawSegments([step] + rest) == [RawSegment(step)] + RawSegments(rest)
  {
    assert ([step] + rest)[0] == step && ([step] + rest)[1..] == rest;
  }

  lemma {:induction false} SegmentsAppend(a: seq<Step>, b: seq<Step>)
    ensures RawSegments(a + b) == RawSegments(a) + RawSegments(b)
  {
    if a == [] {
      assert a + b == b;
    } else {
      SegmentsAppend(a[1..], b);
      SegmentsCons(a[0], a[1..] + b);
      assert [a[0]] + (a[1..] + b) == a + b;
      RegroupSegments([RawSegment(a[0])], RawSegments(a[1..]), RawSegments(b));
    }
  }

  lemma RegroupSegments(a: seq<string>, b: seq<string>, c: seq<string>)
    ensures a + (b + c) == a + b + c
  {
  }

  lemma RawAppend(a: seq<Step>, b: seq<Step>)
    ensures Raw(a + b) == Raw(a) + Raw(b)
  {
    SegmentsAppend(a, b);
    JoinedAppend(RawSegments(a), RawSegments(b));
  }

  lemma RawOne(step: Step)
    ensures Raw([step]) == "/" + RawSegment(step)
  {
    assert RawSegments([step]) == [RawSegment(step)];
    assert Joined([RawSegment(step)]) == "/" + RawSegment(step) + Joined([]);
  }

  lemma RawStep(pointer: string, step: Step, rest: seq<Step>)
    ensures pointer + Raw([step] + rest) == pointer + "/" + RawSegment(step) + Raw(rest)
  {
    RawAppend([step], rest);
    RawOne(step);
    JoinsRegroup(pointer, "/", RawSegment(step));
    JoinsRegroup(pointer, "/" + RawSegment(step), Raw(rest));
  }

  /** No key of the document has a slash in it. */
  ghost predicate PlainKeys(node: Json) {
    forall path, k | At(node, path).Some? && Key(k) in path :: '/' !in k
  }

  lemma {:induction false} PlainSegments(path: seq<Step>)
    requires forall k | Key(k) in path :: '/' !in k
    ensures NoSlash(RawSegments(path))
  {
    if path != [] {
      assert path == [path[0]] + path[1..];
      PlainSegments(path[1..]);
      match path[0]
      case Key(k) => assert path[0] in path;
      case Item(i) => DecimalIsPlain(i);
    }
  }

  /** In one document, a path is told by its segments. */
  lemma {:induction false} SegmentsTell(node: Json, p: seq<Step>, q: seq<Step>)
    requires At(node, p).Some? && At(node, q).Some? && RawSegments(p) == RawSegments(q)
    ensures p == q
    decreases |p|
  {
    if p != [] && q != [] {
      assert RawSegments(p)[0] == RawSegment(p[0]) && RawSegments(q)[0] == RawSegment(q[0]);
      assert RawSegments(p)[1..] == RawSegments(p[1..]) && RawSegments(q)[1..] == RawSegments(q[1..]);
      if node.Array? {
        ParseDecimalInverse(p[0].index);
        ParseDecimalInverse(q[0].index);
        SegmentsTell(node.items[p[0].index], p[1..], q[1..]);
      } else {
        SegmentsTell(Find(node.members, p[0].key).value, p[1..], q[1..]);
      }
    }
  }
}
