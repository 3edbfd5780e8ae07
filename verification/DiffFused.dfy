/**
 Hunks that git fuses under `diff.interHunkContext`: the lines kept between two changes are printed, and the reader
 does not count them.
 */
module DiffFused {
  import opened Wrappers
  import opened PyText
  import opened DiffReader

  function OldLines(parts: seq<Segment>): seq<string> {
    if parts == [] then [] else OldPart(parts[0]) + OldLines(parts[1..])
  }

  function AddedTexts(parts: seq<Segment>): seq<string> {
    if parts == [] then []
    else if parts[0].Keep? then AddedTexts(parts[1..])
    else parts[0].added + AddedTexts(parts[1..])
  }

  /** A part inside a hunk: kept lines are printed with a space. */
  function PartBody(g: Segment): seq<string> {
    if g.Keep? then Marked(' ', g.lines)
    else (Marked('-', g.removed) + BareLine(g.bareOld)) + (Marked('+', g.added) + BareLine(g.bareNew))
  }

  function PartsBody(parts: seq<Segment>): seq<string> {
    if parts == [] then [] else PartBody(parts[0]) + PartsBody(parts[1..])
  }

  /** The header of a hunk counts all its lines. */
  function Heading(heading: string, parts: seq<Segment>): Segment {
    Change(OldLines(parts), NewLines(parts), heading, false, false)
  }

  function HunkLines(oldBefore: nat, newBefore: nat, heading: string, parts: seq<Segment>): seq<string> {
    [HunkLine(oldBefore, newBefore, Heading(heading, parts))] + PartsBody(parts)
  }

  /** A hunk of one change is printed as without fusing. */
  lemma OneChangeIsPlain(oldBefore: nat, newBefore: nat, c: Segment)
    requires c.Change?
    ensures HunkLines(oldBefore, newBefore, c.heading, [c]) == ChangeLines(oldBefore, newBefore, c)
  {
    HeadingOfOne(oldBefore, newBefore, c);
    assert PartsBody([c]) == PartBody(c);
    assert [HunkLine(oldBefore, newBefore, c)] + PartBody(c) == ChangeLines(oldBefore, newBefore, c);
  }

  lemma HeadingOfOne(oldBefore: nat, newBefore: nat, c: Segment)
    requires c.Change?
    ensures HunkLine(oldBefore, newBefore, Heading(c.heading, [c])) == HunkLine(oldBefore, newBefore, c)
  {
    assert OldLines([c]) == c.removed && NewLines([c]) == c.added;
  }

  // ----- What the reader takes from a hunk -----

  predicate PartReadable(nums: Numerals, g: Segment) {
    if g.Keep? then forall t | t in g.lines :: Harmless(nums, true, t)
    else Readable(g.added) && forall t | t in g.removed :: Harmless(nums, true, t)
  }

  predicate PartsReadable(nums: Numerals, parts: seq<Segment>) {
    forall i | 0 <= i < |parts| :: PartReadable(nums, parts[i])
  }

  lemma PartsReadableStep(nums: Numerals, parts: seq<Segment>)
    requires parts != [] && PartsReadable(nums, parts)
    ensures PartReadable(nums, parts[0]) && PartsReadable(nums, parts[1..])
  {
    assert forall i | 0 < i < |parts| :: parts[i] == parts[1..][i - 1];
  }

  lemma ReadKept(nums: Numerals, s: State, lines: seq<string>)
    requires !s.header && s.rel.Some? && InFile(s.rel) && forall t | t in lines :: Harmless(nums, true, t)
    ensures ReadPieces(nums, s, Marked(' ', lines)) == s
  {
    MarkedStray(nums, true, ' ', lines);
    ReadStray(nums, s, Marked(' ', lines));
  }

  lemma ReadChanged(nums: Numerals, s: State, c: Segment)
    requires c.Change? && !s.header && s.rel.Some? && InFile(s.rel) && PartReadable(nums, c)
    ensures ReadPieces(nums, s, PartBody(c)) == AfterAdded(s, c.added)
  {
    var removed, added := Marked('-', c.removed) + BareLine(c.bareOld), Marked('+', c.added) + BareLine(c.bareNew);
    ReadsInOrder(nums, s, removed, added);
    ReadRemoved(nums, s, c.removed, c.bareOld);
    ReadsInOrder(nums, s, Marked('+', c.added), BareLine(c.bareNew));
    PiecesOfAdded(c.added);
    RunAdded(nums, s, c.added);
    BarePieces(nums, true, c.bareNew);
    ReadStray(nums, AfterAdded(s, c.added), BareLine(c.bareNew));
  }

  lemma {:induction false} NumberedJoins(a: seq<string>, b: seq<string>, first: nat)
    ensures Numbered(a + b, first) == Numbered(a, first) + Numbered(b, first + |a|)
  {
    if a == [] {
      assert a + b == b;
    } else {
      assert (a + b)[0] == a[0] && (a + b)[1..] == a[1..] + b;
      NumberedJoins(a[1..], b, first + 1);
    }
  }

  lemma AfterAddedTwice(s: State, a: seq<string>, b: seq<string>)
    ensures AfterAdded(AfterAdded(s, a), b) == AfterAdded(s, a + b)
  {
    NumberedJoins(a, b, s.number);
    EffectJoins(s.added, s.rel, Numbered(a, s.number), Numbered(b, s.number + |a|));
  }

  lemma ReadTwice(nums: Numerals, s: State, first: seq<string>, rest: seq<string>, x: seq<string>, y: seq<string>)
    requires ReadPieces(nums, s, first) == AfterAdded(s, x)
    requires ReadPieces(nums, AfterAdded(s, x), rest) == AfterAdded(AfterAdded(s, x), y)
    ensures ReadPieces(nums, s, first + rest) == AfterAdded(s, x + y)
  {
    ReadsInOrder(nums, s, first, rest);
    AfterAddedTwice(s, x, y);
  }

  /** Over the body of a hunk the additions are numbered one after another, kept lines between them or not. */
  lemma {:induction false} ReadBody(nums: Numerals, s: State, parts: seq<Segment>)
    requires !s.header && s.rel.Some? && InFile(s.rel) && PartsReadable(nums, parts)
    ensures ReadPieces(nums, s, PartsBody(parts)) == AfterAdded(s, AddedTexts(parts))
    decreases |parts|
  {
    if parts != [] {
      PartsReadableStep(nums, parts);
      if parts[0].Keep? {
        ReadKept(nums, s, parts[0].lines);
        ReadBody(nums, s, parts[1..]);
        ReadsInOrder(nums, s, Marked(' ', parts[0].lines), PartsBody(parts[1..]));
      } else {
        ReadChanged(nums, s, parts[0]);
        ReadBody(nums, AfterAdded(s, parts[0].added), parts[1..]);
        ReadTwice(nums, s, PartBody(parts[0]), PartsBody(parts[1..]), parts[0].added, AddedTexts(parts[1..]));
      }
    }
  }

  lemma {:induction false} AddedAreNew(parts: seq<Segment>)
    ensures NewLines(parts) == [] ==> AddedTexts(parts) == []
  {
    if parts != [] {
      AddedAreNew(parts[1..]);
    }
  }

  lemma ReadHunk(nums: Numerals, s: State, oldBefore: nat, newBefore: nat, heading: string, parts: seq<Segment>)
    requires s.rel.Some? && InFile(s.rel) && Harmless(nums, true, heading) && PartsReadable(nums, parts)
    ensures AddsTo(nums, s, HunkLines(oldBefore, newBefore, heading, parts),
                   Numbered(AddedTexts(parts), newBefore + 1))
  {
    var c := Heading(heading, parts);
    ReadsInOrder(nums, s, [HunkLine(oldBefore, newBefore, c)], PartsBody(parts));
    ReadHunkLine(nums, s, oldBefore, newBefore, c);
    ReadBody(nums, AfterHunkLine(s, newBefore, c), parts);
    AddedAreNew(parts);
  }

  // ----- When that is exact -----

  /** No kept line comes before an addition. */
  predicate KeptLast(parts: seq<Segment>) {
    parts == [] || (KeptLast(parts[1..]) && (KeptPart(parts[0]) == [] || AddedTexts(parts[1..]) == []))
  }

  lemma {:induction false} NothingIsLast(parts: seq<Segment>)
    ensures AddedTexts(parts) == [] ==> KeptLast(parts)
  {
    if parts != [] {
      NothingIsLast(parts[1..]);
    }
  }

  lemma JoinsAlike(x: Lines, p: Lines, y: Lines, q: Lines)
    requires |x| == |y|
    ensures x + p == y + q <==> x == y && p == q
  {
    if x + p == y + q {
      assert x == (x + p)[..|x|] && y == (y + q)[..|x|];
      assert p == (x + p)[|x|..] && q == (y + q)[|x|..];
    }
  }

  lemma NumberedAlike(texts: seq<string>, n: nat, m: nat)
    ensures Numbered(texts, n) == Numbered(texts, m) <==> texts == [] || n == m
  {
    NumberedAt(texts, n);
    NumberedAt(texts, m);
    if texts != [] {
      assert Numbered(texts, n)[0].0 == n && Numbered(texts, m)[0].0 == m;
    }
  }

  predicate Alike(a: Lines, b: Lines) {
    a == b
  }

  lemma NumbersFrom(added: seq<string>, rest: seq<string>, texts: seq<string>, first: nat, next: nat,
                    later: Lines, all: Lines)
    requires texts == added + rest && all == Numbered(added, next) + later
    ensures Alike(Numbered(texts, first), all) <==>
              (added == [] || first == next) && Alike(Numbered(rest, first + |added|), later)
  {
    NumberedJoins(added, rest, first);
    NumberedAlike(added, first, next);
    JoinsAlike(Numbered(added, first), Numbered(rest, first + |added|), Numbered(added, next), later);
  }

  /** Numbering from `first` on, one after another, is numbering each part where it stands. */
  predicate SameNumbers(parts: seq<Segment>, first: nat, before: nat) {
    Alike(Numbered(AddedTexts(parts), first), Additions(parts, before))
  }

  lemma NothingAhead(lines: Lines)
    ensures [] + lines == lines
  {
  }

  lemma KeepNumbers(parts: seq<Segment>, first: nat, before: nat)
    requires parts != [] && parts[0].Keep?
    ensures SameNumbers(parts, first, before) <==> SameNumbers(parts[1..], first, before + |parts[0].lines|)
  {
    NothingAhead(Additions(parts[1..], before + |parts[0].lines|));
  }

  lemma ChangeNumbers(parts: seq<Segment>, first: nat, before: nat)
    requires parts != [] && parts[0].Change?
    ensures var n := |parts[0].added|;
            SameNumbers(parts, first, before) <==>
              (n == 0 || first == before + 1) && SameNumbers(parts[1..], first + n, before + n)
  {
    NumbersFrom(parts[0].added, AddedTexts(parts[1..]), AddedTexts(parts), first, before + 1,
                Additions(parts[1..], before + |parts[0].added|), Additions(parts, before));
  }

  predicate ExactlyAt(parts: seq<Segment>, first: nat, before: nat) {
    SameNumbers(parts, first, before) <==> AddedTexts(parts) == [] || (first == before + 1 && KeptLast(parts))
  }

  ghost predicate Exactly(parts: seq<Segment>) {
    forall first: nat, before: nat {:trigger ExactlyAt(parts, first, before)} | first <= before + 1 ::
      ExactlyAt(parts, first, before)
  }

  lemma ExactlyKeep(parts: seq<Segment>, first: nat, before: nat)
    requires first <= before + 1 && parts != [] && parts[0].Keep?
    requires ExactlyAt(parts[1..], first, before + |parts[0].lines|)
    ensures ExactlyAt(parts, first, before)
  {
    KeepNumbers(parts, first, before);
    NothingIsLast(parts[1..]);
  }

  lemma ExactlyChange(parts: seq<Segment>, first: nat, before: nat)
    requires first <= before + 1 && parts != [] && parts[0].Change?
    requires ExactlyAt(parts[1..], first + |parts[0].added|, before + |parts[0].added|)
    ensures ExactlyAt(parts, first, before)
  {
    ChangeNumbers(parts, first, before);
    NothingIsLast(parts[1..]);
  }

  lemma ExactlyStep(parts: seq<Segment>, first: nat, before: nat)
    requires first <= before + 1 && parts != [] && Exactly(parts[1..])
    ensures ExactlyAt(parts, first, before)
  {
    var g := parts[0];
    if g.Keep? {
      assert ExactlyAt(parts[1..], first, before + |g.lines|);
      ExactlyKeep(parts, first, before);
    } else {
      assert ExactlyAt(parts[1..], first + |g.added|, before + |g.added|);
      ExactlyChange(parts, first, before);
    }
  }

  lemma ExactlyAtEnd(first: nat, before: nat)
    ensures ExactlyAt([], first, before)
  {
  }

  lemma {:induction false} SameNumbersExactly(parts: seq<Segment>)
    ensures Exactly(parts)
    decreases |parts|
  {
    if parts != [] {
      SameNumbersExactly(parts[1..]);
    }
    forall first: nat, before: nat | first <= before + 1
      ensures ExactlyAt(parts, first, before)
    {
      if parts == [] {
        ExactlyAtEnd(first, before);
      } else {
        ExactlyStep(parts, first, before);
      }
    }
  }

  lemma EffectTells(added: map<string, Lines>, rel: Option<string>, a: Lines, b: Lines)
    requires rel.Some?
    ensures Effect(added, rel, a) == Effect(added, rel, b) <==> Alike(a, b)
  {
    var before := Get(added, rel.value);
    assert Get(Effect(added, rel, a), rel.value) == before + a;
    assert Get(Effect(added, rel, b), rel.value) == before + b;
    assert a == (before + a)[|before|..] && b == (before + b)[|before|..];
  }

  /**
   A hunk printed with the lines kept between its changes is read exactly if and only if no kept line comes before
   an addition.
   */
  lemma HunkIsExact(nums: Numerals, s: State, oldBefore: nat, newBefore: nat, heading: string, parts: seq<Segment>)
    requires s.rel.Some? && InFile(s.rel) && Harmless(nums, true, heading) && PartsReadable(nums, parts)
    ensures AddsTo(nums, s, HunkLines(oldBefore, newBefore, heading, parts), Additions(parts, newBefore))
            <==> KeptLast(parts)
  {
    ReadHunk(nums, s, oldBefore, newBefore, heading, parts);
    EffectTells(s.added, s.rel, Numbered(AddedTexts(parts), newBefore + 1), Additions(parts, newBefore));
    SameNumbersExactly(parts);
    assert ExactlyAt(parts, newBefore + 1, newBefore);
    NothingIsLast(parts);
  }

  // ----- All hunks of a file -----

  /** Lines the diff leaves out before the hunk, its heading, and its parts. */
  datatype Hunk = Hunk(gap: seq<string>, heading: string, parts: seq<Segment>)

  /** A hunk as printed, what the reader takes from it, and what it adds. */
  datatype Shown = Shown(lines: seq<string>, taken: Lines, adds: Lines)

  function ShowHunk(oldBefore: nat, newBefore: nat, h: Hunk): Shown {
    Shown(HunkLines(oldBefore, newBefore, h.heading, h.parts),
          Numbered(AddedTexts(h.parts), newBefore + 1),
          Additions(h.parts, newBefore))
  }

  type HunkPrinter = (nat, nat, Hunk) -> Shown

  /** Each hunk where it stands: so many lines precede it on either side. */
  function ShowAllHunks(show: HunkPrinter, hunks: seq<Hunk>, oldBefore: nat, newBefore: nat): seq<Shown>
    decreases |hunks|
  {
    if hunks == [] then []
    else
      var h := hunks[0];
      var o, n := oldBefore + |h.gap|, newBefore + |h.gap|;
      [show(o, n, h)] + ShowAllHunks(show, hunks[1..], o + |OldLines(h.parts)|, n + |NewLines(h.parts)|)
  }

  function ShowHunks(hunks: seq<Hunk>): seq<Shown> {
    ShowAllHunks(ShowHunk, hunks, 0, 0)
  }

  function AllLines(shown: seq<Shown>): seq<string> {
    if shown == [] then [] else shown[0].lines + AllLines(shown[1..])
  }

  function AllTaken(shown: seq<Shown>): Lines {
    if shown == [] then [] else shown[0].taken + AllTaken(shown[1..])
  }

  function AllAdds(shown: seq<Shown>): Lines {
    if shown == [] then [] else shown[0].adds + AllAdds(shown[1..])
  }

  /** Wherever it is read, the hunk adds what the reader is said to take, as many lines as it should. */
  ghost predicate ReadAsTaken(nums: Numerals, b: Shown) {
    |b.taken| == |b.adds| &&
    forall s: State {:trigger AddsTo(nums, s, b.lines, b.taken)} | s.rel.Some? && InFile(s.rel) ::
      AddsTo(nums, s, b.lines, b.taken)
  }

  ghost predicate AllReadAsTaken(nums: Numerals, shown: seq<Shown>) {
    shown == [] || (ReadAsTaken(nums, shown[0]) && AllReadAsTaken(nums, shown[1..]))
  }

  predicate AllAlike(shown: seq<Shown>) {
    shown == [] || (Alike(shown[0].taken, shown[0].adds) && AllAlike(shown[1..]))
  }

  lemma {:induction false} ReadShown(nums: Numerals, s: State, shown: seq<Shown>)
    requires s.rel.Some? && InFile(s.rel) && AllReadAsTaken(nums, shown)
    ensures AddsTo(nums, s, AllLines(shown), AllTaken(shown))
    decreases |shown|
  {
    if shown == [] {
      NothingAdds(nums, s);
    } else {
      var b := shown[0];
      assert AddsTo(nums, s, b.lines, b.taken);
      ReadShown(nums, ReadPieces(nums, s, b.lines), shown[1..]);
      AddsToJoins(nums, s, b.lines, AllLines(shown[1..]), b.taken, AllTaken(shown[1..]));
    }
  }

  lemma {:induction false} AlikeInAll(nums: Numerals, shown: seq<Shown>)
    requires AllReadAsTaken(nums, shown)
    ensures Alike(AllTaken(shown), AllAdds(shown)) <==> AllAlike(shown)
  {
    if shown != [] {
      AlikeInAll(nums, shown[1..]);
      JoinsAlike(shown[0].taken, AllTaken(shown[1..]), shown[0].adds, AllAdds(shown[1..]));
    }
  }

  predicate HunkReadable(nums: Numerals, h: Hunk) {
    Harmless(nums, true, h.heading) && PartsReadable(nums, h.parts)
  }

  predicate HunksReadable(nums: Numerals, hunks: seq<Hunk>) {
    forall i | 0 <= i < |hunks| :: HunkReadable(nums, hunks[i])
  }

  ghost predicate AllOk(ok: Hunk -> bool, hunks: seq<Hunk>) {
    hunks == [] || (ok(hunks[0]) && AllOk(ok, hunks[1..]))
  }

  lemma {:induction false} ReadableAreOk(nums: Numerals, hunks: seq<Hunk>)
    requires HunksReadable(nums, hunks)
    ensures AllOk(h => HunkReadable(nums, h), hunks)
  {
    if hunks != [] {
      assert forall i | 0 < i < |hunks| :: hunks[i] == hunks[1..][i - 1];
      ReadableAreOk(nums, hunks[1..]);
    }
  }

  /** In no hunk a kept line comes before an addition. */
  predicate AllKeptLast(hunks: seq<Hunk>) {
    hunks == [] || (KeptLast(hunks[0].parts) && AllKeptLast(hunks[1..]))
  }

  predicate AsMany(parts: seq<Segment>, before: nat) {
    |Additions(parts, before)| == |AddedTexts(parts)|
  }

  lemma AsManyAfterKeep(parts: seq<Segment>, before: nat)
    requires parts != [] && parts[0].Keep? && AsMany(parts[1..], before + |parts[0].lines|)
    ensures AsMany(parts, before)
  {
    NothingAhead(Additions(parts[1..], before + |parts[0].lines|));
  }

  lemma AsManyAfterChange(parts: seq<Segment>, before: nat)
    requires parts != [] && parts[0].Change? && AsMany(parts[1..], before + |parts[0].added|)
    ensures AsMany(parts, before)
  {
    var first, rest := Numbered(parts[0].added, before + 1), Additions(parts[1..], before + |parts[0].added|);
    assert |first + rest| == |parts[0].added| + |rest|;
  }

  lemma {:induction false} AsManyAdded(parts: seq<Segment>, before: nat)
    ensures AsMany(parts, before)
    decreases |parts|
  {
    if parts != [] {
      if parts[0].Keep? {
        AsManyAdded(parts[1..], before + |parts[0].lines|);
        AsManyAfterKeep(parts, before);
      } else {
        AsManyAdded(parts[1..], before + |parts[0].added|);
        AsManyAfterChange(parts, before);
      }
    }
  }

  ghost predicate Shows(nums: Numerals, b: Shown, h: Hunk) {
    ReadAsTaken(nums, b) && (Alike(b.taken, b.adds) <==> KeptLast(h.parts))
  }

  ghost predicate AlwaysShows(nums: Numerals, show: HunkPrinter, ok: Hunk -> bool) {
    forall o: nat, n: nat, h: Hunk {:trigger show(o, n, h)} | ok(h) :: Shows(nums, show(o, n, h), h)
  }

  lemma HunkShown(nums: Numerals, oldBefore: nat, newBefore: nat, h: Hunk)
    requires HunkReadable(nums, h)
    ensures Shows(nums, ShowHunk(oldBefore, newBefore, h), h)
  {
    forall s: State | s.rel.Some? && InFile(s.rel)
      ensures AddsTo(nums, s, HunkLines(oldBefore, newBefore, h.heading, h.parts),
                     Numbered(AddedTexts(h.parts), newBefore + 1))
    {
      ReadHunk(nums, s, oldBefore, newBefore, h.heading, h.parts);
    }
    SameNumbersExactly(h.parts);
    assert ExactlyAt(h.parts, newBefore + 1, newBefore);
    NothingIsLast(h.parts);
    AsManyAdded(h.parts, newBefore);
  }

  lemma {:induction false} HunksShown(nums: Numerals, show: HunkPrinter, ok: Hunk -> bool, hunks: seq<Hunk>,
                                      oldBefore: nat, newBefore: nat)
    requires AlwaysShows(nums, show, ok) && AllOk(ok, hunks)
    ensures AllReadAsTaken(nums, ShowAllHunks(show, hunks, oldBefore, newBefore))
    ensures AllAlike(ShowAllHunks(show, hunks, oldBefore, newBefore)) <==> AllKeptLast(hunks)
    decreases |hunks|
  {
    if hunks != [] {
      var h := hunks[0];
      var o, n := oldBefore + |h.gap|, newBefore + |h.gap|;
      assert Shows(nums, show(o, n, h), h);
      var oldNext, next := o + |OldLines(h.parts)|, n + |NewLines(h.parts)|;
      HunksShown(nums, show, ok, hunks[1..], oldNext, next);
      ShownStep(nums, show(o, n, h), ShowAllHunks(show, hunks[1..], oldNext, next));
    }
  }

  lemma ShownStep(nums: Numerals, b: Shown, rest: seq<Shown>)
    requires ReadAsTaken(nums, b) && AllReadAsTaken(nums, rest)
    ensures AllReadAsTaken(nums, [b] + rest)
    ensures AllAlike([b] + rest) <==> Alike(b.taken, b.adds) && AllAlike(rest)
  {
    assert ([b] + rest)[0] == b && ([b] + rest)[1..] == rest;
  }

  /** The hunks of a file are read exactly if and only if in none of them a kept line comes before an addition. */
  lemma FusedIsExact(nums: Numerals, s: State, hunks: seq<Hunk>)
    requires s.rel.Some? && InFile(s.rel) && HunksReadable(nums, hunks)
    ensures var shown := ShowHunks(hunks);
            AddsTo(nums, s, AllLines(shown), AllAdds(shown)) <==> AllKeptLast(hunks)
  {
    var shown := ShowHunks(hunks);
    forall o: nat, n: nat, h: Hunk | HunkReadable(nums, h)
      ensures Shows(nums, ShowHunk(o, n, h), h)
    {
      HunkShown(nums, o, n, h);
    }
    ReadableAreOk(nums, hunks);
    HunksShown(nums, ShowHunk, h => HunkReadable(nums, h), hunks, 0, 0);
    ReadShown(nums, s, shown);
    AlikeInAll(nums, shown);
    EffectTells(s.added, s.rel, AllTaken(shown), AllAdds(shown));
  }
}
