/**
 Removed lines and hunk headings that hold a line separator: what they break off reaches the diff reader as lines
 of their own. Which texts are safe in every diff is exactly a question of those pieces.
 */
module DiffStray {
  import opened Wrappers
  import opened PyText
  import opened DiffReader

  // ----- The claim -----

  /** A file whose removed texts and headings break no line, except for the given ones. */
  ghost predicate DrawnFrom(f: FileDiff, removed: set<string>, headings: set<string>) {
    && Tidy(f) && AddedReadable(f.segments)
    && forall g | g in f.segments && g.Change? ::
         (Clean(Chomp(g.heading)) || g.heading in headings)
         && forall t | t in g.removed :: Clean(Chomp(t)) || t in removed
  }

  ghost predicate AllDrawnFrom(files: seq<FileDiff>, removed: set<string>, headings: set<string>) {
    DistinctPaths(files) && forall i | 0 <= i < |files| :: DrawnFrom(files[i], removed, headings)
  }

  ghost predicate ReadExactly(nums: Numerals, files: seq<FileDiff>) {
    ReadAll(nums, Text(DiffLines(files))) == Expected(files)
  }

  ghost predicate AlwaysExact(nums: Numerals, removed: set<string>, headings: set<string>) {
    forall files | AllDrawnFrom(files, removed, headings) :: ReadExactly(nums, files)
  }

  /**
   Every diff with these removed texts and headings is read exactly if and only if none of them breaks off a
   piece that begins with `+`, is a hunk header or begins with `diff --git `.
   */
  lemma StrayTextsAreSafe(nums: Numerals, removed: set<string>, headings: set<string>)
    ensures AlwaysExact(nums, removed, headings) <==>
            forall t | t in removed || t in headings :: Harmless(nums, true, t)
  {
    if forall t | t in removed || t in headings :: Harmless(nums, true, t) {
      forall files | AllDrawnFrom(files, removed, headings)
        ensures ReadExactly(nums, files)
      {
        HarmlessIsExact(nums, files, removed, headings);
      }
    }
    if t :| t in removed && !Harmless(nums, true, t) {
      HarmfulIsInexact(nums, "", t, removed, headings);
    }
    if t :| t in headings && !Harmless(nums, true, t) {
      HarmfulIsInexact(nums, t, "", removed, headings);
    }
  }

  // ----- Harmless texts -----

  lemma InertIsStray(nums: Numerals, named: bool, text: string)
    requires Harmless(nums, true, text)
    ensures Harmless(nums, named, text)
  {
    forall i | 0 <= i < |Broken(text)|
      ensures Stray(nums, named, Broken(text)[i])
    {
      assert Stray(nums, true, Broken(text)[i]);
    }
  }

  lemma SafeIsHarmless(nums: Numerals, named: bool, text: string, safe: set<string>)
    requires forall t | t in safe :: Harmless(nums, true, t)
    requires Clean(Chomp(text)) || text in safe
    ensures Harmless(nums, named, text)
  {
    if Clean(Chomp(text)) {
      ReadableIsHarmless(nums, named, text);
    } else {
      InertIsStray(nums, named, text);
    }
  }

  lemma PartIsHarmless(nums: Numerals, named: bool, g: Segment, removed: set<string>, headings: set<string>)
    requires forall t | t in removed || t in headings :: Harmless(nums, true, t)
    requires g.Change? && Readable(g.added) && (Clean(Chomp(g.heading)) || g.heading in headings)
    requires forall t | t in g.removed :: Clean(Chomp(t)) || t in removed
    ensures PartHarmless(nums, named, g)
  {
    SafeIsHarmless(nums, named, g.heading, headings);
    forall t | t in g.removed
      ensures Harmless(nums, named, t)
    {
      SafeIsHarmless(nums, named, t, removed);
    }
    forall t | t in g.added
      ensures Harmless(nums, named, t)
    {
      var i :| 0 <= i < |g.added| && g.added[i] == t;
      ReadableIsHarmless(nums, named, t);
    }
  }

  lemma HarmlessIsExact(nums: Numerals, files: seq<FileDiff>, removed: set<string>, headings: set<string>)
    requires forall t | t in removed || t in headings :: Harmless(nums, true, t)
    requires AllDrawnFrom(files, removed, headings)
    ensures ReadExactly(nums, files)
  {
    forall i | 0 <= i < |files|
      ensures Legible(nums, files[i])
    {
      var f := files[i];
      assert DrawnFrom(f, removed, headings);
      EachHarmless(nums, !Quoted(f.path), f.segments);
      forall g | g in f.segments
        ensures PartHarmless(nums, !Quoted(f.path), g)
      {
        if g.Change? {
          PartIsHarmless(nums, !Quoted(f.path), g, removed, headings);
        }
      }
    }
    ReadingPrintedDiff(nums, files);
  }

  // ----- Harmful texts: a diff that shows it -----

  /** `before` kept lines, then one change of a file `f`. */
  function Sample(before: nat, heading: string, removed: string, added: seq<string>): FileDiff {
    FileDiff("f", false, [], [Keep(Blank(before)), Change([removed], added, heading, false, false)])
  }

  function Blank(n: nat): (lines: seq<string>)
    ensures |lines| == n
  {
    seq(n, i requires 0 <= i < n => "")
  }

  /** What the reader meets between the hunk header and the added lines. */
  function Between(heading: string, removed: string): seq<string> {
    Broken(heading) + Pieces("-" + removed)
  }

  /** Inside a hunk of `f`, nothing read yet. */
  function Inside(number: nat): State {
    State(Some("f"), number, false, map[])
  }

  lemma ReadsHunk(nums: Numerals, s: State, before: nat, c: Segment)
    requires c.Change? && |c.removed| == 1 && Readable(c.added) && !c.bareOld && !c.bareNew
    ensures ReadPieces(nums, s, ChangeLines(before, before, c)) ==
            Run(nums, AfterHunkLine(s, before, c), Between(c.heading, c.removed[0]) + Marked('+', ChompAll(c.added)))
  {
    var removed := c.removed[0];
    assert c.removed == [removed];
    assert Marked('-', c.removed) == ["-" + removed];
    assert ChangeLines(before, before, c) ==
           [HunkLine(before, before, c)] + (["-" + removed] + Marked('+', c.added));
    HunkStemIsClean(before, before, c);
    PiecesPrefix(HunkStem(before, before, c), c.heading);
    var first := HunkStem(before, before, c) + Pieces(c.heading)[0];
    PiecesDistribute(["-" + removed], Marked('+', c.added));
    PiecesOfAdded(c.added);
    var rest := Between(c.heading, removed) + Marked('+', ChompAll(c.added));
    assert PiecesAll(["-" + removed]) == Pieces("-" + removed);
    assert PiecesAll(ChangeLines(before, before, c)) == [first] + rest;
    RunCons(nums, s, first, rest);
    StepHunkLine(nums, s, before, before, c, Pieces(c.heading)[0]);
  }

  lemma SampleIsNamed(nums: Numerals, f: FileDiff)
    requires f.path == "f" && Changes(f.segments)
    ensures !Quoted(f.path) && Label(f) == Some("f")
    ensures ReadPieces(nums, START, HeaderLines(f)).rel == Some("f")
    ensures ReadPieces(nums, START, HeaderLines(f)).added == map[]
    requires NotesClean(f.notes)
  {
    assert Tidy(f);
    HeaderIsReadable(f);
    PiecesOfClean(HeaderLines(f));
    RunHeader(nums, START, f);
    assert f.path + Tab(f.path) == f.path;
  }

  lemma SampleBody(before: nat, heading: string, removed: string, added: seq<string>)
    ensures var f := Sample(before, heading, removed, added);
            && BodyLines(f.segments) == ChangeLines(before, before, f.segments[1])
            && Additions(f.segments, 0) == Numbered(added, before + 1)
  {
    var f := Sample(before, heading, removed, added);
    var rest := f.segments[1..];
    assert rest[0] == f.segments[1] && rest[1..] == [];
    var nothing := ShowAll(PartLines, [], before + 1, before + |added|);
    assert nothing == [] && Additions([], before + |added|) == [];
    assert ShowAll(PartLines, rest, before, before) == PartLines(before, before, rest[0]) + nothing;
    assert Additions(rest, before) == AddedPart(rest[0], before) + [];
  }

  lemma ReadsSample(nums: Numerals, before: nat, heading: string, removed: string, added: seq<string>)
    requires Readable(added)
    ensures var number := if added == [] then before else before + 1;
            ReadAll(nums, Text(DiffLines([Sample(before, heading, removed, added)]))) ==
            Run(nums, Inside(number), Between(heading, removed) + Marked('+', ChompAll(added))).added
  {
    var f := Sample(before, heading, removed, added);
    assert f.segments[1].Change?;
    assert [f][..0] == [] && DiffLines([f]) == DiffLines([]) + FileLines(f);
    assert DiffLines([f]) == FileLines(f);
    PiecesOfText(FileLines(f));
    ReadsInOrder(nums, START, HeaderLines(f), BodyLines(f.segments));
    SampleIsNamed(nums, f);
    SampleBody(before, heading, removed, added);
    ReadsHunk(nums, ReadPieces(nums, START, HeaderLines(f)), before, f.segments[1]);
  }

  lemma SampleExpected(nums: Numerals, before: nat, heading: string, removed: string, added: seq<string>)
    ensures Expected([Sample(before, heading, removed, added)]) ==
            if added == [] then map[] else map["f" := Numbered(added, before + 1)]
  {
    var f := Sample(before, heading, removed, added);
    assert f.segments[1].Change?;
    SampleIsNamed(nums, f);
    SampleBody(before, heading, removed, added);
    assert [f][..0] == [] && Expected([]) == map[];
    assert [] + Numbered(added, before + 1) == Numbered(added, before + 1);
  }

  lemma SampleIsDrawn(before: nat, heading: string, removed: string, added: seq<string>,
                      removals: set<string>, headings: set<string>)
    requires Readable(added)
    requires (removed == "" || removed in removals) && (heading == "" || heading in headings)
    ensures AllDrawnFrom([Sample(before, heading, removed, added)], removals, headings)
  {
    var f := Sample(before, heading, removed, added);
    assert Clean(Chomp(""));
    forall g | g in f.segments && g.Change?
      ensures g == f.segments[1]
    {
    }
  }

  // ----- What a harmful piece does -----

  lemma {:induction false} ReportOnlyGrows(nums: Numerals, s: State, lines: seq<string>)
    ensures forall rel | rel in s.added :: rel in Run(nums, s, lines).added
  {
    if lines != [] {
      ReportOnlyGrows(nums, s, lines[..|lines| - 1]);
    }
  }

  /** States the reader cannot tell apart, as the next hunk header sets the number. */
  predicate Alike(s: State, t: State) {
    s.rel == t.rel && s.header == t.header && s.added == t.added && (s.header || s.number == t.number)
  }

  lemma {:induction false} AlikeStays(nums: Numerals, s: State, t: State, lines: seq<string>)
    requires Alike(s, t)
    ensures Alike(Run(nums, s, lines), Run(nums, t, lines))
  {
    if lines != [] {
      AlikeStays(nums, s, t, lines[..|lines| - 1]);
    }
  }

  lemma FirstHarm(nums: Numerals, lines: seq<string>) returns (i: nat)
    requires !AllStray(nums, true, lines)
    ensures i < |lines| && !Inert(nums, lines[i]) && AllStray(nums, true, lines[..i])
  {
    i := 0;
    while Inert(nums, lines[i])
      invariant i < |lines| && AllStray(nums, true, lines[..i])
      invariant exists k :: i <= k < |lines| && !Inert(nums, lines[k])
      decreases |lines| - i
    {
      assert lines[..i + 1] == lines[..i] + [lines[i]];
      i := i + 1;
    }
  }

  lemma CutAt(lines: seq<string>, i: nat)
    requires i < |lines|
    ensures lines == lines[..i] + ([lines[i]] + lines[i + 1..])
  {
  }

  lemma RunToHarm(nums: Numerals, number: nat, lines: seq<string>, i: nat)
    requires i < |lines| && AllStray(nums, true, lines[..i])
    ensures Run(nums, Inside(number), lines) == Run(nums, Step(nums, Inside(number), lines[i]), lines[i + 1..])
  {
    CutAt(lines, i);
    RunAppend(nums, Inside(number), lines[..i], [lines[i]] + lines[i + 1..]);
    RunStray(nums, Inside(number), lines[..i]);
    RunCons(nums, Inside(number), lines[i], lines[i + 1..]);
  }

  predicate TakenForHeader(nums: Numerals, line: string) {
    OpensFile(line) || HunkStart(nums, line).Some?
  }

  predicate Phantom(nums: Numerals, line: string) {
    Adds(line) && !TakenForHeader(nums, line)
  }

  /** A phantom addition: a piece that begins with `+` is reported. */
  lemma PhantomIsReported(nums: Numerals, number: nat, lines: seq<string>, i: nat)
    requires i < |lines| && AllStray(nums, true, lines[..i]) && Phantom(nums, lines[i])
    ensures "f" in Run(nums, Inside(number), lines).added
  {
    RunToHarm(nums, number, lines, i);
    ReportOnlyGrows(nums, Step(nums, Inside(number), lines[i]), lines[i + 1..]);
  }

  /** A piece that is taken for a header makes the reader forget where it was. */
  lemma HeaderForgets(nums: Numerals, m: nat, n: nat, lines: seq<string>, i: nat)
    requires i < |lines| && AllStray(nums, true, lines[..i]) && TakenForHeader(nums, lines[i])
    ensures Run(nums, Inside(m), lines).added == Run(nums, Inside(n), lines).added
  {
    RunToHarm(nums, m, lines, i);
    RunToHarm(nums, n, lines, i);
    AlikeStays(nums, Step(nums, Inside(m), lines[i]), Step(nums, Inside(n), lines[i]), lines[i + 1..]);
  }

  lemma OneIsEnough(nums: Numerals, files: seq<FileDiff>, removals: set<string>, headings: set<string>)
    requires AllDrawnFrom(files, removals, headings) && !ReadExactly(nums, files)
    ensures !AlwaysExact(nums, removals, headings)
  {
  }

  lemma HarmfulIsInexact(nums: Numerals, heading: string, removed: string, removals: set<string>, headings: set<string>)
    requires (removed == "" || removed in removals) && (heading == "" || heading in headings)
    requires !Harmless(nums, true, heading) || !Harmless(nums, true, removed)
    ensures !AlwaysExact(nums, removals, headings)
  {
    BetweenHarms(nums, heading, removed);
    var i := FirstHarm(nums, Between(heading, removed));
    if TakenForHeader(nums, Between(heading, removed)[i]) {
      var before := ForgetfulIsInexact(nums, heading, removed, i);
      assert Clean(Chomp("z"));
      SampleIsDrawn(before, heading, removed, ["z"], removals, headings);
      OneIsEnough(nums, [Sample(before, heading, removed, ["z"])], removals, headings);
    } else {
      PhantomIsInexact(nums, heading, removed, i);
      SampleIsDrawn(0, heading, removed, [], removals, headings);
      OneIsEnough(nums, [Sample(0, heading, removed, [])], removals, headings);
    }
  }

  lemma PhantomIsInexact(nums: Numerals, heading: string, removed: string, i: nat)
    requires i < |Between(heading, removed)| && AllStray(nums, true, Between(heading, removed)[..i])
    requires Phantom(nums, Between(heading, removed)[i])
    ensures Expected([Sample(0, heading, removed, [])]) == map[]
    ensures "f" in ReadAll(nums, Text(DiffLines([Sample(0, heading, removed, [])])))
    ensures !ReadExactly(nums, [Sample(0, heading, removed, [])])
  {
    var between := Between(heading, removed);
    PhantomIsReported(nums, 0, between, i);
    ReadsSample(nums, 0, heading, removed, []);
    assert between + Marked('+', ChompAll([])) == between;
    SampleExpected(nums, 0, heading, removed, []);
  }

  lemma BetweenHarms(nums: Numerals, heading: string, removed: string)
    requires !Harmless(nums, true, heading) || !Harmless(nums, true, removed)
    ensures !AllStray(nums, true, Between(heading, removed))
  {
    PiecesPrefix("-", removed);
    var between := Between(heading, removed);
    if i :| 0 <= i < |Broken(heading)| && !Inert(nums, Broken(heading)[i]) {
      assert between[i] == Broken(heading)[i];
      assert !Stray(nums, true, between[i]);
    } else {
      var i :| 0 <= i < |Broken(removed)| && !Stray(nums, true, Broken(removed)[i]);
      assert between[|Broken(heading)| + 1 + i] == Broken(removed)[i];
    }
  }

  /** What is reported when `z` is added after all that. */
  function ReportOfZ(nums: Numerals, before: nat, heading: string, removed: string): map<string, Lines> {
    ReadAll(nums, Text(DiffLines([Sample(before, heading, removed, ["z"])])))
  }

  function RunToZ(nums: Numerals, number: nat, heading: string, removed: string): map<string, Lines> {
    Run(nums, Inside(number), Between(heading, removed) + Marked('+', ChompAll(["z"]))).added
  }

  lemma ReportRuns(nums: Numerals, before: nat, number: nat, heading: string, removed: string)
    requires number == before + 1
    ensures ReportOfZ(nums, before, heading, removed) == RunToZ(nums, number, heading, removed)
  {
    assert Clean(Chomp("z"));
    ReadsSample(nums, before, heading, removed, ["z"]);
  }

  lemma RunForgets(nums: Numerals, heading: string, removed: string, i: nat)
    requires i < |Between(heading, removed)| && AllStray(nums, true, Between(heading, removed)[..i])
    requires TakenForHeader(nums, Between(heading, removed)[i])
    ensures RunToZ(nums, 1, heading, removed) == RunToZ(nums, 2, heading, removed)
  {
    ForgetsWithMore(nums, 1, 2, Between(heading, removed), Marked('+', ChompAll(["z"])), i);
  }

  lemma SameReportTwice(nums: Numerals, heading: string, removed: string, i: nat)
    requires i < |Between(heading, removed)| && AllStray(nums, true, Between(heading, removed)[..i])
    requires TakenForHeader(nums, Between(heading, removed)[i])
    ensures ReportOfZ(nums, 0, heading, removed) == ReportOfZ(nums, 1, heading, removed)
  {
    RunForgets(nums, heading, removed, i);
    ReportRuns(nums, 0, 1, heading, removed);
    ReportRuns(nums, 1, 2, heading, removed);
  }

  lemma ForgetsWithMore(nums: Numerals, m: nat, n: nat, lines: seq<string>, more: seq<string>, i: nat)
    requires i < |lines| && AllStray(nums, true, lines[..i]) && TakenForHeader(nums, lines[i])
    ensures Run(nums, Inside(m), lines + more).added == Run(nums, Inside(n), lines + more).added
  {
    assert (lines + more)[..i] == lines[..i] && (lines + more)[i] == lines[i];
    HeaderForgets(nums, m, n, lines + more, i);
  }

  lemma OtherTruth(nums: Numerals, heading: string, removed: string)
    ensures Expected([Sample(0, heading, removed, ["z"])]) != Expected([Sample(1, heading, removed, ["z"])])
  {
    SampleExpected(nums, 0, heading, removed, ["z"]);
    SampleExpected(nums, 1, heading, removed, ["z"]);
    assert Numbered(["z"], 1)[0].0 == 1 && Numbered(["z"], 2)[0].0 == 2;
    assert map["f" := Numbered(["z"], 1)]["f"] != map["f" := Numbered(["z"], 2)]["f"];
  }

  /** With an added line after it, in one of two places the number must be wrong. */
  lemma ForgetfulIsInexact(nums: Numerals, heading: string, removed: string, i: nat) returns (before: nat)
    requires i < |Between(heading, removed)| && AllStray(nums, true, Between(heading, removed)[..i])
    requires TakenForHeader(nums, Between(heading, removed)[i])
    ensures !ReadExactly(nums, [Sample(before, heading, removed, ["z"])])
  {
    SameReportTwice(nums, heading, removed, i);
    OtherTruth(nums, heading, removed);
    before := if ReadExactly(nums, [Sample(0, heading, removed, ["z"])]) then 1 else 0;
  }

  // ----- Inputs -----

  lemma BrokenOnce(first: string, separator: char, second: string)
    requires Clean(first) && Clean(second) && IsBreak(separator) && separator != '\r'
    ensures Broken(first + ([separator] + second)) == [second]
  {
    PiecesPrefix(first, [separator] + second);
    var s := [separator] + second + "\n";
    assert s[1..] == second + "\n" && s[..2][0] == separator;
    SplitStep(s);
    CleanChomps(second);
    PiecesOfReadable(second);
  }

  /**
   A removed line, or a heading, with a line separator and a `+` after it: nothing is added, and yet the
   report names the file.
   */
  lemma PhantomWitness(nums: Numerals, inHeading: bool)
    ensures var text := "x" + (['\U{2028}'] + "+y");
            var f := if inHeading then Sample(0, text, "", []) else Sample(0, "", text, []);
            && Tidy(f) && AddedUnderNamesReadable([f])
            && Expected([f]) == map[] && "f" in ReadAll(nums, Text(DiffLines([f])))
  {
    var text := "x" + (['\U{2028}'] + "+y");
    var heading, removed := if inHeading then text else "", if inHeading then "" else text;
    assert Clean("x") && Clean("+y") && Clean("");
    BrokenOnce("x", '\U{2028}', "+y");
    ReadableIsHarmless(nums, true, "");
    PiecesOfReadable("");
    PlusIsPhantom(nums, "+y");
    PiecesPrefix("-", removed);
    MarkIsInert(nums, "-" + Pieces(removed)[0]);
    var between := Between(heading, removed);
    if inHeading {
      assert between[0] == "+y";
      PhantomIsInexact(nums, heading, removed, 0);
    } else {
      assert between == ["-" + Pieces(removed)[0]] + ["+y"];
      PhantomIsInexact(nums, heading, removed, 1);
    }
    SampleIsDrawn(0, heading, removed, [], {removed}, {heading});
  }

  lemma PlusIsPhantom(nums: Numerals, line: string)
    requires line != "" && line[0] == '+'
    ensures Phantom(nums, line)
  {
    assert "@@ -"[0] == '@' && line[..1] == "+";
    PlusOpensNothing(line);
    StartsApart(line, "@@ -");
  }

  /** A removed text that breaks off what looks like the header of a hunk. */
  function FalseHeader(): string {
    "x" + (['\U{2028}'] + HunkStem(0, 0, Change([""], ["z"], "", false, false)))
  }

  lemma FalseHeaderBreaks(nums: Numerals)
    ensures var stem := HunkStem(0, 0, Change([""], ["z"], "", false, false));
            Broken(FalseHeader()) == [stem] && HunkStart(nums, stem).Some? && stem[0] == '@'
  {
    var c := Change([""], ["z"], "", false, false);
    var stem := HunkStem(0, 0, c);
    assert Clean("x");
    HunkStemIsClean(0, 0, c);
    BrokenOnce("x", '\U{2028}', stem);
    HunkStartOfHunk(nums, 0, 0, c, "");
    assert stem + "" == stem;
  }

  /** Whether harm shows depends on what follows: a false hunk header with nothing added after it changes nothing. */
  lemma HarmMayNotShow(nums: Numerals)
    ensures !Harmless(nums, true, FalseHeader()) && ReadExactly(nums, [Sample(0, "", FalseHeader(), [])])
  {
    FalseHeaderBreaks(nums);
    var text := FalseHeader();
    var stem := Broken(text)[0];
    assert !Stray(nums, true, stem);
    ReadableIsHarmless(nums, true, "");
    PiecesOfReadable("");
    PiecesPrefix("-", text);
    var first := "-" + Pieces(text)[0];
    MarkIsInert(nums, first);
    var between := Between("", text);
    assert between == [first] + [stem];
    assert between[..1] == [first] && between[1] == stem && between[2..] == [];
    RunToHarm(nums, 0, between, 1);
    NotAnOpening(stem);
    assert Run(nums, Inside(0), between).added == map[];
    ReadsSample(nums, 0, "", text, []);
    assert between + Marked('+', ChompAll([])) == between;
    SampleExpected(nums, 0, "", text, []);
  }

  // ----- Numerals of other scripts -----

  lemma OneNumeral(nums: Numerals, c: char, rest: string)
    requires IsNumeral(nums, c) && rest != "" && rest[0] == ' '
    ensures TakeRange(nums, [c] + rest) == Some((nums.value(c).value, rest))
  {
    var s := [c] + rest;
    AsciiNumeral(nums, ' ');
    assert s[1..] == rest && s[..1] == [c];
    assert Digits(nums, rest) == 0;
    assert Digits(nums, s) == 1;
  }

  /** What looks like a hunk header is one in the digits of any script. */
  lemma HeaderInNumerals(nums: Numerals, a: char, b: char)
    requires IsNumeral(nums, a) && IsNumeral(nums, b)
    ensures HunkStart(nums, "@@ -" + ([a] + (" +" + ([b] + " @@")))) == nums.value(b)
  {
    var rest := " +" + ([b] + " @@");
    var line := "@@ -" + ([a] + rest);
    OneNumeral(nums, a, rest);
    OneNumeral(nums, b, " @@");
    assert line[..4] == "@@ -" && line[4..] == [a] + rest;
    assert rest[..2] == " +" && rest[2..] == [b] + " @@";
  }

  /** A removed text that breaks off a hunk header in Arabic-Indic digits. */
  function ForeignHeader(): string {
    "x" + (['\U{2028}'] + ("@@ -" + (['\U{661}'] + (" +" + (['\U{667}'] + " @@")))))
  }

  /** Whether that does harm is up to the digits the reader knows. */
  lemma ForeignHeaderWitness(nums: Numerals)
    requires nums.value('\U{661}') == Some(1) && nums.value('\U{667}') == Some(7)
    ensures !Harmless(nums, true, ForeignHeader())
  {
    var second := "@@ -" + (['\U{661}'] + (" +" + (['\U{667}'] + " @@")));
    assert Clean("x") && Clean("@@ -") && Clean(" +") && Clean(" @@");
    BrokenOnce("x", '\U{2028}', second);
    HeaderInNumerals(nums, '\U{661}', '\U{667}');
    assert !Stray(nums, true, Broken(ForeignHeader())[0]);
  }
}
