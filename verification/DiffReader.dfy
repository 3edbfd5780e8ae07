/**
 The reader of a staged zero-context diff: it must recover, per file, exactly the added lines with their
 numbers in the new file, and then drop those the other side of a merge already has.
 */
module DiffReader {
  import opened Wrappers
  import opened PyText

  // ----- Lines of text -----

  /** The lines as git writes them. */
  function Text(lines: seq<string>): string {
    if lines == [] then "" else lines[0] + "\n" + Text(lines[1..])
  }

  /** A line of a file with CRLF endings still carries its carriage return; reading takes it for part of the break. */
  function Chomp(line: string): string {
    if line != [] && line[|line| - 1] == '\r' then line[..|line| - 1] else line
  }

  /** One carriage return at the end goes, and nothing else. */
  lemma ChompMeans(line: string)
    ensures Chomp(line + ['\r']) == line
    ensures (line == "" || line[|line| - 1] != '\r') ==> Chomp(line) == line
  {
    assert (line + ['\r'])[..|line|] == line;
  }

  function ChompAll(lines: seq<string>): (r: seq<string>)
    ensures |r| == |lines|
  {
    if lines == [] then [] else [Chomp(lines[0])] + ChompAll(lines[1..])
  }

  predicate Readable(lines: seq<string>) {
    forall i | 0 <= i < |lines| :: Clean(Chomp(lines[i]))
  }

  lemma {:induction false} SplitOne(line: string, ending: string, rest: string)
    requires Clean(line) && (ending == "\n" || ending == "\r\n")
    ensures SplitLines(line + ending + rest) == [line] + SplitLines(rest)
  {
    var s := line + ending + rest;
    if line == [] {
      assert s[|ending|..] == rest;
      assert s[0] == ending[0];
    } else {
      SplitOne(line[1..], ending, rest);
      assert s[1..] == line[1..] + ending + rest;
      assert [line[0]] + line[1..] == line;
    }
  }

  /** What the reader sees of one printed line: several lines where the text breaks inside. */
  function Pieces(line: string): (pieces: seq<string>)
    ensures pieces != []
  {
    SplitLines(line + "\n")
  }

  /** The lines a text spills over when it is printed behind a mark. */
  function Broken(text: string): seq<string> {
    Pieces(text)[1..]
  }

  function PiecesAll(lines: seq<string>): seq<string> {
    if lines == [] then [] else Pieces(lines[0]) + PiecesAll(lines[1..])
  }

  predicate JoinsAt(line: string, rest: string) {
    SplitLines(line + "\n" + rest) == Pieces(line) + SplitLines(rest)
  }

  /** The end of a printed line is always a break of its own. */
  lemma {:induction false} SplitJoins(line: string, rest: string)
    ensures JoinsAt(line, rest)
    decreases |line|
  {
    if line == "" {
      JoinsAtEnd(rest);
    } else if line == "\r" {
      JoinsAtReturn(rest);
    } else if |line| >= 2 && line[..2] == "\r\n" {
      SplitJoins(line[2..], rest);
      JoinsTwoFurther(line, rest);
    } else {
      SplitJoins(line[1..], rest);
      JoinsOneFurther(line, rest);
    }
  }

  lemma JoinsAtEnd(rest: string)
    ensures JoinsAt("", rest)
  {
    var s, alone := "" + "\n" + rest, "" + "\n";
    assert s[1..] == rest && alone[1..] == "";
    assert SplitLines(s) == [""] + SplitLines(rest);
    assert SplitLines(alone) == [""];
  }

  lemma JoinsAtReturn(rest: string)
    ensures JoinsAt("\r", rest)
  {
    var s, alone := "\r" + "\n" + rest, "\r" + "\n";
    assert s[2..] == rest && alone[2..] == "";
    assert SplitLines(s) == [""] + SplitLines(rest);
    assert SplitLines(alone) == [""];
  }

  lemma JoinsTwoFurther(line: string, rest: string)
    requires |line| >= 2 && line[..2] == "\r\n" && JoinsAt(line[2..], rest)
    ensures JoinsAt(line, rest)
  {
    var s, alone := line + "\n" + rest, line + "\n";
    assert s[2..] == line[2..] + "\n" + rest && alone[2..] == line[2..] + "\n";
    assert s[..2] == "\r\n" == alone[..2];
    SplitStep(s);
    SplitStep(alone);
    FirstJoins("", Pieces(line[2..]), SplitLines(rest));
  }

  lemma JoinsOneFurther(line: string, rest: string)
    requires line != "" && line != "\r" && !(|line| >= 2 && line[..2] == "\r\n") && JoinsAt(line[1..], rest)
    ensures JoinsAt(line, rest)
  {
    var s, alone := line + "\n" + rest, line + "\n";
    assert s[1..] == line[1..] + "\n" + rest && alone[1..] == line[1..] + "\n";
    assert s[..2] == alone[..2] == [line[0], if |line| >= 2 then line[1] else '\n'];
    assert s[..2] != "\r\n" by {
      if |line| >= 2 {
        assert line[..2] == s[..2];
      } else {
        assert line == [line[0]];
      }
    }
    SplitStep(s);
    SplitStep(alone);
    FirstJoins([line[0]], Pieces(line[1..]), SplitLines(rest));
  }

  lemma FirstJoins(start: string, a: seq<string>, b: seq<string>)
    requires a != []
    ensures [start + (a + b)[0]] + (a + b)[1..] == ([start + a[0]] + a[1..]) + b
    ensures [""] + (a + b) == [""] + a + b
  {
  }

  lemma SplitStep(s: string)
    requires |s| >= 2
    ensures s[..2] == "\r\n" ==> SplitLines(s) == [""] + SplitLines(s[2..])
    ensures IsBreak(s[0]) && s[..2] != "\r\n" ==> SplitLines(s) == [""] + SplitLines(s[1..])
    ensures !IsBreak(s[0]) ==> SplitLines(s[1..]) != []
                               && SplitLines(s) == [[s[0]] + SplitLines(s[1..])[0]] + SplitLines(s[1..])[1..]
  {
    assert s[..2] == [s[0], s[1]];
  }

  lemma {:induction false} PiecesOfText(lines: seq<string>)
    ensures SplitLines(Text(lines)) == PiecesAll(lines)
  {
    if lines != [] {
      PiecesOfText(lines[1..]);
      SplitJoins(lines[0], Text(lines[1..]));
    }
  }

  lemma PiecesOfReadable(line: string)
    requires Clean(Chomp(line))
    ensures Pieces(line) == [Chomp(line)]
  {
    if Chomp(line) == line {
      SplitOne(line, "\n", "");
      assert line + "\n" + "" == line + "\n";
    } else {
      SplitOne(Chomp(line), "\r\n", "");
      assert line + "\n" == Chomp(line) + "\r\n" + "";
    }
  }

  /** Splitting undoes printing for texts that break no line inside. */
  lemma {:induction false} SplitInvertsText(lines: seq<string>)
    requires Readable(lines)
    ensures SplitLines(Text(lines)) == ChompAll(lines) == PiecesAll(lines)
  {
    PiecesOfText(lines);
    if lines != [] {
      SplitInvertsText(lines[1..]);
      PiecesOfText(lines[1..]);
      PiecesOfReadable(lines[0]);
    }
  }

  lemma {:induction false} PiecesDistribute(a: seq<string>, b: seq<string>)
    ensures PiecesAll(a + b) == PiecesAll(a) + PiecesAll(b)
  {
    if a == [] {
      assert a + b == b;
    } else {
      assert (a + b)[1..] == a[1..] + b;
      PiecesDistribute(a[1..], b);
    }
  }

  /** A clean beginning stays with the first piece. */
  lemma {:induction false} PiecesPrefix(prefix: string, text: string)
    requires Clean(prefix)
    ensures Pieces(prefix + text) == [prefix + Pieces(text)[0]] + Broken(text)
  {
    if prefix == "" {
      assert prefix + text == text && prefix + Pieces(text)[0] == Pieces(text)[0];
    } else {
      PiecesPrefix(prefix[1..], text);
      var s := prefix + text + "\n";
      assert s[1..] == prefix[1..] + text + "\n";
      assert (prefix + text) + "\n" == s;
      SplitStep(s);
      assert [prefix[0]] + (prefix[1..] + Pieces(text)[0]) == prefix + Pieces(text)[0];
    }
  }

  lemma {:induction false} ChompDistributes(a: seq<string>, b: seq<string>)
    ensures ChompAll(a + b) == ChompAll(a) + ChompAll(b)
  {
    if a == [] {
      assert a + b == b;
    } else {
      assert (a + b)[1..] == a[1..] + b;
      ChompDistributes(a[1..], b);
    }
  }

  // ----- The diff git prints -----

  /** Part of an edit script: lines kept, or lines removed and added in their place. */
  datatype Segment =
    | Keep(lines: seq<string>)
    | Change(removed: seq<string>, added: seq<string>, heading: string, bareOld: bool, bareNew: bool)

  /** The extended header lines. */
  datatype Kind = Index | NewFileMode | OldMode | NewMode | Similarity | CopyFrom | CopyTo | Binary

  datatype Note = Note(kind: Kind, text: string)

  datatype FileDiff = FileDiff(path: string, created: bool, notes: seq<Note>, segments: seq<Segment>)

  function NewPart(g: Segment): seq<string> {
    if g.Keep? then g.lines else g.added
  }

  function OldPart(g: Segment): seq<string> {
    if g.Keep? then g.lines else g.removed
  }

  function KeptPart(g: Segment): seq<string> {
    if g.Keep? then g.lines else []
  }

  function NewLines(segments: seq<Segment>): seq<string> {
    if segments == [] then [] else NewPart(segments[0]) + NewLines(segments[1..])
  }

  function KeptLines(segments: seq<Segment>): seq<string> {
    if segments == [] then [] else KeptPart(segments[0]) + KeptLines(segments[1..])
  }

  function Prefix(kind: Kind): string {
    match kind
    case Index => "index "
    case NewFileMode => "new file mode "
    case OldMode => "old mode "
    case NewMode => "new mode "
    case Similarity => "similarity index "
    case CopyFrom => "copy from "
    case CopyTo => "copy to "
    case Binary => "Binary files "
  }

  function NoteLine(note: Note): string {
    Prefix(note.kind) + note.text
  }

  function NoteLines(notes: seq<Note>): seq<string> {
    if notes == [] then [] else [NoteLine(notes[0])] + NoteLines(notes[1..])
  }

  /** The characters git quotes in a name even when `core.quotePath` is off. */
  predicate NeedsQuote(c: char) {
    c < ' ' || c == '"' || c == '\\' || c == '\U{7F}'
  }

  predicate Quoted(path: string) {
    exists i | 0 <= i < |path| :: NeedsQuote(path[i])
  }

  function Octal(n: nat): string
    requires n < 512
  {
    [DigitOf(n / 64), DigitOf(n / 8 % 8), DigitOf(n % 8)]
  }

  function Escaped(c: char): string {
    if !NeedsQuote(c) then [c]
    else if c == '"' || c == '\\' then ['\\', c]
    else if '\U{07}' <= c <= '\r' then ['\\', "abtnvfr"[c as int - 7]]
    else ['\\'] + Octal(c as int)
  }

  function Spelled(path: string): string {
    if path == [] then [] else Escaped(path[0]) + Spelled(path[1..])
  }

  function Name(side: string, path: string): string {
    if Quoted(path) then "\"" + side + Spelled(path) + "\"" else side + path
  }

  /** Git ends a name that contains a space with a tab. */
  function Tab(path: string): string {
    if ' ' in path then "\t" else ""
  }

  predicate Changes(segments: seq<Segment>) {
    exists i | 0 <= i < |segments| :: segments[i].Change?
  }

  function HeaderLines(f: FileDiff): seq<string> {
    ["diff --git " + Name("a/", f.path) + " " + Name("b/", f.path)] + (NoteLines(f.notes) + NameLines(f))
  }

  /** Only a file with hunks has these two. */
  function NameLines(f: FileDiff): seq<string> {
    if !Changes(f.segments) then []
    else [if f.created then "--- /dev/null" else "--- " + Name("a/", f.path) + Tab(f.path),
          "+++ " + Name("b/", f.path) + Tab(f.path)]
  }

  /** A range with `before` lines ahead of it: an empty one names the line before it, and a count of one is left out. */
  function Range(before: nat, count: nat): string {
    Decimal(if count == 0 then before else before + 1) + if count == 1 then "" else "," + Decimal(count)
  }

  /** A hunk header up to the heading. */
  function HunkStem(oldBefore: nat, newBefore: nat, c: Segment): string
    requires c.Change?
  {
    "@@ -" + Range(oldBefore, |c.removed|) + " +" + Range(newBefore, |c.added|) + " @@" +
    if c.heading == "" then "" else " "
  }

  function HunkLine(oldBefore: nat, newBefore: nat, c: Segment): string
    requires c.Change?
  {
    HunkStem(oldBefore, newBefore, c) + c.heading
  }

  function Marked(mark: char, texts: seq<string>): (r: seq<string>)
    ensures |r| == |texts|
  {
    if texts == [] then [] else [[mark] + texts[0]] + Marked(mark, texts[1..])
  }

  lemma {:induction false} MarkedAt(mark: char, texts: seq<string>)
    ensures forall i | 0 <= i < |texts| :: Marked(mark, texts)[i] == [mark] + texts[i]
  {
    if texts != [] {
      MarkedAt(mark, texts[1..]);
    }
  }

  function BareLine(bare: bool): seq<string> {
    if bare then ["\\ No newline at end of file"] else []
  }

  function ChangeLines(oldBefore: nat, newBefore: nat, c: Segment): seq<string>
    requires c.Change?
  {
    [HunkLine(oldBefore, newBefore, c)] + (Marked('-', c.removed) + BareLine(c.bareOld)) +
    (Marked('+', c.added) + BareLine(c.bareNew))
  }

  function PartLines(oldBefore: nat, newBefore: nat, g: Segment): seq<string> {
    if g.Keep? then [] else ChangeLines(oldBefore, newBefore, g)
  }

  type Printer = (nat, nat, Segment) -> seq<string>

  /** The hunks of a file, each printed by `show` from the lines that precede it on either side. */
  function ShowAll(show: Printer, segments: seq<Segment>, oldBefore: nat, newBefore: nat): seq<string>
    decreases |segments|
  {
    if segments == [] then []
    else
      show(oldBefore, newBefore, segments[0]) +
      ShowAll(show, segments[1..], oldBefore + |OldPart(segments[0])|, newBefore + |NewPart(segments[0])|)
  }

  function BodyLines(segments: seq<Segment>): seq<string> {
    ShowAll(PartLines, segments, 0, 0)
  }

  function FileLines(f: FileDiff): seq<string> {
    HeaderLines(f) + BodyLines(f.segments)
  }

  function DiffLines(files: seq<FileDiff>): seq<string> {
    if files == [] then [] else DiffLines(files[..|files| - 1]) + FileLines(files[|files| - 1])
  }

  // ----- Reading it -----

  predicate StartsWith(s: string, prefix: string) {
    |prefix| <= |s| && s[..|prefix|] == prefix
  }

  function Digits(nums: Numerals, s: string): nat {
    if s != [] && IsNumeral(nums, s[0]) then 1 + Digits(nums, s[1..]) else 0
  }

  lemma {:induction false} DigitsBound(nums: Numerals, s: string)
    ensures Digits(nums, s) <= |s| && forall i | 0 <= i < Digits(nums, s) :: IsNumeral(nums, s[i])
  {
    if s != [] && IsNumeral(nums, s[0]) {
      DigitsBound(nums, s[1..]);
    }
  }

  /** One `\d+(?:,\d+)?`: the first number, and what follows both. */
  function TakeRange(nums: Numerals, s: string): Option<(nat, string)> {
    DigitsBound(nums, s);
    var n := Digits(nums, s);
    if n == 0 then None
    else
      var rest := s[n..];
      DigitsBound(nums, if rest == [] then [] else rest[1..]);
      var skipped :=
        if rest != [] && rest[0] == ',' && Digits(nums, rest[1..]) > 0
        then rest[1 + Digits(nums, rest[1..])..]
        else rest;
      Some((ParseNumber(nums, s[..n]), skipped))
  }

  /** The part of `HUNK_RE` after the old range. */
  function NewStart(nums: Numerals, rest: string): Option<nat> {
    if !StartsWith(rest, " +") then None
    else
      match TakeRange(nums, rest[2..])
      case None => None
      case Some((number, tail)) => if StartsWith(tail, " @@") then Some(number) else None
  }

  /** `HUNK_RE.match`: the first line of the new range. */
  function HunkStart(nums: Numerals, line: string): Option<nat> {
    if !StartsWith(line, "@@ -") || TakeRange(nums, line[4..]).None? then None
    else NewStart(nums, TakeRange(nums, line[4..]).value.1)
  }

  type Lines = seq<(nat, string)>

  datatype State = State(rel: Option<string>, number: nat, header: bool, added: map<string, Lines>)

  const START := State(None, 0, false, map[])

  function Get(added: map<string, Lines>, rel: string): Lines {
    if rel in added then added[rel] else []
  }

  function Appended(added: map<string, Lines>, rel: string, lines: Lines): map<string, Lines> {
    if lines == [] then added else added[rel := Get(added, rel) + lines]
  }

  predicate OpensFile(line: string) {
    StartsWith(line, "diff --git ")
  }

  predicate NamesFile(line: string) {
    StartsWith(line, "+++ b/")
  }

  predicate Adds(line: string) {
    StartsWith(line, "+")
  }

  function Step(nums: Numerals, s: State, line: string): State {
    if OpensFile(line) then s.(rel := None, header := true)
    else if s.header then
      if NamesFile(line) then s.(rel := Some(line[6..]))
      else if HunkStart(nums, line).Some? then s.(number := HunkStart(nums, line).value, header := false)
      else s
    else if HunkStart(nums, line).Some? then s.(number := HunkStart(nums, line).value)
    else if s.rel.Some? && s.rel.value != "" && Adds(line) then
      s.(added := Appended(s.added, s.rel.value, [(s.number, line[1..])]), number := s.number + 1)
    else s
  }

  function Run(nums: Numerals, s: State, lines: seq<string>): State {
    if lines == [] then s else Step(nums, Run(nums, s, lines[..|lines| - 1]), lines[|lines| - 1])
  }

  lemma {:induction false} RunAppend(nums: Numerals, s: State, a: seq<string>, b: seq<string>)
    ensures Run(nums, s, a + b) == Run(nums, Run(nums, s, a), b)
  {
    if b == [] {
      assert a + b == a;
    } else {
      RunAppend(nums, s, a, b[..|b| - 1]);
      assert (a + b)[..|a + b| - 1] == a + b[..|b| - 1];
    }
  }

  lemma RunOne(nums: Numerals, s: State, line: string)
    ensures Run(nums, s, [line]) == Step(nums, s, line)
  {
    assert [line][..0] == [];
  }

  lemma RunCons(nums: Numerals, s: State, line: string, rest: seq<string>)
    ensures Run(nums, s, [line] + rest) == Run(nums, Step(nums, s, line), rest)
  {
    RunAppend(nums, s, [line], rest);
    RunOne(nums, s, line);
  }

  // ----- What a diff adds -----

  function Numbered(texts: seq<string>, first: nat): (r: Lines)
    ensures |r| == |texts|
  {
    if texts == [] then [] else [(first, Chomp(texts[0]))] + Numbered(texts[1..], first + 1)
  }

  lemma {:induction false} NumberedAt(texts: seq<string>, first: nat)
    ensures forall i | 0 <= i < |texts| :: Numbered(texts, first)[i] == (first + i, Chomp(texts[i]))
  {
    if texts != [] {
      NumberedAt(texts[1..], first + 1);
    }
  }

  function AddedPart(g: Segment, before: nat): Lines {
    if g.Keep? then [] else Numbered(g.added, before + 1)
  }

  /** The lines an edit script adds, numbered in the new file when `before` lines precede it. */
  function Additions(segments: seq<Segment>, before: nat): Lines {
    if segments == [] then []
    else AddedPart(segments[0], before) + Additions(segments[1..], before + |NewPart(segments[0])|)
  }

  /** Lines added at their numbers, kept lines everywhere else. */
  function Rebuilt(kept: seq<string>, added: Lines, next: nat): seq<string>
    decreases |kept| + |added|
  {
    if added != [] && added[0].0 == next then [added[0].1] + Rebuilt(kept, added[1..], next + 1)
    else if kept == [] then []
    else [kept[0]] + Rebuilt(kept[1..], added, next + 1)
  }

  /** The equation of `Rebuilt`, as a predicate so that uses do not unfold it. */
  predicate RebuildsTo(kept: seq<string>, added: Lines, next: nat, lines: seq<string>) {
    Rebuilt(kept, added, next) == lines
  }

  lemma {:induction false} RebuiltKeeps(texts: seq<string>, kept: seq<string>, added: Lines, next: nat,
                                        lines: seq<string>)
    requires added == [] || added[0].0 >= next + |texts|
    requires RebuildsTo(kept, added, next + |texts|, lines)
    ensures RebuildsTo(texts + kept, added, next, texts + lines)
  {
    if texts == [] {
      assert texts + kept == kept && texts + lines == lines;
    } else {
      RebuiltKeeps(texts[1..], kept, added, next + 1, lines);
      assert (texts + kept)[1..] == texts[1..] + kept;
      assert texts + lines == [texts[0]] + (texts[1..] + lines);
    }
  }

  lemma RebuiltAddsOne(text: string, kept: seq<string>, added: Lines, next: nat, lines: seq<string>)
    requires RebuildsTo(kept, added, next + 1, lines)
    ensures RebuildsTo(kept, [(next, text)] + added, next, [text] + lines)
  {
    assert ([(next, text)] + added)[1..] == added;
  }

  lemma NumberedCons(texts: seq<string>, first: nat, more: Lines)
    requires texts != []
    ensures Numbered(texts, first) + more == [(first, Chomp(texts[0]))] + (Numbered(texts[1..], first + 1) + more)
  {
  }

  lemma ChompCons(texts: seq<string>, more: seq<string>)
    requires texts != []
    ensures ChompAll(texts) + more == [Chomp(texts[0])] + (ChompAll(texts[1..]) + more)
  {
  }

  lemma {:induction false} RebuiltAdds(texts: seq<string>, kept: seq<string>, added: Lines, next: nat,
                                       lines: seq<string>)
    requires RebuildsTo(kept, added, next + |texts|, lines)
    ensures RebuildsTo(kept, Numbered(texts, next) + added, next, ChompAll(texts) + lines)
  {
    if texts == [] {
      assert Numbered(texts, next) + added == added && ChompAll(texts) + lines == lines;
    } else {
      RebuiltAdds(texts[1..], kept, added, next + 1, lines);
      RebuiltAddsOne(Chomp(texts[0]), kept, Numbered(texts[1..], next + 1) + added, next, ChompAll(texts[1..]) + lines);
      NumberedCons(texts, next, added);
      ChompCons(texts, lines);
    }
  }

  /** The numbers rise strictly from above `low` and stop at `high`. */
  predicate Within(added: Lines, low: int, high: int) {
    if added == [] then low <= high else low < added[0].0 <= high && Within(added[1..], added[0].0, high)
  }

  lemma {:induction false} WithinJoins(a: Lines, b: Lines, low: int, middle: int, high: int)
    requires Within(a, low, middle) && Within(b, middle, high)
    ensures Within(a + b, low, high)
    decreases |a|
  {
    if a == [] {
      assert a + b == b;
      WithinLower(b, low, middle, high);
    } else {
      assert (a + b)[1..] == a[1..] + b;
      WithinJoins(a[1..], b, a[0].0, middle, high);
      WithinHolds(b, middle, high);
      WithinHolds(a, low, middle);
    }
  }

  lemma WithinLower(a: Lines, low: int, middle: int, high: int)
    requires low <= middle && Within(a, middle, high)
    ensures Within(a, low, high)
  {
  }

  /** What `Within` means position by position. */
  lemma {:induction false} WithinHolds(a: Lines, low: int, high: int)
    requires Within(a, low, high)
    ensures low <= high && forall i | 0 <= i < |a| :: low < a[i].0 <= high
    ensures forall i, j | 0 <= i < j < |a| :: a[i].0 < a[j].0
    decreases |a|
  {
    if a != [] {
      WithinHolds(a[1..], a[0].0, high);
      assert forall i | 0 < i < |a| :: a[i] == a[1..][i - 1];
    }
  }

  lemma {:induction false} NumberedIsOrdered(texts: seq<string>, first: nat)
    ensures Within(Numbered(texts, first), first - 1, first - 1 + |texts|)
  {
    if texts != [] {
      NumberedIsOrdered(texts[1..], first + 1);
    }
  }

  lemma PartIsOrdered(g: Segment, before: nat)
    ensures Within(AddedPart(g, before), before, before + |NewPart(g)|)
  {
    if g.Change? {
      NumberedIsOrdered(g.added, before + 1);
    }
  }

  lemma {:induction false} AdditionsAreOrdered(segments: seq<Segment>, before: nat)
    ensures Within(Additions(segments, before), before, before + |NewLines(segments)|)
  {
    if segments != [] {
      var g, rest := segments[0], segments[1..];
      var middle := before + |NewPart(g)|;
      AdditionsAreOrdered(rest, middle);
      PartIsOrdered(g, before);
      WithinJoins(AddedPart(g, before), Additions(rest, middle), before, middle, middle + |NewLines(rest)|);
    }
  }

  lemma RebuildsPart(g: Segment, kept: seq<string>, added: Lines, before: nat, lines: seq<string>)
    requires added == [] || added[0].0 > before + |NewPart(g)|
    requires RebuildsTo(kept, added, before + |NewPart(g)| + 1, lines)
    ensures RebuildsTo(ChompAll(KeptPart(g)) + kept, AddedPart(g, before) + added, before + 1,
                       ChompAll(NewPart(g)) + lines)
  {
    if g.Keep? {
      RebuiltKeeps(ChompAll(g.lines), kept, added, before + 1, lines);
      assert AddedPart(g, before) + added == added;
    } else {
      RebuiltAdds(g.added, kept, added, before + 1, lines);
      assert ChompAll(KeptPart(g)) + kept == kept;
    }
  }

  /** The lines an edit script adds, put at their numbers among the lines it keeps, give the new file. */
  predicate RebuildsNew(segments: seq<Segment>, before: nat) {
    RebuildsTo(ChompAll(KeptLines(segments)), Additions(segments, before), before + 1, ChompAll(NewLines(segments)))
  }

  /** The additions with the kept lines rebuild the new file: nothing added is missed and no number is off. */
  lemma {:induction false} AdditionsRebuildNewFile(segments: seq<Segment>, before: nat)
    ensures RebuildsNew(segments, before)
  {
    if segments == [] {
      NothingRebuilds(before);
    } else {
      AdditionsRebuildNewFile(segments[1..], before + |NewPart(segments[0])|);
      RebuildStep(segments, before);
    }
  }

  lemma NothingRebuilds(before: nat)
    ensures RebuildsNew([], before)
  {
  }

  lemma RebuildStep(segments: seq<Segment>, before: nat)
    requires segments != [] && RebuildsNew(segments[1..], before + |NewPart(segments[0])|)
    ensures RebuildsNew(segments, before)
  {
    var g, rest := segments[0], segments[1..];
    var middle := before + |NewPart(g)|;
    AdditionsAreOrdered(rest, middle);
    RebuildsPart(g, ChompAll(KeptLines(rest)), Additions(rest, middle), before, ChompAll(NewLines(rest)));
    ChompDistributes(KeptPart(g), KeptLines(rest));
    ChompDistributes(NewPart(g), NewLines(rest));
  }

  // ----- Reading a printed diff -----

  lemma {:induction false} DigitsOf(nums: Numerals, digits: string, rest: string)
    requires forall i | 0 <= i < |digits| :: IsDigit(digits[i])
    requires rest == "" || !IsNumeral(nums, rest[0])
    ensures Digits(nums, digits + rest) == |digits|
  {
    if digits == [] {
      assert digits + rest == rest;
    } else {
      DigitsOf(nums, digits[1..], rest);
      assert (digits + rest)[1..] == digits[1..] + rest;
    }
  }

  lemma DigitsOfDecimal(nums: Numerals, n: nat, rest: string)
    requires rest == "" || !IsNumeral(nums, rest[0])
    ensures var s := Decimal(n) + rest;
            && Digits(nums, s) == |Decimal(n)| > 0 && s[|Decimal(n)|..] == rest
            && IsNumber(nums, s[..Digits(nums, s)]) && ParseNumber(nums, s[..Digits(nums, s)]) == n
  {
    ParseDecimalInverse(n);
    DecimalIsNumber(nums, Decimal(n));
    DigitsOf(nums, Decimal(n), rest);
    assert (Decimal(n) + rest)[..|Decimal(n)|] == Decimal(n);
    assert (Decimal(n) + rest)[|Decimal(n)|..] == rest;
  }

  /** What follows the first number of a printed range. */
  function AfterNumber(count: nat, rest: string): string {
    if count == 1 then rest else "," + (Decimal(count) + rest)
  }

  lemma RangeParts(before: nat, count: nat, rest: string)
    ensures Range(before, count) + rest ==
            Decimal(if count == 0 then before else before + 1) + AfterNumber(count, rest)
  {
  }

  lemma TakeRangeOfRange(nums: Numerals, before: nat, count: nat, rest: string)
    requires rest != "" && rest[0] < '\U{80}' && !IsDigit(rest[0]) && rest[0] != ','
    ensures TakeRange(nums, Range(before, count) + rest) == Some((if count == 0 then before else before + 1, rest))
  {
    RangeParts(before, count, rest);
    DigitsOfDecimal(nums, if count == 0 then before else before + 1, AfterNumber(count, rest));
    if count != 1 {
      DigitsOfDecimal(nums, count, rest);
      var tail := AfterNumber(count, rest);
      assert tail[1..] == Decimal(count) + rest;
      assert tail[1 + |Decimal(count)|..] == tail[1..][|Decimal(count)|..];
    }
  }

  lemma NewStartOfRange(nums: Numerals, before: nat, count: nat, tail: string)
    requires StartsWith(tail, " @@")
    ensures NewStart(nums, " +" + Range(before, count) + tail) == Some(if count == 0 then before else before + 1)
  {
    var rest := " +" + Range(before, count) + tail;
    assert tail[0] == tail[..3][0];
    TakeRangeOfRange(nums, before, count, tail);
    assert rest[..2] == " +" && rest[2..] == Range(before, count) + tail;
  }

  lemma HunkStartOfRange(nums: Numerals, before: nat, count: nat, rest: string)
    requires StartsWith(rest, " +")
    ensures HunkStart(nums, "@@ -" + Range(before, count) + rest) == NewStart(nums, rest)
  {
    var line := "@@ -" + Range(before, count) + rest;
    assert rest[0] == rest[..2][0];
    TakeRangeOfRange(nums, before, count, rest);
    assert line[..4] == "@@ -" && line[4..] == Range(before, count) + rest;
  }

  lemma StartsWithPrefix(prefix: string, rest: string)
    ensures StartsWith(prefix + rest, prefix)
  {
  }

  lemma RegroupStem(a: string, b: string, c: string, d: string, e: string, f: string, g: string)
    ensures a + b + c + d + e + f + g == a + b + (c + d + (e + (f + g)))
  {
  }

  /** The pattern reads the header of a hunk, whatever the heading says and wherever it breaks off. */
  lemma HunkStartOfHunk(nums: Numerals, oldBefore: nat, newBefore: nat, c: Segment, heading: string)
    requires c.Change?
    ensures HunkStart(nums, HunkStem(oldBefore, newBefore, c) + heading) ==
            Some(if c.added == [] then newBefore else newBefore + 1)
  {
    var space := if c.heading == "" then "" else " ";
    var left, right := Range(oldBefore, |c.removed|), Range(newBefore, |c.added|);
    var tail := " @@" + (space + heading);
    RegroupStem("@@ -", left, " +", right, " @@", space, heading);
    StartsWithPrefix(" @@", space + heading);
    StartsWithPrefix(" +", right + tail);
    assert " +" + right + tail == " +" + (right + tail);
    NewStartOfRange(nums, newBefore, |c.added|, tail);
    HunkStartOfRange(nums, oldBefore, |c.removed|, " +" + right + tail);
  }

  /** What appending to the file under the cursor does: nothing while there is none. */
  function Effect(added: map<string, Lines>, rel: Option<string>, lines: Lines): map<string, Lines> {
    if rel.None? then added else Appended(added, rel.value, lines)
  }

  lemma EffectJoins(added: map<string, Lines>, rel: Option<string>, a: Lines, b: Lines)
    ensures Effect(Effect(added, rel, a), rel, b) == Effect(added, rel, a + b)
  {
    if rel.Some? {
      if a == [] {
        assert a + b == b;
      } else if b == [] {
        assert a + b == a;
      } else {
        assert Get(added, rel.value) + a + b == Get(added, rel.value) + (a + b);
      }
    }
  }

  /** A line that means nothing to the reader inside a hunk. */
  predicate Inert(nums: Numerals, line: string) {
    !OpensFile(line) && HunkStart(nums, line).None? && !Adds(line)
  }

  /** A line that changes nothing that is reported; with no readable name, only a file header could. */
  predicate Stray(nums: Numerals, named: bool, line: string) {
    if named then Inert(nums, line) else !OpensFile(line)
  }

  predicate AllStray(nums: Numerals, named: bool, lines: seq<string>) {
    forall i | 0 <= i < |lines| :: Stray(nums, named, lines[i])
  }

  /** What a text breaks into beyond its own line is stray. */
  predicate Harmless(nums: Numerals, named: bool, text: string) {
    AllStray(nums, named, Broken(text))
  }

  lemma ReadableIsHarmless(nums: Numerals, named: bool, text: string)
    requires Clean(Chomp(text))
    ensures Harmless(nums, named, text)
  {
    PiecesOfReadable(text);
  }

  lemma AllStrayJoins(nums: Numerals, named: bool, a: seq<string>, b: seq<string>)
    requires AllStray(nums, named, a) && AllStray(nums, named, b)
    ensures AllStray(nums, named, a + b)
  {
  }

  /** Stray lines leave name and report alone, and under a name the number too. */
  lemma {:induction false} RunStray(nums: Numerals, s: State, lines: seq<string>)
    requires !s.header && InFile(s.rel) && AllStray(nums, s.rel.Some?, lines)
    ensures Run(nums, s, lines) == s.(number := Run(nums, s, lines).number)
    ensures s.rel.Some? ==> Run(nums, s, lines) == s
  {
    if lines != [] {
      RunStray(nums, s, lines[..|lines| - 1]);
      assert Stray(nums, s.rel.Some?, lines[|lines| - 1]);
    }
  }

  /** Removed lines and the no-newline remark are inert. */
  lemma MarkIsInert(nums: Numerals, line: string)
    requires line != [] && (line[0] == '-' || line[0] == ' ' || line[0] == '\\')
    ensures Inert(nums, line)
  {
    assert "diff --git "[0] == 'd' && "@@ -"[0] == '@' && "+"[0] == '+';
    StartsApart(line, "diff --git ");
    StartsApart(line, "@@ -");
    StartsApart(line, "+");
  }

  lemma PlusOpensNothing(line: string)
    requires line != [] && line[0] == '+'
    ensures !OpensFile(line)
  {
    assert "diff --git "[0] == 'd';
    StartsApart(line, "diff --git ");
  }

  lemma StartsApart(line: string, prefix: string)
    requires line != [] && prefix != [] && line[0] != prefix[0]
    ensures !StartsWith(line, prefix)
  {
    DiffersAt(line, prefix, 0);
  }

  lemma DiffersAt(line: string, prefix: string, k: nat)
    requires k < |line| && k < |prefix| && line[k] != prefix[k]
    ensures !StartsWith(line, prefix)
  {
    if |prefix| <= |line| {
      assert line[..|prefix|][k] == line[k];
    }
  }

  predicate InFile(rel: Option<string>) {
    rel.Some? ==> rel.value != ""
  }

  function AfterAdded(s: State, texts: seq<string>): State {
    s.(added := Effect(s.added, s.rel, Numbered(texts, s.number)),
       number := if s.rel.Some? then s.number + |texts| else s.number)
  }

  lemma StepAdded(nums: Numerals, s: State, text: string)
    requires !s.header && InFile(s.rel)
    ensures Step(nums, s, "+" + Chomp(text)) == AfterAdded(s, [text])
  {
    var line := "+" + Chomp(text);
    assert line[0] == '+' && line[1..] == Chomp(text) && StartsWith(line, "+");
    assert "diff --git "[0] == 'd' && "@@ -"[0] == '@';
    StartsApart(line, "diff --git ");
    StartsApart(line, "@@ -");
    assert Numbered([text], s.number) == [(s.number, Chomp(text))];
  }

  lemma AfterAddedJoins(s: State, texts: seq<string>)
    requires texts != []
    ensures AfterAdded(AfterAdded(s, [texts[0]]), texts[1..]) == AfterAdded(s, texts)
  {
    EffectJoins(s.added, s.rel, Numbered([texts[0]], s.number), Numbered(texts[1..], s.number + 1));
    assert Numbered(texts, s.number) == Numbered([texts[0]], s.number) + Numbered(texts[1..], s.number + 1);
  }

  lemma MarkedCons(mark: char, texts: seq<string>)
    requires texts != []
    ensures Marked(mark, ChompAll(texts)) == [[mark] + Chomp(texts[0])] + Marked(mark, ChompAll(texts[1..]))
  {
  }

  lemma RunMarkedCons(nums: Numerals, s: State, texts: seq<string>)
    requires texts != [] && !s.header && InFile(s.rel)
    ensures Run(nums, s, Marked('+', ChompAll(texts))) ==
            Run(nums, AfterAdded(s, [texts[0]]), Marked('+', ChompAll(texts[1..])))
  {
    MarkedCons('+', texts);
    RunCons(nums, s, "+" + Chomp(texts[0]), Marked('+', ChompAll(texts[1..])));
    StepAdded(nums, s, texts[0]);
  }

  /** Added lines are collected in order, whatever they say: `++ b/`, `@@` and `diff --git ` included. */
  lemma {:induction false} RunAdded(nums: Numerals, s: State, texts: seq<string>)
    requires !s.header && InFile(s.rel)
    ensures Run(nums, s, Marked('+', ChompAll(texts))) == AfterAdded(s, texts)
    decreases |texts|
  {
    if texts != [] {
      RunMarkedCons(nums, s, texts);
      RunAdded(nums, AfterAdded(s, [texts[0]]), texts[1..]);
      AfterAddedJoins(s, texts);
    }
  }

  // The printed lines with their carriage returns taken off.

  lemma CleanChomps(line: string)
    requires Clean(line)
    ensures Chomp(line) == line
  {
  }

  lemma {:induction false} ChompMarked(mark: char, texts: seq<string>)
    requires mark != '\r'
    ensures ChompAll(Marked(mark, texts)) == Marked(mark, ChompAll(texts))
  {
    if texts != [] {
      ChompLater(mark, texts[0]);
      ChompMarked(mark, texts[1..]);
      assert Marked(mark, texts)[1..] == Marked(mark, texts[1..]);
    }
  }

  lemma ChompLater(mark: char, text: string)
    requires mark != '\r'
    ensures Chomp([mark] + text) == [mark] + Chomp(text)
  {
    if text != [] {
      assert ([mark] + text)[..|text|] == [mark] + text[..|text| - 1];
    }
  }

  function AfterHunkLine(s: State, newBefore: nat, c: Segment): State
    requires c.Change?
  {
    s.(header := false, number := if c.added == [] then newBefore else newBefore + 1)
  }

  lemma NotAnOpening(line: string)
    requires line != "" && line[0] == '@'
    ensures !OpensFile(line) && !NamesFile(line)
  {
    assert "diff --git "[0] == 'd' && "+++ b/"[0] == '+';
    StartsApart(line, "diff --git ");
    StartsApart(line, "+++ b/");
  }

  lemma StepHunkLine(nums: Numerals, s: State, oldBefore: nat, newBefore: nat, c: Segment, heading: string)
    requires c.Change?
    ensures Step(nums, s, HunkStem(oldBefore, newBefore, c) + heading) == AfterHunkLine(s, newBefore, c)
  {
    HunkStartOfHunk(nums, oldBefore, newBefore, c, heading);
    assert (HunkStem(oldBefore, newBefore, c) + heading)[0] == '@';
    NotAnOpening(HunkStem(oldBefore, newBefore, c) + heading);
  }

  lemma {:induction false} DecimalIsClean(n: nat)
    ensures Clean(Decimal(n))
  {
    ParseDecimalInverse(n);
  }

  lemma HunkStemIsClean(oldBefore: nat, newBefore: nat, c: Segment)
    requires c.Change?
    ensures Clean(HunkStem(oldBefore, newBefore, c))
  {
    RangeIsClean(oldBefore, |c.removed|);
    RangeIsClean(newBefore, |c.added|);
    CleanJoins("@@ -", Range(oldBefore, |c.removed|));
    CleanJoins("@@ -" + Range(oldBefore, |c.removed|), " +");
    CleanJoins("@@ -" + Range(oldBefore, |c.removed|) + " +", Range(newBefore, |c.added|));
  }

  lemma RangeIsClean(before: nat, count: nat)
    ensures Clean(Range(before, count))
  {
    DecimalIsClean(before);
    DecimalIsClean(before + 1);
    DecimalIsClean(count);
  }

  lemma BarePieces(nums: Numerals, named: bool, bare: bool)
    ensures AllStray(nums, named, PiecesAll(BareLine(bare)))
    ensures Readable(BareLine(bare)) && ChompAll(BareLine(bare)) == BareLine(bare)
  {
    if bare {
      var line := BareLine(true)[0];
      assert Clean(line);
      CleanChomps(line);
      PiecesOfReadable(line);
      assert PiecesAll([line]) == [line] && ChompAll([line]) == [line];
      MarkIsInert(nums, line);
    }
  }

  /** Marked texts, pieces and all, are stray: removed ones, and added ones in a file without a readable name. */
  lemma {:induction false} MarkedStray(nums: Numerals, named: bool, mark: char, texts: seq<string>)
    requires mark == '-' || mark == ' ' || (mark == '+' && !named)
    requires forall t | t in texts :: Harmless(nums, named, t)
    ensures AllStray(nums, named, PiecesAll(Marked(mark, texts)))
  {
    if texts != [] {
      var t := texts[0];
      assert t in texts;
      MarkedStray(nums, named, mark, texts[1..]);
      PiecesPrefix([mark], t);
      var first := [mark] + Pieces(t)[0];
      if mark != '+' {
        MarkIsInert(nums, first);
      } else {
        PlusOpensNothing(first);
      }
      AllStrayJoins(nums, named, [first], Broken(t));
      AllStrayJoins(nums, named, [first] + Broken(t), PiecesAll(Marked(mark, texts[1..])));
    }
  }

  lemma PiecesOfAdded(texts: seq<string>)
    requires Readable(texts)
    ensures PiecesAll(Marked('+', texts)) == Marked('+', ChompAll(texts))
  {
    MarkedReadable('+', texts);
    SplitInvertsText(Marked('+', texts));
    ChompMarked('+', texts);
  }

  /** The state after a hunk, seen from before it. */
  predicate AddsTo(nums: Numerals, s: State, lines: seq<string>, added: Lines) {
    var r := ReadPieces(nums, s, lines);
    r.rel == s.rel && r.added == Effect(s.added, s.rel, added)
  }

  function ReadPieces(nums: Numerals, s: State, lines: seq<string>): State {
    Run(nums, s, PiecesAll(lines))
  }

  lemma ReadsInOrder(nums: Numerals, s: State, a: seq<string>, b: seq<string>)
    ensures ReadPieces(nums, s, a + b) == ReadPieces(nums, ReadPieces(nums, s, a), b)
  {
    PiecesDistribute(a, b);
    RunAppend(nums, s, PiecesAll(a), PiecesAll(b));
  }

  /** The texts of a change may break lines where that does no harm; added lines under a name may not. */
  predicate PartHarmless(nums: Numerals, named: bool, g: Segment) {
    g.Change? ==>
      && Harmless(nums, named, g.heading) && (forall t | t in g.removed :: Harmless(nums, named, t))
      && if named then Readable(g.added) else forall t | t in g.added :: Harmless(nums, named, t)
  }

  lemma ReadHunkLine(nums: Numerals, s: State, oldBefore: nat, newBefore: nat, c: Segment)
    requires c.Change? && InFile(s.rel) && Harmless(nums, s.rel.Some?, c.heading)
    ensures var r := ReadPieces(nums, s, [HunkLine(oldBefore, newBefore, c)]);
            && r == AfterHunkLine(s, newBefore, c).(number := r.number)
            && (s.rel.Some? ==> r == AfterHunkLine(s, newBefore, c))
  {
    HunkStemIsClean(oldBefore, newBefore, c);
    PiecesPrefix(HunkStem(oldBefore, newBefore, c), c.heading);
    var first := HunkStem(oldBefore, newBefore, c) + Pieces(c.heading)[0];
    assert PiecesAll([HunkLine(oldBefore, newBefore, c)]) == [first] + Broken(c.heading);
    RunCons(nums, s, first, Broken(c.heading));
    StepHunkLine(nums, s, oldBefore, newBefore, c, Pieces(c.heading)[0]);
    RunStray(nums, AfterHunkLine(s, newBefore, c), Broken(c.heading));
  }

  lemma ReadStray(nums: Numerals, s: State, lines: seq<string>)
    requires !s.header && InFile(s.rel) && AllStray(nums, s.rel.Some?, PiecesAll(lines))
    ensures ReadPieces(nums, s, lines) == s.(number := ReadPieces(nums, s, lines).number)
    ensures s.rel.Some? ==> ReadPieces(nums, s, lines) == s
  {
    RunStray(nums, s, PiecesAll(lines));
  }

  lemma ReadRemoved(nums: Numerals, s: State, texts: seq<string>, bare: bool)
    requires !s.header && InFile(s.rel) && forall t | t in texts :: Harmless(nums, s.rel.Some?, t)
    ensures var r := ReadPieces(nums, s, Marked('-', texts) + BareLine(bare));
            r == s.(number := r.number) && (s.rel.Some? ==> r == s)
  {
    MarkedStray(nums, s.rel.Some?, '-', texts);
    BarePieces(nums, s.rel.Some?, bare);
    PiecesDistribute(Marked('-', texts), BareLine(bare));
    AllStrayJoins(nums, s.rel.Some?, PiecesAll(Marked('-', texts)), PiecesAll(BareLine(bare)));
    ReadStray(nums, s, Marked('-', texts) + BareLine(bare));
  }

  lemma ReadAdded(nums: Numerals, s: State, texts: seq<string>, bare: bool)
    requires !s.header && InFile(s.rel)
    requires if s.rel.Some? then Readable(texts) else forall t | t in texts :: Harmless(nums, false, t)
    ensures AddsTo(nums, s, Marked('+', texts) + BareLine(bare), Numbered(texts, s.number))
  {
    BarePieces(nums, s.rel.Some?, bare);
    ReadsInOrder(nums, s, Marked('+', texts), BareLine(bare));
    if s.rel.Some? {
      PiecesOfAdded(texts);
      RunAdded(nums, s, texts);
      ReadStray(nums, AfterAdded(s, texts), BareLine(bare));
    } else {
      MarkedStray(nums, false, '+', texts);
      ReadStray(nums, s, Marked('+', texts));
      ReadStray(nums, ReadPieces(nums, s, Marked('+', texts)), BareLine(bare));
    }
  }

  /** A printed change adds its lines at their numbers, and nothing else. */
  lemma ReadChange(nums: Numerals, s: State, oldBefore: nat, newBefore: nat, c: Segment)
    requires c.Change? && InFile(s.rel) && PartHarmless(nums, s.rel.Some?, c)
    ensures AddsTo(nums, s, ChangeLines(oldBefore, newBefore, c), AddedPart(c, newBefore))
  {
    var hunk := [HunkLine(oldBefore, newBefore, c)];
    var removed, added := Marked('-', c.removed) + BareLine(c.bareOld), Marked('+', c.added) + BareLine(c.bareNew);
    ReadsInOrder(nums, s, hunk + removed, added);
    ReadsInOrder(nums, s, hunk, removed);
    ReadHunkLine(nums, s, oldBefore, newBefore, c);
    var s1 := ReadPieces(nums, s, hunk);
    ReadRemoved(nums, s1, c.removed, c.bareOld);
    var s2 := ReadPieces(nums, s1, removed);
    ReadAdded(nums, s2, c.added, c.bareNew);
    if c.added == [] {
      assert Numbered(c.added, s2.number) == Numbered(c.added, newBefore + 1) == [];
    }
  }

  // Whole files.

  predicate NotesClean(notes: seq<Note>) {
    notes == [] || (Clean(notes[0].text) && NotesClean(notes[1..]))
  }

  predicate AllHarmless(nums: Numerals, named: bool, segments: seq<Segment>) {
    segments == [] || (PartHarmless(nums, named, segments[0]) && AllHarmless(nums, named, segments[1..]))
  }

  lemma {:induction false} EachHarmless(nums: Numerals, named: bool, segments: seq<Segment>)
    ensures AllHarmless(nums, named, segments) <==> forall g | g in segments :: PartHarmless(nums, named, g)
  {
    if segments != [] {
      EachHarmless(nums, named, segments[1..]);
      assert segments == [segments[0]] + segments[1..];
    }
  }

  lemma AddsToJoins(nums: Numerals, s: State, a: seq<string>, b: seq<string>, x: Lines, y: Lines)
    requires AddsTo(nums, s, a, x) && AddsTo(nums, ReadPieces(nums, s, a), b, y)
    ensures AddsTo(nums, s, a + b, x + y)
  {
    ReadsInOrder(nums, s, a, b);
    EffectJoins(s.added, s.rel, x, y);
  }

  /** Each part, as `show` prints it, adds what it should. */
  ghost predicate PartsAdd(nums: Numerals, show: Printer) {
    forall s: State, g: Segment, oldBefore: nat, newBefore: nat
      {:trigger AddsTo(nums, s, show(oldBefore, newBefore, g), AddedPart(g, newBefore))} |
      InFile(s.rel) && PartHarmless(nums, s.rel.Some?, g) ::
      AddsTo(nums, s, show(oldBefore, newBefore, g), AddedPart(g, newBefore))
  }

  lemma {:induction false} RunAll(nums: Numerals, show: Printer, segments: seq<Segment>, s: State,
                                  oldBefore: nat, newBefore: nat)
    requires PartsAdd(nums, show) && InFile(s.rel) && AllHarmless(nums, s.rel.Some?, segments)
    ensures AddsTo(nums, s, ShowAll(show, segments, oldBefore, newBefore), Additions(segments, newBefore))
    decreases |segments|
  {
    if segments == [] {
      NothingAdds(nums, s);
    } else {
      var g, rest := segments[0], segments[1..];
      var oldNext, newNext := oldBefore + |OldPart(g)|, newBefore + |NewPart(g)|;
      var part := show(oldBefore, newBefore, g);
      assert AddsTo(nums, s, part, AddedPart(g, newBefore));
      RunAll(nums, show, rest, ReadPieces(nums, s, part), oldNext, newNext);
      RunAllStep(nums, show, segments, s, oldBefore, newBefore);
    }
  }

  lemma RunAllStep(nums: Numerals, show: Printer, segments: seq<Segment>, s: State, oldBefore: nat, newBefore: nat)
    requires segments != []
    requires AddsTo(nums, s, show(oldBefore, newBefore, segments[0]), AddedPart(segments[0], newBefore))
    requires AddsTo(nums, ReadPieces(nums, s, show(oldBefore, newBefore, segments[0])),
                    ShowAll(show, segments[1..], oldBefore + |OldPart(segments[0])|,
                            newBefore + |NewPart(segments[0])|),
                    Additions(segments[1..], newBefore + |NewPart(segments[0])|))
    ensures AddsTo(nums, s, ShowAll(show, segments, oldBefore, newBefore), Additions(segments, newBefore))
  {
    var g, rest := segments[0], segments[1..];
    var oldNext, newNext := oldBefore + |OldPart(g)|, newBefore + |NewPart(g)|;
    AddsToJoins(nums, s, show(oldBefore, newBefore, g), ShowAll(show, rest, oldNext, newNext),
                AddedPart(g, newBefore), Additions(rest, newNext));
  }

  lemma NothingAdds(nums: Numerals, s: State)
    ensures AddsTo(nums, s, [], [])
  {
  }

  lemma RunPart(nums: Numerals, s: State, oldBefore: nat, newBefore: nat, g: Segment)
    requires InFile(s.rel) && PartHarmless(nums, s.rel.Some?, g)
    ensures AddsTo(nums, s, PartLines(oldBefore, newBefore, g), AddedPart(g, newBefore))
  {
    if g.Change? {
      ReadChange(nums, s, oldBefore, newBefore, g);
    } else {
      NothingAdds(nums, s);
    }
  }

  /** The printed body of one file adds its additions under the name the header gave. */
  lemma RunBody(nums: Numerals, segments: seq<Segment>, s: State)
    requires InFile(s.rel) && AllHarmless(nums, s.rel.Some?, segments)
    ensures AddsTo(nums, s, BodyLines(segments), Additions(segments, 0))
  {
    forall s: State, g: Segment, oldBefore: nat, newBefore: nat | InFile(s.rel) && PartHarmless(nums, s.rel.Some?, g)
      ensures AddsTo(nums, s, PartLines(oldBefore, newBefore, g), AddedPart(g, newBefore))
    {
      RunPart(nums, s, oldBefore, newBefore, g);
    }
    RunAll(nums, PartLines, segments, s, 0, 0);
  }

  /** What the reader takes for the file's name: none when git quotes it. */
  function Label(f: FileDiff): Option<string> {
    if Changes(f.segments) && !Quoted(f.path) then Some(f.path + Tab(f.path)) else None
  }

  lemma {:induction false} RunNotes(nums: Numerals, s: State, notes: seq<Note>)
    requires s.header
    ensures Run(nums, s, NoteLines(notes)) == s
    decreases |notes|
  {
    if notes != [] {
      var line := NoteLine(notes[0]);
      RunCons(nums, s, line, NoteLines(notes[1..]));
      assert line[0] in "inoscB";
      assert "diff --git "[0] == 'd' && "+++ b/"[0] == '+' && "@@ -"[0] == '@';
      StartsApart(line, "diff --git ");
      StartsApart(line, "+++ b/");
      StartsApart(line, "@@ -");
      RunNotes(nums, s, notes[1..]);
    }
  }

  /** A header leaves the reader expecting a hunk, with the file's name if it can be read. */
  lemma RunHeader(nums: Numerals, s: State, f: FileDiff)
    ensures Run(nums, s, HeaderLines(f)) == s.(rel := Label(f), header := true)
  {
    var opening := "diff --git " + Name("a/", f.path) + " " + Name("b/", f.path);
    var names := NameLines(f);
    assert HeaderLines(f) == [opening] + (NoteLines(f.notes) + names);
    RunCons(nums, s, opening, NoteLines(f.notes) + names);
    assert opening[..11] == "diff --git ";
    var s1 := s.(rel := None, header := true);
    RunAppend(nums, s1, NoteLines(f.notes), names);
    RunNotes(nums, s1, f.notes);
    RunNames(nums, s1, f);
  }

  lemma RunNames(nums: Numerals, s: State, f: FileDiff)
    requires s.header && s.rel == None
    ensures Run(nums, s, NameLines(f)) == s.(rel := Label(f))
  {
    if Changes(f.segments) {
      var minus := if f.created then "--- /dev/null" else "--- " + Name("a/", f.path) + Tab(f.path);
      var plus := "+++ " + Name("b/", f.path) + Tab(f.path);
      assert NameLines(f) == [minus] + [plus];
      RunCons(nums, s, minus, [plus]);
      RunOne(nums, s, plus);
      StepMinus(nums, s, minus);
      StepPlus(nums, s, f);
    }
  }

  lemma StepMinus(nums: Numerals, s: State, line: string)
    requires s.header && line != "" && line[0] == '-'
    ensures Step(nums, s, line) == s
  {
    assert "diff --git "[0] == 'd' && "+++ b/"[0] == '+' && "@@ -"[0] == '@';
    StartsApart(line, "diff --git ");
    StartsApart(line, "+++ b/");
    StartsApart(line, "@@ -");
  }

  lemma StepPlus(nums: Numerals, s: State, f: FileDiff)
    requires s.header && s.rel == None && Changes(f.segments)
    ensures Step(nums, s, "+++ " + Name("b/", f.path) + Tab(f.path)) == s.(rel := Label(f))
  {
    var line := "+++ " + Name("b/", f.path) + Tab(f.path);
    assert line[0] == '+' && "diff --git "[0] == 'd' && "@@ -"[0] == '@';
    StartsApart(line, "diff --git ");
    StartsApart(line, "@@ -");
    if Quoted(f.path) {
      assert line[4] == '"' && "+++ b/"[4] == 'b';
      DiffersAt(line, "+++ b/", 4);
    } else {
      assert line == "+++ b/" + (f.path + Tab(f.path));
      assert line[..6] == "+++ b/" && line[6..] == f.path + Tab(f.path);
    }
  }

  /** The report on a diff: for each file whose name can be read, its additions. */
  function Expected(files: seq<FileDiff>): map<string, Lines> {
    if files == [] then map[]
    else
      var f := files[|files| - 1];
      Effect(Expected(files[..|files| - 1]), Label(f), Additions(f.segments, 0))
  }

  /** What git writes by itself breaks no line: names that would are quoted. */
  predicate Tidy(f: FileDiff) {
    && f.path != "" && (forall i | 0 <= i < |f.path| :: IsBreak(f.path[i]) ==> NeedsQuote(f.path[i]))
    && NotesClean(f.notes)
  }

  predicate AddedReadable(segments: seq<Segment>) {
    forall g | g in segments && g.Change? :: Readable(g.added)
  }

  /** Every text of the file's changes reads as it should, or breaks where that does no harm. */
  predicate Legible(nums: Numerals, f: FileDiff) {
    Tidy(f) && AllHarmless(nums, !Quoted(f.path), f.segments)
  }

  predicate AllClean(lines: seq<string>) {
    forall i | 0 <= i < |lines| :: Clean(lines[i])
  }

  lemma CleanJoins(a: string, b: string)
    requires Clean(a) && Clean(b)
    ensures Clean(a + b)
  {
  }

  lemma AllCleanJoins(a: seq<string>, b: seq<string>)
    requires AllClean(a) && AllClean(b)
    ensures AllClean(a + b)
  {
  }

  lemma HeaderIsReadable(f: FileDiff)
    requires Tidy(f)
    ensures AllClean(HeaderLines(f))
  {
    NotesAreClean(f.notes);
    NamesAreClean(f);
    AllCleanJoins(NoteLines(f.notes), NameLines(f));
    NameIsClean("a/", f.path);
    NameIsClean("b/", f.path);
    var opening := "diff --git " + Name("a/", f.path) + " " + Name("b/", f.path);
    CleanJoins("diff --git ", Name("a/", f.path));
    CleanJoins("diff --git " + Name("a/", f.path), " ");
    CleanJoins("diff --git " + Name("a/", f.path) + " ", Name("b/", f.path));
    AllCleanJoins([opening], NoteLines(f.notes) + NameLines(f));
  }

  lemma NamesAreClean(f: FileDiff)
    requires Tidy(f)
    ensures AllClean(NameLines(f))
  {
    NameIsClean("a/", f.path);
    NameIsClean("b/", f.path);
    CleanJoins("--- ", Name("a/", f.path));
    CleanJoins("--- " + Name("a/", f.path), Tab(f.path));
    CleanJoins("+++ ", Name("b/", f.path));
    CleanJoins("+++ " + Name("b/", f.path), Tab(f.path));
  }

  lemma PrefixIsClean(kind: Kind)
    ensures Clean(Prefix(kind))
  {
    match kind
    case Index => assert Clean("index ");
    case NewFileMode => assert Clean("new file mode ");
    case OldMode => assert Clean("old mode ");
    case NewMode => assert Clean("new mode ");
    case Similarity => assert Clean("similarity index ");
    case CopyFrom => assert Clean("copy from ");
    case CopyTo => assert Clean("copy to ");
    case Binary => assert Clean("Binary files ");
  }

  lemma NoteIsClean(note: Note)
    requires Clean(note.text)
    ensures Clean(NoteLine(note))
  {
    PrefixIsClean(note.kind);
    CleanJoins(Prefix(note.kind), note.text);
  }

  lemma {:induction false} NotesAreClean(notes: seq<Note>)
    requires NotesClean(notes)
    ensures AllClean(NoteLines(notes))
  {
    if notes != [] {
      NotesAreClean(notes[1..]);
      NoteIsClean(notes[0]);
      AllCleanJoins([NoteLine(notes[0])], NoteLines(notes[1..]));
    }
  }

  lemma EscapedIsClean(c: char)
    requires IsBreak(c) ==> NeedsQuote(c)
    ensures Clean(Escaped(c))
  {
    if NeedsQuote(c) && c != '"' && c != '\\' && !('\U{07}' <= c <= '\r') {
      var octal := Octal(c as int);
      assert forall i | 0 <= i < 3 :: '0' <= octal[i] <= '9';
    }
  }

  lemma {:induction false} SpelledIsClean(path: string)
    requires forall i | 0 <= i < |path| :: IsBreak(path[i]) ==> NeedsQuote(path[i])
    ensures Clean(Spelled(path))
  {
    if path != [] {
      EscapedIsClean(path[0]);
      SpelledIsClean(path[1..]);
    }
  }

  lemma NameIsClean(side: string, path: string)
    requires forall i | 0 <= i < |path| :: IsBreak(path[i]) ==> NeedsQuote(path[i])
    requires Clean(side)
    ensures Clean(Name(side, path))
  {
    SpelledIsClean(path);
  }

  lemma {:induction false} PiecesOfClean(lines: seq<string>)
    requires AllClean(lines)
    ensures PiecesAll(lines) == lines
  {
    if lines != [] {
      CleanChomps(lines[0]);
      PiecesOfReadable(lines[0]);
      PiecesOfClean(lines[1..]);
      assert [lines[0]] + lines[1..] == lines;
    }
  }

  lemma MarkedReadable(mark: char, texts: seq<string>)
    requires Readable(texts) && !IsBreak(mark)
    ensures Readable(Marked(mark, texts))
  {
    MarkedAt(mark, texts);
    forall i | 0 <= i < |texts|
      ensures Clean(Chomp([mark] + texts[i]))
    {
      ChompLater(mark, texts[i]);
    }
  }

  lemma {:induction false} UnchangedIsHarmless(nums: Numerals, named: bool, segments: seq<Segment>)
    requires !Changes(segments)
    ensures AllHarmless(nums, named, segments)
  {
    EachHarmless(nums, named, segments);
    forall g | g in segments
      ensures PartHarmless(nums, named, g)
    {
      var i :| 0 <= i < |segments| && segments[i] == g;
    }
  }

  lemma RunFile(nums: Numerals, s: State, f: FileDiff)
    requires Legible(nums, f)
    ensures ReadPieces(nums, s, FileLines(f)).added == Effect(s.added, Label(f), Additions(f.segments, 0))
  {
    HeaderIsReadable(f);
    PiecesOfClean(HeaderLines(f));
    ReadsInOrder(nums, s, HeaderLines(f), BodyLines(f.segments));
    RunHeader(nums, s, f);
    if !Changes(f.segments) {
      UnchangedIsHarmless(nums, false, f.segments);
    }
    RunBody(nums, f.segments, s.(rel := Label(f), header := true));
  }

  lemma {:induction false} RunDiff(nums: Numerals, files: seq<FileDiff>)
    requires AllOf(nums, files)
    ensures ReadPieces(nums, START, DiffLines(files)).added == Expected(files)
  {
    if files != [] {
      var before, f := files[..|files| - 1], files[|files| - 1];
      RunDiff(nums, before);
      ReadsInOrder(nums, START, DiffLines(before), FileLines(f));
      RunFile(nums, ReadPieces(nums, START, DiffLines(before)), f);
    }
  }

  predicate AllOf(nums: Numerals, files: seq<FileDiff>) {
    forall i | 0 <= i < |files| :: Legible(nums, files[i])
  }

  function ReadAll(nums: Numerals, out: string): map<string, Lines> {
    Run(nums, START, SplitLines(out)).added
  }

  /** Reading the printed diff of any edit scripts gives exactly their additions. */
  lemma ReadingPrintedDiff(nums: Numerals, files: seq<FileDiff>)
    requires AllOf(nums, files)
    ensures ReadAll(nums, Text(DiffLines(files))) == Expected(files)
  {
    PiecesOfText(DiffLines(files));
    RunDiff(nums, files);
  }

  // ----- File by file -----

  predicate DistinctPaths(files: seq<FileDiff>) {
    forall i, j | 0 <= i < j < |files| :: files[i].path != files[j].path
  }

  lemma {:induction false} UnchangedAddsNothing(segments: seq<Segment>, before: nat)
    requires !Changes(segments)
    ensures Additions(segments, before) == []
  {
    if segments != [] {
      assert forall i | 0 <= i < |segments[1..]| :: segments[1..][i] == segments[i + 1];
      UnchangedAddsNothing(segments[1..], before + |NewPart(segments[0])|);
    }
  }

  lemma NamesDistinct(a: string, b: string)
    requires !Quoted(a) && !Quoted(b) && a + Tab(a) == b + Tab(b)
    ensures a == b
  {
    var name := a + Tab(a);
    assert NeedsQuote('\t');
    assert a == name[..|a|] && b == name[..|b|];
  }

  lemma LabelsDistinct(f: FileDiff, g: FileDiff)
    requires f.path != g.path && Label(f).Some? && Label(g).Some?
    ensures Label(f) != Label(g)
  {
    if Label(f) == Label(g) {
      NamesDistinct(f.path, g.path);
    }
  }

  lemma NameIsNew(files: seq<FileDiff>)
    requires files != [] && DistinctPaths(files) && Label(files[|files| - 1]).Some?
    ensures Label(files[|files| - 1]).value !in Expected(files[..|files| - 1])
  {
    var init, last := files[..|files| - 1], files[|files| - 1];
    ExpectedKeys(init);
    if Label(last).value in Expected(init) {
      var i :| 0 <= i < |init| && Label(init[i]) == Label(last) && Additions(init[i].segments, 0) != [];
      assert files[i].path != last.path;
      LabelsDistinct(init[i], last);
    }
  }

  lemma OtherNameStays(added: map<string, Lines>, rel: Option<string>, lines: Lines, name: string)
    requires rel != Some(name)
    ensures Get(Effect(added, rel, lines), name) == Get(added, name)
  {
  }

  /** What the report holds for one file. */
  lemma {:induction false} ExpectedPerFile(files: seq<FileDiff>, k: nat)
    requires DistinctPaths(files) && k < |files| && Label(files[k]).Some?
    ensures Get(Expected(files), Label(files[k]).value) == Additions(files[k].segments, 0)
    decreases |files|
  {
    var init, last := files[..|files| - 1], files[|files| - 1];
    if k < |init| {
      assert init[k] == files[k];
      ExpectedPerFile(init, k);
      assert files[k].path != last.path;
      if Label(last).Some? {
        LabelsDistinct(files[k], last);
      }
      OtherNameStays(Expected(init), Label(last), Additions(last.segments, 0), Label(files[k]).value);
    } else {
      NameIsNew(files);
    }
  }

  /** Some file adds lines under this label. */
  ghost predicate NamedBy(files: seq<FileDiff>, rel: string) {
    exists i :: 0 <= i < |files| && Label(files[i]) == Some(rel) && Additions(files[i].segments, 0) != []
  }

  lemma NamedByMore(files: seq<FileDiff>, rel: string)
    requires files != []
    ensures NamedBy(files[..|files| - 1], rel) ==> NamedBy(files, rel)
  {
    var init := files[..|files| - 1];
    if i :| 0 <= i < |init| && Label(init[i]) == Some(rel) && Additions(init[i].segments, 0) != [] {
      assert files[i] == init[i];
    }
  }

  /** The report names no file that is not in the diff, and none without additions. */
  lemma {:induction false} ExpectedKeys(files: seq<FileDiff>)
    ensures forall rel | rel in Expected(files) :: Expected(files)[rel] != [] && NamedBy(files, rel)
    decreases |files|
  {
    if files != [] {
      var last := files[|files| - 1];
      ExpectedKeys(files[..|files| - 1]);
      forall rel | rel in Expected(files)
        ensures Expected(files)[rel] != [] && NamedBy(files, rel)
      {
        NamedByMore(files, rel);
        if rel !in Expected(files[..|files| - 1]) {
          assert Label(last) == Some(rel) && Additions(last.segments, 0) != [];
        }
      }
    }
  }

  lemma ReportOfFile(files: seq<FileDiff>, k: nat)
    requires DistinctPaths(files) && k < |files| && !Quoted(files[k].path)
    ensures Get(Expected(files), files[k].path + Tab(files[k].path)) == Additions(files[k].segments, 0)
  {
    if Changes(files[k].segments) {
      ExpectedPerFile(files, k);
    } else {
      UnchangedAddsNothing(files[k].segments, 0);
      UnchangedNotNamed(files, k);
    }
  }

  /** All a file adds, in order; with the lines it keeps, that rebuilds the new file. */
  ghost predicate TrueLines(lines: Lines, segments: seq<Segment>) {
    && lines == Additions(segments, 0) && Within(lines, 0, |NewLines(segments)|)
    && RebuildsTo(ChompAll(KeptLines(segments)), lines, 1, ChompAll(NewLines(segments)))
  }

  ghost predicate TrueToFile(report: map<string, Lines>, f: FileDiff) {
    TrueLines(Get(report, f.path + Tab(f.path)), f.segments)
  }

  lemma AdditionsAreTrue(segments: seq<Segment>)
    ensures TrueLines(Additions(segments, 0), segments)
  {
    AdditionsRebuildNewFile(segments, 0);
    AdditionsAreOrdered(segments, 0);
  }

  lemma ExpectedIsTrue(files: seq<FileDiff>, k: nat)
    requires DistinctPaths(files) && k < |files| && !Quoted(files[k].path)
    ensures TrueToFile(Expected(files), files[k])
  {
    ReportOfFile(files, k);
    AdditionsAreTrue(files[k].segments);
  }

  /**
   What the reader reports for a file whose name git need not quote: no line of it is missed and no
   number is off.
   */
  lemma ReportPerFile(nums: Numerals, files: seq<FileDiff>, k: nat)
    requires AllOf(nums, files) && DistinctPaths(files) && k < |files| && !Quoted(files[k].path)
    ensures TrueToFile(ReadAll(nums, Text(DiffLines(files))), files[k])
  {
    ReadingPrintedDiff(nums, files);
    ExpectedIsTrue(files, k);
  }

  lemma UnchangedNotNamed(files: seq<FileDiff>, k: nat)
    requires DistinctPaths(files) && k < |files| && !Quoted(files[k].path) && !Changes(files[k].segments)
    ensures files[k].path + Tab(files[k].path) !in Expected(files)
  {
    var name := files[k].path + Tab(files[k].path);
    ExpectedKeys(files);
    if name in Expected(files) {
      var i :| 0 <= i < |files| && Label(files[i]) == Some(name) && Additions(files[i].segments, 0) != [];
      NamesDistinct(files[i].path, files[k].path);
    }
  }

  ghost predicate NamesExactly(report: map<string, Lines>, files: seq<FileDiff>) {
    forall rel :: rel in report <==> exists i :: 0 <= i < |files| && AddsUnder(files[i], rel)
  }

  /** The file adds something, and this is its name as the diff spells it. */
  predicate AddsUnder(f: FileDiff, rel: string) {
    !Quoted(f.path) && rel == f.path + Tab(f.path) && Additions(f.segments, 0) != []
  }

  lemma AddsUnderLabel(f: FileDiff, rel: string)
    ensures AddsUnder(f, rel) <==> Label(f) == Some(rel) && Additions(f.segments, 0) != []
  {
    if !Changes(f.segments) {
      UnchangedAddsNothing(f.segments, 0);
    }
  }

  lemma ExpectedNames(files: seq<FileDiff>)
    requires DistinctPaths(files)
    ensures NamesExactly(Expected(files), files)
  {
    ExpectedKeys(files);
    forall rel
      ensures rel in Expected(files) <==> exists i :: 0 <= i < |files| && AddsUnder(files[i], rel)
    {
      if rel in Expected(files) {
        var i :| 0 <= i < |files| && Label(files[i]) == Some(rel) && Additions(files[i].segments, 0) != [];
        AddsUnderLabel(files[i], rel);
      } else if i :| 0 <= i < |files| && AddsUnder(files[i], rel) {
        AddsUnderLabel(files[i], rel);
        ExpectedPerFile(files, i);
      }
    }
  }

  /** The report names exactly the files that add something under a name git need not quote; the others are skipped. */
  lemma ReportNames(nums: Numerals, files: seq<FileDiff>)
    requires AllOf(nums, files) && DistinctPaths(files)
    ensures NamesExactly(ReadAll(nums, Text(DiffLines(files))), files)
  {
    ReadingPrintedDiff(nums, files);
    ExpectedNames(files);
  }

  // ----- Which texts can be reported -----

  predicate CleanTexts(added: map<string, Lines>) {
    forall rel | rel in added :: forall i | 0 <= i < |added[rel]| :: Clean(added[rel][i].1)
  }

  /** No reported text breaks a line, whatever the diff. */
  lemma {:induction false} ReportedTextsAreClean(nums: Numerals, lines: seq<string>)
    requires AllClean(lines)
    ensures CleanTexts(Run(nums, START, lines).added)
  {
    if lines != [] {
      ReportedTextsAreClean(nums, lines[..|lines| - 1]);
      var s, line := Run(nums, START, lines[..|lines| - 1]), lines[|lines| - 1];
      assert Clean(line);
      var next := Step(nums, s, line).added;
      if next != s.added {
        assert Clean(line[1..]);
        assert next == s.added[s.rel.value := Get(s.added, s.rel.value) + [(s.number, line[1..])]];
      }
    }
  }

  /** The `i`th addition says `text`. */
  predicate AddsAt(segments: seq<Segment>, before: nat, i: nat, text: string) {
    i < |Additions(segments, before)| && Additions(segments, before)[i].1 == text
  }

  lemma AddsAtLater(segments: seq<Segment>, before: nat, i: nat, text: string)
    requires segments != [] && AddsAt(segments[1..], before + |NewPart(segments[0])|, i, text)
    ensures AddsAt(segments, before, |AddedPart(segments[0], before)| + i, text)
  {
  }

  lemma AddsAtOnce(segments: seq<Segment>, before: nat, k: nat)
    requires segments != [] && segments[0].Change? && k < |segments[0].added|
    ensures AddsAt(segments, before, k, Chomp(segments[0].added[k]))
  {
    NumberedAt(segments[0].added, before + 1);
  }

  lemma {:induction false} AdditionsHold(segments: seq<Segment>, before: nat, g: Segment, k: nat) returns (i: nat)
    requires g in segments && g.Change? && k < |g.added|
    ensures AddsAt(segments, before, i, Chomp(g.added[k]))
    decreases |segments|
  {
    if segments[0] == g {
      AddsAtOnce(segments, before, k);
      i := k;
    } else {
      var j := AdditionsHold(segments[1..], before + |NewPart(segments[0])|, g, k);
      AddsAtLater(segments, before, j, Chomp(g.added[k]));
      i := |AddedPart(segments[0], before)| + j;
    }
  }

  lemma BreakIsLost(files: seq<FileDiff>, k: nat, g: Segment, j: nat)
    requires DistinctPaths(files) && k < |files| && !Quoted(files[k].path)
    requires g in files[k].segments && g.Change? && j < |g.added| && !Clean(Chomp(g.added[j]))
    ensures !CleanTexts(Expected(files))
  {
    var f := files[k];
    var m :| 0 <= m < |f.segments| && f.segments[m] == g;
    var i := AdditionsHold(f.segments, 0, g, j);
    ExpectedPerFile(files, k);
    var name := Label(f).value;
    assert Expected(files)[name][i].1 == Chomp(g.added[j]);
  }

  predicate AddedUnderNamesReadable(files: seq<FileDiff>) {
    forall i | 0 <= i < |files| && !Quoted(files[i].path) :: AddedReadable(files[i].segments)
  }

  /** Headings and removed texts break off nothing the reader would act on; nor does any text of a nameless file. */
  predicate StrayHarmless(nums: Numerals, f: FileDiff) {
    forall g | g in f.segments && g.Change? ::
      && Harmless(nums, !Quoted(f.path), g.heading) && (forall t | t in g.removed :: Harmless(nums, !Quoted(f.path), t))
      && (Quoted(f.path) ==> forall t | t in g.added :: Harmless(nums, false, t))
  }

  lemma LegibleParts(nums: Numerals, f: FileDiff)
    requires Tidy(f) && StrayHarmless(nums, f)
    ensures Legible(nums, f) <==> Quoted(f.path) || AddedReadable(f.segments)
  {
    EachHarmless(nums, !Quoted(f.path), f.segments);
  }

  /**
   As long as what headings and removed texts break off does no harm, the reading is exact if and only
   if no text added under a readable name breaks a line inside.
   */
  lemma ReadingIsExact(nums: Numerals, files: seq<FileDiff>)
    requires DistinctPaths(files) && forall i | 0 <= i < |files| :: Tidy(files[i]) && StrayHarmless(nums, files[i])
    ensures ReadAll(nums, Text(DiffLines(files))) == Expected(files) <==> AddedUnderNamesReadable(files)
  {
    if AddedUnderNamesReadable(files) {
      forall i | 0 <= i < |files|
        ensures Legible(nums, files[i])
      {
        LegibleParts(nums, files[i]);
      }
      ReadingPrintedDiff(nums, files);
    } else {
      var k :| 0 <= k < |files| && !Quoted(files[k].path) && !AddedReadable(files[k].segments);
      BreakMeansInexact(nums, files, k);
    }
  }

  /** A text added under a readable name that breaks a line inside is never reported as it is. */
  lemma BreakMeansInexact(nums: Numerals, files: seq<FileDiff>, k: nat)
    requires DistinctPaths(files) && k < |files| && !Quoted(files[k].path) && !AddedReadable(files[k].segments)
    ensures ReadAll(nums, Text(DiffLines(files))) != Expected(files)
  {
    var g :| g in files[k].segments && g.Change? && !Readable(g.added);
    var j :| 0 <= j < |g.added| && !Clean(Chomp(g.added[j]));
    BreakIsLost(files, k, g, j);
    ReportedTextsAreClean(nums, SplitLines(Text(DiffLines(files))));
  }

  // ----- The loops -----

  /** The reading loop of `_added_lines`. */
  method AddedLines(nums: Numerals, out: string) returns (added: map<string, Lines>)
    ensures added == ReadAll(nums, out)
  {
    var lines := SplitLines(out);
    var rel: Option<string>, number, header := None, 0, false;
    added := map[];
    for i := 0 to |lines|
      invariant State(rel, number, header, added) == Run(nums, START, lines[..i])
    {
      assert lines[..i + 1][..i] == lines[..i];
      var line := lines[i];
      if OpensFile(line) {
        rel, header := None, true;
        continue;
      }
      var hunk := HunkStart(nums, line);
      if header {
        if NamesFile(line) {
          rel := Some(line[6..]);
        } else if hunk.Some? {
          number, header := hunk.value, false;
        }
        continue;
      }
      if hunk.Some? {
        number := hunk.value;
        continue;
      }
      if rel.Some? && rel.value != "" && Adds(line) {
        added := added[rel.value := Get(added, rel.value) + [(number, line[1..])]];
        number := number + 1;
      }
    }
    assert lines[..|lines|] == lines;
  }
}
