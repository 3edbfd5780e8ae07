/**
 The merge filter of the diff reader: what is checked of a file is what neither parent had.
 */
module DiffMerge {
  import opened Wrappers
  import opened PyText
  import opened DiffReader

  /** `_merge_side_lines`: no blob outside a merge; the lines git lists are the non-empty ones. */
  function MergeSide(blobs: map<string, string>, rel: string): set<string> {
    if rel !in blobs then {} else set line | line in SplitLines(blobs[rel]) && line != ""
  }

  function Without(lines: Lines, theirs: set<string>): Lines {
    if lines == [] then []
    else (if lines[0].1 in theirs then [] else [lines[0]]) + Without(lines[1..], theirs)
  }

  /** The merge filter. */
  method FilterMerge(added: map<string, Lines>, blobs: map<string, string>) returns (checked: map<string, Lines>)
    ensures checked.Keys == added.Keys
    ensures forall rel | rel in added :: checked[rel] == Without(added[rel], MergeSide(blobs, rel))
  {
    checked := added;
    var left := added.Keys;
    while left != {}
      invariant left <= added.Keys == checked.Keys
      invariant forall rel | rel in left :: checked[rel] == added[rel]
      invariant forall rel | rel in added && rel !in left ::
                  checked[rel] == Without(added[rel], MergeSide(blobs, rel))
    {
      var rel :| rel in left;
      left := left - {rel};
      var theirs := MergeSide(blobs, rel);
      if theirs != {} {
        checked := checked[rel := Without(added[rel], theirs)];
      } else {
        WithoutNothing(added[rel]);
      }
    }
  }

  lemma {:induction false} WithoutNothing(lines: Lines)
    ensures Without(lines, {}) == lines
  {
    if lines != [] {
      WithoutNothing(lines[1..]);
    }
  }

  /** The filter drops the texts of the other side, in every place, and nothing else; the rest keeps its order. */
  lemma FilterIsExact(lines: Lines, theirs: set<string>, low: int, high: int)
    requires Within(lines, low, high)
    ensures Within(Without(lines, theirs), low, high)
    ensures forall l :: l in Without(lines, theirs) <==> l in lines && l.1 !in theirs
  {
    FilterKeepsOrder(lines, theirs, low, high);
    FilterMembers(lines, theirs);
  }

  lemma {:induction false} FilterKeepsOrder(lines: Lines, theirs: set<string>, low: int, high: int)
    requires Within(lines, low, high)
    ensures Within(Without(lines, theirs), low, high)
    decreases |lines|
  {
    if lines != [] {
      var rest := Without(lines[1..], theirs);
      FilterKeepsOrder(lines[1..], theirs, lines[0].0, high);
      if lines[0].1 in theirs {
        assert Without(lines, theirs) == rest;
        WithinLower(rest, low, lines[0].0, high);
      } else {
        WithinHolds(rest, lines[0].0, high);
        assert ([lines[0]] + rest)[1..] == rest;
      }
    }
  }

  lemma {:induction false} FilterMembers(lines: Lines, theirs: set<string>)
    ensures forall l :: l in Without(lines, theirs) <==> l in lines && l.1 !in theirs
  {
    if lines != [] {
      FilterMembers(lines[1..], theirs);
      assert lines == [lines[0]] + lines[1..];
    }
  }

  /**
   A line of a merge is checked exactly when it is added and not a non-empty line of the other side: an added
   blank line is checked even where the other side has it.
   */
  lemma MergeChecksOnlyNewLines(segments: seq<Segment>, blobs: map<string, string>, rel: string, l: (nat, string))
    ensures var checked := Without(Additions(segments, 0), MergeSide(blobs, rel));
            l in checked <==> l in Additions(segments, 0) &&
                              (l.1 == "" || rel !in blobs || l.1 !in SplitLines(blobs[rel]))
    ensures Within(Without(Additions(segments, 0), MergeSide(blobs, rel)), 0, |NewLines(segments)|)
  {
    AdditionsAreOrdered(segments, 0);
    FilterIsExact(Additions(segments, 0), MergeSide(blobs, rel), 0, |NewLines(segments)|);
  }

  /** What is checked, given the diff and the files of the other side by path. */
  function Checked(nums: Numerals, out: string, blobs: map<string, string>): map<string, Lines> {
    var added := ReadAll(nums, out);
    map rel | rel in added :: Without(added[rel], MergeSide(blobs, rel))
  }

  /** The staged lines that are checked, from the diff and the other side of the merge. */
  method StagedLines(nums: Numerals, out: string, blobs: map<string, string>) returns (checked: map<string, Lines>)
    ensures checked == Checked(nums, out, blobs)
  {
    var added := AddedLines(nums, out);
    checked := FilterMerge(added, blobs);
  }

  /** The other side of a file is looked up under the name the diff spells. */
  lemma StagedPerFile(nums: Numerals, files: seq<FileDiff>, blobs: map<string, string>, k: nat)
    requires AllOf(nums, files) && DistinctPaths(files) && k < |files| && !Quoted(files[k].path)
    ensures var f := files[k];
            Get(Checked(nums, Text(DiffLines(files)), blobs), f.path + Tab(f.path)) ==
            Without(Additions(f.segments, 0), MergeSide(blobs, f.path + Tab(f.path)))
  {
    ReadingPrintedDiff(nums, files);
    ReportOfFile(files, k);
  }

  /**
   Of a file without a space in its name, exactly the additions are checked that its other side does not have.
   Of one with a space, all are, whatever its other side holds, unless there is a file of that name and a tab.
   */
  lemma StagedIsExact(nums: Numerals, files: seq<FileDiff>, blobs: map<string, string>, k: nat, l: (nat, string))
    requires AllOf(nums, files) && DistinctPaths(files) && k < |files| && !Quoted(files[k].path)
    ensures var f, checked := files[k], Checked(nums, Text(DiffLines(files)), blobs);
            if ' ' !in f.path then
              l in Get(checked, f.path) <==>
                l in Additions(f.segments, 0) && (l.1 == "" || f.path !in blobs || l.1 !in SplitLines(blobs[f.path]))
            else
              f.path + "\t" !in blobs ==> Get(checked, f.path + "\t") == Additions(f.segments, 0)
  {
    var f := files[k];
    StagedPerFile(nums, files, blobs, k);
    if ' ' !in f.path {
      assert f.path + Tab(f.path) == f.path;
      MergeChecksOnlyNewLines(f.segments, blobs, f.path, l);
    } else {
      WithoutNothing(Additions(f.segments, 0));
    }
  }

  /** One file with one line added. */
  function OneLine(path: string): seq<FileDiff> {
    [FileDiff(path, false, [], [Change([], ["x"], "", false, false)])]
  }

  lemma OneLineIsLegible(nums: Numerals, path: string)
    requires path == "a b" || path == "ab"
    ensures AllOf(nums, OneLine(path)) && !Quoted(path)
    ensures (' ' in path) == (path == "a b")
  {
    assert Clean("x") && Clean("");
    CleanChomps("");
    ReadableIsHarmless(nums, true, "");
    assert Clean(Chomp("x"));
    var g := Change([], ["x"], "", false, false);
    assert PartHarmless(nums, true, g);
    assert AllHarmless(nums, true, [g]);
    assert path[|path| - 1] == 'b' && path[0] == 'a' && (path[1] == ' ' || path[1] == 'b');
  }

  lemma OneLineAdds(path: string)
    ensures Additions(OneLine(path)[0].segments, 0) == [(1, "x")]
  {
    var g := Change([], ["x"], "", false, false);
    assert [g][1..] == [] && g.added[1..] == [];
    assert Numbered(g.added[1..], 2) == [] && Chomp("x") == "x";
    assert Numbered(g.added, 1) == [(1, "x")];
    assert Additions([], 1) == [];
    assert Additions([g], 0) == [(1, "x")] + Additions([], 1);
  }

  /** A merge whose other side has the added line: under `a b` it is checked all the same, under `ab` it is not. */
  lemma SpacedNameWitness(nums: Numerals, path: string)
    requires path == "a b" || path == "ab"
    ensures Get(Checked(nums, Text(DiffLines(OneLine(path))), map[path := "x"]), path + Tab(path)) ==
            if path == "a b" then [(1, "x")] else []
  {
    OneLineIsLegible(nums, path);
    OneLineAdds(path);
    StagedPerFile(nums, OneLine(path), map[path := "x"], 0);
    if path == "a b" {
      assert |path + Tab(path)| != |path|;
      WithoutNothing([(1, "x")]);
    } else {
      assert path + Tab(path) == path;
      assert SplitLines("x") == ["x"];
      assert ["x"][0] == "x" && "x" in MergeSide(map[path := "x"], path);
      assert [(1, "x")][1..] == [];
    }
  }
}
