/**
 The order in which authored SQL files are loaded, and how a file is cut into statements.
 */
module SqlBootstrap {
  import opened Wrappers
  import opened PyText

  // ----- File order -----

  datatype Dialect = Postgres | Sqlite

  datatype File = Namespace | Table(name: string) | View(name: string)

  /** What is on disk, by file name; the orders below give file names too. */
  datatype Disk = Disk(namespace: bool, tables: set<string>, views: set<string>)

  datatype Error = Missing | Repeated | Unexpected

  predicate NoDuplicates<T(==)>(s: seq<T>) {
    forall i, j | 0 <= i < j < |s| :: s[i] != s[j]
  }

  /** The first place of a name in an order, or the order's length. */
  function Place(order: seq<string>, name: string): (k: nat)
    ensures k <= |order| && (k == |order| <==> name !in order) && (k < |order| ==> order[k] == name)
    ensures forall i | 0 <= i < k :: order[i] != name
  {
    if order == [] || order[0] == name then 0 else 1 + Place(order[1..], name)
  }

  /** Listed names by their place, then the others alphabetically. */
  predicate Before(order: seq<string>, a: string, b: string) {
    Place(order, a) < Place(order, b) || (a !in order && b !in order && Less(a, b))
  }

  predicate OrderedBy(order: seq<string>, s: seq<string>) {
    forall i, j | 0 <= i < j < |s| :: Before(order, s[i], s[j])
  }

  ghost predicate Arranged(order: seq<string>, names: set<string>, s: seq<string>) {
    OrderedBy(order, s) && forall name :: name in s <==> name in names
  }

  /** Takes the listed names that are there out of the set, in order, and then sorts what is left. */
  method Arrange(order: seq<string>, names: set<string>) returns (s: seq<string>)
    ensures Arranged(order, names, s)
    ensures (forall name | name in order :: name in names) && NoDuplicates(order) ==> order <= s
  {
    var listed, left := PopListed(order, names);
    ListedFirst(order, listed, left);
    s := listed + Sorted(left);
  }

  /** The comprehension that pops the listed names. */
  method PopListed(order: seq<string>, names: set<string>) returns (listed: seq<string>, left: set<string>)
    ensures OrderedBy(order, listed) && left == names - InOrder(order)
    ensures forall name :: name in listed <==> name in names && name in order
    ensures (forall name | name in order :: name in names) && NoDuplicates(order) ==> listed == order
  {
    listed, left := [], names;
    for i := 0 to |order|
      invariant left == names - InOrder(order[..i])
      invariant forall name :: name in listed <==> name in names && name in order[..i]
      invariant OrderedBy(order, listed)
      invariant (forall name | name in order :: name in names) && NoDuplicates(order) ==> listed == order[..i]
    {
      var name := order[i];
      assert order[..i + 1] == order[..i] + [name];
      if name in left {
        NextIsLater(order, i, listed);
        listed := listed + [name];
        left := left - {name};
      }
    }
    assert order[..|order|] == order;
  }

  function InOrder(order: seq<string>): set<string> {
    set name | name in order
  }

  lemma NextIsLater(order: seq<string>, i: nat, listed: seq<string>)
    requires i < |order| && order[i] !in order[..i] && OrderedBy(order, listed)
    requires forall name | name in listed :: name in order[..i]
    ensures OrderedBy(order, listed + [order[i]])
  {
    forall k | 0 <= k < |listed|
      ensures Place(order, listed[k]) < Place(order, order[i])
    {
      assert listed[k] in order[..i];
      var m :| 0 <= m < i && order[..i][m] == listed[k];
      assert order[m] == listed[k];
    }
  }

  lemma ListedFirst(order: seq<string>, listed: seq<string>, left: set<string>)
    requires OrderedBy(order, listed) && (forall name | name in listed :: name in order)
    requires forall name | name in left :: name !in order
    ensures OrderedBy(order, listed + Sorted(left))
  {
    var all := listed + Sorted(left);
    forall i, j | 0 <= i < j < |all|
      ensures Before(order, all[i], all[j])
    {
      if j >= |listed| {
        assert all[j] == Sorted(left)[j - |listed|];
        assert all[j] in left;
        if i >= |listed| {
          assert all[i] == Sorted(left)[i - |listed|];
          assert all[i] in left;
        } else {
          assert all[i] in listed;
        }
      }
    }
  }

  lemma HeadOnce(order: seq<string>, s: seq<string>)
    requires OrderedBy(order, s) && s != []
    ensures s[0] !in s[1..]
  {
    LessTotal(s[0], s[0]);
    assert forall i | 0 <= i < |s| - 1 :: s[1..][i] == s[i + 1];
  }

  lemma TailHolds(s: seq<string>, t: seq<string>)
    requires s != [] && t != [] && s[0] == t[0] && s[0] !in s[1..] && forall name | name in s :: name in t
    ensures forall name | name in s[1..] :: name in t[1..]
  {
    forall name | name in s[1..]
      ensures name in t[1..]
    {
      assert name in s && name in t;
      var i :| 0 <= i < |t| && t[i] == name;
      assert i > 0 && t[1..][i - 1] == name;
    }
  }

  /** One list only satisfies what `Arrange` promises: the order is determined. */
  lemma {:induction false} ArrangementIsUnique(order: seq<string>, s: seq<string>, t: seq<string>)
    requires OrderedBy(order, s) && OrderedBy(order, t) && forall name :: name in s <==> name in t
    ensures s == t
  {
    assert (s != [] ==> s[0] in t) && (t != [] ==> t[0] in s);
    if s != [] && t != [] {
      var i :| 0 <= i < |t| && t[i] == s[0];
      var j :| 0 <= j < |s| && s[j] == t[0];
      LessTotal(s[0], t[0]);
      assert s[0] == t[0];
      HeadOnce(order, s);
      HeadOnce(order, t);
      TailHolds(s, t);
      TailHolds(t, s);
      ArrangementIsUnique(order, s[1..], t[1..]);
    }
  }

  function Tables(names: seq<string>): (r: seq<File>)
    ensures |r| == |names| && forall i | 0 <= i < |r| :: r[i] == Table(names[i])
  {
    seq(|names|, i requires 0 <= i < |names| => Table(names[i]))
  }

  function Views(names: seq<string>): (r: seq<File>)
    ensures |r| == |names| && forall i | 0 <= i < |r| :: r[i] == View(names[i])
  {
    seq(|names|, i requires 0 <= i < |names| => View(names[i]))
  }

  function Sequence(dialect: Dialect, tables: seq<string>, views: seq<string>): seq<File> {
    (if dialect.Postgres? then [Namespace] else []) + Tables(tables) + Views(views)
  }

  /** The namespace where the dialect has one, then each table once, then each view once. */
  ghost predicate Bootstraps(dialect: Dialect, disk: Disk, first: seq<string>, viewOrder: seq<string>,
                             files: seq<File>)
  {
    exists tables, views ::
      files == Sequence(dialect, tables, views) && first <= tables
      && Arranged(first, disk.tables, tables) && Arranged(viewOrder, disk.views, views)
  }

  /** `bootstrap_files`. */
  method BootstrapFiles(dialect: Dialect, disk: Disk, first: seq<string>, viewOrder: seq<string>, exact: bool)
    returns (r: Result<seq<File>, Error>)
    ensures r.Ok? <==>
              && (dialect.Postgres? ==> disk.namespace) && (forall name | name in first :: name in disk.tables)
              && (forall i, j | 0 <= i < j < |first| :: first[i] != first[j])
              && (exact ==> forall name | name in disk.tables :: name in first)
    ensures r.Ok? ==> Bootstraps(dialect, disk, first, viewOrder, r.value)
    ensures r == Err(Missing) <==>
              (dialect.Postgres? && !disk.namespace) || exists name :: name in first && name !in disk.tables
  {
    if (dialect.Postgres? && !disk.namespace) || exists name | name in first :: name !in disk.tables {
      return Err(Missing);
    }
    if exists i, j | 0 <= i < j < |first| :: first[i] == first[j] {
      return Err(Repeated);
    }
    var tables := Arrange(first, disk.tables);
    if exact && exists name | name in disk.tables :: name !in first {
      return Err(Unexpected);
    }
    var views := Arrange(viewOrder, disk.views);
    r := Ok(Sequence(dialect, tables, views));
  }

  /** The order is a function of the inventory. */
  lemma BootstrapIsDetermined(dialect: Dialect, disk: Disk, first: seq<string>, viewOrder: seq<string>,
                              a: seq<File>, b: seq<File>)
    requires Bootstraps(dialect, disk, first, viewOrder, a) && Bootstraps(dialect, disk, first, viewOrder, b)
    ensures a == b
  {
    var ta, va :| a == Sequence(dialect, ta, va) && first <= ta
      && Arranged(first, disk.tables, ta) && Arranged(viewOrder, disk.views, va);
    var tb, vb :| b == Sequence(dialect, tb, vb) && first <= tb
      && Arranged(first, disk.tables, tb) && Arranged(viewOrder, disk.views, vb);
    ArrangementIsUnique(first, ta, tb);
    ArrangementIsUnique(viewOrder, va, vb);
  }

  /** Both in the list, the one first found first; or only the former; or neither, and then by code point. */
  ghost predicate Sooner(order: seq<string>, a: string, b: string) {
    || (exists i :: 0 <= i < |order| && order[i] == a && b !in order[..i + 1])
    || (a !in order && b !in order && Less(a, b))
  }

  lemma BeforeIsSooner(order: seq<string>, a: string, b: string)
    requires Before(order, a, b)
    ensures Sooner(order, a, b)
  {
    if a in order {
      var i := Place(order, a);
      assert forall k | 0 <= k <= i :: order[..i + 1][k] == order[k];
      assert b !in order[..i + 1];
    }
  }

  /** The files, place by place. */
  lemma SequenceAt(dialect: Dialect, tables: seq<string>, views: seq<string>)
    ensures var files, t := Sequence(dialect, tables, views), if dialect.Postgres? then 1 else 0;
            && |files| == t + |tables| + |views| && (dialect.Postgres? ==> files[0] == Namespace)
            && (forall i | t <= i < t + |tables| :: files[i] == Table(tables[i - t]))
            && (forall i | t + |tables| <= i < |files| :: files[i] == View(views[i - t - |tables|]))
  {
    var head: seq<File> := if dialect.Postgres? then [Namespace] else [];
    assert Sequence(dialect, tables, views) == head + Tables(tables) + Views(views);
  }

  lemma SequenceHas(dialect: Dialect, tables: seq<string>, views: seq<string>, name: string)
    ensures var files := Sequence(dialect, tables, views);
            && (Namespace in files <==> dialect.Postgres?)
            && (Table(name) in files <==> name in tables) && (View(name) in files <==> name in views)
  {
    SequenceAt(dialect, tables, views);
    var files, t := Sequence(dialect, tables, views), if dialect.Postgres? then 1 else 0;
    if i :| 0 <= i < |tables| && tables[i] == name {
      assert files[t + i] == Table(name);
    }
    if i :| 0 <= i < |views| && views[i] == name {
      assert files[t + |tables| + i] == View(name);
    }
  }

  /** Of two files, which may come first. */
  ghost predicate InTurn(first: seq<string>, viewOrder: seq<string>, f: File, g: File) {
    match (f, g)
    case (Table(a), Table(b)) => Sooner(first, a, b)
    case (View(a), View(b)) => Sooner(viewOrder, a, b)
    case (Namespace, _) => !g.Namespace?
    case (Table(_), _) => g.View?
    case (View(_), _) => g.View?
  }

  lemma SequenceOrder(dialect: Dialect, first: seq<string>, viewOrder: seq<string>, tables: seq<string>,
                      views: seq<string>)
    requires OrderedBy(first, tables) && OrderedBy(viewOrder, views)
    ensures var files := Sequence(dialect, tables, views);
            forall i, j | 0 <= i < j < |files| :: InTurn(first, viewOrder, files[i], files[j])
  {
    SequenceAt(dialect, tables, views);
    SoonerInOrder(first, tables);
    SoonerInOrder(viewOrder, views);
  }

  /** What the list of files is: which files are in it, and which comes before which. */
  lemma BootstrapLists(dialect: Dialect, disk: Disk, first: seq<string>, viewOrder: seq<string>, files: seq<File>)
    requires Bootstraps(dialect, disk, first, viewOrder, files)
    ensures Namespace in files <==> dialect.Postgres?
    ensures forall name :: Table(name) in files <==> name in disk.tables
    ensures forall name :: View(name) in files <==> name in disk.views
    ensures forall i, j | 0 <= i < j < |files| :: InTurn(first, viewOrder, files[i], files[j])
  {
    var tables, views :| files == Sequence(dialect, tables, views) && first <= tables
      && Arranged(first, disk.tables, tables) && Arranged(viewOrder, disk.views, views);
    SequenceOrder(dialect, first, viewOrder, tables, views);
    SequenceHas(dialect, tables, views, "");
    forall name
      ensures Table(name) in files <==> name in disk.tables
      ensures View(name) in files <==> name in disk.views
    {
      SequenceHas(dialect, tables, views, name);
    }
  }

  lemma SoonerInOrder(order: seq<string>, s: seq<string>)
    requires OrderedBy(order, s)
    ensures forall i, j | 0 <= i < j < |s| :: Sooner(order, s[i], s[j])
  {
    forall i, j | 0 <= i < j < |s|
      ensures Sooner(order, s[i], s[j])
    {
      BeforeIsSooner(order, s[i], s[j]);
    }
  }

  // ----- Statements -----

  /** `splitlines(keepends=True)`. */
  function KeepEnds(s: string): (lines: seq<string>)
    ensures Concat(lines) == s
    ensures s != [] ==> lines != [] && lines[0] != []
  {
    if s == [] then []
    else if |s| >= 2 && s[0] == '\r' && s[1] == '\n' then
      assert s[..2] + s[2..] == s;
      [s[..2]] + KeepEnds(s[2..])
    else if IsBreak(s[0]) || |s| == 1 then [[s[0]]] + KeepEnds(s[1..])
    else
      var rest := KeepEnds(s[1..]);
      LongerConcat(s[0], rest);
      [[s[0]] + rest[0]] + rest[1..]
  }

  lemma LongerConcat(c: char, lines: seq<string>)
    requires lines != []
    ensures Concat([[c] + lines[0]] + lines[1..]) == [c] + Concat(lines)
  {
    var all := [[c] + lines[0]] + lines[1..];
    assert all[0] == [c] + lines[0] && all[1..] == lines[1..];
    LongerFront(c, lines[0], Concat(lines[1..]));
  }

  lemma LongerFront(c: char, first: string, rest: string)
    ensures ([c] + first) + rest == [c] + (first + rest)
  {
  }

  function Concat(parts: seq<string>): string {
    if parts == [] then [] else parts[0] + Concat(parts[1..])
  }

  lemma {:induction false} ConcatAppend(a: seq<string>, b: seq<string>)
    ensures Concat(a + b) == Concat(a) + Concat(b)
  {
    if a == [] {
      assert a + b == b;
    } else {
      assert (a + b)[1..] == a[1..] + b;
      ConcatAppend(a[1..], b);
    }
  }

  predicate IsSpace(c: char) {
    '\t' <= c <= '\r' || '\U{1C}' <= c <= ' ' || c == '\U{85}' || c == '\U{A0}' || c == '\U{1680}' ||
    '\U{2000}' <= c <= '\U{200A}' || c == '\U{2028}' || c == '\U{2029}' || c == '\U{202F}' || c == '\U{205F}' ||
    c == '\U{3000}'
  }

  /** A line that is blank, or a comment once its leading space is gone. */
  predicate Idle(line: string) {
    if line == [] then true
    else if IsSpace(line[0]) then Idle(line[1..])
    else |line| >= 2 && line[0] == '-' && line[1] == '-'
  }

  /** `isspace`, by code points. */
  lemma SpacesAre(c: char)
    ensures IsSpace(c) <==>
              c as int in {9, 10, 11, 12, 13, 28, 29, 30, 31, 32, 0x85, 0xA0, 0x1680, 0x2000, 0x2001, 0x2002, 0x2003,
                           0x2004, 0x2005, 0x2006, 0x2007, 0x2008, 0x2009, 0x200A, 0x2028, 0x2029, 0x202F, 0x205F,
                           0x3000}
  {
  }

  /** So many characters of space, and then nothing or two hyphens. */
  ghost predicate IdleAfter(line: string, k: nat) {
    && k <= |line| && (forall i | 0 <= i < k :: IsSpace(line[i]))
    && (k == |line| || (k + 1 < |line| && line[k] == '-' && line[k + 1] == '-'))
  }

  lemma {:induction false} IdleMeans(line: string)
    ensures Idle(line) <==> exists k: nat :: IdleAfter(line, k)
  {
    if line == [] {
      assert IdleAfter(line, 0);
    } else {
      var rest := line[1..];
      IdleMeans(rest);
      if IsSpace(line[0]) {
        if k: nat :| IdleAfter(rest, k) {
          assert forall i | 0 < i < k + 1 :: line[i] == rest[i - 1];
          assert IdleAfter(line, k + 1);
        }
        if k: nat :| IdleAfter(line, k) {
          assert k > 0 && forall i | 0 <= i < k - 1 :: rest[i] == line[i + 1];
          assert IdleAfter(rest, k - 1);
        }
      } else if Idle(line) {
        assert IdleAfter(line, 0);
      }
    }
  }

  /** The line without its break: a carriage return and a line feed are one break. */
  function Body(line: string): string {
    if |line| >= 2 && line[|line| - 2] == '\r' && line[|line| - 1] == '\n' then line[..|line| - 2]
    else if line != [] && IsBreak(line[|line| - 1]) then line[..|line| - 1]
    else line
  }

  /** Every line but the last ends in a break, none has one inside, and no break is torn apart. */
  ghost predicate CutAtBreaks(lines: seq<string>) {
    && (forall i | 0 <= i < |lines| :: lines[i] != [] && Clean(Body(lines[i])))
    && (forall i | 0 <= i < |lines| - 1 :: Body(lines[i]) != lines[i])
    && (forall i | 0 <= i < |lines| - 1 :: !(lines[i][|lines[i]| - 1] == '\r' && lines[i + 1][0] == '\n'))
  }

  lemma CutBefore(first: string, lines: seq<string>)
    requires CutAtBreaks(lines) && first != [] && Clean(Body(first)) && (lines != [] ==> Body(first) != first)
    requires lines != [] ==> !(first[|first| - 1] == '\r' && lines[0][0] == '\n')
    ensures CutAtBreaks([first] + lines)
  {
    var all := [first] + lines;
    assert all[0] == first && forall i | 0 < i < |all| :: all[i] == lines[i - 1];
    forall i | 0 <= i < |all| - 1
      ensures Body(all[i]) != all[i] && !(all[i][|all[i]| - 1] == '\r' && all[i + 1][0] == '\n')
    {
      if i > 0 {
        assert all[i] == lines[i - 1] && all[i + 1] == lines[i];
      }
    }
  }

  /** The lines are cut at every break and nowhere else; without their breaks they are those of `splitlines()`. */
  lemma {:induction false} KeepEndsMeans(s: string)
    ensures CutAtBreaks(KeepEnds(s)) && |SplitLines(s)| == |KeepEnds(s)|
    ensures forall i | 0 <= i < |KeepEnds(s)| :: SplitLines(s)[i] == Body(KeepEnds(s)[i])
  {
    if s == [] {
    } else if |s| >= 2 && s[0] == '\r' && s[1] == '\n' {
      KeepEndsMeans(s[2..]);
      CutBefore(s[..2], KeepEnds(s[2..]));
    } else if IsBreak(s[0]) {
      KeepEndsMeans(s[1..]);
      StartsAlike(s[1..]);
      CutBefore([s[0]], KeepEnds(s[1..]));
    } else {
      KeepEndsMeans(s[1..]);
      if |s| == 1 {
        CutBefore([s[0]], []);
      } else {
        LongerFirst(s[0], KeepEnds(s[1..]));
      }
    }
  }

  lemma StartsAlike(s: string)
    ensures s != [] ==> KeepEnds(s)[0][0] == s[0]
  {
  }

  lemma LongerFirst(c: char, lines: seq<string>)
    requires CutAtBreaks(lines) && lines != [] && !IsBreak(c)
    ensures CutAtBreaks([[c] + lines[0]] + lines[1..]) && Body([c] + lines[0]) == [c] + Body(lines[0])
  {
    var all := [[c] + lines[0]] + lines[1..];
    LongerBody(c, lines[0]);
    assert all[0] == [c] + lines[0] && forall i | 0 < i < |all| :: all[i] == lines[i];
  }

  lemma LongerBody(c: char, line: string)
    requires line != [] && !IsBreak(c)
    ensures Body([c] + line) == [c] + Body(line) && ([c] + line)[|line|] == line[|line| - 1]
    ensures Clean(Body(line)) ==> Clean(Body([c] + line))
    ensures Body(line) != line ==> Body([c] + line) != [c] + line
  {
    assert |line| >= 2 ==> ([c] + line)[|line| - 1] == line[|line| - 2];
    var body := Body([c] + line);
    assert forall i | 0 < i < |body| :: body[i] == Body(line)[i - 1];
  }

  type Test = string -> bool

  /** No run of lines from the start is a complete statement. */
  predicate NeverComplete(complete: Test, lines: seq<string>) {
    forall k | 0 < k <= |lines| :: !complete(Concat(lines[..k]))
  }

  /** A statement: complete with its last line, and not before. */
  predicate Minimal(complete: Test, lines: seq<string>) {
    lines != [] && complete(Concat(lines)) && NeverComplete(complete, lines[..|lines| - 1])
  }

  function Flat(groups: seq<seq<string>>): seq<string> {
    if groups == [] then [] else groups[0] + Flat(groups[1..])
  }

  /** The lines cut into statements, and a rest that holds none. */
  predicate Cut(complete: Test, lines: seq<string>, groups: seq<seq<string>>, rest: seq<string>) {
    && lines == Flat(groups) + rest && NeverComplete(complete, rest)
    && forall i | 0 <= i < |groups| :: Minimal(complete, groups[i])
  }

  function Texts(groups: seq<seq<string>>): (r: seq<string>)
    ensures |r| == |groups| && forall i | 0 <= i < |r| :: r[i] == Concat(groups[i])
  {
    if groups == [] then [] else [Concat(groups[0])] + Texts(groups[1..])
  }

  lemma {:induction false} FlatAppend(groups: seq<seq<string>>, g: seq<string>)
    ensures Flat(groups + [g]) == Flat(groups) + g
  {
    if groups == [] {
      assert [g][1..] == [];
    } else {
      assert (groups + [g])[1..] == groups[1..] + [g];
      FlatAppend(groups[1..], g);
    }
  }

  lemma {:induction false} ConcatTexts(groups: seq<seq<string>>)
    ensures Concat(Texts(groups)) == Concat(Flat(groups))
  {
    if groups != [] {
      ConcatTexts(groups[1..]);
      ConcatAppend(groups[0], Flat(groups[1..]));
    }
  }

  /** The statements a SQLite file yields, and whether loading then fails on what is left. */
  ghost predicate Loads(complete: Test, sql: string, statements: seq<string>, incomplete: bool) {
    exists groups, rest ::
      && Cut(complete, KeepEnds(sql), groups, rest) && statements == Texts(groups)
      && (incomplete <==> exists i :: 0 <= i < |SplitLines(Concat(rest))| && !Idle(SplitLines(Concat(rest))[i]))
  }

  lemma GrowRest(complete: Test, rest: seq<string>, line: string)
    requires NeverComplete(complete, rest)
    ensures Concat(rest + [line]) == Concat(rest) + line
    ensures !complete(Concat(rest + [line])) ==> NeverComplete(complete, rest + [line])
    ensures (rest + [line])[..|rest|] == rest
  {
    ConcatAppend(rest, [line]);
    assert Concat([line]) == line + Concat([]);
    assert line + Concat([]) == line;
    var more := rest + [line];
    forall k | 0 < k <= |more| && !complete(Concat(more))
      ensures !complete(Concat(more[..k]))
    {
      if k <= |rest| {
        assert more[..k] == rest[..k];
      } else {
        assert more[..k] == more;
      }
    }
  }

  /** A rest that has become complete is the next statement. */
  lemma CloseGroup(complete: Test, before: seq<string>, groups: seq<seq<string>>, rest: seq<string>)
    requires rest != [] && Cut(complete, before, groups, rest[..|rest| - 1]) && complete(Concat(rest))
    ensures Cut(complete, before + [rest[|rest| - 1]], groups + [rest], [])
    ensures Texts(groups + [rest]) == Texts(groups) + [Concat(rest)]
  {
    FlatAppend(groups, rest);
    assert rest == rest[..|rest| - 1] + [rest[|rest| - 1]];
    assert Minimal(complete, rest);
  }

  /** What the loop has after some lines. */
  ghost predicate CutSoFar(complete: Test, lines: seq<string>, groups: seq<seq<string>>, rest: seq<string>,
                           statements: seq<string>, statement: string)
  {
    Cut(complete, lines, groups, rest) && statements == Texts(groups) && statement == Concat(rest)
  }

  lemma NextLine(complete: Test, lines: seq<string>, groups: seq<seq<string>>, rest: seq<string>,
                 statements: seq<string>, statement: string, line: string)
    requires CutSoFar(complete, lines, groups, rest, statements, statement)
    ensures if complete(statement + line)
            then CutSoFar(complete, lines + [line], groups + [rest + [line]], [], statements + [statement + line], "")
            else CutSoFar(complete, lines + [line], groups, rest + [line], statements, statement + line)
  {
    GrowRest(complete, rest, line);
    if complete(statement + line) {
      CloseGroup(complete, lines, groups, rest + [line]);
    }
  }

  /** `bootstrap_statements` for SQLite; `complete` is the driver's own test. */
  method SqliteStatements(complete: Test, sql: string) returns (statements: seq<string>, incomplete: bool)
    ensures Loads(complete, sql, statements, incomplete)
  {
    var lines := KeepEnds(sql);
    statements := [];
    var statement := "";
    ghost var groups: seq<seq<string>>, rest: seq<string> := [], [];
    for i := 0 to |lines|
      invariant CutSoFar(complete, lines[..i], groups, rest, statements, statement)
    {
      assert lines[..i + 1] == lines[..i] + [lines[i]];
      NextLine(complete, lines[..i], groups, rest, statements, statement, lines[i]);
      statement := statement + lines[i];
      rest := rest + [lines[i]];
      if complete(statement) {
        statements := statements + [statement];
        statement := "";
        groups, rest := groups + [rest], [];
      }
    }
    assert lines[..|lines|] == lines;
    var leftover := SplitLines(statement);
    incomplete := exists i | 0 <= i < |leftover| :: !Idle(leftover[i]);
  }

  lemma FirstStatement(complete: Test, lines: seq<string>, groups: seq<seq<string>>, rest: seq<string>)
    requires Cut(complete, lines, groups, rest) && groups != []
    ensures 0 < |groups[0]| <= |lines| && groups[0] == lines[..|groups[0]|]
    ensures complete(Concat(lines[..|groups[0]|])) && NeverComplete(complete, lines[..|groups[0]| - 1])
    ensures Cut(complete, lines[|groups[0]|..], groups[1..], rest)
  {
    var g := groups[0];
    assert Minimal(complete, g);
    assert lines == g + (Flat(groups[1..]) + rest);
    assert g[..|g| - 1] == lines[..|g| - 1];
    assert lines[|g|..] == Flat(groups[1..]) + rest;
  }

  lemma EarlierIncomplete(complete: Test, lines: seq<string>, k: nat, n: nat)
    requires 0 < k <= n <= |lines| && NeverComplete(complete, lines[..n])
    ensures !complete(Concat(lines[..k]))
  {
    assert lines[..n][..k] == lines[..k];
  }

  /** The cut is the only one: no other grouping of the lines yields statements each complete only at its end. */
  lemma {:induction false} CutIsUnique(complete: Test, lines: seq<string>, a: seq<seq<string>>, ra: seq<string>,
                                       b: seq<seq<string>>, rb: seq<string>)
    requires Cut(complete, lines, a, ra) && Cut(complete, lines, b, rb)
    ensures a == b && ra == rb
    decreases |lines|
  {
    if a == [] {
      assert lines == ra;
    } else {
      FirstStatement(complete, lines, a, ra);
    }
    if b == [] {
      assert lines == rb;
    } else {
      FirstStatement(complete, lines, b, rb);
    }
    assert lines[..|lines|] == lines;
    if a != [] && b != [] {
      if |a[0]| < |b[0]| {
        EarlierIncomplete(complete, lines, |a[0]|, |b[0]| - 1);
      } else if |b[0]| < |a[0]| {
        EarlierIncomplete(complete, lines, |b[0]|, |a[0]| - 1);
      } else {
        CutIsUnique(complete, lines[|a[0]|..], a[1..], ra, b[1..], rb);
        assert a == [a[0]] + a[1..] && b == [b[0]] + b[1..];
      }
    }
  }

  /** Nothing is dropped or moved: the statements, then what is left, are the file. */
  lemma StatementsAreTheFile(complete: Test, sql: string, statements: seq<string>, incomplete: bool)
    requires Loads(complete, sql, statements, incomplete)
    ensures exists rest :: sql == Concat(statements) + rest &&
              (incomplete <==> exists i :: 0 <= i < |SplitLines(rest)| && !Idle(SplitLines(rest)[i]))
    ensures forall i | 0 <= i < |statements| :: complete(statements[i])
  {
    var groups, rest :|
      && Cut(complete, KeepEnds(sql), groups, rest) && statements == Texts(groups)
      && (incomplete <==> exists i :: 0 <= i < |SplitLines(Concat(rest))| && !Idle(SplitLines(Concat(rest))[i]));
    ConcatTexts(groups);
    ConcatAppend(Flat(groups), rest);
    assert sql == Concat(statements) + Concat(rest);
  }
}
