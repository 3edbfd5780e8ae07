/**
 Storage scopes: the slug that names one, the scope a tree is written to, and the scopes readers ask for.
 */
module ScopePartition {
  import opened Wrappers
  import opened PyText

  // ----- Words and slugs -----

  /** What Python's `isalnum` and `lower` do; a hyphen is never alphanumeric. */
  datatype Alphabet = Alphabet(isAlnum: char -> bool, lower: string -> string)

  predicate SaneAlphabet(t: Alphabet) {
    !t.isAlnum('-')
  }

  /** The maximal runs of characters that satisfy `p`. */
  function Runs(p: char -> bool, s: string): (runs: seq<string>)
    ensures s != [] && p(s[0]) ==> runs != []
  {
    if s == [] then []
    else if !p(s[0]) then Runs(p, s[1..])
    else if |s| == 1 || !p(s[1]) then [[s[0]]] + Runs(p, s[1..])
    else
      var rest := Runs(p, s[1..]);
      [[s[0]] + rest[0]] + rest[1..]
  }

  function Join(words: seq<string>): string {
    if words == [] then "" else if |words| == 1 then words[0] else words[0] + "-" + Join(words[1..])
  }

  /** The comprehension at the start of `scope_slug`. */
  function Dashed(p: char -> bool, s: string): string {
    if s == [] then [] else [if p(s[0]) then s[0] else '-'] + Dashed(p, s[1..])
  }

  predicate HasDouble(s: string) {
    |s| >= 2 && (s[..2] == "--" || HasDouble(s[1..]))
  }

  function StripLeft(s: string): string {
    if s != [] && s[0] == '-' then StripLeft(s[1..]) else s
  }

  function StripRight(s: string): string {
    if s != [] && s[|s| - 1] == '-' then StripRight(s[..|s| - 1]) else s
  }

  predicate NotDash(c: char) {
    c != '-'
  }

  function Words(s: string): seq<string> {
    Runs(NotDash, s)
  }

  lemma DashStartsNoWord(s: string)
    requires s != [] && s[0] == '-'
    ensures Words(s) == Words(s[1..])
  {
  }

  /** What a slug is: the alphanumeric runs of the lowered text, joined by single hyphens. */
  function Slug(t: Alphabet, value: string): string {
    Join(Runs(t.isAlnum, t.lower(value)))
  }

  lemma {:induction false} DashedKeepsRuns(p: char -> bool, s: string)
    requires !p('-')
    ensures Words(Dashed(p, s)) == Runs(p, s)
    ensures |Dashed(p, s)| == |s|
    ensures forall i | 0 <= i < |s| :: (Dashed(p, s)[i] != '-' <==> p(s[i])) && (p(s[i]) ==> Dashed(p, s)[i] == s[i])
  {
    if s != [] {
      DashedKeepsRuns(p, s[1..]);
      var d := Dashed(p, s);
      assert d[1..] == Dashed(p, s[1..]);
      assert forall i | 0 < i < |s| :: d[i] == Dashed(p, s[1..])[i - 1] && s[i] == s[1..][i - 1];
    }
  }

  /** Replacing double hyphens leaves the words as they are. */
  lemma {:induction false} ReplaceKeepsWords(s: string)
    ensures Words(Replace(s, "--", "-")) == Words(s)
    ensures s != [] ==> Replace(s, "--", "-") != [] && (Replace(s, "--", "-")[0] == '-' <==> s[0] == '-')
    ensures s != [] && s[0] != '-' ==> Replace(s, "--", "-")[0] == s[0]
    ensures |Replace(s, "--", "-")| <= |s|
    ensures HasDouble(s) ==> |Replace(s, "--", "-")| < |s|
    decreases |s|
  {
    var r := Replace(s, "--", "-");
    if |s| >= 2 && s[..2] == "--" {
      ReplaceKeepsWords(s[2..]);
      assert s[0] == s[..2][0] && s[1] == s[..2][1] && s[1..][1..] == s[2..];
      DashStartsNoWord(s);
      DashStartsNoWord(s[1..]);
      assert r == "-" + Replace(s[2..], "--", "-");
      assert r[1..] == Replace(s[2..], "--", "-");
      DashStartsNoWord(r);
    } else if |s| >= 2 {
      ReplaceKeepsWords(s[1..]);
      assert r == [s[0]] + Replace(s[1..], "--", "-");
      assert r[1..] == Replace(s[1..], "--", "-");
    }
  }

  lemma {:induction false} StripRightAppend(a: string, t: string)
    requires StripRight(t) != ""
    ensures StripRight(a + t) == a + StripRight(t)
    decreases |t|
  {
    var s := a + t;
    assert t != [];
    if t[|t| - 1] == '-' {
      assert s[..|s| - 1] == a + t[..|t| - 1];
      StripRightAppend(a, t[..|t| - 1]);
    }
  }

  /** Without double hyphens, stripping the ends leaves the words joined. */
  lemma {:induction false} StrippedIsJoined(s: string)
    requires s != [] && s[0] != '-' && !HasDouble(s)
    ensures StripRight(s) == Join(Words(s)) && StripRight(s) != ""
    decreases |s|
  {
    if |s| == 1 {
      assert s[1..] == [] && Words([]) == [];
      assert NotDash(s[0]);
      assert s == [s[0]] && Words(s) == [[s[0]]];
    } else if s[1] != '-' {
      StrippedIsJoined(s[1..]);
      assert s == [s[0]] + s[1..];
      StripRightAppend([s[0]], s[1..]);
      JoinPrefix(s[0], Words(s[1..]));
    } else if |s| == 2 {
      assert s[..1] == [s[0]];
      DashStartsNoWord(s[1..]);
      assert s[1..][1..] == [];
      assert Words(s[1..]) == [];
    } else {
      var t := s[2..];
      assert s[1..][0] == '-' && s[1..][1..] == t;
      assert !HasDouble(s[1..]);
      assert s[1..][..2] == [s[1], s[2]];
      assert t[0] != '-';
      assert !HasDouble(t);
      StrippedIsJoined(t);
      assert s == [s[0], '-'] + t;
      StripRightAppend([s[0], '-'], t);
      DashStartsNoWord(s[1..]);
      assert Words(s) == [[s[0]]] + Words(t);
      assert ([[s[0]]] + Words(t))[1..] == Words(t);
      assert Join(Words(s)) == [s[0]] + "-" + Join(Words(t));
    }
  }

  lemma JoinPrefix(c: char, words: seq<string>)
    requires words != []
    ensures Join([[c] + words[0]] + words[1..]) == [c] + Join(words)
  {
    var longer := [[c] + words[0]] + words[1..];
    assert longer[1..] == words[1..];
    if |words| > 1 {
      assert [c] + (words[0] + "-" + Join(words[1..])) == ([c] + words[0]) + "-" + Join(words[1..]);
    }
  }

  lemma {:induction false} StripLeftFacts(s: string)
    ensures Words(StripLeft(s)) == Words(s)
    ensures StripLeft(s) != [] ==> StripLeft(s)[0] != '-'
    ensures !HasDouble(s) ==> !HasDouble(StripLeft(s))
    ensures StripLeft(s) == [] ==> Words(s) == []
  {
    if s != [] && s[0] == '-' {
      StripLeftFacts(s[1..]);
    }
  }

  /** `scope_slug`: it terminates, and its result is the slug. */
  method ScopeSlug(t: Alphabet, value: string) returns (slug: string)
    requires SaneAlphabet(t)
    ensures slug == Slug(t, value)
  {
    var lowered := t.lower(value);
    slug := Dashed(t.isAlnum, lowered);
    DashedKeepsRuns(t.isAlnum, lowered);
    while HasDouble(slug)
      invariant Words(slug) == Runs(t.isAlnum, lowered)
      decreases |slug|
    {
      ReplaceKeepsWords(slug);
      slug := Replace(slug, "--", "-");
    }
    StripLeftFacts(slug);
    if StripLeft(slug) != [] {
      StrippedIsJoined(StripLeft(slug));
    }
    slug := StripRight(StripLeft(slug));
  }

  predicate AreWords(p: char -> bool, words: seq<string>) {
    forall i | 0 <= i < |words| :: words[i] != "" && forall k | 0 <= k < |words[i]| :: p(words[i][k])
  }

  lemma {:induction false} RunsAreWords(p: char -> bool, s: string)
    ensures AreWords(p, Runs(p, s))
  {
    if s != [] {
      RunsAreWords(p, s[1..]);
    }
  }

  /** A word followed by nothing, or by something that is not of the word, is a run of its own. */
  lemma {:induction false} WordIsRun(p: char -> bool, word: string, rest: string)
    requires word != "" && forall k | 0 <= k < |word| :: p(word[k])
    requires rest == "" || !p(rest[0])
    ensures Runs(p, word + rest) == [word] + Runs(p, rest)
  {
    var s := word + rest;
    assert s[1..] == word[1..] + rest;
    if |word| > 1 {
      WordIsRun(p, word[1..], rest);
      assert s[1] == word[1];
      assert ([word[1..]] + Runs(p, rest))[1..] == Runs(p, rest);
      assert [word[0]] + word[1..] == word;
    } else {
      assert s[1..] == rest;
      assert word == [word[0]];
    }
  }

  /** The words of joined words are those words: joining loses nothing. */
  lemma {:induction false} RunsOfJoin(p: char -> bool, words: seq<string>)
    requires !p('-') && AreWords(p, words)
    ensures Runs(p, Join(words)) == words
  {
    if |words| == 1 {
      WordIsRun(p, words[0], "");
      assert words[0] + "" == words[0];
    } else if |words| > 1 {
      RunsOfJoin(p, words[1..]);
      var rest := "-" + Join(words[1..]);
      WordIsRun(p, words[0], rest);
      assert rest[1..] == Join(words[1..]);
      assert words[0] + rest == Join(words);
    }
  }

  /** Two texts share a slug exactly when they have the same words: nothing else is identified. */
  lemma SlugsCollideOnlyOnWords(t: Alphabet, a: string, b: string)
    requires SaneAlphabet(t)
    ensures Slug(t, a) == Slug(t, b) <==> Runs(t.isAlnum, t.lower(a)) == Runs(t.isAlnum, t.lower(b))
  {
    RunsAreWords(t.isAlnum, t.lower(a));
    RunsAreWords(t.isAlnum, t.lower(b));
    RunsOfJoin(t.isAlnum, Runs(t.isAlnum, t.lower(a)));
    RunsOfJoin(t.isAlnum, Runs(t.isAlnum, t.lower(b)));
  }

  /** A slug that is already lower case is its own slug. */
  lemma SlugIdempotent(t: Alphabet, value: string)
    requires SaneAlphabet(t) && t.lower(Slug(t, value)) == Slug(t, value)
    ensures Slug(t, Slug(t, value)) == Slug(t, value)
  {
    RunsAreWords(t.isAlnum, t.lower(value));
    RunsOfJoin(t.isAlnum, Runs(t.isAlnum, t.lower(value)));
  }

  // On ASCII text that condition always holds.

  function AsciiLower(s: string): string {
    if s == [] then []
    else [if 'A' <= s[0] <= 'Z' then s[0] - 'A' + 'a' else s[0]] + AsciiLower(s[1..])
  }

  const ASCII := Alphabet(
    (c: char) => 'a' <= c <= 'z' || 'A' <= c <= 'Z' || '0' <= c <= '9',
    (s: string) => AsciiLower(s))

  /** The 26 capitals become small letters, 32 code points further on; nothing else changes. */
  lemma {:induction false} AsciiLowerMeans(s: string)
    ensures |ASCII.lower(s)| == |s|
    ensures forall i | 0 <= i < |s| ::
              ASCII.lower(s)[i] as int == s[i] as int + if 65 <= s[i] as int < 91 then 32 else 0
    ensures forall c: char :: ASCII.isAlnum(c) <==> 48 <= c as int < 58 || 65 <= c as int < 91 || 97 <= c as int < 123
  {
    if s != [] {
      AsciiLowerMeans(s[1..]);
    }
  }

  predicate NoUpper(s: string) {
    forall i | 0 <= i < |s| :: !('A' <= s[i] <= 'Z')
  }

  lemma {:induction false} LoweredHasNoUpper(s: string)
    ensures NoUpper(AsciiLower(s))
    ensures NoUpper(s) ==> AsciiLower(s) == s
  {
    if s != [] {
      LoweredHasNoUpper(s[1..]);
    }
  }

  lemma {:induction false} RunsHaveNoUpper(p: char -> bool, s: string)
    requires NoUpper(s)
    ensures forall i | 0 <= i < |Runs(p, s)| :: NoUpper(Runs(p, s)[i])
  {
    if s != [] {
      RunsHaveNoUpper(p, s[1..]);
    }
  }

  lemma {:induction false} JoinHasNoUpper(words: seq<string>)
    requires forall i | 0 <= i < |words| :: NoUpper(words[i])
    ensures NoUpper(Join(words))
  {
    if |words| > 1 {
      JoinHasNoUpper(words[1..]);
    }
  }

  lemma AsciiSlugIdempotent(value: string)
    ensures Slug(ASCII, Slug(ASCII, value)) == Slug(ASCII, value)
  {
    LoweredHasNoUpper(value);
    RunsHaveNoUpper(ASCII.isAlnum, AsciiLower(value));
    JoinHasNoUpper(Runs(ASCII.isAlnum, AsciiLower(value)));
    LoweredHasNoUpper(Slug(ASCII, value));
    SlugIdempotent(ASCII, value);
  }

  // ----- Trees, engagements and their scopes -----

  datatype Ownership = Owned | Upstream | ExternalBu | HarnessQa

  datatype TreeMeta = TreeMeta(ownership: Ownership, businessUnit: string, scopeId: Option<string>)

  datatype Tree = Tree(name: string, meta: TreeMeta)

  datatype Mode = Single | BusinessUnit | ByTree | Explicit

  /** `trees` and `engagements` in dict order; an engagement names the tree it fills. */
  datatype Corpus = Corpus(trees: seq<Tree>, engagements: seq<Tree>, mode: Mode, id: string)

  datatype Error = Unregistered | NoScopeId | NoScopes

  function FindTree(trees: seq<Tree>, name: string): Option<TreeMeta> {
    if trees == [] then None
    else if trees[0].name == name then Some(trees[0].meta)
    else FindTree(trees[1..], name)
  }

  /** `tree_meta`: a declared tree first, else the first engagement with that tree. */
  function MetaOf(c: Corpus, name: string): Option<TreeMeta> {
    if FindTree(c.trees, name).Some? then FindTree(c.trees, name) else FindTree(c.engagements, name)
  }

  /** `scope_for`: the scope to write. */
  function ScopeFor(t: Alphabet, c: Corpus, name: string): Result<string, Error> {
    match MetaOf(c, name)
    case None => Err(Unregistered)
    case Some(meta) =>
      match c.mode
      case Single => Ok(c.id)
      case BusinessUnit => Ok(Slug(t, meta.businessUnit))
      case ByTree => Ok(Slug(t, name))
      case Explicit =>
        if meta.scopeId.None? || meta.scopeId.value == "" then Err(NoScopeId) else Ok(meta.scopeId.value)
  }

  /** The first of these trees with the name has this metadata. */
  ghost predicate FirstNamed(trees: seq<Tree>, name: string, meta: TreeMeta) {
    exists i :: 0 <= i < |trees| && trees[i] == Tree(name, meta) && forall k | 0 <= k < i :: trees[k].name != name
  }

  ghost predicate NoneNamed(trees: seq<Tree>, name: string) {
    forall i | 0 <= i < |trees| :: trees[i].name != name
  }

  /** The name's metadata: of a declared tree, or else of an engagement. */
  ghost predicate Registered(c: Corpus, name: string, meta: TreeMeta) {
    FirstNamed(c.trees, name, meta) || (NoneNamed(c.trees, name) && FirstNamed(c.engagements, name, meta))
  }

  lemma {:induction false} FindTreeMeans(trees: seq<Tree>, name: string)
    ensures FindTree(trees, name).None? <==> NoneNamed(trees, name)
    ensures forall meta :: FindTree(trees, name) == Some(meta) <==> FirstNamed(trees, name, meta)
  {
    if trees != [] {
      var rest := trees[1..];
      FindTreeMeans(rest, name);
      assert forall i | 0 < i < |trees| :: trees[i] == rest[i - 1];
      forall meta
        ensures FindTree(trees, name) == Some(meta) <==> FirstNamed(trees, name, meta)
      {
        if trees[0].name == name {
          assert trees[0] == Tree(name, trees[0].meta);
        } else {
          FirstNamedLater(trees, name, meta);
        }
      }
    }
  }

  lemma FirstNamedLater(trees: seq<Tree>, name: string, meta: TreeMeta)
    requires trees != [] && trees[0].name != name
    ensures FirstNamed(trees, name, meta) <==> FirstNamed(trees[1..], name, meta)
  {
    var rest := trees[1..];
    assert forall i | 0 < i < |trees| :: trees[i] == rest[i - 1];
    if i :| 0 <= i < |rest| && rest[i] == Tree(name, meta) && forall k | 0 <= k < i :: rest[k].name != name {
      assert trees[i + 1] == Tree(name, meta);
    }
  }

  /** What `scope_for` returns in each mode, and when it raises. */
  lemma ScopeForMeans(t: Alphabet, c: Corpus, name: string, meta: TreeMeta)
    ensures ScopeFor(t, c, name) == Err(Unregistered) <==> NoneNamed(c.trees, name) && NoneNamed(c.engagements, name)
    ensures Registered(c, name, meta) ==>
              ScopeFor(t, c, name) ==
              match c.mode
              case Single => Ok(c.id)
              case BusinessUnit => Ok(Slug(t, meta.businessUnit))
              case ByTree => Ok(Slug(t, name))
              case Explicit =>
                match meta.scopeId
                case None => Err(NoScopeId)
                case Some(id) => if id == "" then Err(NoScopeId) else Ok(id)
    ensures Registered(c, name, meta) ==> (Counts(c, name) <==> meta.ownership != HarnessQa)
    ensures Counts(c, name) ==> exists m :: Registered(c, name, m)
  {
    FindTreeMeans(c.trees, name);
    FindTreeMeans(c.engagements, name);
    if Counts(c, name) {
      assert Registered(c, name, MetaOf(c, name).value);
    }
  }

  /**
   When two registered trees are written to one scope: always in single mode; by the words of their business
   unit, or of their own name, in the derived modes, so that no two units meet that differ in a word; and only
   by declaration in explicit mode.
   */
  lemma TreesShareScope(t: Alphabet, c: Corpus, a: string, b: string)
    requires SaneAlphabet(t) && MetaOf(c, a).Some? && MetaOf(c, b).Some?
    requires ScopeFor(t, c, a).Ok? && ScopeFor(t, c, b).Ok?
    ensures ScopeFor(t, c, a) == ScopeFor(t, c, b) <==>
            match c.mode
            case Single => true
            case BusinessUnit => Runs(t.isAlnum, t.lower(MetaOf(c, a).value.businessUnit))
                                 == Runs(t.isAlnum, t.lower(MetaOf(c, b).value.businessUnit))
            case ByTree => Runs(t.isAlnum, t.lower(a)) == Runs(t.isAlnum, t.lower(b))
            case Explicit => MetaOf(c, a).value.scopeId == MetaOf(c, b).value.scopeId
  {
    SlugsCollideOnlyOnWords(t, MetaOf(c, a).value.businessUnit, MetaOf(c, b).value.businessUnit);
    SlugsCollideOnlyOnWords(t, a, b);
  }

  function NamesOf(trees: seq<Tree>): seq<string> {
    if trees == [] then [] else [trees[0].name] + NamesOf(trees[1..])
  }

  function NonEmptyNames(trees: seq<Tree>): seq<string> {
    if trees == [] then []
    else (if trees[0].name == "" then [] else [trees[0].name]) + NonEmptyNames(trees[1..])
  }

  predicate Counts(c: Corpus, name: string) {
    MetaOf(c, name).Some? && MetaOf(c, name).value.ownership != HarnessQa
  }

  /** The set comprehension: the scopes of the names that count, or the first that cannot be resolved. */
  function ScopesOf(t: Alphabet, c: Corpus, names: seq<string>): Result<set<string>, Error> {
    if names == [] then Ok({})
    else if !Counts(c, names[0]) then ScopesOf(t, c, names[1..])
    else
      var scope :- ScopeFor(t, c, names[0]);
      var rest :- ScopesOf(t, c, names[1..]);
      Ok({scope} + rest)
  }

  /** `readable_scopes`. */
  function ReadableScopes(t: Alphabet, c: Corpus): Result<seq<string>, Error> {
    var scopes :- ScopesOf(t, c, NamesOf(c.trees) + NonEmptyNames(c.engagements));
    if scopes == {} then Err(NoScopes) else Ok(Sorted(scopes))
  }

  lemma {:induction false} ScopesOfMembers(t: Alphabet, c: Corpus, names: seq<string>)
    requires ScopesOf(t, c, names).Ok?
    ensures forall name | name in names && Counts(c, name) ::
              ScopeFor(t, c, name).Ok? && ScopeFor(t, c, name).value in ScopesOf(t, c, names).value
    ensures forall scope | scope in ScopesOf(t, c, names).value ::
              exists name :: name in names && Counts(c, name) && ScopeFor(t, c, name) == Ok(scope)
  {
    if names != [] {
      ScopesOfMembers(t, c, names[1..]);
      forall scope | scope in ScopesOf(t, c, names).value
        ensures exists name :: name in names && Counts(c, name) && ScopeFor(t, c, name) == Ok(scope)
      {
        if Counts(c, names[0]) && ScopeFor(t, c, names[0]) == Ok(scope) {
          assert names[0] in names;
        } else {
          var name :| name in names[1..] && Counts(c, name) && ScopeFor(t, c, name) == Ok(scope);
          assert name in names;
        }
      }
    }
  }

  lemma {:induction false} NamesAreTrees(trees: seq<Tree>, name: string)
    ensures name in NamesOf(trees) <==> FindTree(trees, name).Some?
    ensures name in NonEmptyNames(trees) <==> name != "" && FindTree(trees, name).Some?
  {
    if trees != [] {
      NamesAreTrees(trees[1..], name);
    }
  }

  /** Read by every dashboard: a declared tree, or an engagement that names its tree. */
  predicate Listed(c: Corpus, name: string) {
    FindTree(c.trees, name).Some? || (name != "" && FindTree(c.engagements, name).Some?)
  }

  /**
   The readable scopes are exactly the write scopes of the listed trees that are not harness-qa,
   strictly sorted: nothing of the corpus is written where no reader looks, and no scope is read
   that no such tree writes.
   */
  lemma ReadableAreWritten(t: Alphabet, c: Corpus, scope: string)
    requires ReadableScopes(t, c).Ok?
    ensures StrictlySorted(ReadableScopes(t, c).value) && ReadableScopes(t, c).value != []
    ensures scope in ReadableScopes(t, c).value <==>
              exists name :: Listed(c, name) && Counts(c, name) && ScopeFor(t, c, name) == Ok(scope)
    ensures forall name | Listed(c, name) && Counts(c, name) :: ScopeFor(t, c, name).Ok?
  {
    var names := NamesOf(c.trees) + NonEmptyNames(c.engagements);
    ScopesOfMembers(t, c, names);
    var x :| x in ScopesOf(t, c, names).value;
    assert x in Sorted(ScopesOf(t, c, names).value);
    forall name
      ensures name in names <==> Listed(c, name)
    {
      NamesAreTrees(c.trees, name);
      NamesAreTrees(c.engagements, name);
    }
  }

  predicate LacksScope(c: Corpus, name: string) {
    c.mode == Explicit && (MetaOf(c, name).None? || MetaOf(c, name).value.scopeId.None?
                           || MetaOf(c, name).value.scopeId.value == "")
  }

  lemma {:induction false} ScopesOfFails(t: Alphabet, c: Corpus, names: seq<string>)
    ensures ScopesOf(t, c, names).Err? <==> exists name :: name in names && Counts(c, name) && LacksScope(c, name)
    ensures ScopesOf(t, c, names).Err? ==> ScopesOf(t, c, names).error == NoScopeId
    ensures ScopesOf(t, c, names) == Ok({}) <==> !exists name :: name in names && Counts(c, name)
  {
    if names != [] {
      ScopesOfFails(t, c, names[1..]);
      assert names == [names[0]] + names[1..];
    }
  }

  /** The other side of the agreement: reading fails only when no tree counts, or when one that does has no scope. */
  lemma ReadingFailsExactly(t: Alphabet, c: Corpus)
    ensures ReadableScopes(t, c) == Err(NoScopes) <==> !exists name :: Listed(c, name) && Counts(c, name)
    ensures ReadableScopes(t, c) == Err(NoScopeId) <==>
              exists name :: Listed(c, name) && Counts(c, name) && LacksScope(c, name)
    ensures ReadableScopes(t, c) != Err(Unregistered)
  {
    var names := NamesOf(c.trees) + NonEmptyNames(c.engagements);
    ScopesOfFails(t, c, names);
    forall name
      ensures name in names <==> Listed(c, name)
    {
      NamesAreTrees(c.trees, name);
      NamesAreTrees(c.engagements, name);
    }
  }

  /** An engagement that leaves its tree empty can be written but is not listed. */
  lemma EmptyTreeWitness()
    ensures var meta := TreeMeta(Owned, "a", Some("a"));
            var c := Corpus([Tree("t", meta)], [Tree("", meta.(scopeId := Some("b")))], Explicit, "local");
            && Counts(c, "") && ScopeFor(ASCII, c, "") == Ok("b")
            && ReadableScopes(ASCII, c).Ok? && "b" !in ReadableScopes(ASCII, c).value
  {
    var meta := TreeMeta(Owned, "a", Some("a"));
    var c := Corpus([Tree("t", meta)], [Tree("", meta.(scopeId := Some("b")))], Explicit, "local");
    assert c.trees[0].name == "t" && "t" != "";
    assert FindTree(c.trees, "").None?;
    assert NonEmptyNames(c.engagements) == [];
    assert NamesOf(c.trees) + NonEmptyNames(c.engagements) == ["t"];
    assert ScopeFor(ASCII, c, "t") == Ok("a");
    var names := ["t"];
    assert names[0] == "t" && names[1..] == [] && Counts(c, "t");
    assert ScopesOf(ASCII, c, []) == Ok({});
    assert {"a"} + {} == {"a"};
    assert ScopesOf(ASCII, c, names) == Ok({"a"});
    assert "a"[0] != "b"[0];
  }
}
