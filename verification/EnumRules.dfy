/**
 The registry checks rule by rule: which problem is listed exactly when, and what silence means of names, value
 sets, sources and uses.
 */
module EnumRules {
  import opened Wrappers
  import opened PyText
  import opened EnumPointer
  import opened EnumRegistry

  // ----- The entry a name stands for -----

  /** The last file with this name holds this entry. */
  ghost predicate LastNamed(registry: seq<File>, name: Option<string>, entry: Entry) {
    exists i :: 0 <= i < |registry| && registry[i].entry == entry && entry.name == name
                && forall k | i < k < |registry| :: registry[k].entry.name != name
  }

  ghost predicate NoneNamed(registry: seq<File>, name: Option<string>) {
    forall i | 0 <= i < |registry| :: registry[i].entry.name != name
  }

  lemma {:induction false} ByNameMeans(registry: seq<File>, name: Option<string>)
    ensures ByName(registry, name) == None <==> NoneNamed(registry, name)
    ensures forall entry :: ByName(registry, name) == Some(entry) <==> LastNamed(registry, name, entry)
  {
    if registry != [] {
      var init, last := registry[..|registry| - 1], registry[|registry| - 1];
      ByNameMeans(init, name);
      assert forall i | 0 <= i < |init| :: init[i] == registry[i];
      forall entry
        ensures ByName(registry, name) == Some(entry) <==> LastNamed(registry, name, entry)
      {
        LastNamedStep(registry, name, entry);
      }
    }
  }

  lemma LastNamedStep(registry: seq<File>, name: Option<string>, entry: Entry)
    requires registry != []
    ensures LastNamed(registry, name, entry) <==>
              if registry[|registry| - 1].entry.name == name then registry[|registry| - 1].entry == entry
              else LastNamed(registry[..|registry| - 1], name, entry)
  {
    var n := |registry| - 1;
    var init := registry[..n];
    assert forall i | 0 <= i < |init| :: init[i] == registry[i];
    if registry[n].entry.name == name {
      if registry[n].entry == entry {
        assert LastNamed(registry, name, registry[n].entry);
      }
    } else if i :| 0 <= i < |init| && init[i].entry == entry && entry.name == name
                   && forall k | i < k < |init| :: init[k].entry.name != name {
      assert registry[i].entry == entry;
    }
  }

  // ----- Definitions and standard -----

  /** What is wrong with the definitions: a value without one, one without a value, or an empty one. */
  ghost predicate DefinitionWrong(entry: Entry, p: Problem) {
    match p
    case DefinitionsNotObject => entry.definitions == Malformed
    case DefinitionsMismatch =>
      entry.definitions.Present? && exists v :: v in entry.definitions.value <==> v !in entry.values
    case DefinitionsEmpty =>
      entry.definitions.Present?
      && exists v :: v in entry.definitions.value
                     && (entry.definitions.value[v] == None || entry.definitions.value[v] == Some(""))
    case _ => false
  }

  lemma DefinitionsMean(entry: Entry, p: Problem)
    ensures p in DefinitionProblems(entry) <==> DefinitionWrong(entry, p)
  {
    if entry.definitions.Present? {
      var defs, values := entry.definitions.value, set v | v in entry.values;
      assert defs.Keys == values <==> forall v :: v in defs <==> v in entry.values;
    }
  }

  ghost predicate StandardWrong(entry: Entry, p: Problem) {
    var named := entry.standard.Present? && entry.standard.value.Named?;
    match p
    case StandardNotObject => entry.standard == Malformed
    case StandardWithoutReason =>
      entry.standard == Present(NoStandard(None)) || entry.standard == Present(NoStandard(Some("")))
    case StandardUnknownKeys => named && entry.standard.value.unknownKeys
    case StandardUnnamed => named && !entry.standard.value.named
    case StandardRelationship => named && entry.standard.value.relationship == OtherRelationship
    case StandardWithoutNote => named && entry.standard.value.relationship == Adapted && !entry.standard.value.note
    case _ => false
  }

  lemma StandardMeans(entry: Entry, p: Problem)
    ensures p in StandardProblems(entry) <==> StandardWrong(entry, p)
  {
    if entry.standard.Present? {
      match entry.standard.value
      case NoStandard(why) =>
        assert why == None || why == Some(why.value);
      case Named(unknownKeys, named, relationship, note) =>
        var keys := if unknownKeys then [StandardUnknownKeys] else [];
        var name := if !named then [StandardUnnamed] else [];
        var rest := if relationship.OtherRelationship? then [StandardRelationship]
                    else if relationship.Adapted? && !note then [StandardWithoutNote] else [];
        InThree(keys, name, rest, p);
    }
  }

  lemma InThree(a: seq<Problem>, b: seq<Problem>, c: seq<Problem>, p: Problem)
    ensures p in a + b + c <==> p in a || p in b || p in c
  {
  }

  // ----- Deprecations -----

  /** What is wrong with one replacement, where `earlier` came before it. */
  ghost predicate TargetWrong(registry: seq<File>, earlier: seq<Target>, target: Target, p: Problem) {
    match p
    case TargetMalformed => target == BadTarget
    case ReplacedTwice =>
      target.Target? && exists i :: 0 <= i < |earlier| && earlier[i].Target? && earlier[i].name == target.name
    case UnknownEnum => target.Target? && NoneNamed(registry, target.name)
    case NotAValue => target.Target? && exists e :: LastNamed(registry, target.name, e) && target.value !in e.values
    case ItselfDeprecated =>
      target.Target?
      && exists e :: LastNamed(registry, target.name, e) && target.value in e.values && e.deprecated.Present?
                     && exists d :: d in e.deprecated.value && d.value == target.value
    case _ => false
  }

  lemma IsDeprecatedMeans(entry: Entry, value: string)
    ensures IsDeprecated(entry, value) <==>
              entry.deprecated.Present? && exists d :: d in entry.deprecated.value && d.value == value
  {
  }

  /** What `TargetProblems` says of the entry a name stands for. */
  function FoundProblems(found: Option<Entry>, value: string): seq<Problem> {
    match found
    case None => [UnknownEnum]
    case Some(other) =>
      if value !in other.values then [NotAValue] else if IsDeprecated(other, value) then [ItselfDeprecated] else []
  }

  lemma FoundMeans(registry: seq<File>, earlier: seq<Target>, target: Target, p: Problem)
    requires target.Target?
    ensures p in FoundProblems(ByName(registry, target.name), target.value) <==>
              p != ReplacedTwice && TargetWrong(registry, earlier, target, p)
  {
    var found := ByName(registry, target.name);
    ByNameMeans(registry, target.name);
    if found.Some? {
      IsDeprecatedMeans(found.value, target.value);
      assert forall e :: LastNamed(registry, target.name, e) <==> e == found.value;
    }
  }

  lemma TargetMeans(registry: seq<File>, earlier: seq<Target>, target: Target, p: Problem)
    ensures p in TargetProblems(registry, target, Names(earlier)) <==> TargetWrong(registry, earlier, target, p)
  {
    if target.Target? {
      FoundMeans(registry, earlier, target, p);
      var twice := if target.name in Names(earlier) then [ReplacedTwice] else [];
      assert TargetProblems(registry, target, Names(earlier))
             == twice + FoundProblems(ByName(registry, target.name), target.value);
    }
  }

  /** Some element is bad after those before it. */
  ghost predicate SomeBad<T(!new)>(bad: (seq<T>, T) -> bool, s: seq<T>) {
    exists j :: 0 <= j < |s| && bad(s[..j], s[j])
  }

  lemma SomeBadStep<T(!new)>(bad: (seq<T>, T) -> bool, init: seq<T>, last: T)
    ensures SomeBad(bad, init + [last]) <==> SomeBad(bad, init) || bad(init, last)
  {
    var s := init + [last];
    assert forall j | 0 <= j < |init| :: s[j] == init[j] && s[..j] == init[..j];
    assert s[|init|] == last && s[..|init|] == init;
    if j :| 0 <= j < |init| && bad(init[..j], init[j]) {
      assert bad(s[..j], s[j]);
    }
    if bad(init, last) {
      assert bad(s[..|init|], s[|init|]);
    }
  }

  ghost predicate SomeTargetWrong(registry: seq<File>, targets: seq<Target>, p: Problem) {
    SomeBad((earlier, target) => TargetWrong(registry, earlier, target, p), targets)
  }

  lemma {:induction false} TargetsMean(registry: seq<File>, targets: seq<Target>, p: Problem)
    ensures p in TargetsProblems(registry, targets) <==> SomeTargetWrong(registry, targets, p)
  {
    if targets != [] {
      var init, last := targets[..|targets| - 1], targets[|targets| - 1];
      assert targets == init + [last];
      TargetsMean(registry, init, p);
      TargetMeans(registry, init, last, p);
      SomeBadStep((earlier, target) => TargetWrong(registry, earlier, target, p), init, last);
    }
  }

  /** What is wrong with one deprecation. */
  ghost predicate DeprecationWrong(registry: seq<File>, entry: Entry, d: Deprecation, p: Problem) {
    if d.spec == BadSpec then p == NeedsReplacedBy
    else
      || (p == DeprecationUnknownKeys && d.spec.unknownKeys)
      || RetirementWrong(entry, d, p)
      || SomeTargetWrong(registry, d.spec.replacedBy, p)
  }

  /** A retired value is not listed any more, one that is not retired is. */
  ghost predicate RetirementWrong(entry: Entry, d: Deprecation, p: Problem)
    requires d.spec.Spec?
  {
    || (p == RetiredNotBoolean && d.spec.retired == NotBoolean)
    || (p == RetiredStillListed && d.spec.retired == Flag(true) && d.value in entry.values)
    || (p == DeprecatedNotListed && d.spec.retired == Flag(false) && d.value !in entry.values)
  }

  lemma RetirementMeans(entry: Entry, d: Deprecation, p: Problem)
    requires d.spec.Spec?
    ensures p in RetirementProblems(entry, d.value, d.spec) <==> RetirementWrong(entry, d, p)
  {
    match d.spec.retired
    case NotBoolean =>
    case Flag(retired) =>
      assert d.spec.retired == Flag(retired);
  }

  lemma DeprecationMeans(registry: seq<File>, entry: Entry, d: Deprecation, p: Problem)
    ensures p in DeprecationProblems(registry, entry, d) <==> DeprecationWrong(registry, entry, d, p)
  {
    if d.spec.Spec? {
      TargetsMean(registry, d.spec.replacedBy, p);
      RetirementMeans(entry, d, p);
      InThree(if d.spec.unknownKeys then [DeprecationUnknownKeys] else [], RetirementProblems(entry, d.value, d.spec),
              TargetsProblems(registry, d.spec.replacedBy), p);
    }
  }

  ghost predicate SomeDeprecationWrong(registry: seq<File>, entry: Entry, ds: seq<Deprecation>, p: Problem) {
    SomeBad((_, d) => DeprecationWrong(registry, entry, d, p), ds)
  }

  lemma {:induction false} DeprecationsMean(registry: seq<File>, entry: Entry, ds: seq<Deprecation>, p: Problem)
    ensures p in DeprecationsProblems(registry, entry, ds) <==> SomeDeprecationWrong(registry, entry, ds, p)
  {
    if ds != [] {
      var init, last := ds[..|ds| - 1], ds[|ds| - 1];
      assert ds == init + [last];
      DeprecationsMean(registry, entry, init, p);
      DeprecationMeans(registry, entry, last, p);
      SomeBadStep((_, d) => DeprecationWrong(registry, entry, d, p), init, last);
    }
  }

  // ----- One entry, and all of them -----

  ghost predicate DeprecatedWrong(registry: seq<File>, entry: Entry, p: Problem) {
    || (entry.deprecated == Malformed && p == DeprecatedNotObject)
    || (entry.deprecated.Present? && SomeDeprecationWrong(registry, entry, entry.deprecated.value, p))
  }

  lemma DeprecatedMeans(registry: seq<File>, entry: Entry, p: Problem)
    ensures p in DeprecatedProblems(registry, entry) <==> DeprecatedWrong(registry, entry, p)
  {
    if entry.deprecated.Present? {
      DeprecationsMean(registry, entry, entry.deprecated.value, p);
    }
  }

  /** What is wrong with one entry. */
  ghost predicate EntryWrong(registry: seq<File>, entry: Entry, p: Problem) {
    || (p == UnknownKeys && entry.unknownKeys)
    || DefinitionWrong(entry, p)
    || StandardWrong(entry, p)
    || DeprecatedWrong(registry, entry, p)
  }

  lemma InParts(a: seq<Problem>, b: seq<Problem>, c: seq<Problem>, d: seq<Problem>, p: Problem)
    ensures p in a + b + c + d <==> p in a || p in b || p in c || p in d
  {
  }

  /** Each problem is listed for an entry exactly when its rule is broken. */
  lemma EntryMeans(registry: seq<File>, entry: Entry, p: Problem)
    ensures p in EntryProblems(registry, entry) <==> EntryWrong(registry, entry, p)
  {
    DefinitionsMean(entry, p);
    StandardMeans(entry, p);
    DeprecatedMeans(registry, entry, p);
    InParts(if entry.unknownKeys then [UnknownKeys] else [], DefinitionProblems(entry), StandardProblems(entry),
            DeprecatedProblems(registry, entry), p);
  }

  ghost predicate SomeEntryWrong(registry: seq<File>, files: seq<File>, p: Problem) {
    SomeBad((_, file: File) => EntryWrong(registry, file.entry, p), files)
  }

  /** The format checks list a problem exactly when some entry breaks its rule. */
  lemma {:induction false} FormatMeans(registry: seq<File>, files: seq<File>, p: Problem)
    ensures p in FilesProblems(registry, files) <==> SomeEntryWrong(registry, files, p)
  {
    if files != [] {
      var init, last := files[..|files| - 1], files[|files| - 1];
      assert files == init + [last];
      FormatMeans(registry, init, p);
      EntryMeans(registry, last.entry, p);
      SomeBadStep((_, file: File) => EntryWrong(registry, file.entry, p), init, last);
    }
  }

  // ----- Names, value sets, sources and uses -----

  /** The node the source names, and what is wrong with it. */
  ghost predicate SourceWrong(schemas: map<string, Json>, entry: Entry, p: Problem) {
    var hit := Resolved(schemas, entry.source, "");
    entry.source != ""
    && if '#' !in entry.source || hit == None then p == SourceUnresolved else NodeWrong(hit.value.1, entry, p)
  }

  /** An enforced source has the values of the file, and any other no enum at all. */
  ghost predicate NodeWrong(node: Json, entry: Entry, p: Problem) {
    || (p == SourceDiffers && entry.enforced && !HasEnum(node, set v | v in entry.values))
    || (p == SourceIsEnum && !entry.enforced && exists vs :: HasEnum(node, vs))
  }

  /** What `SourceProblems` says of the node it has found. */
  function NodeProblems(node: Json, entry: Entry): seq<Problem> {
    if entry.enforced && StringValues(node) != Some(ValueSet(entry)) then [SourceDiffers]
    else if !entry.enforced && StringValues(node).Some? then [SourceIsEnum]
    else []
  }

  lemma NodeMeans(node: Json, entry: Entry, p: Problem)
    ensures p in NodeProblems(node, entry) <==> NodeWrong(node, entry, p)
  {
    StringValuesAre(node, ValueSet(entry));
    EnumThere(node);
  }

  lemma SourceMeans(schemas: map<string, Json>, entry: Entry, p: Problem)
    ensures p in SourceProblems(schemas, entry) <==> SourceWrong(schemas, entry, p)
  {
    var hit := Resolved(schemas, entry.source, "");
    if hit.Some? {
      NodeMeans(hit.value.1, entry, p);
    }
  }

  lemma EnumThere(node: Json)
    ensures StringValues(node).Some? <==> exists vs :: HasEnum(node, vs)
  {
    if StringValues(node).Some? {
      StringValuesAre(node, StringValues(node).value);
    }
    if vs :| HasEnum(node, vs) {
      StringValuesAre(node, vs);
    }
  }

  /** Some file of the table validates these values. */
  ghost predicate Listed(reach: Reach, name: string, values: set<string>) {
    exists i :: 0 <= i < |reach| && reach[i].0 == name && values in reach[i].1
  }

  /** The names in the table are distinct, as the keys of a dict are. */
  ghost predicate DistinctRows(reach: Reach) {
    forall i, j | 0 <= i < j < |reach| :: reach[i].0 != reach[j].0
  }

  lemma {:induction false} DerivedMeans(values: set<string>, reach: Reach, name: string)
    requires DistinctRows(reach)
    ensures multiset(DerivedUsedIn(values, reach))[name] == if Listed(reach, name, values) then 1 else 0
  {
    if reach != [] {
      var init, last := reach[..|reach| - 1], reach[|reach| - 1];
      assert forall i | 0 <= i < |init| :: init[i] == reach[i];
      DerivedMeans(values, init, name);
      ListedStep(init, last, name, values);
      assert reach == init + [last];
    }
  }

  lemma ListedStep(init: Reach, last: (string, set<set<string>>), name: string, values: set<string>)
    ensures Listed(init + [last], name, values) <==>
              Listed(init, name, values) || (last.0 == name && values in last.1)
  {
    var all := init + [last];
    assert all[|init|] == last && forall i | 0 <= i < |init| :: all[i] == init[i];
  }

  /** How often a file should be in `used_in_schemas`. */
  ghost function Times(entry: Entry, reach: Reach, name: string): nat {
    if entry.enforced then if Listed(reach, name, set v | v in entry.values) then 1 else 0
    else if exists rest :: BeforeHash(entry.source, name, rest) then 1
    else 0
  }

  /** The part of a source before its first `#`, or all of it. */
  ghost predicate BeforeHash(source: string, name: string, rest: string) {
    source != "" && '#' !in name && (source == name + "#" + rest || (source == name && rest == ""))
  }

  lemma {:induction false} PartitionMeans(source: string, name: string)
    requires source != ""
    ensures Partition(source, '#').0 == name <==> exists rest :: BeforeHash(source, name, rest)
  {
    var (before, after) := Partition(source, '#');
    PartitionCut(source, '#');
    assert BeforeHash(source, before, after);
    if rest :| BeforeHash(source, name, rest) {
      if source == name + "#" + rest {
        RefPartitions(name, rest);
      } else {
        PartitionWhole(name, '#');
      }
    }
  }

  lemma UsedInMeans(entry: Entry, reach: Reach, name: string)
    requires DistinctRows(reach)
    ensures multiset(UsedIn(entry, reach))[name] == Times(entry, reach, name)
  {
    if entry.enforced {
      DerivedMeans(ValueSet(entry), reach, name);
    } else if entry.source != "" {
      PartitionMeans(entry.source, name);
    }
  }

  /** No file of the table validates the values of the entry. */
  ghost predicate ListedNowhere(reach: Reach, entry: Entry) {
    var values := set v | v in entry.values;
    forall i | 0 <= i < |reach| :: values !in reach[i].1
  }

  /** Each derived file is declared once, and no other. */
  ghost predicate Declares(reach: Reach, entry: Entry, declared: seq<string>) {
    forall name :: multiset(declared)[name] == Times(entry, reach, name)
  }

  lemma NowhereMeans(entry: Entry, reach: Reach)
    requires entry.enforced && DistinctRows(reach)
    ensures UsedIn(entry, reach) == [] <==> ListedNowhere(reach, entry)
  {
    var derived, values := UsedIn(entry, reach), ValueSet(entry);
    if derived != [] {
      assert multiset(derived)[derived[0]] > 0;
      DerivedMeans(values, reach, derived[0]);
    }
    forall i | 0 <= i < |reach| && values in reach[i].1
      ensures derived != []
    {
      assert Listed(reach, reach[i].0, values);
      DerivedMeans(values, reach, reach[i].0);
    }
  }

  lemma DeclaresMeans(entry: Entry, reach: Reach, declared: seq<string>)
    requires DistinctRows(reach)
    ensures multiset(declared) == multiset(UsedIn(entry, reach)) <==> Declares(reach, entry, declared)
  {
    forall name: string
      ensures multiset(UsedIn(entry, reach))[name] == Times(entry, reach, name)
    {
      UsedInMeans(entry, reach, name);
    }
    SameCounts(multiset(declared), multiset(UsedIn(entry, reach)));
  }

  lemma SameCounts(a: multiset<string>, b: multiset<string>)
    ensures a == b <==> forall name :: a[name] == b[name]
  {
  }

  /** What is wrong with the uses of an entry. */
  ghost predicate UsageWrong(entry: Entry, reach: Reach, p: Problem) {
    match p
    case NoSite => entry.source != "" && entry.enforced && ListedNowhere(reach, entry)
    case UsageDiffers => entry.usedIn.Some? && !Declares(reach, entry, entry.usedIn.value)
    case _ => false
  }

  lemma UsageMeans(entry: Entry, reach: Reach, p: Problem)
    requires DistinctRows(reach)
    ensures p in UsageProblems(entry, reach) <==> UsageWrong(entry, reach, p)
  {
    if entry.enforced {
      NowhereMeans(entry, reach);
    }
    if entry.usedIn.Some? {
      DeclaresMeans(entry, reach, entry.usedIn.value);
    }
  }

  ghost predicate NamedBefore(earlier: seq<File>, entry: Entry) {
    exists k :: 0 <= k < |earlier| && earlier[k].entry.name == entry.name
  }

  /** An earlier file lists the same values, in any order and number. */
  ghost predicate ListedBefore(earlier: seq<File>, entry: Entry) {
    exists k :: 0 <= k < |earlier| && SameValues(earlier[k].entry, entry)
  }

  /** What is wrong with one file after those before it. */
  ghost predicate FileWrong(schemas: map<string, Json>, reach: Reach, earlier: seq<File>, entry: Entry, p: Problem) {
    || (p == NameUsed && NamedBefore(earlier, entry))
    || (p == SameValueSet && ListedBefore(earlier, entry))
    || SourceWrong(schemas, entry, p)
    || UsageWrong(entry, reach, p)
  }

  ghost predicate SameValues(a: Entry, b: Entry) {
    forall v :: v in a.values <==> v in b.values
  }

  lemma SameValuesMeans(a: Entry, b: Entry)
    ensures ValueSet(a) == ValueSet(b) <==> SameValues(a, b)
  {
    assert forall v :: (v in ValueSet(a) <==> v in a.values) && (v in ValueSet(b) <==> v in b.values);
  }

  lemma ListedBeforeMeans(earlier: seq<File>, entry: Entry)
    ensures ListedBefore(earlier, entry) <==>
              exists k :: 0 <= k < |earlier| && ValueSet(earlier[k].entry) == ValueSet(entry)
  {
    forall k | 0 <= k < |earlier|
      ensures ValueSet(earlier[k].entry) == ValueSet(entry) <==> SameValues(earlier[k].entry, entry)
    {
      SameValuesMeans(earlier[k].entry, entry);
    }
  }

  lemma FileParts(schemas: map<string, Json>, reach: Reach, earlier: seq<File>, entry: Entry)
    ensures FileProblems(schemas, reach, earlier, entry) ==
            (if NamedBefore(earlier, entry) then [NameUsed] else [])
            + (if ListedBefore(earlier, entry) then [SameValueSet] else [])
            + SourceProblems(schemas, entry) + UsageProblems(entry, reach)
  {
    ListedBeforeMeans(earlier, entry);
  }

  lemma FileMeans(schemas: map<string, Json>, reach: Reach, earlier: seq<File>, entry: Entry, p: Problem)
    requires DistinctRows(reach)
    ensures p in FileProblems(schemas, reach, earlier, entry) <==> FileWrong(schemas, reach, earlier, entry, p)
  {
    FileParts(schemas, reach, earlier, entry);
    SourceMeans(schemas, entry, p);
    UsageMeans(entry, reach, p);
    InParts(if NamedBefore(earlier, entry) then [NameUsed] else [],
            if ListedBefore(earlier, entry) then [SameValueSet] else [],
            SourceProblems(schemas, entry), UsageProblems(entry, reach), p);
  }

  ghost predicate SomeFileWrong(schemas: map<string, Json>, reach: Reach, files: seq<File>, p: Problem) {
    SomeBad((earlier, file: File) => FileWrong(schemas, reach, earlier, file.entry, p), files)
  }

  lemma {:induction false} SchemaMeans(schemas: map<string, Json>, reach: Reach, files: seq<File>, p: Problem)
    requires DistinctRows(reach)
    ensures p in SchemaProblems(schemas, reach, files) <==> SomeFileWrong(schemas, reach, files, p)
  {
    if files != [] {
      var init, last := files[..|files| - 1], files[|files| - 1];
      assert files == init + [last];
      SchemaMeans(schemas, reach, init, p);
      SchemaStep(schemas, reach, init, last);
      FileMeans(schemas, reach, init, last.entry, p);
      SomeBadStep((earlier, file: File) => FileWrong(schemas, reach, earlier, file.entry, p), init, last);
    }
  }

  /** Every check: a problem is listed exactly when its rule is broken by some file, given those before it. */
  lemma ProblemsMean(schemas: map<string, Json>, reach: Reach, registry: seq<File>, p: Problem)
    requires DistinctRows(reach)
    ensures p in AllProblems(schemas, reach, registry) <==>
              SomeEntryWrong(registry, registry, p) || SomeFileWrong(schemas, reach, registry, p)
  {
    FormatMeans(registry, registry, p);
    SchemaMeans(schemas, reach, registry, p);
  }
}
