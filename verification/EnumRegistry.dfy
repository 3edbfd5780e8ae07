/**
 The checks on registry files, and what their silence guarantees a reader that normalises values.
 */
module EnumRegistry {
  import opened Wrappers
  import opened PyText
  import opened EnumPointer

  // ----- Registry files -----

  /** An optional field that may hold something other than the object it should be. */
  datatype Field<T> = Absent | Malformed | Present(value: T)

  datatype Target = BadTarget | Target(name: Option<string>, value: string)

  datatype Retired = Flag(flag: bool) | NotBoolean

  datatype Spec = BadSpec | Spec(replacedBy: seq<Target>, unknownKeys: bool, retired: Retired)

  datatype Deprecation = Deprecation(value: string, spec: Spec)

  datatype Standard =
    | NoStandard(why: Option<string>)
    | Named(unknownKeys: bool, named: bool, relationship: Relationship, note: bool)

  datatype Relationship = Exact | Adapted | OtherRelationship

  /** `definitions` maps to `None` where the meaning is not a string. */
  datatype Entry = Entry(
    name: Option<string>,
    values: seq<string>,
    unknownKeys: bool,
    definitions: Field<map<string, Option<string>>>,
    standard: Field<Standard>,
    deprecated: Field<seq<Deprecation>>,
    source: string,
    enforced: bool,
    usedIn: Option<seq<string>>)

  /** `registry.items()`: files in order. */
  datatype File = File(fname: string, entry: Entry)

  datatype Problem =
    | UnknownKeys | DefinitionsNotObject | DefinitionsMismatch | DefinitionsEmpty
    | StandardNotObject | StandardWithoutReason | StandardUnknownKeys | StandardUnnamed
    | StandardRelationship | StandardWithoutNote
    | DeprecatedNotObject | NeedsReplacedBy | DeprecationUnknownKeys | RetiredNotBoolean
    | RetiredStillListed | DeprecatedNotListed
    | TargetMalformed | ReplacedTwice | UnknownEnum | NotAValue | ItselfDeprecated
    | NameUsed | SameValueSet | SourceUnresolved | SourceDiffers | SourceIsEnum | NoSite | UsageDiffers

  /** `{e.get("name"): e for e in registry.values()}`: the last file with a name wins. */
  function ByName(registry: seq<File>, name: Option<string>): Option<Entry> {
    if registry == [] then None
    else
      var last := registry[|registry| - 1].entry;
      if last.name == name then Some(last) else ByName(registry[..|registry| - 1], name)
  }

  predicate IsDeprecated(entry: Entry, value: string) {
    entry.deprecated.Present?
    && exists i | 0 <= i < |entry.deprecated.value| :: entry.deprecated.value[i].value == value
  }

  // ----- format_problems -----

  function DefinitionProblems(entry: Entry): seq<Problem> {
    match entry.definitions
    case Absent => []
    case Malformed => [DefinitionsNotObject]
    case Present(defs) =>
      (if defs.Keys != set v | v in entry.values then [DefinitionsMismatch] else [])
      + (if exists k | k in defs :: defs[k].None? || defs[k].value == "" then [DefinitionsEmpty] else [])
  }

  function StandardProblems(entry: Entry): seq<Problem> {
    match entry.standard
    case Absent => []
    case Malformed => [StandardNotObject]
    case Present(NoStandard(why)) =>
      if why.None? || why.value == "" then [StandardWithoutReason] else []
    case Present(Named(unknownKeys, named, relationship, note)) =>
      (if unknownKeys then [StandardUnknownKeys] else [])
      + (if !named then [StandardUnnamed] else [])
      + (if relationship.OtherRelationship? then [StandardRelationship]
         else if relationship.Adapted? && !note then [StandardWithoutNote]
         else [])
  }

  function RetirementProblems(entry: Entry, value: string, spec: Spec): seq<Problem>
    requires spec.Spec?
  {
    match spec.retired
    case NotBoolean => [RetiredNotBoolean]
    case Flag(retired) =>
      if retired && value in entry.values then [RetiredStillListed]
      else if !retired && value !in entry.values then [DeprecatedNotListed]
      else []
  }

  function TargetProblems(registry: seq<File>, target: Target, seen: set<Option<string>>): seq<Problem> {
    if target.BadTarget? then [TargetMalformed]
    else
      (if target.name in seen then [ReplacedTwice] else [])
      + (match ByName(registry, target.name)
         case None => [UnknownEnum]
         case Some(other) =>
           if target.value !in other.values then [NotAValue]
           else if IsDeprecated(other, target.value) then [ItselfDeprecated]
           else [])
  }

  /** The enums named by some targets. */
  function Names(targets: seq<Target>): set<Option<string>> {
    set i | 0 <= i < |targets| && targets[i].Target? :: targets[i].name
  }

  function TargetsProblems(registry: seq<File>, targets: seq<Target>): seq<Problem> {
    if targets == [] then []
    else
      var init := targets[..|targets| - 1];
      TargetsProblems(registry, init) + TargetProblems(registry, targets[|targets| - 1], Names(init))
  }

  function DeprecationProblems(registry: seq<File>, entry: Entry, d: Deprecation): seq<Problem> {
    if d.spec.BadSpec? then [NeedsReplacedBy]
    else
      (if d.spec.unknownKeys then [DeprecationUnknownKeys] else [])
      + RetirementProblems(entry, d.value, d.spec)
      + TargetsProblems(registry, d.spec.replacedBy)
  }

  function DeprecationsProblems(registry: seq<File>, entry: Entry, ds: seq<Deprecation>): seq<Problem> {
    if ds == [] then []
    else
      DeprecationsProblems(registry, entry, ds[..|ds| - 1])
      + DeprecationProblems(registry, entry, ds[|ds| - 1])
  }

  function DeprecatedProblems(registry: seq<File>, entry: Entry): seq<Problem> {
    match entry.deprecated
    case Absent => []
    case Malformed => [DeprecatedNotObject]
    case Present(ds) => DeprecationsProblems(registry, entry, ds)
  }

  function EntryProblems(registry: seq<File>, entry: Entry): seq<Problem> {
    (if entry.unknownKeys then [UnknownKeys] else [])
    + DefinitionProblems(entry)
    + StandardProblems(entry)
    + DeprecatedProblems(registry, entry)
  }

  function FilesProblems(registry: seq<File>, files: seq<File>): seq<Problem> {
    if files == [] then []
    else FilesProblems(registry, files[..|files| - 1]) + EntryProblems(registry, files[|files| - 1].entry)
  }

  /** `format_problems`: one list, appended to file by file, deprecation by deprecation. */
  method FormatProblems(registry: seq<File>) returns (out: seq<Problem>)
    ensures out == FilesProblems(registry, registry)
  {
    out := [];
    for i := 0 to |registry|
      invariant out == FilesProblems(registry, registry[..i])
    {
      assert registry[..i + 1][..i] == registry[..i];
      var found := FormatEntry(registry, registry[i].entry);
      out := out + found;
    }
    assert registry[..|registry|] == registry;
  }

  method FormatEntry(registry: seq<File>, entry: Entry) returns (out: seq<Problem>)
    ensures out == EntryProblems(registry, entry)
  {
    out := if entry.unknownKeys then [UnknownKeys] else [];
    out := out + DefinitionProblems(entry);
    out := out + StandardProblems(entry);
    match entry.deprecated
    case Absent =>
      out := out + [];
    case Malformed =>
      out := out + [DeprecatedNotObject];
    case Present(ds) =>
      var found := FormatDeprecations(registry, entry, ds);
      out := out + found;
  }

  method FormatDeprecations(registry: seq<File>, entry: Entry, ds: seq<Deprecation>) returns (out: seq<Problem>)
    ensures out == DeprecationsProblems(registry, entry, ds)
  {
    out := [];
    for i := 0 to |ds|
      invariant out == DeprecationsProblems(registry, entry, ds[..i])
    {
      assert ds[..i + 1][..i] == ds[..i];
      var found := FormatDeprecation(registry, entry, ds[i]);
      out := out + found;
    }
    assert ds[..|ds|] == ds;
  }

  method FormatDeprecation(registry: seq<File>, entry: Entry, d: Deprecation) returns (out: seq<Problem>)
    ensures out == DeprecationProblems(registry, entry, d)
  {
    if d.spec.BadSpec? {
      return [NeedsReplacedBy];
    }
    out := if d.spec.unknownKeys then [DeprecationUnknownKeys] else [];
    out := out + RetirementProblems(entry, d.value, d.spec);
    var found := FormatTargets(registry, d.spec.replacedBy);
    out := out + found;
  }

  method FormatTargets(registry: seq<File>, targets: seq<Target>) returns (out: seq<Problem>)
    ensures out == TargetsProblems(registry, targets)
  {
    out := [];
    var seen: set<Option<string>> := {};
    for i := 0 to |targets|
      invariant out == TargetsProblems(registry, targets[..i])
      invariant seen == Names(targets[..i])
    {
      assert targets[..i + 1][..i] == targets[..i];
      NamesStep(targets, i);
      out := out + TargetProblems(registry, targets[i], seen);
      if targets[i].Target? {
        seen := seen + {targets[i].name};
      }
    }
    assert targets[..|targets|] == targets;
  }

  lemma NamesStep(targets: seq<Target>, i: nat)
    requires i < |targets|
    ensures Names(targets[..i + 1]) ==
            Names(targets[..i]) + (if targets[i].Target? then {targets[i].name} else {})
  {
    assert forall k | 0 <= k < i :: targets[..i + 1][k] == targets[..i][k];
    assert targets[..i + 1][i] == targets[i];
  }

  // ----- What an empty list means -----

  /** A replacement is a current value of a known enum that is not itself deprecated. */
  predicate TargetOk(registry: seq<File>, target: Target) {
    target.Target?
    && ByName(registry, target.name).Some?
    && target.value in ByName(registry, target.name).value.values
    && !IsDeprecated(ByName(registry, target.name).value, target.value)
  }

  ghost predicate SpecOk(registry: seq<File>, entry: Entry, d: Deprecation) {
    && d.spec.Spec? && !d.spec.unknownKeys
    && d.spec.retired.Flag?
    && (d.spec.retired.flag <==> d.value !in entry.values)
    && TargetsOk(registry, d.spec.replacedBy)
  }

  ghost predicate DefinitionsOk(entry: Entry) {
    match entry.definitions
    case Absent => true
    case Malformed => false
    case Present(defs) =>
      (forall v :: v in defs <==> v in entry.values)
      && forall v | v in defs :: defs[v].Some? && defs[v].value != ""
  }

  ghost predicate StandardOk(entry: Entry) {
    match entry.standard
    case Absent => true
    case Malformed => false
    case Present(NoStandard(why)) => why.Some? && why.value != ""
    case Present(Named(unknownKeys, named, relationship, note)) =>
      !unknownKeys && named && !relationship.OtherRelationship? && (relationship.Adapted? ==> note)
  }

  ghost predicate EntryOk(registry: seq<File>, entry: Entry) {
    && !entry.unknownKeys && DefinitionsOk(entry) && StandardOk(entry)
    && !entry.deprecated.Malformed?
    && (entry.deprecated.Present? ==> SpecsOk(registry, entry, entry.deprecated.value))
  }

  lemma EmptyParts(a: seq<Problem>, b: seq<Problem>)
    ensures a + b == [] <==> a == [] && b == []
  {
    assert |a + b| == |a| + |b|;
  }

  ghost predicate TargetsOk(registry: seq<File>, targets: seq<Target>) {
    (forall i | 0 <= i < |targets| :: TargetOk(registry, targets[i])) && DistinctNames(targets)
  }

  ghost predicate DistinctNames(targets: seq<Target>) {
    forall i, j | 0 <= i < j < |targets| && targets[i].Target? && targets[j].Target? ::
      targets[i].name != targets[j].name
  }

  lemma DistinctNamesStep(targets: seq<Target>, last: Target)
    ensures DistinctNames(targets + [last]) <==>
              DistinctNames(targets) && (last.Target? ==> last.name !in Names(targets))
  {
    var all := targets + [last];
    assert forall i | 0 <= i < |targets| :: all[i] == targets[i];
    if last.Target? && last.name in Names(targets) {
      var k :| 0 <= k < |targets| && targets[k].Target? && targets[k].name == last.name;
      assert all[k].name == all[|targets|].name;
    }
  }

  lemma TargetsOkStep(registry: seq<File>, targets: seq<Target>, last: Target)
    ensures TargetsOk(registry, targets + [last]) <==>
              TargetsOk(registry, targets) && TargetOk(registry, last) && last.name !in Names(targets)
  {
    var all := targets + [last];
    assert forall i | 0 <= i < |targets| :: all[i] == targets[i];
    assert all[|targets|] == last;
    DistinctNamesStep(targets, last);
  }

  lemma {:induction false} TargetsSilent(registry: seq<File>, targets: seq<Target>)
    ensures TargetsProblems(registry, targets) == [] <==> TargetsOk(registry, targets)
    decreases |targets|
  {
    if targets != [] {
      var init, last := targets[..|targets| - 1], targets[|targets| - 1];
      assert targets == init + [last];
      TargetsSilent(registry, init);
      TargetsOkStep(registry, init, last);
      EmptyParts(TargetsProblems(registry, init), TargetProblems(registry, last, Names(init)));
    }
  }

  lemma DeprecationSilent(registry: seq<File>, entry: Entry, d: Deprecation)
    ensures DeprecationProblems(registry, entry, d) == [] <==> SpecOk(registry, entry, d)
  {
    if d.spec.Spec? {
      TargetsSilent(registry, d.spec.replacedBy);
    }
  }

  ghost predicate SpecsOk(registry: seq<File>, entry: Entry, ds: seq<Deprecation>) {
    forall i | 0 <= i < |ds| :: SpecOk(registry, entry, ds[i])
  }

  lemma SpecsOkStep(registry: seq<File>, entry: Entry, ds: seq<Deprecation>, last: Deprecation)
    ensures SpecsOk(registry, entry, ds + [last]) <==> SpecsOk(registry, entry, ds) && SpecOk(registry, entry, last)
  {
    var all := ds + [last];
    assert forall i | 0 <= i < |ds| :: all[i] == ds[i];
    assert all[|ds|] == last;
  }

  lemma {:induction false} DeprecationsSilent(registry: seq<File>, entry: Entry, ds: seq<Deprecation>)
    ensures DeprecationsProblems(registry, entry, ds) == [] <==> SpecsOk(registry, entry, ds)
    decreases |ds|
  {
    if ds != [] {
      var init, last := ds[..|ds| - 1], ds[|ds| - 1];
      assert ds == init + [last];
      DeprecationsSilent(registry, entry, init);
      DeprecationSilent(registry, entry, last);
      SpecsOkStep(registry, entry, init, last);
      EmptyParts(DeprecationsProblems(registry, entry, init), DeprecationProblems(registry, entry, last));
    }
  }

  lemma DeprecatedSilent(registry: seq<File>, entry: Entry)
    ensures DeprecatedProblems(registry, entry) == [] <==>
              !entry.deprecated.Malformed?
              && (entry.deprecated.Present? ==> SpecsOk(registry, entry, entry.deprecated.value))
  {
    if entry.deprecated.Present? {
      DeprecationsSilent(registry, entry, entry.deprecated.value);
    }
  }

  lemma StandardSilent(entry: Entry)
    ensures StandardProblems(entry) == [] <==> StandardOk(entry)
  {
  }

  lemma FourParts(a: seq<Problem>, b: seq<Problem>, c: seq<Problem>, d: seq<Problem>)
    ensures a + b + c + d == [] <==> a == [] && b == [] && c == [] && d == []
  {
    EmptyParts(a + b + c, d);
    EmptyParts(a + b, c);
    EmptyParts(a, b);
  }

  lemma EntrySilent(registry: seq<File>, entry: Entry)
    ensures EntryProblems(registry, entry) == [] <==> EntryOk(registry, entry)
  {
    DeprecatedSilent(registry, entry);
    DefinitionsSilent(entry);
    StandardSilent(entry);
    FourParts(if entry.unknownKeys then [UnknownKeys] else [], DefinitionProblems(entry), StandardProblems(entry),
              DeprecatedProblems(registry, entry));
  }

  lemma DefinitionsSilent(entry: Entry)
    ensures DefinitionProblems(entry) == [] <==> DefinitionsOk(entry)
  {
    if entry.definitions.Present? {
      var defs := entry.definitions.value;
      assert defs.Keys == (set v | v in entry.values) <==> forall v :: v in defs <==> v in entry.values;
    }
  }

  ghost predicate EntriesOk(registry: seq<File>, files: seq<File>) {
    forall i | 0 <= i < |files| :: EntryOk(registry, files[i].entry)
  }

  lemma EntriesOkStep(registry: seq<File>, files: seq<File>, last: File)
    ensures EntriesOk(registry, files + [last]) <==> EntriesOk(registry, files) && EntryOk(registry, last.entry)
  {
    var all := files + [last];
    assert forall i | 0 <= i < |files| :: all[i] == files[i];
    assert all[|files|] == last;
  }

  /** The format checks are silent exactly when every entry obeys every rule. */
  lemma {:induction false} FormatSilent(registry: seq<File>, files: seq<File>)
    ensures FilesProblems(registry, files) == [] <==> EntriesOk(registry, files)
    decreases |files|
  {
    if files != [] {
      var init, last := files[..|files| - 1], files[|files| - 1];
      assert files == init + [last];
      FormatSilent(registry, init);
      EntrySilent(registry, last.entry);
      EntriesOkStep(registry, init, last);
      EmptyParts(FilesProblems(registry, init), EntryProblems(registry, last.entry));
    }
  }

  // ----- problems -----

  type Reach = seq<(string, set<set<string>>)>

  function ValueSet(entry: Entry): set<string> {
    set v | v in entry.values
  }

  /** `derived_used_in`; order and sorting do not matter to the comparison it feeds. */
  function DerivedUsedIn(values: set<string>, reach: Reach): seq<string> {
    if reach == [] then []
    else
      var (name, sets) := reach[|reach| - 1];
      DerivedUsedIn(values, reach[..|reach| - 1]) + (if values in sets then [name] else [])
  }

  function UsedIn(entry: Entry, reach: Reach): seq<string> {
    if !entry.enforced then
      (if entry.source != "" then [Partition(entry.source, '#').0] else [])
    else DerivedUsedIn(ValueSet(entry), reach)
  }

  function SourceProblems(schemas: map<string, Json>, entry: Entry): seq<Problem> {
    if entry.source == "" then []
    else
      var hit := if '#' in entry.source then Resolved(schemas, entry.source, "") else None;
      if hit.None? then [SourceUnresolved]
      else if entry.enforced && StringValues(hit.value.1) != Some(ValueSet(entry)) then [SourceDiffers]
      else if !entry.enforced && StringValues(hit.value.1).Some? then [SourceIsEnum]
      else []
  }

  function UsageProblems(entry: Entry, reach: Reach): seq<Problem> {
    var derived := UsedIn(entry, reach);
    (if entry.source != "" && entry.enforced && derived == [] then [NoSite] else [])
    + (if entry.usedIn.Some? && multiset(entry.usedIn.value) != multiset(derived) then [UsageDiffers] else [])
  }

  function FileProblems(schemas: map<string, Json>, reach: Reach, earlier: seq<File>, entry: Entry): seq<Problem> {
    (if exists k | 0 <= k < |earlier| :: earlier[k].entry.name == entry.name then [NameUsed] else [])
    + (if exists k | 0 <= k < |earlier| :: ValueSet(earlier[k].entry) == ValueSet(entry) then [SameValueSet] else [])
    + SourceProblems(schemas, entry)
    + UsageProblems(entry, reach)
  }

  function SchemaProblems(schemas: map<string, Json>, reach: Reach, files: seq<File>): seq<Problem> {
    if files == [] then []
    else
      var init := files[..|files| - 1];
      SchemaProblems(schemas, reach, init) + FileProblems(schemas, reach, init, files[|files| - 1].entry)
  }

  function AllProblems(schemas: map<string, Json>, reach: Reach, registry: seq<File>): seq<Problem> {
    FilesProblems(registry, registry) + SchemaProblems(schemas, reach, registry)
  }

  function NamesSeen(files: seq<File>): set<Option<string>> {
    if files == [] then {} else NamesSeen(files[..|files| - 1]) + {files[|files| - 1].entry.name}
  }

  function SetsSeen(files: seq<File>): set<set<string>> {
    if files == [] then {} else SetsSeen(files[..|files| - 1]) + {ValueSet(files[|files| - 1].entry)}
  }

  lemma {:induction false} SeenMeansEarlier(files: seq<File>, name: Option<string>, values: set<string>)
    ensures name in NamesSeen(files) <==> exists k :: 0 <= k < |files| && files[k].entry.name == name
    ensures values in SetsSeen(files) <==> exists k :: 0 <= k < |files| && ValueSet(files[k].entry) == values
  {
    if files != [] {
      var init := files[..|files| - 1];
      SeenMeansEarlier(init, name, values);
      assert forall k | 0 <= k < |init| :: init[k] == files[k];
    }
  }

  /** One turn of the loop in `problems`. */
  method CheckFile(schemas: map<string, Json>, reach: Reach, ghost earlier: seq<File>, entry: Entry,
                   seenNames: set<Option<string>>, seenSets: set<set<string>>) returns (out: seq<Problem>)
    requires seenNames == NamesSeen(earlier) && seenSets == SetsSeen(earlier)
    ensures out == FileProblems(schemas, reach, earlier, entry)
  {
    SeenMeansEarlier(earlier, entry.name, ValueSet(entry));
    out := if entry.name in seenNames then [NameUsed] else [];
    out := out + (if ValueSet(entry) in seenSets then [SameValueSet] else []);
    out := out + SourceProblems(schemas, entry);
    out := out + UsageProblems(entry, reach);
  }

  /** `problems`, given the table `reachable` computed. */
  method Problems(schemas: map<string, Json>, reach: Reach, registry: seq<File>) returns (out: seq<Problem>)
    ensures out == AllProblems(schemas, reach, registry)
  {
    out := FormatProblems(registry);
    var found := CheckFiles(schemas, reach, registry);
    out := out + found;
  }

  /** What the loop has after these files. */
  ghost predicate CheckedSoFar(schemas: map<string, Json>, reach: Reach, files: seq<File>, out: seq<Problem>,
                               seenNames: set<Option<string>>, seenSets: set<set<string>>)
  {
    out == SchemaProblems(schemas, reach, files) && seenNames == NamesSeen(files) && seenSets == SetsSeen(files)
  }

  method CheckFiles(schemas: map<string, Json>, reach: Reach, registry: seq<File>) returns (out: seq<Problem>)
    ensures out == SchemaProblems(schemas, reach, registry)
  {
    out := [];
    var seenSets: set<set<string>> := {};
    var seenNames: set<Option<string>> := {};
    for i := 0 to |registry|
      invariant CheckedSoFar(schemas, reach, registry[..i], out, seenNames, seenSets)
    {
      assert registry[..i + 1] == registry[..i] + [registry[i]];
      out, seenNames, seenSets := CheckNext(schemas, reach, registry[..i], registry[i], out, seenNames, seenSets);
    }
    assert registry[..|registry|] == registry;
  }

  method CheckNext(schemas: map<string, Json>, reach: Reach, ghost earlier: seq<File>, file: File, out: seq<Problem>,
                   seenNames: set<Option<string>>, seenSets: set<set<string>>)
    returns (longer: seq<Problem>, moreNames: set<Option<string>>, moreSets: set<set<string>>)
    requires CheckedSoFar(schemas, reach, earlier, out, seenNames, seenSets)
    ensures CheckedSoFar(schemas, reach, earlier + [file], longer, moreNames, moreSets)
  {
    SchemaStep(schemas, reach, earlier, file);
    SeenStep(earlier, file);
    var found := CheckFile(schemas, reach, earlier, file.entry, seenNames, seenSets);
    longer := out + found;
    moreNames := seenNames + {file.entry.name};
    moreSets := seenSets + {ValueSet(file.entry)};
  }

  lemma SeenStep(files: seq<File>, file: File)
    ensures NamesSeen(files + [file]) == NamesSeen(files) + {file.entry.name}
    ensures SetsSeen(files + [file]) == SetsSeen(files) + {ValueSet(file.entry)}
  {
    assert (files + [file])[..|files|] == files;
  }

  lemma SchemaStep(schemas: map<string, Json>, reach: Reach, files: seq<File>, file: File)
    ensures SchemaProblems(schemas, reach, files + [file])
            == SchemaProblems(schemas, reach, files) + FileProblems(schemas, reach, files, file.entry)
  {
    assert (files + [file])[..|files|] == files;
  }

  // ----- Normalising -----

  datatype Word = Word(name: Option<string>, value: string)

  ghost predicate UniqueNames(registry: seq<File>) {
    forall i, j | 0 <= i < j < |registry| :: registry[i].entry.name != registry[j].entry.name
  }

  /** The deprecation of a word in some file, if there is one. */
  ghost predicate DeprecatedAs(registry: seq<File>, word: Word, d: Deprecation) {
    exists f :: 0 <= f < |registry| && registry[f].entry.name == word.name
                && registry[f].entry.deprecated.Present? && d in registry[f].entry.deprecated.value
                && d.value == word.value && d.spec.Spec?
  }

  /** `b` is a replacement of `a` in some registry file. */
  ghost predicate Replaces(registry: seq<File>, a: Word, b: Word) {
    exists d :: DeprecatedAs(registry, a, d) && Target(b.name, b.value) in d.spec.replacedBy
  }

  lemma {:induction false} ByNameFinds(registry: seq<File>, f: nat)
    requires f < |registry| && UniqueNames(registry)
    ensures ByName(registry, registry[f].entry.name) == Some(registry[f].entry)
  {
    if f < |registry| - 1 {
      ByNameFinds(registry[..|registry| - 1], f);
    }
  }

  ghost predicate UniqueSets(files: seq<File>) {
    forall i, j | 0 <= i < j < |files| :: ValueSet(files[i].entry) != ValueSet(files[j].entry)
  }

  ghost predicate UsesOk(schemas: map<string, Json>, reach: Reach, entry: Entry) {
    SourceProblems(schemas, entry) == [] && UsageProblems(entry, reach) == []
  }

  /** What a silent loop has established of the files so far. */
  ghost predicate FilesDistinct(schemas: map<string, Json>, reach: Reach, files: seq<File>) {
    UniqueNames(files) && UniqueSets(files) && forall i | 0 <= i < |files| :: UsesOk(schemas, reach, files[i].entry)
  }

  lemma FileIsNew(schemas: map<string, Json>, reach: Reach, files: seq<File>, entry: Entry)
    requires FileProblems(schemas, reach, files, entry) == []
    ensures forall k | 0 <= k < |files| :: files[k].entry.name != entry.name
    ensures forall k | 0 <= k < |files| :: ValueSet(files[k].entry) != ValueSet(entry)
    ensures UsesOk(schemas, reach, entry)
  {
  }

  lemma UniqueStep(files: seq<File>, file: File)
    requires UniqueNames(files) && UniqueSets(files)
    requires forall k | 0 <= k < |files| :: files[k].entry.name != file.entry.name
    requires forall k | 0 <= k < |files| :: ValueSet(files[k].entry) != ValueSet(file.entry)
    ensures UniqueNames(files + [file]) && UniqueSets(files + [file])
  {
    var all := files + [file];
    assert forall i | 0 <= i < |files| :: all[i] == files[i];
  }

  lemma FileSilent(schemas: map<string, Json>, reach: Reach, files: seq<File>, file: File)
    requires FilesDistinct(schemas, reach, files) && FileProblems(schemas, reach, files, file.entry) == []
    ensures FilesDistinct(schemas, reach, files + [file])
  {
    FileIsNew(schemas, reach, files, file.entry);
    UniqueStep(files, file);
    UsesStep(schemas, reach, files, file);
  }

  lemma UsesStep(schemas: map<string, Json>, reach: Reach, files: seq<File>, file: File)
    requires forall i | 0 <= i < |files| :: UsesOk(schemas, reach, files[i].entry)
    requires UsesOk(schemas, reach, file.entry)
    ensures var all := files + [file]; forall i | 0 <= i < |all| :: UsesOk(schemas, reach, all[i].entry)
  {
    var all := files + [file];
    assert forall i | 0 <= i < |files| :: all[i] == files[i];
    assert all[|files|] == file;
  }

  lemma {:induction false} SchemaSilentMeansUnique(schemas: map<string, Json>, reach: Reach, files: seq<File>)
    requires SchemaProblems(schemas, reach, files) == []
    ensures FilesDistinct(schemas, reach, files)
    decreases |files|
  {
    if files != [] {
      var init, last := files[..|files| - 1], files[|files| - 1];
      assert files == init + [last];
      SchemaStep(schemas, reach, init, last);
      NothingInParts(SchemaProblems(schemas, reach, init), FileProblems(schemas, reach, init, last.entry));
      SchemaSilentMeansUnique(schemas, reach, init);
      FileSilent(schemas, reach, init, last);
    }
  }

  lemma NothingInParts(a: seq<Problem>, b: seq<Problem>)
    requires a + b == []
    ensures a == [] && b == []
  {
    assert |a + b| == |a| + |b|;
  }

  lemma RegistryIsSound(schemas: map<string, Json>, reach: Reach, registry: seq<File>)
    requires AllProblems(schemas, reach, registry) == []
    ensures UniqueNames(registry)
    ensures EntriesOk(registry, registry)
  {
    SchemaSilentMeansUnique(schemas, reach, registry);
    FormatSilent(registry, registry);
  }

  /**
   A clean registry has no replacement chains: what replaces a word is a listed value of the one
   enum with that name, and nothing replaces it in turn.
   */
  lemma ReplacementsNeverChain(schemas: map<string, Json>, reach: Reach, registry: seq<File>, a: Word, b: Word)
    requires AllProblems(schemas, reach, registry) == [] && Replaces(registry, a, b)
    ensures UniqueNames(registry)
    ensures exists f :: 0 <= f < |registry| && registry[f].entry.name == b.name && b.value in registry[f].entry.values
    ensures forall d :: !DeprecatedAs(registry, b, d)
    ensures forall c :: !Replaces(registry, b, c)
  {
    RegistryIsSound(schemas, reach, registry);
    ReplacementIsOk(registry, a, b);
    ByNameIsAFile(registry, b.name);
    CurrentIsNotDeprecated(registry, b);
  }

  lemma ReplacementIsOk(registry: seq<File>, a: Word, b: Word)
    requires EntriesOk(registry, registry) && Replaces(registry, a, b)
    ensures TargetOk(registry, Target(b.name, b.value))
  {
    var d :| DeprecatedAs(registry, a, d) && Target(b.name, b.value) in d.spec.replacedBy;
    var f :| 0 <= f < |registry| && registry[f].entry.name == a.name
             && registry[f].entry.deprecated.Present? && d in registry[f].entry.deprecated.value;
    SpecOfEntry(registry, registry[f].entry, d);
    var j :| 0 <= j < |d.spec.replacedBy| && d.spec.replacedBy[j] == Target(b.name, b.value);
    assert TargetOk(registry, d.spec.replacedBy[j]);
  }

  lemma SpecOfEntry(registry: seq<File>, entry: Entry, d: Deprecation)
    requires EntryOk(registry, entry) && entry.deprecated.Present? && d in entry.deprecated.value
    ensures SpecOk(registry, entry, d)
  {
    var i :| 0 <= i < |entry.deprecated.value| && entry.deprecated.value[i] == d;
    assert SpecOk(registry, entry, entry.deprecated.value[i]);
  }

  /** With unique names, a value current in the last file of a name is deprecated in no file of it. */
  lemma CurrentIsNotDeprecated(registry: seq<File>, b: Word)
    requires UniqueNames(registry) && ByName(registry, b.name).Some?
    requires !IsDeprecated(ByName(registry, b.name).value, b.value)
    ensures forall d :: !DeprecatedAs(registry, b, d)
    ensures forall c :: !Replaces(registry, b, c)
  {
    forall g | 0 <= g < |registry| {
      ByNameFinds(registry, g);
    }
  }

  lemma {:induction false} ByNameIsAFile(registry: seq<File>, name: Option<string>)
    requires ByName(registry, name).Some?
    ensures exists f :: 0 <= f < |registry| && registry[f].entry == ByName(registry, name).value
                        && registry[f].entry.name == name
  {
    var last := |registry| - 1;
    if registry[last].entry.name == name {
      assert registry[last].entry == ByName(registry, name).value;
    } else {
      ByNameIsAFile(registry[..last], name);
      var f :| 0 <= f < last && registry[..last][f].entry == ByName(registry, name).value
               && registry[..last][f].entry.name == name;
      assert registry[f].entry == ByName(registry, name).value;
    }
  }

  /** What a reader keeps: the replacements, or the word itself when it has none. */
  ghost predicate NormalisesTo(registry: seq<File>, a: Word, b: Word) {
    if exists c :: Replaces(registry, a, c) then Replaces(registry, a, b) else b == a
  }

  /** Normalising twice is normalising once, for every word. */
  lemma NormalisingIsIdempotent(schemas: map<string, Json>, reach: Reach, registry: seq<File>, a: Word, c: Word)
    requires AllProblems(schemas, reach, registry) == []
    ensures (exists b :: NormalisesTo(registry, a, b) && NormalisesTo(registry, b, c)) <==> NormalisesTo(registry, a, c)
  {
    if b :| NormalisesTo(registry, a, b) && NormalisesTo(registry, b, c) {
      if exists x :: Replaces(registry, a, x) {
        ReplacementsNeverChain(schemas, reach, registry, a, b);
      }
    }
    if NormalisesTo(registry, a, c) {
      if exists x :: Replaces(registry, a, x) {
        ReplacementsNeverChain(schemas, reach, registry, a, c);
      }
      assert NormalisesTo(registry, a, c) && NormalisesTo(registry, c, c);
    }
  }

  /** In a clean registry a deprecated value is listed exactly until it is retired, and each enum replaces it once. */
  lemma DeprecationsAreConsistent(schemas: map<string, Json>, reach: Reach, registry: seq<File>, f: nat, i: nat)
    requires AllProblems(schemas, reach, registry) == []
    requires f < |registry| && registry[f].entry.deprecated.Present? && i < |registry[f].entry.deprecated.value|
    ensures var d := registry[f].entry.deprecated.value[i];
            && d.spec.Spec? && d.spec.retired.Flag?
            && (d.value in registry[f].entry.values <==> !d.spec.retired.flag)
            && (forall j | 0 <= j < |d.spec.replacedBy| :: d.spec.replacedBy[j].Target?)
            && forall j, k | 0 <= j < k < |d.spec.replacedBy| ::
                 d.spec.replacedBy[j].name != d.spec.replacedBy[k].name
  {
    RegistryIsSound(schemas, reach, registry);
    assert SpecOk(registry, registry[f].entry, registry[f].entry.deprecated.value[i]);
  }

  /** A clean registry claims each value set once, and its declared uses are exactly the derived ones. */
  lemma UsesAreDerived(schemas: map<string, Json>, reach: Reach, registry: seq<File>, f: nat, name: string)
    requires AllProblems(schemas, reach, registry) == []
    requires f < |registry| && registry[f].entry.enforced && registry[f].entry.usedIn.Some?
    ensures name in registry[f].entry.usedIn.value <==>
              exists k :: 0 <= k < |reach| && reach[k].0 == name && ValueSet(registry[f].entry) in reach[k].1
    ensures forall g | 0 <= g < |registry| && g != f :: ValueSet(registry[g].entry) != ValueSet(registry[f].entry)
  {
    SchemaSilentMeansUnique(schemas, reach, registry);
    var entry := registry[f].entry;
    var derived := DerivedUsedIn(ValueSet(entry), reach);
    assert UsageProblems(entry, reach) == [];
    assert multiset(entry.usedIn.value) == multiset(derived);
    assert name in entry.usedIn.value <==> name in multiset(entry.usedIn.value);
    assert name in derived <==> name in multiset(derived);
    DerivedMembers(ValueSet(entry), reach, name);
    forall g | 0 <= g < |registry| && g != f
      ensures ValueSet(registry[g].entry) != ValueSet(entry)
    {
      if g < f {
        assert ValueSet(registry[g].entry) != ValueSet(registry[f].entry);
      }
    }
  }

  lemma {:induction false} DerivedMembers(values: set<string>, reach: Reach, name: string)
    ensures name in DerivedUsedIn(values, reach) <==>
              exists k :: 0 <= k < |reach| && reach[k].0 == name && values in reach[k].1
  {
    if reach != [] {
      var init := reach[..|reach| - 1];
      DerivedMembers(values, init, name);
      if k :| 0 <= k < |reach| && reach[k].0 == name && values in reach[k].1 {
        assert k < |init| ==> init[k] == reach[k];
      }
      if k :| 0 <= k < |init| && init[k].0 == name && values in init[k].1 {
        assert reach[k] == init[k];
      }
    }
  }

  /** Two files named `c`: the first deprecates `x`, the second lists it as current. */
  function ChainedRegistry(): seq<File> {
    var plain := Entry(Some("c"), ["x", "y"], false, Absent, Absent, Absent, "", true, None);
    [File("1", plain.(deprecated := Present([ToY()]))),
     File("2", plain),
     File("3", plain.(name := Some("d"), values := ["w"], deprecated := Present([ToX()])))]
  }

  function ToY(): Deprecation {
    Deprecation("x", Spec([Target(Some("c"), "y")], false, Flag(false)))
  }

  function ToX(): Deprecation {
    Deprecation("w", Spec([Target(Some("c"), "x")], false, Flag(false)))
  }

  lemma ChainedTargets()
    ensures TargetOk(ChainedRegistry(), Target(Some("c"), "y"))
    ensures TargetOk(ChainedRegistry(), Target(Some("c"), "x"))
  {
    var registry := ChainedRegistry();
    var init := registry[..2];
    assert init[1] == registry[1];
    assert ByName(init, Some("c")) == Some(registry[1].entry);
    assert registry[2].entry.name == Some("d");
    assert "d" != "c";
    assert ByName(registry, Some("c")) == Some(registry[1].entry);
    assert registry[1].entry.values == ["x", "y"];
    assert registry[1].entry.values[0] == "x" && registry[1].entry.values[1] == "y";
  }

  lemma ChainedEntries()
    ensures forall i | 0 <= i < 3 :: EntryOk(ChainedRegistry(), ChainedRegistry()[i].entry)
  {
    var registry := ChainedRegistry();
    ChainedTargets();
    var first, third := registry[0].entry, registry[2].entry;
    assert first.values[0] == "x" && third.values[0] == "w";
    assert SpecOk(registry, first, ToY()) && SpecOk(registry, third, ToX());
  }

  /** The format checks alone do not rule chains out: two files may share a name. */
  lemma FormatChecksAloneAllowChains()
    ensures FilesProblems(ChainedRegistry(), ChainedRegistry()) == []
    ensures Replaces(ChainedRegistry(), Word(Some("d"), "w"), Word(Some("c"), "x"))
    ensures Replaces(ChainedRegistry(), Word(Some("c"), "x"), Word(Some("c"), "y"))
  {
    var registry := ChainedRegistry();
    ChainedEntries();
    FormatSilent(registry, registry);
    assert ToX() in registry[2].entry.deprecated.value && ToY() in registry[0].entry.deprecated.value;
    assert DeprecatedAs(registry, Word(Some("d"), "w"), ToX());
    assert DeprecatedAs(registry, Word(Some("c"), "x"), ToY());
    assert Target(Some("c"), "x") in ToX().spec.replacedBy && Target(Some("c"), "y") in ToY().spec.replacedBy;
  }
}
