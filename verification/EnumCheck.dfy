/**
 The registry checks with the table they use: what a clean registry says about where its enums are used, told in
 terms of the schemas alone.
 */
module EnumCheck {
  import opened Wrappers
  import opened EnumPointer
  import opened MemoSearch
  import opened MemoNames
  import opened EnumReach
  import opened ReachMeaning
  import EnumRegistry
  import EnumRules

  type Registry = seq<EnumRegistry.File>

  /** The table `reachable` computes for these schemas. */
  ghost predicate TableOf(schemas: Schemas, names: seq<string>, table: EnumRegistry.Reach) {
    && (forall name :: name in names <==> name in schemas) && Closed(GraphOf(schemas))
    && (forall j | 0 <= j < |RootsOf(names)| :: RootsOf(names)[j] in GraphOf(schemas).refs)
    && Tabled(table, names, CollectRoots(GraphOf(schemas), RootsOf(names)).0)
  }

  /** `problems`: first the table, then every check; the table is returned for what is said about it. */
  method Problems(schemas: Schemas, names: seq<string>, registry: Registry)
    returns (out: seq<EnumRegistry.Problem>, table: EnumRegistry.Reach)
    requires forall name :: name in names <==> name in schemas
    ensures TableOf(schemas, names, table)
    ensures out == EnumRegistry.AllProblems(schemas, table, registry)
  {
    table := Reachable(schemas, names);
    out := EnumRegistry.Problems(schemas, table, registry);
  }

  /** Validating a document of this file may lead to an enum of these values. */
  ghost predicate Uses(schemas: Schemas, name: string, values: Values) {
    Holds(GraphOf(schemas), Loc(name, []), values)
  }

  /** Files for which the table is complete whatever values the places hold: their search finds every place. */
  ghost predicate Complete(schemas: Schemas, names: seq<string>, i: nat)
    requires i < |names|
  {
    var g, roots := GraphOf(schemas), RootsOf(names);
    Closed(g) && (forall j | 0 <= j < |roots| :: roots[j] in g.refs) && FindsAll(g, roots, i)
  }

  /** So it is where what a file shares with the files before has no cycle ahead. */
  lemma SharingNoCycleIsComplete(schemas: Schemas, names: seq<string>, i: nat)
    requires i < |names| && forall name | name in names :: name in schemas
    requires SharesNoCycle(GraphOf(schemas), RootsOf(names), i)
    ensures Complete(schemas, names, i)
  {
    TableIsSound(schemas, names, i, {});
  }

  lemma RowIsSound(schemas: Schemas, names: seq<string>, table: EnumRegistry.Reach, i: nat, values: Values)
    requires TableOf(schemas, names, table) && i < |names|
    ensures i < |table| && table[i].0 == names[i]
    ensures values in table[i].1 ==> Uses(schemas, names[i], values)
    ensures Complete(schemas, names, i) ==> (values in table[i].1 <==> Uses(schemas, names[i], values))
  {
    TableIsSound(schemas, names, i, values);
  }

  /**
   In a clean registry, every file an enforced enum is said to be used in may lead to it; and of the files for
   which the table is complete, those and no others are listed.
   */
  lemma DeclaredUsesAreReached(schemas: Schemas, names: seq<string>, table: EnumRegistry.Reach,
                               registry: Registry, f: nat, i: nat)
    requires TableOf(schemas, names, table) && EnumRegistry.AllProblems(schemas, table, registry) == []
    requires f < |registry| && registry[f].entry.enforced && registry[f].entry.usedIn.Some? && i < |names|
    ensures var entry := registry[f].entry;
            var values := EnumRegistry.ValueSet(entry);
            && (forall name | name in entry.usedIn.value :: name in schemas && Uses(schemas, name, values))
            && (Complete(schemas, names, i) ==>
                  (names[i] in entry.usedIn.value <==> Uses(schemas, names[i], values)))
  {
    var entry := registry[f].entry;
    var values := EnumRegistry.ValueSet(entry);
    forall name | name in entry.usedIn.value
      ensures name in schemas && Uses(schemas, name, values)
    {
      ListedIsUsed(schemas, names, table, registry, f, name);
    }
    RowIsSound(schemas, names, table, i, values);
    EnumRegistry.UsesAreDerived(schemas, table, registry, f, names[i]);
    if Complete(schemas, names, i) && Uses(schemas, names[i], values) {
      assert table[i].0 == names[i] && values in table[i].1;
    }
  }

  lemma ListedIsUsed(schemas: Schemas, names: seq<string>, table: EnumRegistry.Reach, registry: Registry,
                     f: nat, name: string)
    requires TableOf(schemas, names, table) && EnumRegistry.AllProblems(schemas, table, registry) == []
    requires f < |registry| && registry[f].entry.enforced && registry[f].entry.usedIn.Some?
    requires name in registry[f].entry.usedIn.value
    ensures name in schemas && Uses(schemas, name, EnumRegistry.ValueSet(registry[f].entry))
  {
    var values := EnumRegistry.ValueSet(registry[f].entry);
    EnumRegistry.UsesAreDerived(schemas, table, registry, f, name);
    var k :| 0 <= k < |table| && table[k].0 == name && values in table[k].1;
    RowIsSound(schemas, names, table, k, values);
    assert names[k] in names;
  }

  /** What a use is: a trail of references from the top of the file, none below an `if`, to an enum of these values. */
  lemma UsesMean(schemas: Schemas, name: string, values: Values)
    requires Parsed(schemas) && name in schemas
    ensures Uses(schemas, name, values) <==> exists p :: Trail(schemas, name, p, values)
  {
    HoldsMeans(schemas, name, values);
  }

  /** With the computed table, a problem is listed exactly when some file breaks its rule. */
  lemma ProblemsMean(schemas: Schemas, names: seq<string>, table: EnumRegistry.Reach, registry: Registry,
                     p: EnumRegistry.Problem)
    requires TableOf(schemas, names, table) && forall i, j | 0 <= i < j < |names| :: names[i] != names[j]
    ensures p in EnumRegistry.AllProblems(schemas, table, registry) <==>
              || EnumRules.SomeEntryWrong(registry, registry, p)
              || EnumRules.SomeFileWrong(schemas, table, registry, p)
  {
    forall i, j | 0 <= i < j < |table|
      ensures table[i].0 != table[j].0
    {
      assert names[i] != names[j];
    }
    EnumRules.ProblemsMean(schemas, table, registry, p);
  }
}
