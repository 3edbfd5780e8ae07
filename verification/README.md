# Verified models of traust-contracts

This project models the parts of traust-contracts whose correctness depends on state, order or search, and proves
what the code, its documentation and its tests promise of them. Each component is a module of its own.

* **Storage writes** (`StorageIdentity`, `StorageModel`, `Store`, `StorageChains`, `StorageContract`,
  `StorageConcurrent`). `ingest` binds
  exact bytes to a context, append-only, with supersession chains. `StorageModel.Ingest` is the call as a function on
  the tables and their constraints; the class `StorageStore.Store` runs it statement by statement, any statement may
  fault, and it is proved to have exactly that effect or none. `StorageContract` tells that function without its
  helpers: each refusal and its turn, the encoding, the identity. `StorageChains` proves what every run of calls
  keeps; `StorageConcurrent` shows that every interleaving of concurrent callers is one of those runs.
* **Storage upgrades** (`StorageMigrate`, `MigrateContract`, `SqlBootstrap`). `init`, `migrate`, the statements of a
  delta, the file order and the statement splitter.
  `StorageWitness` holds the inputs on which storage may surprise.
* **Enum registry** (`EnumPointer`, `EnumSites`, `MemoSearch`, `MemoNames`, `EnumReach`, `ReachMeaning`, `EnumRegistry`,
  `EnumRules`, `EnumCheck`). The walk over the schemas and the JSON Pointers it prints (RFC 6901), the memoised search
  over `$ref`s, and the checks that keep replacements from chaining. `ReachMeaning` says what is reachable by paths and
  references alone, `EnumRules` what each check refuses.
* **Pin chain** (`PinGraph`, `PinChain`). Commits as a graph, the resumable hop, the chain of hops, and reconciliation.
* **Compatibility gate** (`CompatGate`, `RawPointer`, `CompatMeaning`, `AnyOfExemption`). The search for `$defs` no old
  artifact reaches, what it means on the two schemas, and the `anyOf` exemption.
* **Scopes** (`ScopePartition`), **diff reader** (`DiffReader`, `DiffStray`, `DiffFused`,
  `DiffMerge`), **risk rating** (`RiskRating`).

`PyText` holds the string operations the code relies on, `Wrappers` the `Option` and `Result` types. Code that
changes things step by step is a class or a method with a loop, proved against a function; the lemmas are about that
function. Input and output, clocks, generated ids, and library code are parameters: for instance `Env.sha`,
`Env.accepts` (JSON Schema validation), `Env.project` (the rows a document projects to), a fault at any statement.

## What the proofs found

* **A PR can be recorded for the wrong branch.** `_finalize` puts the new branch into the record before comparing it
  with the record, so once any PR is recorded no later branch gets one. Over every history of `_finalize` and
  `reconcile_hop`, the recorded PR belongs to the recorded branch if and only if the latest `_finalize` since the
  first write that asked for a PR, if any, was for that same branch (`RecordedPrBelongs`, `SecondBranchGetsNoPr`).
  `reconcile_hop` itself keeps records that match matching, and works on from those that do not.
* **The reachability memo is incomplete after a cycle.** It never reports a value that cannot be reached, and the
  table is complete for every schema that shares with earlier ones only places with no cycle ahead: the first one, one
  that shares nothing, one with no cycle ahead, and a recursive one that shares plain `$defs`
  (`CompleteUnlessCycleShared`). That is not necessary (`CycleSharedWitness`); exact is this: an entry is complete
  whatever values the schemas hold if and only if it is complete when every place holds its own name, and complete for
  given values if and only if each value of a place missed is also one of a place found (`CompleteForEveryAssignment`,
  `CompleteExactly`). `RecursiveSchemasWitness` gives two mutually recursive schemas of which the second misses a
  value set.
* **Empty keys.** `resolve` drops empty pointer segments, so the reference printed for a path through an empty key
  names another node (`PrintedRefResolves`, `EmptyKeyWitness`). It leads back if and only if no key on the path is
  empty (`RefNamesItself`).
* **Format checks alone allow replacement chains**, where two files share a name (`FormatChecksAloneAllowChains`);
  together with the unique-name check of `problems` they do not (`ReplacementsNeverChain`).
* **Upgrades and late tables.** `migrate` creates missing tables in their final form and then runs every delta. It
  succeeds if and only if three things hold (`UpgradeReachesFresh`). A table that first appeared after the starting
  revision has, in its final form, every column a delta needs of it as that column was at first, unless an earlier
  statement settled the column: with plain `ALTER`s as in the SQLite deltas that means the table was never altered
  (`PlainFitsOnlyUnchanged`), with the `IF NOT EXISTS` of the PostgreSQL deltas it always holds until a delta updates
  rows (`GuardedAlwaysFits`, `LateTableWitness`, `BackfillWitness`). Every plain `DROP INDEX` names an index that is
  there after step 2 and that no earlier delta took (`DropWitness`). And nothing is in the way of a dropped column.
* **Upgrades and views of others.** On SQLite they stay; on PostgreSQL `CASCADE` takes those that read a view of the
  package, directly or through others, and nothing brings them back (`SurvivorsAre`). One that reads a dropped column
  stops the upgrade, and on SQLite, as soon as any column is dropped, so does one that reads a view of the package
  (`ViewsLetGoExactly`, `ForeignViewWitness`).
* **The cumulative-root index leaves out rows without a registered owner**, so two such reports may both be current. It
  would let rows without a run through as well, as NULLs are distinct, but the profile of `report` requires a run
  (`OneCurrentFindingsCurrent`, `OwnerlessWitness`, `ReportsHaveRuns`).
* **A successful run may leave the tree dirty.** `git commit -am` adds no untracked file. When `Bumper.run` returns
  true, the tree is clean if it had nothing to commit; otherwise it is clean if and only if no untracked file was
  there before, which a fresh hop guarantees, and lock and test left none (`CleanExactly`, `TrueButDirty`). Such a hop
  cannot be re-run: the next run is in the resume case and finds nothing to commit (`DirtySuccessFailsNext`).
* **Diff reader: line separators.** What a text breaks off at a separator reaches the reader as lines of its own. A text
  added under a readable name that breaks inside is never reported as it is (`BreakMeansInexact`). A removed line or a
  hunk heading does harm if it breaks off a piece that begins with `+`, is a hunk header or begins with `diff --git `:
  every diff with given removed lines and headings is read exactly if and only if none of them does
  (`StrayTextsAreSafe`, `PhantomWitness`). In one diff the harm need not show (`HarmMayNotShow`). `\d` and `int` read
  digits of any script, so a hunk header in Arabic-Indic digits does the same harm (`ForeignHeaderWitness`); every
  result about the reader holds for whatever digits the running Unicode version knows.
* **Diff reader: fused hunks.** Under a user's `diff.interHunkContext`, git joins near hunks and prints the lines kept
  between them, which the reader does not count. The hunks of a file are read exactly if and only if in none of them a
  kept line comes before an addition (`FusedIsExact`).
* **Diff reader: names.** Names that git quotes are skipped without a word (`ReportNames`). A name with a space is
  reported with git's trailing tab, and the other side of a merge is looked up under that, so nothing is filtered
  (`StagedIsExact`, `SpacedNameWitness`). The merge filter keeps added blank lines (`MergeChecksOnlyNewLines`). Names
  that hold U+0085, U+2028 or U+2029, which git does not quote, are outside every claim made here.
* **Compatibility gate.** Pointers are joined without escaping and of two nodes with one pointer the later stays, so
  beside a key with a slash an open object may count as closed, and its new property as impossible (`SlashWitness`).
  Where no key holds a slash the gate is exact (`ImpossibleIsForbidden`, `UnreachableDefs`), except that an object below
  a key like `title` or `default` never counts as closed, which only makes it stricter.
* **Scopes.** An engagement whose `tree` is empty can be written but is not listed for readers (`EmptyTreeWitness`).
* **Risk rating.** A stored NaN passes the score check with any factors (`NaNIsAlwaysNear`).

## Model

| member | source | states |
|---|---|---|
| `StorageIdentity.BindingBytes` | src/traust_contracts/v1/storage/store.py:605-632 | the loops produce the specified byte tuple, or the error of the first refused field in the order the code meets them |
| `StorageIdentity.EncodableIffClean` | src/traust_contracts/v1/storage/store.py:581-589 | an identity is encoded exactly when no present field holds NUL or a lone surrogate |
| `StorageIdentity.FirstBadFieldSound` | src/traust_contracts/v1/storage/store.py:608-631 | a refusal exists exactly when some field is bad |
| `StorageIdentity.ZeroByteOnlyForNul` | src/traust_contracts/v1/storage/store.py:584-587 | UTF-8 (section 3 of RFC 3629) emits a zero byte for NUL and nothing else |
| `StorageIdentity.DecodeUtf8Inverse` | src/traust_contracts/v1/storage/store.py:586-587 | decoding the UTF-8 bytes gives the string back |
| `StorageIdentity.DecodeInverse` | src/traust_contracts/v1/storage/store.py:605-632 | a decoder recovers every field, and its absence, from the bytes before hashing |
| `StorageIdentity.EncodingInjective` | src/traust_contracts/v1/storage/store.py:625-631 | equal bytes mean equal contexts: absent is not empty, and a role never collides with none |
| `StorageModel.DeduplicatedInOrder` | src/traust_contracts/v1/storage/store.py:592-602 | the kept references are exactly the given ones, once each, in order of first occurrence |
| `StorageModel.ProjectAdds` | src/traust_contracts/v1/storage/store.py:1441-1531 | projection adds rows of the given binding only and changes none |
| `StorageModel.ProjectOnto` | src/traust_contracts/v1/storage/store.py:1441-1531 | projecting a binding without rows does not depend on the rows of others |
| `StorageModel.IdentityAlwaysEncodes` | src/traust_contracts/v1/storage/store.py:1002-1003 | after validation the identity cannot fail, so computing it outside the `try` is safe |
| `StorageContract.ValidationMeans` | src/traust_contracts/v1/storage/store.py:992-1003 | what a call is refused for before it writes, in the order found: artifact, document, empty scope, the first bad text, role, the first missing field, the first bad reference |
| `StorageContract.EncodingLayout` | src/traust_contracts/v1/storage/store.py:605-632 | the bytes hashed are the domain, then digest, artifact and scope each with an end mark, three optional texts behind a flag, and the role only if there is one |
| `StorageContract.IdentityCovers` | src/traust_contracts/v1/storage/store.py:605-632 | the identity covers digest, artifact, scope, subject, run, layer and role, and neither predecessor, owner nor commit |
| `StorageContract.TransactionMeans` | src/traust_contracts/v1/storage/store.py:1014-1058 | what a valid call answers, in the order found: collision, self-supersession, no predecessor, another context, second successor, second cumulative root, unknown owner, failed projection; otherwise success |
| `StorageStore.DeduplicateReferences` | src/traust_contracts/v1/storage/store.py:592-602 | one pass gives the deduplicated references or the first error |
| `StorageStore.Store.Ingest` | src/traust_contracts/v1/storage/store.py:969-1065 | the tables become what the pure call computes, or stay; other failures are driver faults only; a caller's open transaction is left alone |
| `StorageStore.Store.Attempt` | src/traust_contracts/v1/storage/store.py:1006-1058 | evidence, binding, locations and projection are committed together or not at all |
| `StorageStore.Store.Rollback` | src/traust_contracts/v1/storage/store.py:664-670 | the working copy is dropped unless the rollback itself fails, which is reported |
| `StorageStore.Store.RegisterAll` | src/traust_contracts/v1/storage/store.py:1361-1371 | every reference is added to the binding, and nothing else changes |
| `StorageStore.Store.RequirePredecessor` | src/traust_contracts/v1/storage/store.py:1412-1439 | the predecessor exists, is another binding, and has the same context, or the matching error |
| `StorageChains.RunInv` | src/traust_contracts/v1/storage/store.py:1014-1058 | over every run: predecessors stored earlier, one successor, one context per link, identities that match rows, unique cumulative roots |
| `StorageChains.ChainShape` | src/traust_contracts/v1/storage/store.py:1412-1439 | the chain of a binding is finite, starts at a root, moves forward in time and keeps its context |
| `StorageChains.SameRootComparable` | src/traust_contracts/v1/storage/store.py:1412-1439 | chains with one root never branch |
| `StorageChains.TipExists` | storage/v1/README.md:287-291 | from every binding the chain runs on to a current one with the same root and context |
| `StorageChains.TipUnique` | src/traust_contracts/v1/storage/store.py:1412-1439 | two current bindings with one root are the same |
| `StorageChains.CurrentCountIsRootCount` | src/traust_contracts/v1/storage/store.py:1412-1439 | there are as many current bindings as roots |
| `StorageChains.BindingsFormChains` | src/traust_contracts/v1/storage/store.py:1014-1058 | over every run of calls the bindings form disjoint finite chains with exactly one tip each |
| `StorageChains.CurrentMeansUnsuperseded` | storage/v1/sqlite/views/binding_current.sql:1-9 | the scope test in the view never matters |
| `StorageChains.OneCurrentFindingsCurrent` | storage/v1/sqlite/schema/artifact_binding.sql:32-42 | per scope, registered owner and run exactly one cumulative report is current as soon as there is one |
| `StorageWitness.BothStayCurrent` | storage/v1/sqlite/schema/artifact_binding.sql:32-42 | any two cumulative reports without a registered owner stay current side by side |
| `StorageWitness.OwnerlessWitness` | storage/v1/sqlite/schema/artifact_binding.sql:32-42 | two such reports of one scope and run |
| `StorageChains.ReportsHaveRuns` | storage/v1/sqlite/schema/artifact_binding.sql:32-42 | no report is without a run, so none escapes the root index that way |
| `StorageChains.ChainDigestsDistinct` | src/traust_contracts/v1/storage/store.py:1396-1439 | no two bindings of a chain hold the same digest, without any assumption on the hash |
| `StorageChains.RestoringEarlierBytesCollides` | src/traust_contracts/v1/storage/store.py:1014-1022 | binding bytes of the chain again over a later binding of it ends in an identity collision |
| `StorageChains.IngestEffect` | src/traust_contracts/v1/storage/store.py:1014-1059 | a successful call adds its evidence with its length, its binding, the missing locations and, for a new binding, exactly the rows of its items, the first of each key; a retry adds locations only |
| `StorageChains.FirstBindingProjects` | src/traust_contracts/v1/storage/store.py:1441-1531 | after a first ingest a key is new exactly if it is that of a projected item, and holds the values of the first such item |
| `StorageChains.RetryOnlyAddsLocations` | src/traust_contracts/v1/storage/store.py:983-987 | a retry with other references succeeds, says so, and adds exactly those locations |
| `StorageChains.RunGrows` | src/traust_contracts/v1/storage/store.py:983-987 | over any run no row is removed or changed |
| `StorageConcurrent.EveryInterleavingIsSerial` | src/traust_contracts/v1/storage/store.py:1006-1058 | every interleaving, with faults and concurrent registrations, leaves the tables and gives the answers of one serial run |
| `StorageConcurrent.StepKeeps` | src/traust_contracts/v1/storage/store.py:1006-1058 | every step of every caller keeps the invariant behind that |
| `StorageConcurrent.CommitIsIngest` | src/traust_contracts/v1/storage/store.py:1004-1059 | at commit, what the transaction sees is what the pure call computes from the committed tables |
| `StorageConcurrent.OneCallerBinds` | src/traust_contracts/v1/storage/store.py:1023-1059 | of all callers with one identity at most one gets `already_bound=False` |
| `StorageConcurrent.SomeCallerBinds` | src/traust_contracts/v1/storage/store.py:1023-1059 | and at least one does when the identity was new |
| `StorageConcurrent.OneSuccessorCommits` | tests/test_storage_store.py:329 | two callers never both commit a successor of one binding |
| `StorageConcurrent.NoDeadlock` | src/traust_contracts/v1/storage/store.py:1007-1013 | while any caller is unanswered some caller can take its next step |
| `StorageConcurrent.LockKeyMeans` | src/traust_contracts/v1/storage/store.py:1007-1013 | two payloads share a lock exactly if their digests agree on the first eight bytes |
| `StorageConcurrent.NoCollisionSuffices` | src/traust_contracts/v1/storage/store.py:605-632 | a hash without collisions on the encodings is all that serialisability needs |
| `StorageMigrate.Connection.Migrate` | src/traust_contracts/v1/storage/store.py:719-764 | the whole upgrade is committed, or revision and shape are untouched; another version and a newer revision are refused |
| `StorageMigrate.Connection.Init` | src/traust_contracts/v1/storage/store.py:697-717 | an empty database is bootstrapped and stamped; one with the package's own stamp is accepted as it is; any other stamp is refused |
| `StorageMigrate.InitChecksTheStamp` | src/traust_contracts/v1/storage/store.py:703-709 | a stamped database is accepted, unchanged, if and only if version and revision are the package's |
| `StorageMigrate.MigrateChecksTheStamp` | src/traust_contracts/v1/storage/store.py:742-749 | the answer to each stamp: another version, a newer revision, the own one, and an older one, where a missing delta is found before anything else |
| `StorageMigrate.UnstampedIsBootstrapped` | src/traust_contracts/v1/storage/store.py:710-713 | without a stamp both run every file and stamp the result |
| `MigrateContract.StatementRuns` | src/traust_contracts/v1/storage/store.py:755-756 | when each statement runs on each dialect, told of tables, columns, indexes and views |
| `MigrateContract.StatementChanges` | src/traust_contracts/v1/storage/store.py:755-756 | it changes its own column or index and nothing else; PostgreSQL drops the indexes of a column with it |
| `MigrateContract.FilesCreate` | src/traust_contracts/v1/storage/sql.py:60-74 | the tables, indexes and views of the package are those some file creates |
| `MigrateContract.FilesOnViews` | src/traust_contracts/v1/storage/store.py:757-758 | running the files leaves a view that is there as it was on SQLite, and on PostgreSQL gives it the body of the last file for it |
| `StorageMigrate.UpgradeReachesFresh` | src/traust_contracts/v1/storage/store.py:745-759 | from every revision: success if and only if late tables have what the deltas need of them, every plain drop finds its index and nothing is in the way; then the result is a fresh bootstrap beside the tables, indexes and views the package has no name for, as far as step 1 and the deltas left them |
| `StorageMigrate.NothingElseNothingLeft` | src/traust_contracts/v1/storage/store.py:745-759 | a database that holds only the package's own comes out as exactly a fresh bootstrap |
| `StorageMigrate.RunsAgain` | storage/v1/postgres/migrations/002_to_003.sql:3 | statements, guarded or not, run a second time if and only if each column they need before settling it is as at first, and then they change nothing |
| `StorageMigrate.PlainFitsOnlyUnchanged` | storage/v1/sqlite/migrations/002_to_003.sql:3-4 | without guards, late tables fit if and only if none was altered |
| `StorageMigrate.GuardedAlwaysFits` | storage/v1/postgres/migrations/003_to_004.sql:3-4 | with guards only and no rows updated, late tables always fit |
| `StorageWitness.LateTableWitness` | src/traust_contracts/v1/storage/store.py:752-756 | a table appears in revision 2 and gets a column in 3: in the plain form upgrading from 1 fails and from 2 succeeds, in the guarded form both succeed on PostgreSQL |
| `StorageWitness.BackfillWitness` | storage/v1/README.md:369 | guarded statements that replace a column with a backfill between: upgrading from 1 fails, from 2 it succeeds |
| `StorageMigrate.CascadeIsReading` | src/traust_contracts/v1/storage/store.py:788-789 | `CASCADE` takes exactly the views that read a dropped one through a chain of views |
| `StorageMigrate.SurvivorsAre` | src/traust_contracts/v1/storage/store.py:750-751 | dropping the package's views one by one leaves exactly the others and, on PostgreSQL, of these only such as read none of them |
| `StorageMigrate.ViewsLetGoExactly` | src/traust_contracts/v1/storage/store.py:750-756 | views stop no delta if and only if no survivor reads a dropped column, nor on SQLite a view of the package when a column is dropped; on PostgreSQL nothing else is ever in the way |
| `StorageWitness.ForeignViewWitness` | src/traust_contracts/v1/storage/store.py:750-756 | a user's view that reads a dropped column stops the upgrade; one that reads a package view stops it on SQLite and silently goes on PostgreSQL |
| `StorageMigrate.DeltaKeepsWhole` | src/traust_contracts/v1/storage/store.py:755-756 | no delta that runs leaves an index without its columns or a view without what it reads |
| `StorageWitness.DropWitness` | storage/v1/README.md:369 | a late table that loses an index later, and an index dropped in two revisions: upgrading from 1 succeeds if and only if the drops say `IF EXISTS` |
| `StorageMigrate.StepTwoAdds` | src/traust_contracts/v1/storage/store.py:752-754 | step 2 adds exactly the missing tables of the package and the indexes declared with them |
| `StorageMigrate.DeltaByTable` | src/traust_contracts/v1/storage/store.py:755-756 | statements run if and only if the columns of each table allow those on it, every plain drop finds its index and nothing is in the way; then every table has the columns of its own statements and only the indexes they take are gone |
| `StorageMigrate.AbsentColumnIsNoDrop` | storage/v1/README.md:369 | a guarded drop of a column that is not there changes nothing |
| `StorageMigrate.HistoryComposes` | src/traust_contracts/v1/storage/sql.py:77-91 | the deltas from one revision to another take every table and kept index to its form there |
| `StorageMigrate.MigratedIsSettled` | src/traust_contracts/v1/storage/store.py:697-764 | after `migrate`, `init` succeeds and migrating again changes nothing |
| `StorageMigrate.RerunReaches` | src/traust_contracts/v1/storage/store.py:757-758 | running every file again adds exactly what is missing |
| `StorageMigrate.FreshReaches` | src/traust_contracts/v1/storage/store.py:733-739 | a fresh bootstrap is the declared shape |
| `StorageMigrate.DeltasFromReady` | src/traust_contracts/v1/storage/store.py:755-756 | after step 2 the deltas run exactly under those three conditions, and reach the final columns |
| `StorageMigrate.RunsAgainOnlyIfUnchanged` | src/traust_contracts/v1/storage/sql.py:77-91 | without guards, a delta that runs twice in a row on a table changed nothing in it |
| `SqlBootstrap.BootstrapFiles` | src/traust_contracts/v1/sql.py:13-35 | every table once and every view once, tables before views, listed names first in their order and the rest sorted; fails exactly on missing, repeated or unexpected tables |
| `SqlBootstrap.Arrange` | src/traust_contracts/v1/sql.py:30-35 | the pops give each name once, listed names by place, then the others by code point |
| `SqlBootstrap.ArrangementIsUnique` | src/traust_contracts/v1/sql.py:30-35 | only one list is so ordered |
| `SqlBootstrap.BootstrapIsDetermined` | src/traust_contracts/v1/storage/sql.py:60-74 | the bootstrap order is a function of what is on disk |
| `SqlBootstrap.BootstrapLists` | src/traust_contracts/v1/sql.py:13-35 | the list has exactly the namespace on PostgreSQL, each table on disk and each view on disk once, tables before views, and sooner is: listed earlier, or listed at all, or smaller |
| `SqlBootstrap.SqliteStatements` | src/traust_contracts/v1/sql.py:38-52 | each yielded text is complete with its last line and not before; an error exactly when a line of the rest is neither blank nor a comment |
| `SqlBootstrap.CutIsUnique` | src/traust_contracts/v1/sql.py:44-49 | no other cut of the lines has that property |
| `SqlBootstrap.StatementsAreTheFile` | src/traust_contracts/v1/sql.py:44-52 | the statements and the rest, in order, are the file |
| `SqlBootstrap.KeepEndsMeans` | src/traust_contracts/v1/sql.py:44 | the lines are the text cut after every break, with CRLF as one |
| `SqlBootstrap.IdleMeans` | src/traust_contracts/v1/sql.py:50 | a line counts for nothing exactly if it is blank or begins, after blanks, with two hyphens |
| `SqlBootstrap.SpacesAre` | src/traust_contracts/v1/sql.py:50 | the code points that `str.strip` takes for blanks |
| `EnumPointer.UnescapeInverse` | ci/enum_registry.py:76-81 | unescaping undoes escaping on every string |
| `EnumPointer.Resolve` | ci/enum_registry.py:124-139 | the loop resolves a reference as the recursive definition does |
| `EnumPointer.PrintedRefResolves` | ci/enum_registry.py:71-81 | a printed reference resolves to its path without the empty keys |
| `EnumPointer.FollowIsAt` | ci/enum_registry.py:124-139 | following printed segments is following the path, keys and list indexes alike |
| `EnumPointer.VisitHasPath` | ci/enum_registry.py:104-111 | every visit is of a node at a path, under that path's pointer |
| `EnumPointer.PathIsVisited` | ci/enum_registry.py:104-111 | every object of a document is visited |
| `EnumPointer.IterSites` | ci/enum_registry.py:114-121 | the sites of all files, file by file, from the walks |
| `EnumPointer.StringValuesAre` | ci/enum_registry.py:94-101 | `_string_values` gives a set if and only if the `enum` is a list of strings and nulls with two strings or more, and these are the strings |
| `EnumSites.RefsAreUnique` | ci/enum_registry.py:71-121 | no two sites of a run have the same reference |
| `EnumPointer.SitesInAllMembers` | ci/enum_registry.py:114-121 | a site is listed exactly when it is one of its own file |
| `EnumReach.RefNamesItself` | ci/enum_registry.py:71-139 | the reference printed for a place leads back to that place if and only if no key on the path is empty |
| `EnumPointer.SiteRefResolvesBack` | ci/enum_registry.py:104-139 | the reference printed for a site whose path has no empty key resolves to that node and its value set |
| `EnumPointer.EverySiteIsFound` | ci/enum_registry.py:104-121 | a site is listed for a path if it crosses no `if` and ends at an object whose enum has two strings or more and otherwise only nulls; its values are those strings |
| `EnumPointer.EmptyKeyWitness` | ci/enum_registry.py:132-134 | with an empty key the printed reference names another node |
| `MemoSearch.SearchIsSound` | ci/enum_registry.py:142-168 | no value that cannot be reached is ever reported, in any order, cycles or not |
| `MemoSearch.SearchIsExactWithoutCycles` | ci/enum_registry.py:142-168 | exactly the reachable values for every schema with no cycle ahead |
| `MemoSearch.FirstRootIsExact` | ci/enum_registry.py:142-168 | exactly the reachable values for the first schema, even with cycles |
| `MemoSearch.SearchFindsExactlyTheSeen` | ci/enum_registry.py:148-165 | what any later search returns: the values on walks that stop at the first memoised node |
| `MemoSearch.EntryIsTheSeen` | ci/enum_registry.py:142-168 | what every entry of the table holds: the values seen past the memo the earlier schemas left |
| `MemoSearch.CompleteUnlessCycleShared` | ci/enum_registry.py:142-168 | exactly the reachable values for every schema that shares with earlier ones only places with no cycle ahead, itself recursive or not |
| `MemoSearch.SharesNoCycleCases` | ci/enum_registry.py:142-168 | that covers the first schema, those with no cycle ahead and those that share nothing |
| `MemoNames.EntryIsFoundNodes` | ci/enum_registry.py:142-168 | every entry is made of the values of the nodes that the same search finds when each node holds its own name |
| `MemoNames.CompleteExactly` | ci/enum_registry.py:142-168 | an entry is complete if and only if each value of a reachable node is held by a node found |
| `MemoNames.CompleteForEveryAssignment` | ci/enum_registry.py:142-168 | it is complete whatever the values if and only if the search finds every reachable node |
| `MemoNames.SharingNoCycleFindsAll` | ci/enum_registry.py:142-168 | that is so where only places with no cycle ahead are shared |
| `MemoNames.CycleSharedWitness` | ci/enum_registry.py:142-168 | three nodes where a cycle is shared and the search finds all nodes nevertheless |
| `MemoSearch.LaterRootMisses` | ci/enum_registry.py:148-165 | of any two nodes that refer to each other the second misses what only the first holds |
| `EnumReach.RecursiveSchemasWitness` | ci/enum_registry.py:148-165 | two mutually recursive schemas of which the second misses a value set |
| `EnumReach.Collector.Collect` | ci/enum_registry.py:146-166 | the nested function, memo and stack included, is the memoised search on the graph of the schemas |
| `EnumReach.Reachable` | ci/enum_registry.py:142-168 | one search per schema, all with one memo |
| `EnumReach.LocateIsResolve` | ci/enum_registry.py:124-139 | the place a reference leads to is where `resolve` ends |
| `ReachMeaning.ResolvedMeans` | ci/enum_registry.py:124-139 | `resolve` ends at a node if and only if the file named before the `#`, or the base where none is, has a path to it whose steps are the non-empty segments, unescaped |
| `ReachMeaning.DistinctKeysMean` | ci/enum_registry.py:84-91 | what a parsed document is: no object on any path has a key twice |
| `ReachMeaning.NonEmptyMeans` | ci/enum_registry.py:132 | empty segments are passed over, wherever they stand, and no others |
| `EnumReach.ReferencesStayInside` | ci/enum_registry.py:150-160 | references lead to places of the schemas: the graph is finite, so the search ends |
| `EnumReach.TableIsSound` | ci/enum_registry.py:142-168 | the table lists reachable value sets only, and all of them for every schema whose search finds every place, as it does where only places with no cycle ahead are shared with earlier ones |
| `ReachMeaning.HoldsMeans` | ci/enum_registry.py:142-168 | a value set is reachable from a file if and only if references, each found below the last on a path without an `if`, lead to a place below which, on such a path, an enum has exactly these strings |
| `EnumRegistry.FormatProblems` | ci/enum_registry.py:218-287 | the appended list is the specified one |
| `EnumRegistry.FormatSilent` | ci/enum_registry.py:218-287 | the format checks are silent exactly when every entry obeys every rule |
| `EnumRules.FormatMeans` | ci/enum_registry.py:218-287 | each format problem is listed if and only if some entry breaks its rule, told entry by entry and replacement by replacement |
| `EnumRegistry.Problems` | ci/enum_registry.py:293-323 | for any table, the appended list is the specified one, seen names and sets included |
| `EnumRules.ProblemsMean` | ci/enum_registry.py:293-323 | each problem is listed if and only if its rule is broken: a name or value set used before, a source that resolves to no node or to one with other values, no site, and uses that are not each derived file once |
| `EnumCheck.Problems` | ci/enum_registry.py:290-323 | the same with the table `reachable` computes |
| `EnumCheck.ProblemsMean` | ci/enum_registry.py:290-323 | the same with the computed table |
| `EnumCheck.UsesMean` | ci/enum_registry.py:142-168 | what a use is, told by paths and references alone |
| `EnumRegistry.SchemaSilentMeansUnique` | ci/enum_registry.py:294-304 | silence means unique names and unique value sets |
| `EnumRegistry.ReplacementsNeverChain` | ci/enum_registry.py:218-304 | in a clean registry names are unique, a replacement is a listed value of the enum of its name, and nothing replaces it |
| `EnumRegistry.NormalisingIsIdempotent` | ci/enum_registry.py:218-304 | normalising a word twice is normalising it once |
| `EnumRegistry.DeprecationsAreConsistent` | ci/enum_registry.py:249-287 | a deprecated value is listed exactly when not retired, with at most one target per enum |
| `EnumRegistry.UsesAreDerived` | ci/enum_registry.py:178-193 | declared uses of an enforced enum are exactly the schemas the table lists its value set for, and no other enum claims it |
| `EnumCheck.DeclaredUsesAreReached` | ci/enum_registry.py:178-193 | every declared use reaches the value set; among files whose search finds every place the declared uses are exactly those that do |
| `EnumCheck.SharingNoCycleIsComplete` | ci/enum_registry.py:142-168 | which is so for files that share with earlier ones only places with no cycle ahead |
| `EnumRegistry.FormatChecksAloneAllowChains` | ci/enum_registry.py:221 | a registry with a shared name that passes the format checks and chains |
| `PinGraph.CommitOnTopAdvances` | ci/bump_downstream.py:142-158 | a commit made on main, merges included, advances it |
| `PinGraph.ReachablePinsStayReachable` | ci/bump_downstream.py:629-649 | under any history of advances a reachable pin stays so, and its count is the commits main has and it lacks |
| `PinGraph.StaleIsDangling` | ci/bump_downstream.py:512-530 | `reconcile_hop` collects exactly the pins `cmd_status` calls dangling |
| `PinGraph.BehindZeroIsTip` | ci/bump_downstream.py:629-649 | behind by zero means at the tip, for instance under an abbreviated sha |
| `PinGraph.StatusMeans` | ci/bump_downstream.py:640-655 | current, dangling or behind by so many commits, told by chains of parents |
| `PinChain.RecordedPrBelongs` | ci/bump_downstream.py:466-490 | over every history of both writers the recorded PR belongs to the recorded branch if and only if the latest `_finalize` since the first PR was for its branch |
| `PinChain.SecondBranchGetsNoPr` | ci/bump_downstream.py:466-490 | the shortest history where it does not, by either writer first |
| `PinChain.World.VerifiedHead` | ci/bump_downstream.py:173-191 | a head is used only when it is checked against what was fetched, and called stale only when main is no ancestor of it |
| `PinChain.World.ResolveShas` | ci/bump_downstream.py:304-317 | the resolved shas are the heads of the chain up to the trigger |
| `PinChain.World.WritePins` | ci/bump_downstream.py:333-342 | every pin holds the requested sha; exactly the changed entries are listed |
| `PinChain.World.LockTestCommit` | ci/bump_downstream.py:426-447 | checkout, events and answer are those of one attempt with some outcome of its commands |
| `PinChain.AttemptFacts` | ci/bump_downstream.py:426-447 | in every attempt the commit follows directly on the gate, on the tree the gate saw, and untracked files are those from before and those commands left |
| `PinChain.World.Finalize` | ci/bump_downstream.py:451-493 | push, PR and record as the code updates it, or nothing recorded; a failed command is always reported |
| `PinChain.World.RunHop` | ci/bump_downstream.py:377-449 | true only with the requested pins committed and tracked files clean, each of the four cases with its own effect on checkout, branches, origin and record; every commit right after its gate; each refusal has its reason, and no failed command goes unreported |
| `PinChain.World.NewShaNewBranch` | ci/bump_downstream.py:373-424 | a clean hop on the branch of an earlier bump goes to a new branch once the short sha of its trigger changes, and the earlier branch keeps its commit |
| `PinChain.World.SameShaResumes` | ci/bump_downstream.py:373-424 | with the same short sha it stays on its branch, and commits on top exactly if pins differ or the tree is dirty |
| `PinChain.RemoteHasMeans` | ci/bump_downstream.py:130-141 | a commit is on origin exactly if parents lead to it from a fetched tip |
| `PinChain.World.CleanExactly` | ci/bump_downstream.py:377-449 | a successful run leaves a clean tree if and only if it had nothing to commit, or no untracked file was there and none was left |
| `PinChain.World.TrueButDirty` | ci/bump_downstream.py:426-447 | every fresh hop with pins to write may commit, return true and leave the tree dirty |
| `PinChain.World.DirtySuccessFailsNext` | ci/bump_downstream.py:377-449 | after a successful hop that left the tree dirty the next run resumes and, with the lock as committed, never succeeds |
| `PinChain.World.FailedHopResumes` | ci/bump_downstream.py:377-424 | after a hop that tried the lock and did not commit, the next run is in the resume case |
| `PinChain.World.Chain` | ci/bump_downstream.py:663-670 | when it returns 0, every committed pin of every hop is the final HEAD of that dependency, and no command failed |
| `PinChain.Settled` | ci/bump_downstream.py:663-670 | a hop that ran on the heads it resolved agrees, and so do all earlier hops |
| `PinChain.OneCommitPerDependency` | ci/bump_downstream.py:663-670 | then all repositories agree on one commit per dependency |
| `PinChain.World.FindStale` | ci/bump_downstream.py:512-530 | stale pins are exactly those not reachable from the fetched tip |
| `PinChain.World.PinStatus` | ci/bump_downstream.py:512-530 | a pin the driver wrote is dangling exactly if no parents lead to it from the tip, a missing one always |
| `PinChain.World.ReconcileHop` | ci/bump_downstream.py:499-590 | it acts exactly when a pin is dangling, re-pins behind the same gate on the recorded branch or a new one, pushes, writes the record accordingly or not at all, and keeps matching records matching |
| `CompatMeaning.UnreachableDefs` | tests/test_compat.py:233-306 | exactly the `$defs` to which no reference chain from the root avoids every property that the old schema, by its paths, did not admit |
| `CompatMeaning.ImpossibleIsForbidden` | tests/test_compat.py:288-292 | a property counts as impossible if and only if the old schema has an object at the parent's place that is closed, without pattern properties, and does not declare it |
| `CompatMeaning.ReachableMeans` | tests/test_compat.py:269-300 | a def is reached if and only if moves through keywords, items and properties that the old schema admits lead to references to it |
| `CompatMeaning.OpenObjectWitness` | tests/test_compat.py:288-292 | an old artifact may reach a def behind a new property of an object that was open, whatever the names |
| `CompatMeaning.SlashWitness` | tests/test_compat.py:286-292 | beside a key that prints like the way to it, an open object counts as closed, and its new property as impossible |
| `CompatGate.ArrivesIffReachable` | tests/test_compat.py:269-300 | exploring only chains without a repeated `$def` loses no uncrossed arrival |
| `CompatGate.LoopsCutOut` | tests/test_compat.py:269-300 | cutting loops out of an open chain leaves an open chain to the same end |
| `CompatGate.SimpleChainArrives` | tests/test_compat.py:269-300 | every open chain without repetition is followed |
| `CompatGate.CrossedUses` | tests/test_compat.py:286-295 | the crossed flag is never lost further down |
| `CompatGate.Walker.Walk` | tests/test_compat.py:269-300 | the walk that fills `arrivals` in place adds exactly the specified arrivals |
| `AnyOfExemption.AnyOfSatisfied` | tests/test_compat.py:197-231 | the exemption is given exactly for a branch of an `anyOf` whose branches are bare requirements and one asks for nothing the old parent did not require, that is, no artifact with the old required fields fails them all |
| `AnyOfExemption.DecisionIsExact` | tests/test_compat.py:226-231 | accepting the least old artifact is accepting all of them |
| `AnyOfExemption.Descend` | tests/test_compat.py:211-220 | the pointer loop follows keys and indexes in digits of any script, without unescaping, and fails exactly on an index past the end and on what `isdigit` accepts and `int` does not |
| `AnyOfExemption.AsciiDescends` | tests/test_compat.py:211-220 | on ASCII paths the answer does not depend on the Unicode version |
| `AnyOfExemption.DescendedIsLed` | tests/test_compat.py:211-220 | it ends at a node exactly if each segment names the key, or the index in the list, of the step there |
| `AnyOfExemption.DescendRaises` | tests/test_compat.py:211-220 | where it raises, the segments before lead to a list and the next one is a number past its end, or digits that are no number |
| `AnyOfExemption.RaisesThere` | tests/test_compat.py:211-220 | and wherever that is so it raises |
| `AnyOfExemption.PartsOfPointer` | tests/test_compat.py:206-209 | a printed pointer is taken apart into its segments |
| `ScopePartition.ScopeSlug` | src/traust_contracts/config.py:309-322 | the loop ends with the alphanumeric runs joined by single hyphens |
| `ScopePartition.SlugsCollideOnlyOnWords` | src/traust_contracts/config.py:309-318 | two names share a slug exactly when they have the same words |
| `ScopePartition.SlugIdempotent` | src/traust_contracts/config.py:309-322 | a slug that is lower case is its own slug |
| `ScopePartition.AsciiSlugIdempotent` | src/traust_contracts/config.py:309-322 | on ASCII every slug is |
| `ScopePartition.TreesShareScope` | src/traust_contracts/config.py:371-392 | two trees share a scope exactly as the mode says: always, by the words of their unit or name, or by declaration |
| `ScopePartition.ScopeForMeans` | src/traust_contracts/config.py:371-392 | the write scope of a registered tree in each mode, and each refusal |
| `ScopePartition.AsciiLowerMeans` | src/traust_contracts/config.py:309-322 | lower case on ASCII, letter by letter |
| `ScopePartition.ReplaceKeepsWords` | src/traust_contracts/config.py:319-321 | one replacement pass keeps the words and shortens a text with a double hyphen |
| `ScopePartition.ReadableAreWritten` | src/traust_contracts/config.py:394-426 | readable scopes are strictly sorted and exactly the write scopes of the listed trees that are not harness-qa |
| `ScopePartition.ReadingFailsExactly` | src/traust_contracts/config.py:394-426 | reading fails only when no tree counts, or in explicit mode when one that counts has no scope id |
| `ScopePartition.EmptyTreeWitness` | src/traust_contracts/config.py:410-412 | an engagement with an empty tree is written where no reader looks |
| `DiffReader.AddedLines` | ci/check_estate_data.py:128-175 | the line loop is the fold over the lines of the diff |
| `DiffReader.ReadingPrintedDiff` | ci/check_estate_data.py:128-175 | reading the printed diff of any edit scripts gives exactly their additions, whatever the texts begin with, as long as what they break off does no harm |
| `DiffReader.ReadingIsExact` | ci/check_estate_data.py:158 | where removed texts and headings do no harm, the reading is exact if and only if no text added under a readable name breaks a line inside |
| `DiffReader.BreakMeansInexact` | ci/check_estate_data.py:158 | in any diff, a text added under a readable name that breaks a line inside makes the reading inexact |
| `DiffStray.StrayTextsAreSafe` | ci/check_estate_data.py:158-174 | every diff with these removed texts and headings is read exactly if and only if none breaks off a `+` line, a hunk header or a file header |
| `DiffStray.PhantomWitness` | ci/check_estate_data.py:158-174 | a removed text, and a heading, that make the reader report an addition where there is none |
| `DiffStray.HeaderInNumerals` | ci/check_estate_data.py:108 | the pattern reads a hunk header in the digits of any script |
| `DiffStray.ForeignHeaderWitness` | ci/check_estate_data.py:108 | a removed text that breaks off a hunk header in Arabic-Indic digits is harmful |
| `DiffStray.HarmMayNotShow` | ci/check_estate_data.py:170-171 | a diff with a harmful removed text that is read exactly all the same |
| `DiffFused.FusedIsExact` | ci/check_estate_data.py:158-174 | hunks printed with the lines kept between their changes are read exactly if and only if in none of them a kept line comes before an addition |
| `DiffFused.HunkIsExact` | ci/check_estate_data.py:169-174 | the same of one hunk, wherever it stands |
| `DiffFused.OneChangeIsPlain` | ci/check_estate_data.py:135-150 | a hunk of one change is printed as without fusing |
| `DiffReader.ReportPerFile` | ci/check_estate_data.py:128-175 | per file the reported lines, with the kept ones, rebuild the new file at their numbers |
| `DiffReader.ReportNames` | ci/check_estate_data.py:161-168 | the report names exactly the files that add something under a name git need not quote |
| `DiffReader.AdditionsRebuildNewFile` | ci/check_estate_data.py:128-135 | additions at their numbers and kept lines elsewhere are the new file |
| `DiffReader.AdditionsAreOrdered` | ci/check_estate_data.py:128-135 | the numbers increase strictly and lie in the new file |
| `DiffReader.HunkStartOfHunk` | ci/check_estate_data.py:108 | the pattern reads the first new line of every hunk header git prints, whatever the heading |
| `DiffReader.RunAdded` | ci/check_estate_data.py:172-174 | inside a hunk, added texts are collected in order even when they look like headers |
| `DiffReader.ChompMeans` | ci/check_estate_data.py:158 | of a CRLF ending the carriage return is part of the break, and only that |
| `DiffReader.SplitInvertsText` | ci/check_estate_data.py:158 | splitting undoes printing for texts that break no line, CRLF endings included |
| `PyText.BreaksAre` | ci/check_estate_data.py:158 | the ten code points `str.splitlines` breaks at |
| `DiffMerge.FilterMerge` | ci/check_estate_data.py:176-180 | each file keeps what its other side lacks |
| `DiffMerge.FilterIsExact` | ci/check_estate_data.py:176-180 | a line is dropped exactly when its text is on the other side, and the order stays |
| `DiffMerge.MergeChecksOnlyNewLines` | ci/check_estate_data.py:111-125 | a line is checked exactly when it is added and not a non-empty line of the other side |
| `DiffMerge.StagedLines` | ci/check_estate_data.py:128-180 | diff and merge together are the specified function |
| `DiffMerge.StagedIsExact` | ci/check_estate_data.py:128-180 | of a file of the diff without a space in its name, exactly the additions its other side lacks are checked; of one with a space, all |
| `DiffMerge.SpacedNameWitness` | ci/check_estate_data.py:111-125 | an added line of `a b` that the other side has is checked all the same, of `ab` it is not |
| `RiskRating.FactorProblems` | src/traust_contracts/v1/risk_rating.py:78-92 | silent exactly on the right names with integers from 0 to 9; otherwise each bad factor is named |
| `RiskRating.Rate` | src/traust_contracts/v1/risk_rating.py:99-148 | builds exactly when factors and basis are valid, and then the exact means, levels and severity |
| `RiskRating.RatedIfComplete` | src/traust_contracts/v1/risk_rating.py:111-127 | a rating is built if and only if each named factor is an integer from 0 to 9, no other is given, and the basis has its factors |
| `RiskRating.RatingFollows` | src/traust_contracts/v1/risk_rating.py:45-148 | score, level and severity as functions of the two sums of named factors: thresholds at 3 and 6 of the mean, and one step of severity per level step |
| `RiskRating.RoundsToNearest` | src/traust_contracts/v1/risk_rating.py:95-96 | rounding gives a nearest number of thousandths, the even one of two |
| `RiskRating.RoundingIsExact` | src/traust_contracts/v1/risk_rating.py:95-96 | every mean is a whole number of eighths, so three decimals hold it |
| `RiskRating.Problems` | src/traust_contracts/v1/risk_rating.py:151-185 | silent exactly on ratings whose scores, levels and severity follow from their factors; otherwise names each value that does not |
| `RiskRating.AcceptedIfFollows` | src/traust_contracts/v1/risk_rating.py:151-185 | a stored rating is accepted if and only if its scores are within a thousandth of the means of its factors and its levels and severity follow from their sums |
| `RiskRating.AcceptedOnlyComplete` | src/traust_contracts/v1/risk_rating.py:151-185 | and never without complete factors |
| `RiskRating.BuiltIsConsistent` | src/traust_contracts/v1/risk_rating.py:99-185 | what the builder builds the checker accepts |
| `RiskRating.BuildThenCheck` | src/traust_contracts/v1/risk_rating.py:99-185 | building and checking is silent exactly on acceptable input |
| `RiskRating.ScoreDeterminesSum` | src/traust_contracts/v1/risk_rating.py:169-174 | two accepted ratings with the same stored number have the same factor sum |
| `RiskRating.NaNIsAlwaysNear` | src/traust_contracts/v1/risk_rating.py:173 | accepted scores are those within the tolerance, and NaN |
| `RiskRating.RankIsLevelSum` | src/traust_contracts/v1/risk_rating.py:45-75 | the severity rank is the sum of the two level indexes |
| `RiskRating.RankIsPlace` | src/traust_contracts/v1/risk_rating.py:72-75 | -1 without a severity, and otherwise 0 to 4 from note to critical |
| `RiskRating.SeverityIsMonotone` | src/traust_contracts/v1/risk_rating.py:60-75 | raising factors never lowers a score or the severity |

## Left out

- SQL text, view definitions and real SQLite or psycopg behaviour: the tables are their keys, indexes and references, and any statement may fault.
- SHA-256, uuid values and timestamps: the hash is a function, ids are fresh, and the stamps are read by nothing modelled.
- The column-by-column bodies of the projections and the `query_*` wrappers: a projection is a set of keyed rows or an error.
- JSON Schema validation: a parameter that accepts or refuses a document.
- Registry upserts (`register_product` and the like): registered owners are a set that only grows.
- StorageConcurrent.EveryInterleavingIsSerial: assumes that requests with equal identities have equal payload digests, which `NoCollisionSuffices` derives from a hash without collisions; locations and projected rows go in as one step each, since no other transaction can tell the difference.
- StorageMigrate.UpgradeReachesFresh: deltas add and drop columns and drop indexes, plainly or guarded, and update rows; dropping a table, changing a constraint, triggers, and one name used for a table and a view at once are not modelled. How each dialect treats a dropped column or view is that of SQLite from 3.35 on and PostgreSQL.
- StorageMigrate: column types, defaults and constraints are not part of a shape.
- SqlBootstrap.SqliteStatements: `sqlite3.complete_statement` is a parameter, and reading the file is left out; the PostgreSQL branch yields the whole text and is not repeated here.
- EnumPointer: `isdigit` is that of ASCII, and numbers in documents are integers.
- EnumRegistry.Problems: a `source_schema` that resolves to something that is no object raises in the program; the model takes it for a node without an enum.
- EnumRegistry.FormatSilent: an entry is a record of parsed fields, so a field of the wrong type is one value, and the unknown keys of an entry are a flag.
- EnumReach.Reachable: Python's recursion limit.
- `PinWriter`'s regular expressions, `uv`, `gh` and the network: a pin is a map entry, and commands may fail.
- PinChain.World.LockTestCommit: a lock that fails changes nothing, one that succeeds changes no pin, the tests change no tracked file, and neither deletes an untracked file that was there before.
- AnyOfExemption.AnyOfSatisfied: a `required` that is neither absent or null in the old parent nor a list of strings is an error in the model, where Python may go on with other values.
- CompatMeaning.UnreachableDefs: a `$defs` that is neither absent nor an object; what the result means is told for schemas without a slash in a key, since with one two places may print alike.
- The rest of `_compare_schemas`: it does not claim containment in general.
- ScopePartition.ReadableAreWritten: `isalnum` and `lower` are parameters, with ASCII as one instance; loading and validating the configuration file.
- DiffReader.ReadingIsExact: in one diff with a harmful removed text or heading, exactness hangs on what follows, so only the condition over all diffs is exact; names with a line separator that git does not quote are excluded.
- DiffReader.ReadingPrintedDiff: one change per hunk, as git prints with `-U0` unless `diff.interHunkContext` is set; hunks fused under that setting are the subject of `DiffFused`, for texts that add no line breaks of their own under a readable name. `textconv` filters are left out; files git shows as renamed are not in this diff at all (`--diff-filter=ACM`); undecodable bytes are replaced before the reader sees them; a hunk header with a number longer than `int` reads (4300 digits) is not modelled.
- The patterns that find figures in a checked line, and the whole-file scan.
- RiskRating.Rate: scores are exact reals, not floats; the rationale is copied and checked by nothing.
- `release.py`, `ci/gates.py`, `timestamps.py`, `ddl_model.py`, `validate.py`: small or bound to patterns.
