/**
 The pin chain driver: one resumable hop, the chain of hops in dependency order, and the record of
 pull requests. Anything outside the driver may fail, and a fetch may bring news.
 */
module PinChain {
  import opened Wrappers
  import opened PinGraph

  type Name = string

  /** `Bumper.branch_name`, or any other branch. Short shas may coincide for different commits. */
  datatype Branch = Bump(hop: Name, trigger: Name, short: string) | Named(text: string)

  /** A checkout: what is committed, what is in the working tree, and what origin has. */
  datatype Repo = Repo(
    head: Commit,
    branch: Branch,
    branches: map<Branch, Commit>,
    work: Tree,
    untracked: bool,
    originMain: Commit,
    originTips: set<Commit>)

  datatype Hop = Hop(name: Name, pins: seq<Name>)

  /** One repository's entry in `.chain-state.json`. */
  datatype Record = Record(branch: Branch, dep: Name, headSha: Commit, pr: Option<nat>)

  datatype Error =
    | NotClean | NotOnOrigin | NoPinEntry | UnknownSha | StaleCheckout | CommandFailed

  /** What a run did, in order; `left`: the command left an untracked file that was not there before. */
  datatype Event =
    | LockFailed
    | Locked(left: bool)
    | GatePassed(tree: Tree, left: bool)
    | GateFailed(left: bool)
    | Committed(tree: Tree)
    | Pushed(branch: Branch)

  predicate Leaves(e: Event) {
    e == Locked(true) || (e.GatePassed? && e.left) || e == GateFailed(true)
  }

  predicate LeftFile(events: seq<Event>) {
    exists i | 0 <= i < |events| :: Leaves(events[i])
  }

  lemma LeftFileJoins(a: seq<Event>, b: seq<Event>)
    ensures LeftFile(a + b) <==> LeftFile(a) || LeftFile(b)
  {
    assert forall i | 0 <= i < |a| :: (a + b)[i] == a[i];
    assert forall i | 0 <= i < |b| :: (a + b)[|a| + i] == b[i];
  }

  predicate Dirty(r: Repo) {
    r.work != r.head.tree || r.untracked
  }

  predicate RemoteHas(r: Repo, c: Commit) {
    exists tip | tip in r.originTips :: IsAncestor(c, tip)
  }

  /** The commit is a fetched tip or, over parents, behind one. */
  lemma RemoteHasMeans(r: Repo, c: Commit)
    ensures RemoteHas(r, c) <==> exists tip :: tip in r.originTips && ParentChain(c, tip)
  {
    forall tip | tip in r.originTips
      ensures IsAncestor(c, tip) <==> ParentChain(c, tip)
    {
      AncestorByParents(c, tip);
    }
  }

  /** The committed pins of `r` are the requested commits. */
  predicate PinnedTo(tree: Tree, deps: seq<Name>, shas: map<Name, Commit>) {
    forall i | 0 <= i < |deps| ::
      deps[i] in shas && deps[i] in tree.pins && tree.pins[deps[i]] == Pinned(shas[deps[i]])
  }

  /** The tree has an entry for every dependency. */
  predicate AllPinned(tree: Tree, deps: seq<Name>) {
    forall i | 0 <= i < |deps| :: deps[i] in tree.pins
  }

  /** The four states of `Bumper.run`, once its checks have passed. */
  datatype Case = AlreadyDone | FreshHop | Resume | AlreadyCommitted

  function CaseOf(resuming: bool, wasDirty: bool, changed: bool): Case {
    if !resuming && !changed then AlreadyDone
    else if resuming && !wasDirty && !changed then AlreadyCommitted
    else if resuming then Resume
    else FreshHop
  }

  predicate PassedOn(e: Event, tree: Tree) {
    e.GatePassed? && e.tree == tree
  }

  /** Every commit follows directly on a gate that passed on exactly the committed tree. */
  ghost predicate GateOrdered(trace: seq<Event>) {
    forall i | 0 <= i < |trace| && trace[i].Committed? :: i > 0 && PassedOn(trace[i - 1], trace[i].tree)
  }

  /** The run begins with lock, gate and commit of this tree. */
  predicate BeginsWithCommit(events: seq<Event>, tree: Tree) {
    |events| >= 3 && events[0].Locked? && PassedOn(events[1], tree) && events[2] == Committed(tree)
  }

  predicate PushedLast(events: seq<Event>, branch: Branch) {
    events != [] && events[|events| - 1] == Pushed(branch)
  }

  predicate FailedGate(events: seq<Event>) {
    |events| == 2 && events[0].Locked? && events[1].GateFailed?
  }

  // ----- Lock, gate, commit -----

  /** How the commands of one attempt turn out; the gate changes no tracked file. */
  datatype Outcome = Outcome(
    lockOk: bool, lockfile: nat, lockLeft: bool, gateOk: bool, gateLeft: bool, commitOk: bool, id: nat)

  /** `uv lock`, `make test` and `git commit -am`: the answer, the checkout, and the events. */
  function Attempt(before: Repo, o: Outcome): (Result<bool, Error>, Repo, seq<Event>) {
    if !o.lockOk then (Err(CommandFailed), before, [LockFailed])
    else
      var after := before.(work := before.work.(rest := o.lockfile),
                           untracked := before.untracked || o.lockLeft || o.gateLeft);
      if !o.gateOk then (Ok(false), after, [Locked(o.lockLeft), GateFailed(o.gateLeft)])
      else
        var passed := [Locked(o.lockLeft), GatePassed(after.work, o.gateLeft)];
        if !o.commitOk || after.work == before.head.tree then (Err(CommandFailed), after, passed)
        else
          var head := Commit(o.id, [before.head], after.work);
          (Ok(true), after.(head := head, branches := before.branches[before.branch := head]),
           passed + [Committed(after.work)])
  }

  ghost predicate Attempted(before: Repo, after: Repo, events: seq<Event>, r: Result<bool, Error>) {
    exists o :: Attempt(before, o) == (r, after, events)
  }

  lemma JoinedOrder(trace: seq<Event>, more: seq<Event>)
    requires GateOrdered(trace) && GateOrdered(more)
    ensures GateOrdered(trace + more)
  {
    var all := trace + more;
    forall i | 0 <= i < |all| && all[i].Committed?
      ensures i > 0 && PassedOn(all[i - 1], all[i].tree)
    {
      if i >= |trace| {
        assert all[i] == more[i - |trace|];
        assert all[i - 1] == more[i - |trace| - 1];
      }
    }
  }

  lemma PushingIsNoGate(events: seq<Event>, e: Event)
    requires GateOrdered(events) && e.Pushed?
    ensures GateOrdered(events + [e]) && (LeftFile(events + [e]) <==> LeftFile(events))
    ensures forall tree :: BeginsWithCommit(events, tree) ==> BeginsWithCommit(events + [e], tree)
  {
    LeftFileJoins(events, [e]);
  }

  /** What every attempt keeps, and when it commits. */
  lemma AttemptFacts(before: Repo, after: Repo, events: seq<Event>, r: Result<bool, Error>)
    requires Attempted(before, after, events, r)
    ensures GateOrdered(events) && events != []
    ensures after == before.(head := after.head, work := after.work, untracked := after.untracked,
                             branches := after.branches)
    ensures after.work.pins == before.work.pins
    ensures after.branches == if r == Ok(true) then before.branches[before.branch := after.head] else before.branches
    ensures after.untracked <==> before.untracked || LeftFile(events)
    ensures r.Ok? && r.value ==>
              |events| == 3 && BeginsWithCommit(events, after.head.tree) && after.head.parents == [before.head]
              && after.head != before.head && after.work == after.head.tree
    ensures r.Ok? && !r.value ==> FailedGate(events)
    ensures !(r.Ok? && r.value) ==> after.head == before.head
  {
    var o :| Attempt(before, o) == (r, after, events);
    if r.Ok? && r.value {
      ChildDiffers(after.head, before.head);
    }
    if o.lockOk {
      assert events[0] == Locked(o.lockLeft);
      assert o.gateOk ==> events[1] == GatePassed(before.work.(rest := o.lockfile), o.gateLeft);
      assert !o.gateOk ==> events[1] == GateFailed(o.gateLeft);
    }
  }

  // ----- The record of pull requests -----

  /**
   The two writers of a record: a `_finalize` that pushes, and a `reconcile_hop` that publishes, where
   `branch` is the one to use if no PR is recorded.
   */
  datatype Write =
    | Finalized(branch: Branch, dep: Name, sha: Commit, openPr: bool)
    | Reconciled(branch: Branch, dep: Name, sha: Commit)

  /**
   The record after a write. `_finalize` updates branch, dep and sha before it compares the record with the
   branch; `reconcile_hop` goes to the recorded branch, or opens a PR for a new one.
   */
  function NextRecord(earlier: Option<Record>, w: Write, created: nat): Record {
    var pr := if earlier.Some? then earlier.value.pr else None;
    match w
    case Finalized(branch, dep, sha, openPr) =>
      var record := Record(branch, dep, sha, pr);
      if openPr && !(record.pr.Some? && record.branch == branch) then record.(pr := Some(created)) else record
    case Reconciled(branch, dep, sha) =>
      if pr.Some? then Record(earlier.value.branch, dep, sha, pr) else Record(branch, dep, sha, Some(created))
  }

  predicate AsksForPr(w: Write) {
    w.Reconciled? || w.openPr
  }

  /** A history of writes: the record, and the branch each PR was opened for. PR numbers are fresh. */
  function Recorded(writes: seq<Write>): (Option<Record>, seq<Branch>) {
    if writes == [] then (None, [])
    else
      var (record, openedFor) := Recorded(writes[..|writes| - 1]);
      var w := writes[|writes| - 1];
      var next := NextRecord(record, w, |openedFor|);
      (Some(next), if next.pr == Some(|openedFor|) then openedFor + [w.branch] else openedFor)
  }

  /** The first write that asks for a PR, or the length of the history. */
  function FirstAsking(writes: seq<Write>): nat {
    if writes == [] then 0
    else
      var k := FirstAsking(writes[..|writes| - 1]);
      if k < |writes| - 1 || AsksForPr(writes[|writes| - 1]) then k else |writes|
  }

  /** The latest `_finalize` from `k` on, or `k` if there is none. */
  function LatestFinalized(writes: seq<Write>, k: nat): nat {
    if |writes| <= k + 1 then k
    else if writes[|writes| - 1].Finalized? then |writes| - 1
    else LatestFinalized(writes[..|writes| - 1], k)
  }

  lemma {:induction false} FirstAskingIsFirst(writes: seq<Write>)
    ensures FirstAsking(writes) <= |writes|
    ensures FirstAsking(writes) < |writes| ==> AsksForPr(writes[FirstAsking(writes)])
    ensures forall i | 0 <= i < FirstAsking(writes) :: !AsksForPr(writes[i])
  {
    if writes != [] {
      FirstAskingIsFirst(writes[..|writes| - 1]);
      assert forall i | 0 <= i < |writes| - 1 :: writes[..|writes| - 1][i] == writes[i];
    }
  }

  lemma {:induction false} LatestIsThere(writes: seq<Write>, k: nat)
    requires k < |writes|
    ensures k <= LatestFinalized(writes, k) < |writes|
    ensures forall i | LatestFinalized(writes, k) < i < |writes| :: writes[i].Reconciled?
    ensures LatestFinalized(writes, k) > k ==> writes[LatestFinalized(writes, k)].Finalized?
    decreases |writes|
  {
    if |writes| > k + 1 {
      LatestIsThere(writes[..|writes| - 1], k);
      assert forall i | 0 <= i < |writes| - 1 :: writes[..|writes| - 1][i] == writes[i];
    }
  }

  /** What the record is, told from the history. */
  ghost predicate RecordShape(writes: seq<Write>) {
    var (record, openedFor) := Recorded(writes);
    var k := FirstAsking(writes);
    && (writes == [] <==> record.None?)
    && (k == |writes| ==> openedFor == [] && (record.Some? ==> record.value.pr.None?))
    && (k < |writes| ==>
          && k <= LatestFinalized(writes, k) < |writes| && record.Some?
          && openedFor == [writes[k].branch] && record.value.pr == Some(0)
          && record.value.branch == writes[LatestFinalized(writes, k)].branch)
  }

  lemma RecordShapeStep(writes: seq<Write>)
    requires writes != [] && RecordShape(writes[..|writes| - 1])
    ensures RecordShape(writes)
  {
    var init, w := writes[..|writes| - 1], writes[|writes| - 1];
    var k := FirstAsking(writes);
    FirstAskingIsFirst(writes);
    FirstAskingIsFirst(init);
    if k < |init| {
      assert init[k] == writes[k];
      LatestIsThere(writes, k);
      assert init[LatestFinalized(init, k)] == writes[LatestFinalized(init, k)];
    }
  }

  lemma {:induction false} RecordedShape(writes: seq<Write>)
    ensures RecordShape(writes)
  {
    if writes != [] {
      RecordedShape(writes[..|writes| - 1]);
      RecordShapeStep(writes);
    }
  }

  /**
   Over every history of both writers, at most one PR is ever opened: for the branch of the first write that
   asked for one. Hence the recorded PR belongs to the recorded branch if and only if the latest `_finalize`
   since then, if any, was for that same branch.
   */
  lemma RecordedPrBelongs(writes: seq<Write>)
    requires FirstAsking(writes) < |writes|
    ensures var (record, openedFor) := Recorded(writes);
            var k := FirstAsking(writes);
            && record.Some? && record.value.pr.Some? && record.value.pr.value < |openedFor| && |openedFor| == 1
            && k <= LatestFinalized(writes, k) < |writes|
            && (openedFor[record.value.pr.value] == record.value.branch
                <==> writes[LatestFinalized(writes, k)].branch == writes[k].branch)
  {
    RecordedShape(writes);
  }

  lemma TwoWrites(first: Write, second: Write)
    ensures Recorded([first]) ==
            (var next := NextRecord(None, first, 0);
             (Some(next), if next.pr == Some(0) then [first.branch] else []))
    ensures Recorded([first, second]) ==
            (var (record, openedFor) := Recorded([first]);
             var next := NextRecord(record, second, |openedFor|);
             (Some(next), if next.pr == Some(|openedFor|) then openedFor + [second.branch] else openedFor))
  {
    assert [first][..0] == [] && [first, second][..1] == [first];
    var none: seq<Branch> := [];
    assert Recorded([]) == (None, none) && none + [first.branch] == [first.branch];
  }

  /**
   Two bumps, each asked to open a PR, with different triggers: the second branch gets none. It makes no
   difference if the first PR was opened by reconciling.
   */
  lemma SecondBranchGetsNoPr(c: Commit, reconciled: bool)
    ensures var a, b := Bump("engine", "ledger", "1111111"), Bump("engine", "ledger", "2222222");
            var first := if reconciled then Reconciled(a, "ledger", c) else Finalized(a, "ledger", c, true);
            Recorded([first, Finalized(b, "ledger", c, true)]) == (Some(Record(b, "ledger", c, Some(0))), [a]) && a != b
  {
    var a, b := Bump("engine", "ledger", "1111111"), Bump("engine", "ledger", "2222222");
    var first := if reconciled then Reconciled(a, "ledger", c) else Finalized(a, "ledger", c, true);
    TwoWrites(first, Finalized(b, "ledger", c, true));
    assert "1111111"[0] != "2222222"[0];
  }

  /** Every recorded PR was opened for the recorded branch. */
  predicate RecordsMatch(records: map<Name, Record>, prs: seq<Branch>) {
    forall n | n in records && records[n].pr.Some? ::
      records[n].pr.value < |prs| && prs[records[n].pr.value] == records[n].branch
  }

  datatype Reconciliation = NothingStale | OwnPrMerged | AlreadyPinned | Repinned

  // ----- The driver -----

  class World {
    /** `sha[:7]`. */
    const short: Commit -> string
    /** What git and the sha pattern make of a pin the driver did not write. */
    const read: string -> PinText
    const chain: seq<Hop>
    var repos: map<Name, Repo>
    var records: map<Name, Record>
    /** The branch each PR was opened for, by number. */
    var prs: seq<Branch>
    ghost var trace: seq<Event>
    /** How many commands have failed. */
    ghost var failed: nat

    constructor (short: Commit -> string, read: string -> PinText, chain: seq<Hop>, repos: map<Name, Repo>)
      ensures this.short == short && this.read == read && this.chain == chain && this.repos == repos
      ensures records == map[] && prs == [] && trace == [] && failed == 0
    {
      this.short := short;
      this.read := read;
      this.chain := chain;
      this.repos := repos;
      records := map[];
      prs := [];
      trace := [];
      failed := 0;
    }

    /** Every repository of the chain is checked out. */
    ghost predicate Valid()
      reads this
    {
      forall i | 0 <= i < |chain| :: chain[i].name in repos
    }

    /** `branch_name`: one branch for each hop, trigger and short sha of the trigger's commit. */
    function BranchOf(hop: Hop, sha: Commit): Branch
      requires hop.pins != []
    {
      Bump(hop.name, hop.pins[|hop.pins| - 1], short(sha))
    }

    /** The checkouts are as before, except what origin is known to have. */
    twostate predicate OnlyFetched()
      reads this
    {
      && repos.Keys == old(repos).Keys
      && forall n | n in repos ::
           repos[n] == old(repos)[n].(originMain := repos[n].originMain, originTips := repos[n].originTips)
    }

    /** A subprocess that may fail, and does where it is not possible. */
    method Command(possible: bool) returns (ok: bool)
      modifies `failed
      ensures failed == old(failed) + (if ok then 0 else 1)
      ensures ok ==> possible
    {
      ok := *;
      ok := ok && possible;
      if !ok {
        failed := failed + 1;
      }
    }

    /** No command failed but the one that this answer reports. */
    twostate predicate Reports(fails: bool)
      reads this
    {
      failed == old(failed) + (if fails then 1 else 0)
    }

    /** `git fetch origin`: origin may have moved in any way. */
    method Fetch(name: Name) returns (ok: bool)
      requires name in repos
      modifies `repos, `failed
      ensures Reports(!ok)
      ensures OnlyFetched()
      ensures forall n | n in repos && n != name :: repos[n] == old(repos)[n]
    {
      ok := Command(true);
      if ok {
        var main: Commit, tips: set<Commit> := *, *;
        repos := repos[name := repos[name].(originMain := main, originTips := tips)];
      }
    }

    /** `verified_head`. */
    method VerifiedHead(name: Name) returns (r: Result<Commit, Error>)
      requires name in repos
      modifies `repos, `failed
      ensures OnlyFetched() && Reports(r == Err(CommandFailed))
      ensures r.Ok? ==> r.value == repos[name].head && IsAncestor(repos[name].originMain, repos[name].head)
      ensures r.Err? ==> r == Err(CommandFailed) || r == Err(StaleCheckout)
      ensures r == Err(StaleCheckout) ==> !IsAncestor(repos[name].originMain, repos[name].head)
    {
      var ok := Fetch(name);
      if !ok {
        return Err(CommandFailed);
      }
      if repos[name].head == repos[name].originMain || IsAncestor(repos[name].originMain, repos[name].head) {
        return Ok(repos[name].head);
      }
      return Err(StaleCheckout);
    }

    /** `resolve_shas`: the verified heads of the chain up to and including position `last`. */
    method ResolveShas(last: nat) returns (r: Result<map<Name, Commit>, Error>)
      requires Valid() && last < |chain|
      modifies `repos, `failed
      ensures Valid() && OnlyFetched() && Reports(r == Err(CommandFailed))
      ensures r.Err? ==> r == Err(CommandFailed) || r == Err(StaleCheckout)
      ensures r.Ok? ==> forall n :: n in r.value <==> exists i :: 0 <= i <= last && chain[i].name == n
      ensures r.Ok? ==> forall n | n in r.value :: n in repos && r.value[n] == repos[n].head
    {
      var shas: map<Name, Commit> := map[];
      for i := 0 to last + 1
        invariant Valid() && OnlyFetched() && Reports(false)
        invariant forall n :: n in shas <==> exists k :: 0 <= k < i && chain[k].name == n
        invariant forall n | n in shas :: n in repos && shas[n] == repos[n].head
      {
        var head := VerifiedHead(chain[i].name);
        if head.Err? {
          return Err(head.error);
        }
        shas := shas[chain[i].name := head.value];
      }
      return Ok(shas);
    }

    /** Write every pin; the dependencies whose entry changed. Stops at a dependency without an entry. */
    method WritePins(hop: Hop, shas: map<Name, Commit>) returns (r: Result<seq<Name>, Error>)
      requires hop.name in repos && forall i | 0 <= i < |hop.pins| :: hop.pins[i] in shas
      modifies `repos
      ensures repos.Keys == old(repos).Keys && hop.name in repos
      ensures repos == old(repos)[hop.name := old(repos)[hop.name].(work := repos[hop.name].work)]
      ensures repos[hop.name].work.rest == old(repos)[hop.name].work.rest
      ensures r.Ok? ==> PinnedTo(repos[hop.name].work, hop.pins, shas)
      ensures r.Ok? ==> (r.value == [] <==> PinnedTo(old(repos)[hop.name].work, hop.pins, shas))
      ensures r.Ok? && r.value == [] ==> repos == old(repos)
      ensures r.Err? ==> r == Err(NoPinEntry) && !AllPinned(old(repos)[hop.name].work, hop.pins)
    {
      var changed: seq<Name> := [];
      for i := 0 to |hop.pins|
        invariant repos.Keys == old(repos).Keys
        invariant repos == old(repos)[hop.name := old(repos)[hop.name].(work := repos[hop.name].work)]
        invariant repos[hop.name].work.rest == old(repos)[hop.name].work.rest
        invariant repos[hop.name].work.pins.Keys == old(repos)[hop.name].work.pins.Keys
        invariant PinnedTo(repos[hop.name].work, hop.pins[..i], shas)
        invariant changed == [] ==> repos == old(repos)
        invariant changed != [] ==> !PinnedTo(old(repos)[hop.name].work, hop.pins[..i], shas)
      {
        var dep := hop.pins[i];
        var work := repos[hop.name].work;
        if dep !in work.pins {
          return Err(NoPinEntry);
        }
        if work.pins[dep] != Pinned(shas[dep]) {
          repos := repos[hop.name := repos[hop.name].(work := work.(pins := work.pins[dep := Pinned(shas[dep])]))];
          changed := changed + [dep];
        }
        assert hop.pins[..i + 1] == hop.pins[..i] + [dep];
      }
      assert hop.pins[..|hop.pins|] == hop.pins;
      return Ok(changed);
    }

    /** `uv lock` may rewrite anything but the pins. */
    method Lock(hop: Hop) returns (ok: bool, ghost lockfile: nat, ghost left: bool)
      requires hop.name in repos
      modifies `repos, `trace, `failed
      ensures Reports(!ok)
      ensures !ok ==> repos == old(repos) && trace == old(trace) + [LockFailed]
      ensures ok ==>
                var repo := old(repos)[hop.name];
                && repos == old(repos)[hop.name := repo.(work := repo.work.(rest := lockfile),
                                                         untracked := repo.untracked || left)]
                && trace == old(trace) + [Locked(left)]
    {
      lockfile, left := 0, false;
      ok := Command(true);
      if !ok {
        trace := trace + [LockFailed];
        return;
      }
      var rest: nat, leaves: bool := *, *;
      lockfile, left := rest, leaves;
      var repo := repos[hop.name];
      repos := repos[hop.name := repo.(work := repo.work.(rest := rest), untracked := repo.untracked || leaves)];
      trace := trace + [Locked(leaves)];
    }

    /** `make test` may leave files behind. */
    method Gate(hop: Hop) returns (ok: bool, ghost left: bool)
      requires hop.name in repos
      modifies `repos, `trace, `failed
      ensures Reports(!ok)
      ensures var repo := old(repos)[hop.name];
              && repos == old(repos)[hop.name := repo.(untracked := repo.untracked || left)]
              && trace == old(trace) + [if ok then GatePassed(repo.work, left) else GateFailed(left)]
    {
      ok := Command(true);
      var leaves: bool := *;
      left := leaves;
      var repo := repos[hop.name];
      repos := repos[hop.name := repo.(untracked := repo.untracked || leaves)];
      trace := trace + [if ok then GatePassed(repo.work, leaves) else GateFailed(leaves)];
    }

    /** `git commit -am`: untracked files are not added, and without a change there is nothing to commit. */
    method CommitAll(hop: Hop) returns (ok: bool, ghost id: nat)
      requires hop.name in repos
      modifies `repos, `trace, `failed
      ensures Reports(!ok)
      ensures !ok ==> repos == old(repos) && trace == old(trace)
      ensures ok ==>
                var repo := old(repos)[hop.name];
                var head := Commit(id, [repo.head], repo.work);
                && repo.work != repo.head.tree
                && repos == old(repos)[hop.name := repo.(head := head, branches := repo.branches[repo.branch := head])]
                && trace == old(trace) + [Committed(repo.work)]
    {
      id := 0;
      var repo := repos[hop.name];
      ok := Command(repo.work != repo.head.tree);
      if ok {
        var number: nat := *;
        id := number;
        var head := Commit(number, [repo.head], repo.work);
        repos := repos[hop.name := repo.(head := head, branches := repo.branches[repo.branch := head])];
        trace := trace + [Committed(repo.work)];
      }
    }

    /** `uv lock`, then the gate, then the commit. */
    method LockTestCommit(hop: Hop) returns (r: Result<bool, Error>)
      requires hop.name in repos
      modifies `repos, `trace, `failed
      ensures Reports(r != Ok(true)) && (r.Err? ==> r == Err(CommandFailed))
      ensures repos.Keys == old(repos).Keys
      ensures forall n | n in repos && n != hop.name :: repos[n] == old(repos)[n]
      ensures old(trace) <= trace
      ensures Attempted(old(repos)[hop.name], repos[hop.name], trace[|old(trace)|..], r)
    {
      ghost var before := repos[hop.name];
      var locked, lockfile, lockLeft := Lock(hop);
      if !locked {
        assert trace[|old(trace)|..] == [LockFailed];
        assert Attempt(before, Outcome(false, 0, false, false, false, false, 0)).1 == before;
        return Err(CommandFailed);
      }
      var passed, gateLeft := Gate(hop);
      if !passed {
        assert trace[|old(trace)|..] == [Locked(lockLeft), GateFailed(gateLeft)];
        ghost var o := Outcome(true, lockfile, lockLeft, false, gateLeft, false, 0);
        assert Attempt(before, o).1 == repos[hop.name];
        return Ok(false);
      }
      var committed, id := CommitAll(hop);
      ghost var o := Outcome(true, lockfile, lockLeft, true, gateLeft, committed, id);
      ghost var gated := [Locked(lockLeft), GatePassed(before.work.(rest := lockfile), gateLeft)];
      assert Attempt(before, o).1 == repos[hop.name];
      if !committed {
        assert trace[|old(trace)|..] == gated;
        return Err(CommandFailed);
      }
      assert trace[|old(trace)|..] == gated + [Committed(before.work.(rest := lockfile))];
      return Ok(true);
    }

    /** What origin is known to have: the head as well, once it is pushed. */
    ghost predicate Pushes(before: Repo, tips: set<Commit>, pushed: bool) {
      tips == before.originTips + if pushed then {before.head} else {}
    }

    /** What `_finalize` does when it returns: push, and the record and the PRs as the record says. */
    twostate predicate Finalizes(hop: Hop, branch: Branch, sha: Commit, push: bool, openPr: bool)
      requires hop.pins != []
      reads this
    {
      var earlier := if hop.name in old(records) then Some(old(records)[hop.name]) else None;
      var write := Finalized(branch, hop.pins[|hop.pins| - 1], sha, openPr);
      if !push then records == old(records) && prs == old(prs)
      else
        && records == old(records)[hop.name := NextRecord(earlier, write, |old(prs)|)]
        && prs == (if openPr && (earlier.None? || earlier.value.pr.None?) then old(prs) + [branch] else old(prs))
        && hop.name in repos && RemoteHas(repos[hop.name], repos[hop.name].head)
    }

    /** Nothing is recorded and no PR opened. */
    twostate predicate NothingRecorded()
      reads this
    {
      records == old(records) && prs == old(prs)
    }

    /** `_finalize`: push, and open a PR or find one recorded. */
    method Finalize(hop: Hop, branch: Branch, sha: Commit, push: bool, openPr: bool) returns (r: Result<bool, Error>)
      requires hop.name in repos && hop.pins != []
      modifies `repos, `trace, `records, `prs, `failed
      ensures Reports(r == Err(CommandFailed))
      ensures repos.Keys == old(repos).Keys
      ensures forall n | n in repos && n != hop.name :: repos[n] == old(repos)[n]
      ensures repos[hop.name] == old(repos)[hop.name].(originTips := repos[hop.name].originTips)
      ensures trace == old(trace) || trace == old(trace) + [Pushed(branch)]
      ensures Pushes(old(repos)[hop.name], repos[hop.name].originTips, trace != old(trace))
      ensures r.Ok? ==> r.value && trace == old(trace) + (if push then [Pushed(branch)] else [])
      ensures r.Ok? ==> Finalizes(hop, branch, sha, push, openPr)
      ensures r.Err? ==> r == Err(CommandFailed) && NothingRecorded()
      ensures !push ==> r.Ok? && repos == old(repos)
    {
      if !push {
        return Ok(true);
      }
      var ok := Command(true);
      if !ok {
        return Err(CommandFailed);
      }
      var repo := repos[hop.name];
      repos := repos[hop.name := repo.(originTips := repo.originTips + {repo.head})];
      trace := trace + [Pushed(branch)];
      var pr: Option<nat> := if hop.name in records then records[hop.name].pr else None;
      var record := Record(branch, hop.pins[|hop.pins| - 1], sha, pr);
      if openPr {
        if record.pr.Some? && record.branch == branch {
        } else {
          ok := Command(true);
          if !ok {
            return Err(CommandFailed);
          }
          record := record.(pr := Some(|prs|));
          prs := prs + [branch];
        }
      }
      records := records[hop.name := record];
      return Ok(true);
    }

    /** The checks of `run` before anything is written. */
    method Preflight(hop: Hop, shas: map<Name, Commit>, branch: Branch) returns (r: Result<(), Error>)
      requires hop.name in repos && hop.name !in hop.pins
      requires forall i | 0 <= i < |hop.pins| :: hop.pins[i] in repos
      modifies `repos, `failed
      ensures OnlyFetched() && repos[hop.name] == old(repos)[hop.name] && Reports(r == Err(CommandFailed))
      ensures r == Err(NotClean) <==> Dirty(repos[hop.name]) && repos[hop.name].branch != branch
      ensures r.Err? ==> r.error != StaleCheckout && r.error != NoPinEntry
      ensures r == Err(UnknownSha) ==> exists i :: 0 <= i < |hop.pins| && hop.pins[i] !in shas
      ensures r == Err(NotOnOrigin) ==> exists i :: 0 <= i < |hop.pins| && hop.pins[i] in shas
                                                    && !RemoteHas(repos[hop.pins[i]], shas[hop.pins[i]])
      ensures r.Ok? ==> forall i | 0 <= i < |hop.pins| ::
                hop.pins[i] in shas && RemoteHas(repos[hop.pins[i]], shas[hop.pins[i]])
    {
      var repo := repos[hop.name];
      if Dirty(repo) && repo.branch != branch {
        return Err(NotClean);
      }
      for i := 0 to |hop.pins|
        invariant OnlyFetched() && repos[hop.name] == old(repos)[hop.name] && Reports(false)
        invariant forall k | 0 <= k < i :: hop.pins[k] in shas && RemoteHas(repos[hop.pins[k]], shas[hop.pins[k]])
      {
        var dep := hop.pins[i];
        if dep !in shas {
          return Err(UnknownSha);
        }
        var ok := Fetch(dep);
        if !ok {
          return Err(CommandFailed);
        }
        if !RemoteHas(repos[dep], shas[dep]) {
          return Err(NotOnOrigin);
        }
      }
      return Ok(());
    }

    /** `git checkout -b`. */
    method NewBranch(hop: Hop, branch: Branch) returns (ok: bool)
      requires hop.name in repos
      modifies `repos, `failed
      ensures Reports(!ok)
      ensures ok ==> branch !in old(repos)[hop.name].branches
      ensures var repo := old(repos)[hop.name];
              repos == if ok then old(repos)[hop.name := OnNewBranch(repo, branch)] else old(repos)
    {
      var repo := repos[hop.name];
      ok := Command(branch !in repo.branches);
      if ok {
        repos := repos[hop.name := OnNewBranch(repo, branch)];
      }
    }

    function OnNewBranch(repo: Repo, branch: Branch): Repo {
      repo.(branch := branch, branches := repo.branches[branch := repo.head])
    }

    /** Cases 2 and 3 on the hop's branch with the pins written: gate, commit, publish. */
    method Publish(hop: Hop, shas: map<Name, Commit>, branch: Branch, push: bool, openPr: bool)
      returns (r: Result<bool, Error>)
      requires hop.name in repos && hop.pins != [] && hop.pins[|hop.pins| - 1] in shas
      requires PinnedTo(repos[hop.name].work, hop.pins, shas) && repos[hop.name].branch == branch
      modifies `repos, `trace, `records, `prs, `failed
      ensures Reports(r != Ok(true)) && (r.Err? ==> r == Err(CommandFailed))
      ensures repos.Keys == old(repos).Keys && old(trace) < trace
      ensures forall n | n in repos && n != hop.name :: repos[n] == old(repos)[n]
      ensures if r == Ok(true) then Finalizes(hop, branch, shas[hop.pins[|hop.pins| - 1]], push, openPr)
              else NothingRecorded()
      ensures r == Ok(true) ==> (PushedLast(trace[|old(trace)|..], branch) <==> push)
      ensures Advanced(old(repos)[hop.name], repos[hop.name], branch, hop.pins, shas, trace[|old(trace)|..], r)
    {
      ghost var ready := repos[hop.name];
      r := LockTestCommit(hop);
      ghost var ran, done := trace[|old(trace)|..], repos[hop.name];
      AttemptFacts(ready, done, ran, r);
      AttemptIsAdvance(ready, done, branch, hop.pins, shas, ran, r);
      if r == Ok(true) {
        assert trace == old(trace) + ran;
        r := Finalize(hop, branch, shas[hop.pins[|hop.pins| - 1]], push, openPr);
        PushingIsAdvance(ready, done, repos[hop.name], branch, hop.pins, shas, ran, trace[|old(trace)|..], r);
      }
    }

    /** Cases 2 and 3, once the pins are written: branch off if the hop is fresh, gate, commit, publish. */
    method Advance(hop: Hop, shas: map<Name, Commit>, branch: Branch, isFresh: bool, push: bool, openPr: bool)
      returns (r: Result<bool, Error>)
      requires hop.name in repos && hop.pins != [] && hop.pins[|hop.pins| - 1] in shas
      requires PinnedTo(repos[hop.name].work, hop.pins, shas)
      requires !isFresh ==> repos[hop.name].branch == branch
      modifies `repos, `trace, `records, `prs, `failed
      ensures Reports(r != Ok(true)) && (r.Err? ==> r == Err(CommandFailed))
      ensures repos.Keys == old(repos).Keys && old(trace) <= trace
      ensures forall n | n in repos && n != hop.name :: repos[n] == old(repos)[n]
      ensures if r == Ok(true) then Finalizes(hop, branch, shas[hop.pins[|hop.pins| - 1]], push, openPr)
              else NothingRecorded()
      ensures r == Ok(true) ==> (PushedLast(trace[|old(trace)|..], branch) <==> push)
      ensures Advanced(old(repos)[hop.name], repos[hop.name], branch, hop.pins, shas, trace[|old(trace)|..], r)
      ensures r == Ok(true) && isFresh ==> branch !in old(repos)[hop.name].branches
    {
      ghost var before := repos[hop.name];
      if isFresh {
        var ok := NewBranch(hop, branch);
        if !ok {
          assert trace[|trace|..] == [];
          return Err(CommandFailed);
        }
      }
      r := Publish(hop, shas, branch, push, openPr);
      if isFresh {
        FreshAdvances(before, repos[hop.name], branch, hop.pins, shas, trace[|old(trace)|..], r);
      }
    }

    /** What a run with these events may do to the checkout; a commit comes right after lock and gate. */
    ghost predicate Ordinary(before: Repo, after: Repo, more: seq<Event>) {
      && GateOrdered(more)
      && (after.head == before.head
          || (BeginsWithCommit(more, after.head.tree) && after.head.parents == [before.head]))
      && (after.untracked <==> before.untracked || LeftFile(more))
    }

    predicate OtherBranchesKept(before: Repo, after: Repo, branch: Branch) {
      forall b | b in before.branches && b != branch :: b in after.branches && after.branches[b] == before.branches[b]
    }

    /** What `Advance` leaves behind. */
    ghost predicate Advanced(before: Repo, after: Repo, branch: Branch, deps: seq<Name>, shas: map<Name, Commit>,
                             more: seq<Event>, r: Result<bool, Error>)
    {
      && Ordinary(before, after, more)
      && PinnedTo(after.work, deps, shas)
      && (more != [] ==> after.branch == branch)
      && (more == [] ==> after == before)
      && OtherBranchesKept(before, after, branch)
      && (r.Ok? && r.value ==> after.head != before.head && after.work == after.head.tree && after.branch == branch
                               && after.branches == before.branches[branch := after.head])
      && (r.Ok? && !r.value ==> FailedGate(more) && after.head == before.head)
    }

    lemma AttemptIsAdvance(ready: Repo, done: Repo, branch: Branch, deps: seq<Name>, shas: map<Name, Commit>,
                           ran: seq<Event>, r: Result<bool, Error>)
      requires Attempted(ready, done, ran, r) && ready.branch == branch && PinnedTo(ready.work, deps, shas)
      ensures Advanced(ready, done, branch, deps, shas, ran, r)
      ensures r == Ok(true) ==> |ran| == 3 && ran[2].Committed?
    {
      AttemptFacts(ready, done, ran, r);
    }

    lemma PushingIsAdvance(ready: Repo, done: Repo, after: Repo, branch: Branch, deps: seq<Name>,
                           shas: map<Name, Commit>, ran: seq<Event>, more: seq<Event>, r: Result<bool, Error>)
      requires Advanced(ready, done, branch, deps, shas, ran, Ok(true)) && |ran| == 3 && ran[2].Committed?
      requires after == done.(originTips := after.originTips) && (r.Err? || r.value)
      requires more == ran || more == ran + [Pushed(branch)]
      ensures Advanced(ready, after, branch, deps, shas, more, r)
      ensures PushedLast(more, branch) <==> more != ran
    {
      PushingIsNoGate(ran, Pushed(branch));
    }

    lemma FreshAdvances(before: Repo, after: Repo, branch: Branch, deps: seq<Name>, shas: map<Name, Commit>,
                        more: seq<Event>, r: Result<bool, Error>)
      requires Advanced(OnNewBranch(before, branch), after, branch, deps, shas, more, r) && more != []
      ensures Advanced(before, after, branch, deps, shas, more, r)
    {
    }

    /** Everything a run may leave behind for its own repository. */
    ghost predicate Left(before: Repo, after: Repo, branch: Branch, deps: seq<Name>, shas: map<Name, Commit>,
                         more: seq<Event>, r: Result<bool, Error>)
    {
      var resuming, dirty, changed := before.branch == branch, Dirty(before), !PinnedTo(before.work, deps, shas);
      && Ordinary(before, after, more) && OtherBranchesKept(before, after, branch)
      && (more != [] ==> after.branch == branch && PinnedTo(after.work, deps, shas))
      && (more == [] ==> after.head == before.head)
      && (dirty && !resuming ==> more == [] && r.Err?)
      && (r.Ok? && r.value ==>
            && PinnedTo(after.head.tree, deps, shas) && after.work == after.head.tree
            && (!changed && !resuming ==> more == [] && after == before)
            && (!changed && resuming && !dirty ==> after == before.(originTips := after.originTips))
            && (!changed && !(resuming && dirty) ==> !Dirty(after))
            && (changed || (resuming && dirty) ==>
                  && more != [] && after.head != before.head && after.head.parents == [before.head]
                  && after.branch == branch && after.branches == before.branches[branch := after.head]
                  && (!resuming ==> branch !in before.branches)))
      && (r.Ok? && !r.value ==>
            FailedGate(more) && (changed || (resuming && dirty)) && after.head == before.head)
    }

    lemma AdvancedIsLeft(before: Repo, start: Repo, after: Repo, branch: Branch, deps: seq<Name>,
                         shas: map<Name, Commit>, more: seq<Event>, r: Result<bool, Error>)
      requires Advanced(start, after, branch, deps, shas, more, r)
      requires start == before.(work := start.work) && (Dirty(before) ==> before.branch == branch)
      requires var planned := CaseOf(before.branch == branch, Dirty(before), !PinnedTo(before.work, deps, shas));
               planned.FreshHop? || planned.Resume?
      requires r == Ok(true) && before.branch != branch ==> branch !in before.branches
      ensures Left(before, after, branch, deps, shas, more, r)
    {
    }

    lemma StoppedIsLeft(before: Repo, after: Repo, branch: Branch, deps: seq<Name>, shas: map<Name, Commit>,
                        r: Result<bool, Error>)
      requires r.Err? && after == before.(work := after.work)
      ensures Left(before, after, branch, deps, shas, [], r)
    {
    }

    lemma NothingToCommitIsLeft(before: Repo, after: Repo, branch: Branch, deps: seq<Name>, shas: map<Name, Commit>,
                                more: seq<Event>, r: Result<bool, Error>)
      requires after == before.(originTips := after.originTips) && (r.Err? || r.value)
      requires PinnedTo(before.work, deps, shas) && (Dirty(before) ==> before.branch == branch)
      requires if before.branch == branch then !Dirty(before) && (more == [] || more == [Pushed(branch)])
               else more == [] && after == before
      ensures Left(before, after, branch, deps, shas, more, r)
    {
    }

    /**
     When a successful run leaves a clean tree: always where it had nothing to commit, and otherwise exactly if
     no untracked file was there before, which is so for a fresh hop, and lock and gate left none.
     */
    lemma CleanExactly(before: Repo, after: Repo, branch: Branch, deps: seq<Name>, shas: map<Name, Commit>,
                       more: seq<Event>, r: Result<bool, Error>)
      requires Left(before, after, branch, deps, shas, more, r) && r.Ok? && r.value
      ensures var planned := CaseOf(before.branch == branch, Dirty(before), !PinnedTo(before.work, deps, shas));
              && (!Dirty(after) <==> planned.AlreadyDone? || planned.AlreadyCommitted?
                                     || (!before.untracked && !LeftFile(more)))
              && (planned.FreshHop? ==> !before.untracked)
    {
    }

    /** Every fresh hop with pins to write may end in a commit, return true, and leave the tree dirty. */
    lemma TrueButDirty(before: Repo, ready: Repo, branch: Branch, deps: seq<Name>, shas: map<Name, Commit>)
      returns (after: Repo, more: seq<Event>)
      requires !Dirty(before) && before.branch != branch && branch !in before.branches
      requires !PinnedTo(before.work, deps, shas)
      requires PinnedTo(ready.work, deps, shas)
      requires ready == before.(branch := branch, branches := before.branches[branch := before.head],
                                work := ready.work)
      ensures Attempted(ready, after, more, Ok(true))
      ensures Left(before, after, branch, deps, shas, more, Ok(true)) && Dirty(after)
    {
      var o := Outcome(true, 0, true, true, false, true, 0);
      var attempt := Attempt(ready, o);
      assert ready.work.(rest := 0) != before.head.tree;
      after, more := attempt.1, attempt.2;
      assert attempt.0 == Ok(true);
      AttemptFacts(ready, after, more, Ok(true));
      assert more[0] == Locked(true) && Leaves(more[0]);
    }

    /**
     The run after one that tried the lock and did not commit is in the resume case, unless lock and
     test have made the tree clean; it always is where the pins were not committed before.
     */
    lemma FailedHopResumes(before: Repo, after: Repo, branch: Branch, deps: seq<Name>, shas: map<Name, Commit>,
                           more: seq<Event>, r: Result<bool, Error>)
      requires Left(before, after, branch, deps, shas, more, r) && more != [] && after.head == before.head
      ensures CaseOf(after.branch == branch, Dirty(after), !PinnedTo(after.work, deps, shas)) ==
              if Dirty(after) then Resume else AlreadyCommitted
      ensures !PinnedTo(before.head.tree, deps, shas) ==> Dirty(after)
    {
      assert after.branch == branch && PinnedTo(after.work, deps, shas);
      if !PinnedTo(before.head.tree, deps, shas) {
        assert after.work != after.head.tree;
      }
    }

    /**
     A hop that succeeded and left the tree dirty cannot succeed again: its next run is in the resume case, and
     as long as the lock comes out as committed, there is nothing to commit, whatever the gate says.
     */
    lemma DirtySuccessFailsNext(done: Repo, branch: Branch, deps: seq<Name>, shas: map<Name, Commit>, o: Outcome)
      requires Dirty(done) && done.branch == branch && done.work == done.head.tree && PinnedTo(done.work, deps, shas)
      requires o.lockfile == done.work.rest
      ensures CaseOf(done.branch == branch, Dirty(done), !PinnedTo(done.work, deps, shas)) == Resume
      ensures Attempt(done, o).0 != Ok(true) && Dirty(Attempt(done, o).1)
    {
      assert done.work.(rest := o.lockfile) == done.work;
    }

    /**
     A clean hop on the branch of an earlier bump, whose trigger has moved on to another short sha: it does not
     resume there but goes to a new branch of its own, and the earlier one keeps its commit.
     */
    lemma NewShaNewBranch(before: Repo, after: Repo, hop: Hop, earlier: string, now: string, shas: map<Name, Commit>,
                          more: seq<Event>)
      requires hop.pins != [] && !PinnedTo(before.work, hop.pins, shas)
      requires var trigger := hop.pins[|hop.pins| - 1];
               && before.branch == Bump(hop.name, trigger, earlier) && earlier != now
               && Left(before, after, Bump(hop.name, trigger, now), hop.pins, shas, more, Ok(true))
      ensures var branch := Bump(hop.name, hop.pins[|hop.pins| - 1], now);
              && !Dirty(before) && branch !in before.branches
              && after.branch == branch && after.branches == before.branches[branch := after.head]
              && after.head.parents == [before.head] && PinnedTo(after.head.tree, hop.pins, shas)
      ensures before.branch in before.branches ==>
                before.branch in after.branches && after.branches[before.branch] == before.branches[before.branch]
    {
      var branch := Bump(hop.name, hop.pins[|hop.pins| - 1], now);
      assert before.branch != branch;
    }

    /** With the same short sha it stays on its branch, and commits on top if there is anything to redo. */
    lemma SameShaResumes(before: Repo, after: Repo, branch: Branch, deps: seq<Name>, shas: map<Name, Commit>,
                         more: seq<Event>)
      requires before.branch == branch && Left(before, after, branch, deps, shas, more, Ok(true))
      ensures after.branch == branch
      ensures if PinnedTo(before.work, deps, shas) && !Dirty(before) then after.head == before.head
              else after.head.parents == [before.head] && after.branches == before.branches[branch := after.head]
    {
      if !PinnedTo(before.work, deps, shas) || Dirty(before) {
        assert after.head != before.head;
      }
    }

    /**
     `Bumper.run`. It commits only right after its gate passed; it returns true only with the
     requested pins committed and every tracked file clean; and once the lock has been tried,
     whatever fails, it is on the hop's branch with the pins written, so the next run resumes.
     */
    method RunHop(hop: Hop, shas: map<Name, Commit>, push: bool, openPr: bool) returns (r: Result<bool, Error>)
      requires Valid() && hop.name in repos && hop.pins != [] && hop.name !in hop.pins
      requires forall i | 0 <= i < |hop.pins| :: hop.pins[i] in repos
      requires GateOrdered(trace)
      modifies `repos, `trace, `records, `prs, `failed
      ensures Reports(r == Err(CommandFailed) || r == Ok(false))
      ensures r.Err? ==> Refused(old(repos)[hop.name], repos, hop, shas, r.error)
      ensures Valid() && repos.Keys == old(repos).Keys && GateOrdered(trace)
      ensures forall n | n in repos && n != hop.name ::
                repos[n] == old(repos)[n].(originMain := repos[n].originMain, originTips := repos[n].originTips)
      ensures old(trace) <= trace
      ensures r.Ok? && r.value ==> hop.pins[|hop.pins| - 1] in shas
      ensures hop.pins[|hop.pins| - 1] in shas ==>
                var trigger := hop.pins[|hop.pins| - 1];
                Left(old(repos)[hop.name], repos[hop.name], Bump(hop.name, trigger, short(shas[trigger])),
                     hop.pins, shas, trace[|old(trace)|..], r)
      ensures r == Ok(true) ==> forall i | 0 <= i < |hop.pins| ::
                hop.pins[i] in shas && RemoteHas(repos[hop.pins[i]], shas[hop.pins[i]])
      ensures hop.pins[|hop.pins| - 1] in shas ==>
                var trigger := hop.pins[|hop.pins| - 1];
                var branch := Bump(hop.name, trigger, short(shas[trigger]));
                var nothingToDo := old(repos)[hop.name].branch != branch
                                   && PinnedTo(old(repos)[hop.name].work, hop.pins, shas);
                if r == Ok(true) && !nothingToDo
                then Finalizes(hop, branch, shas[trigger], push || openPr, openPr)
                     && (PushedLast(trace[|old(trace)|..], branch) <==> push || openPr)
                else NothingRecorded()
    {
      var trigger := hop.pins[|hop.pins| - 1];
      assert trace[|trace|..] == [];
      if trigger !in shas {
        return Err(UnknownSha);
      }
      r := RunOn(hop, shas, BranchOf(hop, shas[trigger]), push || openPr, openPr);
    }

    /** `run`, once the branch has its name. */
    method RunOn(hop: Hop, shas: map<Name, Commit>, branch: Branch, push: bool, openPr: bool)
      returns (r: Result<bool, Error>)
      requires hop.name in repos && hop.pins != [] && hop.name !in hop.pins && GateOrdered(trace)
      requires forall i | 0 <= i < |hop.pins| :: hop.pins[i] in repos
      requires hop.pins[|hop.pins| - 1] in shas && branch == BranchOf(hop, shas[hop.pins[|hop.pins| - 1]])
      modifies `repos, `trace, `records, `prs, `failed
      ensures Reports(r == Err(CommandFailed) || r == Ok(false))
      ensures r.Err? ==> Refused(old(repos)[hop.name], repos, hop, shas, r.error)
      ensures repos.Keys == old(repos).Keys && GateOrdered(trace) && old(trace) <= trace
      ensures forall n | n in repos && n != hop.name ::
                repos[n] == old(repos)[n].(originMain := repos[n].originMain, originTips := repos[n].originTips)
      ensures Left(old(repos)[hop.name], repos[hop.name], branch, hop.pins, shas, trace[|old(trace)|..], r)
      ensures r == Ok(true) ==> forall i | 0 <= i < |hop.pins| ::
                hop.pins[i] in shas && RemoteHas(repos[hop.pins[i]], shas[hop.pins[i]])
      ensures var before := old(repos)[hop.name];
              if r == Ok(true) && !(before.branch != branch && PinnedTo(before.work, hop.pins, shas))
              then Finalizes(hop, branch, shas[hop.pins[|hop.pins| - 1]], push, openPr)
                   && (PushedLast(trace[|old(trace)|..], branch) <==> push)
              else NothingRecorded()
    {
      assert trace[|trace|..] == [];
      var before := repos[hop.name];
      var changed := Prepare(hop, shas, branch);
      if changed.Err? {
        StoppedIsLeft(before, repos[hop.name], branch, hop.pins, shas, Err(changed.error));
        return Err(changed.error);
      }
      var planned := CaseOf(before.branch == branch, Dirty(before), changed.value);
      if planned.AlreadyDone? {
        NothingToCommitIsLeft(before, before, branch, hop.pins, shas, [], Ok(true));
        return Ok(true);
      }
      r := Act(hop, shas, branch, planned, before, push, openPr);
    }

    /** The checks, and the pins: whether any had to be written. */
    method Prepare(hop: Hop, shas: map<Name, Commit>, branch: Branch) returns (r: Result<bool, Error>)
      requires hop.name in repos && hop.pins != [] && hop.name !in hop.pins
      requires forall i | 0 <= i < |hop.pins| :: hop.pins[i] in repos
      requires hop.pins[|hop.pins| - 1] in shas && branch == BranchOf(hop, shas[hop.pins[|hop.pins| - 1]])
      modifies `repos, `failed
      ensures Reports(r == Err(CommandFailed))
      ensures repos.Keys == old(repos).Keys
      ensures forall n | n in repos && n != hop.name ::
                repos[n] == old(repos)[n].(originMain := repos[n].originMain, originTips := repos[n].originTips)
      ensures repos[hop.name] == old(repos)[hop.name].(work := repos[hop.name].work)
      ensures r.Err? ==> Refused(old(repos)[hop.name], repos, hop, shas, r.error)
      ensures r.Ok? ==>
                var before := old(repos)[hop.name];
                && (Dirty(before) ==> before.branch == branch) && PinnedTo(repos[hop.name].work, hop.pins, shas)
                && (r.value <==> !PinnedTo(before.work, hop.pins, shas)) && (!r.value ==> repos[hop.name] == before)
                && forall i | 0 <= i < |hop.pins| ::
                     hop.pins[i] in shas && RemoteHas(repos[hop.pins[i]], shas[hop.pins[i]])
    {
      var checks := Preflight(hop, shas, branch);
      if checks.Err? {
        return Err(checks.error);
      }
      var changed := WritePins(hop, shas);
      if changed.Err? {
        return Err(changed.error);
      }
      return Ok(changed.value != []);
    }

    /** Why a run stops before anything is locked; or some command failed. */
    predicate Refused(before: Repo, now: map<Name, Repo>, hop: Hop, shas: map<Name, Commit>, e: Error)
      requires hop.pins != []
    {
      var trigger := hop.pins[|hop.pins| - 1];
      match e
      case NotClean =>
        trigger in shas && Dirty(before) && before.branch != Bump(hop.name, trigger, short(shas[trigger]))
      case UnknownSha => exists i :: 0 <= i < |hop.pins| && hop.pins[i] !in shas
      case NotOnOrigin =>
        exists i :: 0 <= i < |hop.pins| && hop.pins[i] in shas && hop.pins[i] in now
                    && !RemoteHas(now[hop.pins[i]], shas[hop.pins[i]])
      case NoPinEntry => !AllPinned(before.work, hop.pins)
      case StaleCheckout => false
      case CommandFailed => true
    }

    /** Cases 2, 3 and 4. */
    method Act(hop: Hop, shas: map<Name, Commit>, branch: Branch, planned: Case, ghost before: Repo,
               push: bool, openPr: bool) returns (r: Result<bool, Error>)
      requires hop.name in repos && hop.pins != [] && hop.pins[|hop.pins| - 1] in shas && GateOrdered(trace)
      requires repos[hop.name] == before.(work := repos[hop.name].work)
      requires PinnedTo(repos[hop.name].work, hop.pins, shas) && (Dirty(before) ==> before.branch == branch)
      requires planned == CaseOf(before.branch == branch, Dirty(before), !PinnedTo(before.work, hop.pins, shas))
      requires !planned.AlreadyDone? && (planned.AlreadyCommitted? ==> repos[hop.name] == before)
      modifies `repos, `trace, `records, `prs, `failed
      ensures Reports(r != Ok(true)) && (r.Err? ==> r == Err(CommandFailed))
      ensures repos.Keys == old(repos).Keys && GateOrdered(trace) && old(trace) <= trace
      ensures if r == Ok(true)
              then Finalizes(hop, branch, shas[hop.pins[|hop.pins| - 1]], push, openPr)
                   && (PushedLast(trace[|old(trace)|..], branch) <==> push)
              else NothingRecorded()
      ensures forall n | n in repos && n != hop.name :: repos[n] == old(repos)[n]
      ensures Left(before, repos[hop.name], branch, hop.pins, shas, trace[|old(trace)|..], r)
    {
      ghost var start := repos[hop.name];
      if planned.AlreadyCommitted? {
        r := Finalize(hop, branch, shas[hop.pins[|hop.pins| - 1]], push, openPr);
        ghost var pushed := trace[|old(trace)|..];
        assert trace == old(trace) + pushed && (pushed == [] || pushed == [Pushed(branch)]);
        NothingToCommitIsLeft(before, repos[hop.name], branch, hop.pins, shas, pushed, r);
        JoinedOrder(old(trace), pushed);
        return;
      }
      r := Advance(hop, shas, branch, planned.FreshHop?, push, openPr);
      ghost var more := trace[|old(trace)|..];
      AdvancedIsLeft(before, start, repos[hop.name], branch, hop.pins, shas, more, r);
      JoinedOrder(old(trace), more);
      assert old(trace) + more == trace;
    }

    /** The position of a name in the chain. */
    function IndexOf(name: Name): (i: nat)
      requires exists k :: 0 <= k < |chain| && chain[k].name == name
      ensures i < |chain| && chain[i].name == name
    {
      FirstNamed(chain, name)
    }

    /**
     `cmd_chain`. When it returns 0, every hop's committed pin of every dependency is that
     dependency's final HEAD.
     */
    method Chain(push: bool, openPr: bool) returns (r: Result<bool, Error>)
      requires Valid() && Ordered(chain) && GateOrdered(trace)
      modifies `repos, `trace, `records, `prs, `failed
      ensures Reports(r == Err(CommandFailed) || r == Ok(false))
      ensures Valid() && GateOrdered(trace)
      ensures r.Ok? && r.value ==> forall i | 0 <= i < |chain| :: Agrees(chain, repos, i)
    {
      for i := 0 to |chain|
        invariant Valid() && GateOrdered(trace) && Reports(false)
        invariant forall k | 0 <= k < i :: Agrees(chain, repos, k)
      {
        if chain[i].pins != [] {
          var ok := ChainStep(i, push, openPr);
          if ok.Err? || !ok.value {
            return ok;
          }
        }
      }
      return Ok(true);
    }

    method ChainStep(i: nat, push: bool, openPr: bool) returns (r: Result<bool, Error>)
      requires Valid() && Ordered(chain) && GateOrdered(trace)
      requires i < |chain| && chain[i].pins != []
      requires forall k | 0 <= k < i :: Agrees(chain, repos, k)
      modifies `repos, `trace, `records, `prs, `failed
      ensures Reports(r == Err(CommandFailed) || r == Ok(false))
      ensures Valid() && GateOrdered(trace)
      ensures r.Ok? && r.value ==> forall k | 0 <= k <= i :: Agrees(chain, repos, k)
    {
      var hop := chain[i];
      PinsAreEarlier(chain, i);
      var resolved := ResolveShas(IndexOf(hop.pins[|hop.pins| - 1]));
      if resolved.Err? {
        return Err(resolved.error);
      }
      ghost var before := repos;
      forall k | 0 <= k < i
        ensures Agrees(chain, before, k)
      {
        FetchKeepsAgreement(chain, old(repos), before, k);
      }
      r := RunHop(hop, resolved.value, push, openPr);
      if r.Ok? && r.value {
        Settled(chain, before, repos, i, resolved.value);
      }
    }

    // ----- Reconcile -----

    /** `current_pin`, and what git makes of it. */
    function CurrentPin(tree: Tree, dep: Name): PinText {
      if dep !in tree.pins then Missing
      else
        match tree.pins[dep]
        case Pinned(c) => Hex(Some(c), true)
        case Other(text) => read(text)
    }

    /** What a pin is found to be: one the driver wrote is its commit, a missing one is always dangling. */
    lemma PinStatus(tree: Tree, dep: Name, tip: Commit)
      ensures dep !in tree.pins ==> Status(CurrentPin(tree, dep), tip) == Dangling
      ensures dep in tree.pins && tree.pins[dep].Pinned? ==>
                var c := tree.pins[dep].commit;
                && (Status(CurrentPin(tree, dep), tip) == Current <==> c == tip)
                && (Status(CurrentPin(tree, dep), tip) == Dangling <==> !ParentChain(c, tip))
      ensures dep in tree.pins && tree.pins[dep].Other? ==> CurrentPin(tree, dep) == read(tree.pins[dep].text)
    {
      StatusMeans(CurrentPin(tree, dep), tip);
      if dep in tree.pins && tree.pins[dep].Pinned? {
        var c := tree.pins[dep].commit;
        assert CurrentPin(tree, dep) == Hex(Some(c), true);
      }
    }

    /** The pins `reconcile_hop` finds stale, and the tips it compared them with. */
    method FindStale(hop: Hop) returns (r: Result<(seq<Name>, map<Name, Commit>), Error>)
      requires hop.name in repos && hop.name !in hop.pins
      requires forall i | 0 <= i < |hop.pins| :: hop.pins[i] in repos
      requires forall i, j | 0 <= i < j < |hop.pins| :: hop.pins[i] != hop.pins[j]
      modifies `repos, `failed
      ensures OnlyFetched() && repos[hop.name] == old(repos)[hop.name] && Reports(r.Err?)
      ensures r.Err? ==> r == Err(CommandFailed)
      ensures r.Ok? ==> forall i | 0 <= i < |hop.pins| :: hop.pins[i] in r.value.1
      ensures r.Ok? ==> forall dep :: dep in r.value.0 <==>
                dep in hop.pins && dep in r.value.1
                && Status(CurrentPin(repos[hop.name].work, dep), r.value.1[dep]) == Dangling
    {
      var stale: seq<Name> := [];
      var tips: map<Name, Commit> := map[];
      for i := 0 to |hop.pins|
        invariant OnlyFetched() && repos[hop.name] == old(repos)[hop.name] && Reports(false)
        invariant forall n :: n in tips <==> n in hop.pins[..i]
        invariant forall dep :: dep in stale <==>
                    dep in tips && Status(CurrentPin(repos[hop.name].work, dep), tips[dep]) == Dangling
      {
        var dep := hop.pins[i];
        assert hop.pins[..i + 1] == hop.pins[..i] + [dep];
        assert dep !in hop.pins[..i];
        var ok := Fetch(dep);
        if !ok {
          return Err(CommandFailed);
        }
        tips := tips[dep := repos[dep].originMain];
        StaleIsDangling(CurrentPin(repos[hop.name].work, dep), tips[dep]);
        if Stale(CurrentPin(repos[hop.name].work, dep), tips[dep]) {
          stale := stale + [dep];
        }
      }
      assert hop.pins[..|hop.pins|] == hop.pins;
      return Ok((stale, tips));
    }

    /** The branch the fix goes to: the one of the hop's open PR, or a new one. `None`: that PR has merged. */
    method ReconcileBranch(hop: Hop, tip: Commit) returns (r: Result<Option<Branch>, Error>)
      requires hop.name in repos && hop.pins != []
      modifies `repos, `failed
      ensures Reports(r == Err(CommandFailed))
      ensures r.Err? ==> r == Err(CommandFailed) || (r == Err(NotClean) && Dirty(old(repos)[hop.name]))
      ensures repos.Keys == old(repos).Keys
      ensures forall n | n in repos && n != hop.name :: repos[n] == old(repos)[n]
      ensures r.Err? || r.value.None? ==> repos == old(repos)
      ensures r.Ok? && r.value.None? ==> hop.name in records && records[hop.name].pr.Some?
      ensures r.Ok? && r.value.Some? ==>
                && !Dirty(old(repos)[hop.name]) && !Dirty(repos[hop.name])
                && repos[hop.name].branch == r.value.value
                && (if hop.name in records && records[hop.name].pr.Some?
                    then r.value.value == records[hop.name].branch && r.value.value in old(repos)[hop.name].branches
                         && repos[hop.name].head == old(repos)[hop.name].branches[r.value.value]
                    else r.value.value == Bump(hop.name, hop.pins[|hop.pins| - 1], short(tip))
                         && r.value.value !in old(repos)[hop.name].branches
                         && repos[hop.name].head == old(repos)[hop.name].head)
    {
      var repo := repos[hop.name];
      if hop.name in records && records[hop.name].pr.Some? {
        var ok := Command(true);
        if !ok {
          return Err(CommandFailed);
        }
        var merged: bool := *;
        if merged {
          return Ok(None);
        }
        if Dirty(repo) {
          return Err(NotClean);
        }
        var branch := records[hop.name].branch;
        ok := Command(branch in repo.branches);
        if !ok {
          return Err(CommandFailed);
        }
        var head := repo.branches[branch];
        repos := repos[hop.name := repo.(branch := branch, head := head, work := head.tree)];
        return Ok(Some(branch));
      }
      if Dirty(repo) {
        return Err(NotClean);
      }
      var branch := BranchOf(hop, tip);
      var ok := Command(branch !in repo.branches);
      if !ok {
        return Err(CommandFailed);
      }
      repos := repos[hop.name := repo.(branch := branch, branches := repo.branches[branch := repo.head])];
      return Ok(Some(branch));
    }

    /** The record says what a reconciliation writes. */
    twostate predicate Published(hop: Hop, branch: Branch, tip: Commit)
      requires hop.pins != []
      reads this
    {
      var earlier := if hop.name in old(records) then Some(old(records)[hop.name]) else None;
      var write := Reconciled(branch, hop.pins[|hop.pins| - 1], tip);
      && records == old(records)[hop.name := NextRecord(earlier, write, |old(prs)|)]
      && prs == (if earlier.Some? && earlier.value.pr.Some? then old(prs) else old(prs) + [branch])
    }

    /** Push the fix and record it under its PR, opening one if none is recorded. */
    method PublishFix(hop: Hop, branch: Branch, tip: Commit) returns (r: Result<(), Error>)
      requires hop.name in repos && hop.pins != []
      requires hop.name in records && records[hop.name].pr.Some? ==> branch == records[hop.name].branch
      modifies `repos, `trace, `records, `prs, `failed
      ensures Reports(r.Err?) && (r.Err? ==> r == Err(CommandFailed))
      ensures repos.Keys == old(repos).Keys
      ensures old(RecordsMatch(records, prs)) ==> RecordsMatch(records, prs)
      ensures if r.Ok? then Published(hop, branch, tip) && trace == old(trace) + [Pushed(branch)] else NothingRecorded()
      ensures Pushes(old(repos)[hop.name], repos[hop.name].originTips, trace != old(trace))
      ensures forall n | n in repos && n != hop.name :: repos[n] == old(repos)[n]
      ensures repos[hop.name] == old(repos)[hop.name].(originTips := repos[hop.name].originTips)
      ensures trace == old(trace) || trace == old(trace) + [Pushed(branch)]
      ensures r.Ok? ==> hop.name in records && records[hop.name].branch == branch && records[hop.name].pr.Some?
    {
      var ok := Command(true);
      if !ok {
        return Err(CommandFailed);
      }
      var repo := repos[hop.name];
      repos := repos[hop.name := repo.(originTips := repo.originTips + {repo.head})];
      trace := trace + [Pushed(branch)];
      var pr: nat;
      if hop.name in records && records[hop.name].pr.Some? {
        pr := records[hop.name].pr.value;
      } else {
        ok := Command(true);
        if !ok {
          return Err(CommandFailed);
        }
        pr := |prs|;
        prs := prs + [branch];
      }
      records := records[hop.name := Record(branch, hop.pins[|hop.pins| - 1], tip, Some(pr))];
      return Ok(());
    }

    /**
     `reconcile_hop`: acts only when some pin is dangling, and then re-pins every dependency to the
     tip it fetched, behind the same gate; it never detaches a recorded PR from its branch.
     */
    method ReconcileHop(hop: Hop)
      returns (r: Result<Reconciliation, Error>, ghost tips: map<Name, Commit>, ghost target: Branch)
      requires hop.name in repos && hop.pins != [] && hop.name !in hop.pins
      requires forall i | 0 <= i < |hop.pins| :: hop.pins[i] in repos
      requires forall i, j | 0 <= i < j < |hop.pins| :: hop.pins[i] != hop.pins[j]
      requires GateOrdered(trace)
      modifies `repos, `trace, `records, `prs, `failed
      ensures Reports(r == Err(CommandFailed))
      ensures r.Err? ==> r.error in {CommandFailed, NotClean, NoPinEntry}
      ensures repos.Keys == old(repos).Keys && GateOrdered(trace)
      ensures old(RecordsMatch(records, prs)) ==> RecordsMatch(records, prs)
      ensures r != Ok(Repinned) ==> NothingRecorded()
      ensures r == Ok(Repinned) ==> PushedLast(trace, target) && RemoteHas(repos[hop.name], repos[hop.name].head)
      ensures r.Ok? && r.value.Repinned? ==>
                var trigger := hop.pins[|hop.pins| - 1];
                && trigger in tips && Published(hop, target, tips[trigger])
                && target == (if hop.name in old(records) && old(records)[hop.name].pr.Some?
                              then old(records)[hop.name].branch else Bump(hop.name, trigger, short(tips[trigger])))
      ensures r.Ok? ==> forall i | 0 <= i < |hop.pins| :: hop.pins[i] in tips
      ensures r.Ok? ==>
                (r.value.NothingStale? <==>
                  forall i | 0 <= i < |hop.pins| && hop.pins[i] in tips ::
                    Status(CurrentPin(old(repos)[hop.name].work, hop.pins[i]), tips[hop.pins[i]]) != Dangling)
      ensures r.Ok? && !r.value.Repinned? ==> trace == old(trace)
      ensures r.Ok? && (r.value.NothingStale? || r.value.OwnPrMerged?) ==> repos[hop.name] == old(repos)[hop.name]
      ensures r.Ok? && r.value.AlreadyPinned? ==> PinnedTo(repos[hop.name].work, hop.pins, tips)
      ensures r.Ok? && r.value.Repinned? ==> PinnedTo(repos[hop.name].head.tree, hop.pins, tips)
    {
      tips, target := map[], Named("");
      var found := FindStale(hop);
      if found.Err? {
        return Err(found.error), tips, target;
      }
      var (stale, current) := found.value;
      tips := current;
      if stale == [] {
        assert forall i | 0 <= i < |hop.pins| :: hop.pins[i] !in stale;
        return Ok(NothingStale), tips, target;
      }
      assert stale[0] in stale;
      var tip := current[hop.pins[|hop.pins| - 1]];
      var branch := ReconcileBranch(hop, tip);
      if branch.Err? {
        return Err(branch.error), tips, target;
      }
      if branch.value.None? {
        return Ok(OwnPrMerged), tips, target;
      }
      target := branch.value.value;
      r := Repin(hop, branch.value.value, current, tip);
    }

    /** Write the pins, and fix what they changed. */
    method Repin(hop: Hop, branch: Branch, tips: map<Name, Commit>, tip: Commit)
      returns (r: Result<Reconciliation, Error>)
      requires hop.name in repos && hop.pins != [] && forall i | 0 <= i < |hop.pins| :: hop.pins[i] in tips
      requires hop.name in records && records[hop.name].pr.Some? ==> branch == records[hop.name].branch
      requires GateOrdered(trace)
      modifies `repos, `trace, `records, `prs, `failed
      ensures Reports(r == Err(CommandFailed)) && (r.Err? ==> r.error in {CommandFailed, NoPinEntry})
      ensures repos.Keys == old(repos).Keys && GateOrdered(trace)
      ensures old(RecordsMatch(records, prs)) ==> RecordsMatch(records, prs)
      ensures r.Ok? ==> r.value.AlreadyPinned? || r.value.Repinned?
      ensures if r == Ok(Repinned) then Published(hop, branch, tip) else NothingRecorded()
      ensures r == Ok(Repinned) ==>
                && PushedLast(trace, branch) && RemoteHas(repos[hop.name], repos[hop.name].head)
                && PinnedTo(repos[hop.name].head.tree, hop.pins, tips)
      ensures r == Ok(AlreadyPinned) ==> trace == old(trace) && PinnedTo(repos[hop.name].work, hop.pins, tips)
    {
      var changed := WritePins(hop, tips);
      if changed.Err? {
        return Err(changed.error);
      }
      if changed.value == [] {
        return Ok(AlreadyPinned);
      }
      var done := Fix(hop, branch, tips, tip);
      if done.Err? {
        return Err(done.error);
      }
      return Ok(Repinned);
    }

    /** Gate, commit and publish a re-pinned tree; a failing gate raises here. */
    method Fix(hop: Hop, branch: Branch, tips: map<Name, Commit>, tip: Commit) returns (r: Result<(), Error>)
      requires hop.name in repos && hop.pins != [] && PinnedTo(repos[hop.name].work, hop.pins, tips)
      requires hop.name in records && records[hop.name].pr.Some? ==> branch == records[hop.name].branch
      requires GateOrdered(trace)
      modifies `repos, `trace, `records, `prs, `failed
      ensures Reports(r.Err?) && (r.Err? ==> r == Err(CommandFailed))
      ensures repos.Keys == old(repos).Keys && GateOrdered(trace)
      ensures old(RecordsMatch(records, prs)) ==> RecordsMatch(records, prs)
      ensures if r.Ok? then Published(hop, branch, tip) else NothingRecorded()
      ensures r.Ok? ==> PushedLast(trace, branch) && RemoteHas(repos[hop.name], repos[hop.name].head)
      ensures r.Ok? ==> PinnedTo(repos[hop.name].head.tree, hop.pins, tips)
    {
      ghost var ready := repos[hop.name];
      var gate := LockTestCommit(hop);
      AttemptFacts(ready, repos[hop.name], trace[|old(trace)|..], gate);
      JoinedOrder(old(trace), trace[|old(trace)|..]);
      assert old(trace) + trace[|old(trace)|..] == trace;
      if gate.Err? || !gate.value {
        return Err(CommandFailed);
      }
      r := PublishFix(hop, branch, tip);
    }
  }

  /** Names are distinct, and every pin of a hop names an earlier one. */
  ghost predicate Ordered(chain: seq<Hop>) {
    && (forall i, j | 0 <= i < j < |chain| :: chain[i].name != chain[j].name)
    && (forall i, d | 0 <= i < |chain| && 0 <= d < |chain[i].pins| ::
          exists k :: 0 <= k < i && chain[k].name == chain[i].pins[d])
  }

  /** Every committed pin of hop `i` is the HEAD of the repository it names. */
  ghost predicate Agrees(chain: seq<Hop>, repos: map<Name, Repo>, i: nat)
    requires i < |chain|
  {
    chain[i].name in repos
    && forall d | 0 <= d < |chain[i].pins| ::
         && chain[i].pins[d] in repos
         && chain[i].pins[d] in repos[chain[i].name].head.tree.pins
         && repos[chain[i].name].head.tree.pins[chain[i].pins[d]] == Pinned(repos[chain[i].pins[d]].head)
  }

  lemma PinsAreEarlier(chain: seq<Hop>, i: nat)
    requires Ordered(chain) && i < |chain|
    ensures chain[i].name !in chain[i].pins
    ensures forall d | 0 <= d < |chain[i].pins| ::
              exists k :: 0 <= k < |chain| && chain[k].name == chain[i].pins[d]
  {
  }

  /** The heads of the repositories other than `name` are the same. */
  ghost predicate SameHeadsBut(before: map<Name, Repo>, after: map<Name, Repo>, name: Option<Name>) {
    before.Keys == after.Keys && forall n | n in before && name != Some(n) :: after[n].head == before[n].head
  }

  /** Running a later hop disturbs no earlier agreement. */
  lemma StillAgrees(chain: seq<Hop>, before: map<Name, Repo>, after: map<Name, Repo>, i: nat, k: nat)
    requires Ordered(chain) && k < i < |chain| && Agrees(chain, before, k)
    requires SameHeadsBut(before, after, Some(chain[i].name))
    ensures Agrees(chain, after, k)
  {
    forall d | 0 <= d < |chain[k].pins|
      ensures chain[k].pins[d] != chain[i].name
    {
      var dep := chain[k].pins[d];
      assert exists e :: 0 <= e < k && chain[e].name == dep;
      var e :| 0 <= e < k && chain[e].name == dep;
    }
  }

  /** After a hop has run on the heads it resolved, it agrees, and so do the earlier ones. */
  lemma Settled(chain: seq<Hop>, before: map<Name, Repo>, after: map<Name, Repo>, i: nat, shas: map<Name, Commit>)
    requires Ordered(chain) && i < |chain| && chain[i].name in after
    requires forall k | 0 <= k < i :: Agrees(chain, before, k)
    requires SameHeadsBut(before, after, Some(chain[i].name))
    requires PinnedTo(after[chain[i].name].head.tree, chain[i].pins, shas)
    requires forall n | n in shas :: n in before && shas[n] == before[n].head
    ensures forall k | 0 <= k <= i :: Agrees(chain, after, k)
  {
    forall k | 0 <= k < i
      ensures Agrees(chain, after, k)
    {
      StillAgrees(chain, before, after, i, k);
    }
    PinsAreEarlier(chain, i);
    assert Agrees(chain, after, i);
  }

  /** Hops that agree with the final HEADs agree with each other: one commit per dependency. */
  lemma OneCommitPerDependency(chain: seq<Hop>, repos: map<Name, Repo>, i: nat, j: nat, dep: Name)
    requires i < |chain| && j < |chain| && Agrees(chain, repos, i) && Agrees(chain, repos, j)
    requires dep in chain[i].pins && dep in chain[j].pins
    ensures dep in repos[chain[i].name].head.tree.pins && dep in repos[chain[j].name].head.tree.pins
    ensures repos[chain[i].name].head.tree.pins[dep] == repos[chain[j].name].head.tree.pins[dep]
  {
    var d :| 0 <= d < |chain[i].pins| && chain[i].pins[d] == dep;
    var e :| 0 <= e < |chain[j].pins| && chain[j].pins[e] == dep;
    assert dep == chain[i].pins[d] && dep == chain[j].pins[e];
  }

  lemma FetchKeepsAgreement(chain: seq<Hop>, before: map<Name, Repo>, after: map<Name, Repo>, k: nat)
    requires k < |chain| && Agrees(chain, before, k) && SameHeadsBut(before, after, None)
    ensures Agrees(chain, after, k)
  {
  }

  function FirstNamed(chain: seq<Hop>, name: Name): (i: nat)
    requires exists k :: 0 <= k < |chain| && chain[k].name == name
    ensures i < |chain| && chain[i].name == name
  {
    if chain[0].name == name then 0
    else
      assert exists k :: 0 <= k < |chain[1..]| && chain[1..][k].name == name by {
        var k :| 0 <= k < |chain| && chain[k].name == name;
        assert chain[1..][k - 1] == chain[k];
      }
      1 + FirstNamed(chain[1..], name)
  }

  lemma ChildDiffers(child: Commit, parent: Commit)
    requires child.parents == [parent]
    ensures child != parent
  {
    assert Height(child) == 1 + HeightOfAll([parent]);
    assert HeightOfAll([parent]) >= Height(parent);
  }
}
