/**
 Commits as git hashes them, by content and history, and what makes a pin current, behind or dangling.
 */
module PinGraph {
  import opened Wrappers

  /** The part of a tree the chain driver reads or writes, and everything else in it. */
  datatype Tree = Tree(pins: map<string, Pin>, rest: nat)

  /** A dependency entry: pinned to a commit in the driver's own form, or anything else. */
  datatype Pin = Pinned(commit: Commit) | Other(text: string)

  datatype Commit = Commit(id: nat, parents: seq<Commit>, tree: Tree)

  /** The commits reachable from `c`, itself included. */
  function Ancestors(c: Commit): set<Commit>
    decreases c, 1
  {
    {c} + AncestorsOfAll(c.parents)
  }

  function AncestorsOfAll(cs: seq<Commit>): set<Commit>
    decreases cs, 0
  {
    if cs == [] then {} else Ancestors(cs[0]) + AncestorsOfAll(cs[1..])
  }

  /** `git merge-base --is-ancestor a b`. */
  predicate IsAncestor(a: Commit, b: Commit) {
    a in Ancestors(b)
  }

  /** `git rev-list --count a..b`. */
  function CommitsBetween(a: Commit, b: Commit): nat {
    |Ancestors(b) - Ancestors(a)|
  }

  lemma {:induction false} ParentIncluded(cs: seq<Commit>, i: nat)
    requires i < |cs|
    ensures Ancestors(cs[i]) <= AncestorsOfAll(cs)
  {
    if i > 0 {
      ParentIncluded(cs[1..], i - 1);
    }
  }

  lemma {:induction false} AncestorsTransitive(a: Commit, b: Commit)
    requires a in Ancestors(b)
    ensures Ancestors(a) <= Ancestors(b)
    decreases b, 1
  {
    if a != b {
      AncestorsTransitiveAll(a, b.parents);
    }
  }

  lemma {:induction false} AncestorsTransitiveAll(a: Commit, cs: seq<Commit>)
    requires a in AncestorsOfAll(cs)
    ensures Ancestors(a) <= AncestorsOfAll(cs)
    decreases cs, 0
  {
    if a in Ancestors(cs[0]) {
      AncestorsTransitive(a, cs[0]);
    } else {
      AncestorsTransitiveAll(a, cs[1..]);
    }
  }

  function Height(c: Commit): nat
    decreases c, 1
  {
    1 + HeightOfAll(c.parents)
  }

  function HeightOfAll(cs: seq<Commit>): nat
    decreases cs, 0
  {
    if cs == [] then 0
    else
      var rest := HeightOfAll(cs[1..]);
      if Height(cs[0]) > rest then Height(cs[0]) else rest
  }

  lemma {:induction false} AncestorsAreLower(a: Commit, b: Commit)
    requires a in Ancestors(b)
    ensures a == b || Height(a) < Height(b)
    decreases b, 1
  {
    if a != b {
      AncestorsAreLowerAll(a, b.parents);
    }
  }

  lemma {:induction false} AncestorsAreLowerAll(a: Commit, cs: seq<Commit>)
    requires a in AncestorsOfAll(cs)
    ensures Height(a) <= HeightOfAll(cs)
    decreases cs, 0
  {
    if a in Ancestors(cs[0]) {
      AncestorsAreLower(a, cs[0]);
    } else {
      AncestorsAreLowerAll(a, cs[1..]);
    }
  }

  // ----- Histories of main -----

  /** Main moves forward: by a fast-forward, or by a commit made on top of it, merges included. */
  ghost predicate Advances(before: Commit, after: Commit) {
    IsAncestor(before, after)
  }

  ghost predicate History(tips: seq<Commit>) {
    tips != [] && forall i | 0 < i < |tips| :: Advances(tips[i - 1], tips[i])
  }

  /** A merge commit, and equally a squash commit, advances main: only a rewrite of main does not. */
  lemma CommitOnTopAdvances(main: Commit, c: Commit)
    requires main in c.parents
    ensures Advances(main, c)
  {
    var i :| 0 <= i < |c.parents| && c.parents[i] == main;
    ParentIncluded(c.parents, i);
  }

  lemma {:induction false} HistoryReaches(tips: seq<Commit>, i: nat, j: nat)
    requires History(tips) && i <= j < |tips|
    ensures Ancestors(tips[i]) <= Ancestors(tips[j])
    decreases j
  {
    if i < j {
      HistoryReaches(tips, i, j - 1);
      assert Advances(tips[j - 1], tips[j]);
      AncestorsTransitive(tips[j - 1], tips[j]);
    }
  }

  // ----- What status and reconcile say of a pin -----

  /**
   What the pin text is: missing, not of hexadecimal form, or hexadecimal. In the last case git
   may resolve it to a commit, and the text may be the full sha of that commit.
   */
  datatype PinText = Missing | Label | Hex(resolved: Option<Commit>, full: bool)

  datatype State = Current | Behind(count: nat) | Dangling

  predicate EqualsTip(pin: PinText, tip: Commit) {
    pin.Hex? && pin.full && pin.resolved == Some(tip)
  }

  predicate ResolvesToAncestor(pin: PinText, tip: Commit) {
    pin.Hex? && pin.resolved.Some? && IsAncestor(pin.resolved.value, tip)
  }

  /** The classification `cmd_status` prints. */
  function Status(pin: PinText, tip: Commit): State {
    if EqualsTip(pin, tip) then Current
    else if ResolvesToAncestor(pin, tip) then Behind(CommitsBetween(pin.resolved.value, tip))
    else Dangling
  }

  /** The test by which `reconcile_hop` collects stale pins. */
  predicate Stale(pin: PinText, tip: Commit) {
    var isSha := pin.Hex?;
    var reachable := isSha && (EqualsTip(pin, tip) || ResolvesToAncestor(pin, tip));
    !reachable
  }

  /** Reconcile acts on exactly the pins status calls dangling. */
  lemma StaleIsDangling(pin: PinText, tip: Commit)
    ensures Stale(pin, tip) <==> Status(pin, tip) == Dangling
  {
  }

  /** What status says, told of the pin's text and of commit history. */
  lemma StatusMeans(pin: PinText, tip: Commit)
    ensures Status(pin, tip) == Current <==> pin == Hex(Some(tip), true)
    ensures Status(pin, tip) == Dangling <==>
              !(exists c, full :: pin == Hex(Some(c), full) && ParentChain(c, tip))
    ensures forall n: nat :: Status(pin, tip) == Behind(n) <==>
              exists c, full :: pin == Hex(Some(c), full) && ParentChain(c, tip) && !(full && c == tip)
                                && n == |set x | x in Ancestors(tip) && x !in Ancestors(c)|
  {
    if pin.Hex? && pin.resolved.Some? {
      var c := pin.resolved.value;
      AncestorByParents(c, tip);
      assert pin == Hex(Some(c), pin.full);
      assert Ancestors(tip) - Ancestors(c) == set x | x in Ancestors(tip) && x !in Ancestors(c);
    }
    AncestorByParents(tip, tip);
  }

  /** From `b` one may get to `a` by going to a parent, again and again. */
  ghost predicate ParentChain(a: Commit, b: Commit) {
    exists p: seq<Commit> :: IsParentChain(p, a, b)
  }

  ghost predicate IsParentChain(p: seq<Commit>, a: Commit, b: Commit) {
    p != [] && p[0] == a && p[|p| - 1] == b && forall i | 0 < i < |p| :: p[i - 1] in p[i].parents
  }

  lemma AncestorByParents(a: Commit, b: Commit)
    ensures IsAncestor(a, b) <==> ParentChain(a, b)
  {
    if IsAncestor(a, b) {
      var p := AncestorHasChain(a, b);
    }
    if p: seq<Commit> :| IsParentChain(p, a, b) {
      ChainHasAncestor(p);
    }
  }

  lemma {:induction false} AncestorHasChain(a: Commit, b: Commit) returns (p: seq<Commit>)
    requires a in Ancestors(b)
    ensures IsParentChain(p, a, b)
    decreases b, 1
  {
    if a == b {
      p := [a];
    } else {
      var parent, before := ParentHasChain(a, b.parents);
      p := before + [b];
    }
  }

  lemma {:induction false} ParentHasChain(a: Commit, cs: seq<Commit>) returns (c: Commit, p: seq<Commit>)
    requires a in AncestorsOfAll(cs)
    ensures c in cs && IsParentChain(p, a, c)
    decreases cs, 0
  {
    if a in Ancestors(cs[0]) {
      c := cs[0];
      p := AncestorHasChain(a, cs[0]);
    } else {
      c, p := ParentHasChain(a, cs[1..]);
    }
  }

  lemma {:induction false} ChainHasAncestor(p: seq<Commit>)
    requires p != [] && forall i | 0 < i < |p| :: p[i - 1] in p[i].parents
    ensures p[0] in Ancestors(p[|p| - 1])
  {
    if |p| > 1 {
      var last := p[|p| - 1];
      ChainHasAncestor(p[..|p| - 1]);
      var i :| 0 <= i < |last.parents| && last.parents[i] == p[|p| - 2];
      ParentIncluded(last.parents, i);
    }
  }

  /** A pin on a commit of main is behind by zero exactly when it is main's tip. */
  lemma BehindZeroIsTip(c: Commit, tip: Commit)
    requires IsAncestor(c, tip)
    ensures CommitsBetween(c, tip) == 0 <==> c == tip
  {
    AncestorsTransitive(c, tip);
    if CommitsBetween(c, tip) == 0 {
      assert Ancestors(tip) - Ancestors(c) == {};
      assert tip in Ancestors(tip);
      assert tip in Ancestors(c);
      AncestorsAreLower(tip, c);
      AncestorsAreLower(c, tip);
    }
  }

  lemma SetGrows(small: set<Commit>, big: set<Commit>)
    requires small <= big
    ensures |small| <= |big|
    ensures small != big ==> |small| < |big|
  {
    assert |big| == |small| + |big - small| by {
      assert big == small + (big - small);
    }
    if small != big {
      assert big - small != {};
    }
  }

  /**
   While main only moves forward, a pin that is reachable stays reachable, never becomes dangling,
   and falls further behind at every real advance: the count is the number of commits main has and
   the pin lacks.
   */
  lemma ReachablePinsStayReachable(tips: seq<Commit>, i: nat, j: nat, pin: PinText)
    requires History(tips) && i <= j < |tips|
    requires !Stale(pin, tips[i])
    ensures !Stale(pin, tips[j]) && pin.resolved.Some?
    ensures Status(pin, tips[j]) != Dangling
    ensures var c := pin.resolved.value;
            && CommitsBetween(c, tips[i]) <= CommitsBetween(c, tips[j])
            && (tips[i] != tips[j] ==> CommitsBetween(c, tips[i]) < CommitsBetween(c, tips[j]))
            && CommitsBetween(c, tips[j]) == |set x | x in Ancestors(tips[j]) && x !in Ancestors(c)|
  {
    HistoryReaches(tips, i, j);
    var c := pin.resolved.value;
    var before, after := Ancestors(tips[i]) - Ancestors(c), Ancestors(tips[j]) - Ancestors(c);
    assert c in Ancestors(tips[i]) && c in Ancestors(tips[j]);
    SetGrows(before, after);
    assert tips[i] in Ancestors(tips[j]);
    if tips[i] != tips[j] {
      AncestorsAreLower(tips[i], tips[j]);
      assert tips[j] in Ancestors(tips[j]);
      if tips[j] in Ancestors(c) {
        AncestorsAreLower(tips[j], c);
        AncestorsAreLower(c, tips[i]);
      }
      if tips[j] in Ancestors(tips[i]) {
        AncestorsAreLower(tips[j], tips[i]);
      }
      assert tips[j] in after && tips[j] !in before;
    }
    assert after == set x | x in Ancestors(tips[j]) && x !in Ancestors(c);
  }
}
