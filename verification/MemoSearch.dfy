/**
 The search at the heart of `reachable`: depth first, with a memo that outlives each search and
 a stack that cuts cycles by counting a back edge as empty.
 */
module MemoSearch {

  /** Nodes, the values each holds, and the nodes each refers to. */
  datatype Graph<!N(==), V(==)> = Graph(own: map<N, set<V>>, refs: map<N, seq<N>>)

  ghost predicate Closed<N(!new), V>(g: Graph<N, V>) {
    g.own.Keys == g.refs.Keys && forall n, i | n in g.refs && 0 <= i < |g.refs[n]| :: g.refs[n][i] in g.refs
  }

  type Memo<N, V> = map<N, set<V>>

  /** `collect`: the values found from `n`, and the memo afterwards. */
  ghost function Collect<N(!new), V>(g: Graph<N, V>, n: N, stack: set<N>, memo: Memo<N, V>): (set<V>, Memo<N, V>)
    requires Closed(g) && n in g.refs
    decreases g.refs.Keys - stack, 1, 0
  {
    if n in memo then (memo[n], memo)
    else if n in stack then ({}, memo)
    else
      assert g.refs.Keys - (stack + {n}) < g.refs.Keys - stack by {
        assert n in g.refs.Keys - stack;
      }
      var (below, after) := CollectEach(g, g.refs[n], stack + {n}, memo);
      var found := g.own[n] + below;
      (found, after[n := found])
  }

  /** The same for a list of nodes, one after another with the memo handed on. */
  ghost function CollectEach<N(!new), V>(g: Graph<N, V>, ns: seq<N>, stack: set<N>, memo: Memo<N, V>)
    : (set<V>, Memo<N, V>)
    requires Closed(g) && forall i | 0 <= i < |ns| :: ns[i] in g.refs
    decreases g.refs.Keys - stack, 2, |ns|
  {
    if ns == [] then ({}, memo)
    else
      var (before, m) := CollectEach(g, ns[..|ns| - 1], stack, memo);
      var (last, after) := Collect(g, ns[|ns| - 1], stack, m);
      (before + last, after)
  }

  // ----- Reachability -----

  ghost predicate Edge<N(!new), V>(g: Graph<N, V>, a: N, b: N) {
    a in g.refs && b in g.refs[a]
  }

  /** Consecutive nodes of `p` are joined by references. */
  ghost predicate Route<N(!new), V>(g: Graph<N, V>, p: seq<N>) {
    p != [] && forall i | 0 < i < |p| :: Edge(g, p[i - 1], p[i])
  }

  ghost predicate Joins<N(!new), V>(g: Graph<N, V>, p: seq<N>, a: N, b: N) {
    Route(g, p) && p[0] == a && p[|p| - 1] == b
  }

  ghost predicate Reaches<N(!new), V>(g: Graph<N, V>, a: N, b: N) {
    exists p :: Joins(g, p, a, b)
  }

  /** `v` is held by a node that `n` reaches: what a search from `n` is meant to find. */
  ghost predicate Holds<N(!new), V(!new)>(g: Graph<N, V>, n: N, v: V) {
    exists m :: Reaches(g, n, m) && m in g.own && v in g.own[m]
  }

  ghost predicate OnCycle<N(!new), V>(g: Graph<N, V>, n: N) {
    exists p :: Joins(g, p, n, n) && |p| > 1
  }

  /** No reference cycle can be reached from `n`. */
  ghost predicate Acyclic<N(!new), V>(g: Graph<N, V>, n: N) {
    forall m :: Reaches(g, n, m) ==> !OnCycle(g, m)
  }

  lemma ReachesItself<N(!new), V>(g: Graph<N, V>, a: N)
    ensures Reaches(g, a, a)
  {
    assert Joins(g, [a], a, a);
  }

  lemma JoinsCompose<N(!new), V>(g: Graph<N, V>, p: seq<N>, q: seq<N>, a: N, b: N, c: N)
    requires Joins(g, p, a, b) && Joins(g, q, b, c)
    ensures Joins(g, p + q[1..], a, c)
  {
    var r := p + q[1..];
    forall i | 0 < i < |r|
      ensures Edge(g, r[i - 1], r[i])
    {
      if i >= |p| {
        assert Edge(g, q[i - |p|], q[i - |p| + 1]);
        assert r[i] == q[i - |p| + 1] && r[i - 1] == q[i - |p|];
      }
    }
  }

  lemma ReachesTransitive<N(!new), V>(g: Graph<N, V>, a: N, b: N, c: N)
    requires Reaches(g, a, b) && Reaches(g, b, c)
    ensures Reaches(g, a, c)
  {
    var p :| Joins(g, p, a, b);
    var q :| Joins(g, q, b, c);
    JoinsCompose(g, p, q, a, b, c);
  }

  lemma EdgeReaches<N(!new), V>(g: Graph<N, V>, a: N, b: N)
    requires Edge(g, a, b)
    ensures Reaches(g, a, b)
  {
    assert Joins(g, [a, b], a, b);
  }

  lemma HoldsThrough<N(!new), V(!new)>(g: Graph<N, V>, a: N, b: N, v: V)
    requires Reaches(g, a, b) && Holds(g, b, v)
    ensures Holds(g, a, v)
  {
    var m :| Reaches(g, b, m) && m in g.own && v in g.own[m];
    ReachesTransitive(g, a, b, m);
  }

  /** What a node holds, it holds itself or through a reference. */
  lemma HoldsByStep<N(!new), V(!new)>(g: Graph<N, V>, n: N, v: V)
    requires Holds(g, n, v) && n in g.own
    ensures v in g.own[n] || exists t :: Edge(g, n, t) && Holds(g, t, v)
  {
    var m :| Reaches(g, n, m) && m in g.own && v in g.own[m];
    var p :| Joins(g, p, n, m);
    if |p| > 1 {
      assert Edge(g, p[0], p[1]);
      var q := p[1..];
      assert forall i | 0 < i < |q| :: q[i] == p[i + 1] && Edge(g, p[i], p[i + 1]);
      assert Joins(g, q, p[1], m);
    }
  }

  // ----- What every search keeps -----

  /** Entries never change, and only nodes off the stack are added. */
  ghost predicate Grows<N(!new), V>(a: Memo<N, V>, b: Memo<N, V>, stack: set<N>) {
    && (forall k | k in a :: k in b && b[k] == a[k])
    && (forall k | k in b && k !in a :: k !in stack)
  }

  ghost predicate Sound<N(!new), V(!new)>(g: Graph<N, V>, memo: Memo<N, V>) {
    forall k, v | k in memo && v in memo[k] :: Holds(g, k, v)
  }

  /** The references of every memoised node are memoised or still open. */
  ghost predicate ClosedUpTo<N(!new), V>(g: Graph<N, V>, memo: Memo<N, V>, stack: set<N>) {
    forall k, t | k in memo && Edge(g, k, t) :: t in memo || t in stack
  }

  /** `found` includes the values of every node added, and every older entry such a node refers to. */
  ghost predicate Covers<N(!new), V>(g: Graph<N, V>, found: set<V>, before: Memo<N, V>, after: Memo<N, V>) {
    && (forall k | k in after && k !in before :: k in g.own && g.own[k] <= found)
    && (forall k, t | k in after && k !in before && Edge(g, k, t) && t in before :: before[t] <= found)
  }

  /** Every memoised node with no cycle ahead of it has all its values. */
  ghost predicate AcyclicExact<N(!new), V(!new)>(g: Graph<N, V>, memo: Memo<N, V>) {
    forall k, v | k in memo && Acyclic(g, k) && Holds(g, k, v) :: v in memo[k]
  }

  ghost predicate StackReaches<N(!new), V>(g: Graph<N, V>, stack: set<N>, n: N) {
    forall s | s in stack :: Reaches(g, s, n)
  }

  lemma {:induction false} CollectSound<N(!new), V(!new)>(g: Graph<N, V>, n: N, stack: set<N>, memo: Memo<N, V>)
    requires Closed(g) && n in g.refs && Sound(g, memo)
    ensures var (found, after) := Collect(g, n, stack, memo);
            Sound(g, after) && forall v | v in found :: Holds(g, n, v)
    decreases g.refs.Keys - stack, 1, 0
  {
    if n !in memo && n !in stack {
      assert n in g.refs.Keys - stack;
      CollectEachSound(g, n, g.refs[n], stack + {n}, memo);
      ReachesItself(g, n);
    }
  }

  lemma {:induction false} CollectEachSound<N(!new), V(!new)>(
      g: Graph<N, V>, from: N, ns: seq<N>, stack: set<N>, memo: Memo<N, V>)
    requires Closed(g) && Sound(g, memo)
    requires forall i | 0 <= i < |ns| :: ns[i] in g.refs && Edge(g, from, ns[i])
    ensures var (found, after) := CollectEach(g, ns, stack, memo);
            Sound(g, after) && forall v | v in found :: Holds(g, from, v)
    decreases g.refs.Keys - stack, 2, |ns|
  {
    if ns != [] {
      var last := ns[|ns| - 1];
      CollectEachSound(g, from, ns[..|ns| - 1], stack, memo);
      var (_, m) := CollectEach(g, ns[..|ns| - 1], stack, memo);
      CollectSound(g, last, stack, m);
      EdgeReaches(g, from, last);
      var (found, _) := Collect(g, last, stack, m);
      forall v | v in found
        ensures Holds(g, from, v)
      {
        HoldsThrough(g, from, last, v);
      }
    }
  }

  /** The bookkeeping of one search: growth, closure up to the stack, and coverage. */
  ghost predicate Kept<N(!new), V>(
      g: Graph<N, V>, stack: set<N>, before: Memo<N, V>, found: set<V>, after: Memo<N, V>)
  {
    Grows(before, after, stack) && ClosedUpTo(g, after, stack) && Covers(g, found, before, after)
  }

  lemma {:induction false} CollectKeeps<N(!new), V>(g: Graph<N, V>, n: N, stack: set<N>, memo: Memo<N, V>)
    requires Closed(g) && n in g.refs && ClosedUpTo(g, memo, stack)
    ensures var (found, after) := Collect(g, n, stack, memo);
            && Kept(g, stack, memo, found, after)
            && (n in after || n in stack)
            && (n in memo ==> found == memo[n])
            && (n !in stack ==> found == after[n])
    decreases g.refs.Keys - stack, 1, 0
  {
    if n !in memo && n !in stack {
      assert n in g.refs.Keys - stack;
      CollectEachKeeps(g, g.refs[n], stack + {n}, memo);
      var (below, m) := CollectEach(g, g.refs[n], stack + {n}, memo);
      assert forall t | Edge(g, n, t) :: t in m || t in stack + {n};
      NodeAdded(g, n, stack, memo, below, m);
    }
  }

  lemma NodeAdded<N(!new), V>(g: Graph<N, V>, n: N, stack: set<N>, memo: Memo<N, V>, below: set<V>, m: Memo<N, V>)
    requires n in g.own && n !in memo && n !in stack
    requires Kept(g, stack + {n}, memo, below, m)
    requires forall t | Edge(g, n, t) :: t in m || t in stack + {n}
    requires forall t | Edge(g, n, t) && t in memo :: memo[t] <= below
    ensures Kept(g, stack, memo, g.own[n] + below, m[n := g.own[n] + below])
  {
  }

  lemma {:induction false} CollectEachKeeps<N(!new), V>(g: Graph<N, V>, ns: seq<N>, stack: set<N>, memo: Memo<N, V>)
    requires Closed(g) && ClosedUpTo(g, memo, stack)
    requires forall i | 0 <= i < |ns| :: ns[i] in g.refs
    ensures var (found, after) := CollectEach(g, ns, stack, memo);
            && Kept(g, stack, memo, found, after)
            && (forall t | t in ns :: t in after || t in stack)
            && (forall t | t in ns && t in memo :: memo[t] <= found)
    decreases g.refs.Keys - stack, 2, |ns|
  {
    if ns != [] {
      var init, last := ns[..|ns| - 1], ns[|ns| - 1];
      CollectEachKeeps(g, init, stack, memo);
      var (before, m) := CollectEach(g, init, stack, memo);
      CollectKeeps(g, last, stack, m);
      assert ns == init + [last];
      KeptCompose(g, stack, memo, before, m, Collect(g, last, stack, m).0, Collect(g, last, stack, m).1);
    }
  }

  lemma KeptCompose<N(!new), V>(
      g: Graph<N, V>, stack: set<N>, a: Memo<N, V>, f: set<V>, b: Memo<N, V>, h: set<V>, c: Memo<N, V>)
    requires Kept(g, stack, a, f, b) && Kept(g, stack, b, h, c)
    ensures Kept(g, stack, a, f + h, c)
  {
  }

  lemma {:induction false} CollectAcyclic<N(!new), V(!new)>(g: Graph<N, V>, n: N, stack: set<N>, memo: Memo<N, V>)
    requires Closed(g) && n in g.refs && AcyclicExact(g, memo) && StackReaches(g, stack, n)
    ensures var (found, after) := Collect(g, n, stack, memo);
            && AcyclicExact(g, after)
            && (Acyclic(g, n) && n !in stack ==> forall v | Holds(g, n, v) :: v in found)
    decreases g.refs.Keys - stack, 1, 0
  {
    if n !in memo && n !in stack {
      assert n in g.refs.Keys - stack;
      ReachesItself(g, n);
      CollectEachAcyclic(g, n, g.refs[n], stack + {n}, memo);
      var (below, m) := CollectEach(g, g.refs[n], stack + {n}, memo);
      if Acyclic(g, n) {
        forall v | Holds(g, n, v)
          ensures v in g.own[n] + below
        {
          HoldsByStep(g, n, v);
        }
      }
    }
  }

  /** From a node with no cycle ahead, no reference leads back to it or above it. */
  lemma NoWayBack<N(!new), V>(g: Graph<N, V>, n: N, t: N, s: N)
    requires Acyclic(g, n) && Edge(g, n, t) && Reaches(g, s, n)
    ensures t != s && Acyclic(g, t)
  {
    EdgeReaches(g, n, t);
    if t == s {
      var p :| Joins(g, p, t, n);
      JoinsCompose(g, [n, t], p, n, t, n);
      ReachesItself(g, n);
      assert OnCycle(g, n);
    }
    forall m | Reaches(g, t, m)
      ensures !OnCycle(g, m)
    {
      ReachesTransitive(g, n, t, m);
    }
  }

  lemma {:induction false} CollectEachAcyclic<N(!new), V(!new)>(
      g: Graph<N, V>, from: N, ns: seq<N>, stack: set<N>, memo: Memo<N, V>)
    requires Closed(g) && AcyclicExact(g, memo) && from in stack && StackReaches(g, stack, from)
    requires forall i | 0 <= i < |ns| :: ns[i] in g.refs && Edge(g, from, ns[i])
    ensures var (found, after) := CollectEach(g, ns, stack, memo);
            && AcyclicExact(g, after)
            && (Acyclic(g, from) ==> forall t, v | t in ns && Holds(g, t, v) :: v in found)
    decreases g.refs.Keys - stack, 2, |ns|
  {
    if ns != [] {
      var init, last := ns[..|ns| - 1], ns[|ns| - 1];
      CollectEachAcyclic(g, from, init, stack, memo);
      var (_, m) := CollectEach(g, init, stack, memo);
      EdgeReaches(g, from, last);
      forall s | s in stack
        ensures Reaches(g, s, last)
      {
        ReachesTransitive(g, s, from, last);
      }
      CollectAcyclic(g, last, stack, m);
      assert ns == init + [last];
      if Acyclic(g, from) {
        forall s | s in stack
          ensures s != last && Acyclic(g, last)
        {
          NoWayBack(g, from, last, s);
        }
      }
    }
  }

  // ----- The whole table -----

  /** `{name: collect(schema, name, frozenset()) ...}`: one search per root, sharing the memo. */
  ghost function CollectRoots<N(!new), V>(g: Graph<N, V>, roots: seq<N>): (seq<set<V>>, Memo<N, V>)
    requires Closed(g) && forall i | 0 <= i < |roots| :: roots[i] in g.refs
  {
    if roots == [] then ([], map[])
    else
      var (earlier, m) := CollectRoots(g, roots[..|roots| - 1]);
      var (found, after) := Collect(g, roots[|roots| - 1], {}, m);
      (earlier + [found], after)
  }

  lemma {:induction false} RootsKeep<N(!new), V(!new)>(g: Graph<N, V>, roots: seq<N>)
    requires Closed(g) && forall i | 0 <= i < |roots| :: roots[i] in g.refs
    ensures var (table, memo) := CollectRoots(g, roots);
            && |table| == |roots|
            && Sound(g, memo) && ClosedUpTo(g, memo, {}) && AcyclicExact(g, memo)
            && (forall k | k in memo :: k in g.refs)
            && (forall i, v | 0 <= i < |roots| && v in table[i] :: Holds(g, roots[i], v))
            && (forall i, v | 0 <= i < |roots| && Acyclic(g, roots[i]) && Holds(g, roots[i], v) :: v in table[i])
  {
    if roots != [] {
      var init, last := roots[..|roots| - 1], roots[|roots| - 1];
      RootsKeep(g, init);
      var (_, m) := CollectRoots(g, init);
      CollectSound(g, last, {}, m);
      CollectKeeps(g, last, {}, m);
      CollectAcyclic(g, last, {}, m);
    }
  }

  /** Never a value that cannot be reached: for every root, in every order, cycles or not. */
  lemma SearchIsSound<N(!new), V(!new)>(g: Graph<N, V>, roots: seq<N>, i: nat, v: V)
    requires Closed(g) && forall j | 0 <= j < |roots| :: roots[j] in g.refs
    requires i < |CollectRoots(g, roots).0| && v in CollectRoots(g, roots).0[i]
    ensures i < |roots| && Holds(g, roots[i], v)
  {
    RootsKeep(g, roots);
  }

  /** Exactly the reachable values for every root with no cycle ahead, whatever cycles other roots see. */
  lemma SearchIsExactWithoutCycles<N(!new), V(!new)>(g: Graph<N, V>, roots: seq<N>, i: nat, v: V)
    requires Closed(g) && forall j | 0 <= j < |roots| :: roots[j] in g.refs
    requires i < |roots| && Acyclic(g, roots[i])
    ensures |CollectRoots(g, roots).0| == |roots|
    ensures v in CollectRoots(g, roots).0[i] <==> Holds(g, roots[i], v)
  {
    RootsKeep(g, roots);
  }

  // ----- Exactly what one search finds -----

  ghost predicate Shows<N, V>(g: Graph<N, V>, memo: Memo<N, V>, n: N, v: V) {
    if n in memo then v in memo[n] else n in g.own && v in g.own[n]
  }

  ghost predicate SeenAlong<N(!new), V>(g: Graph<N, V>, memo: Memo<N, V>, p: seq<N>, n: N, v: V) {
    && Route(g, p) && p[0] == n
    && (forall i | 0 <= i < |p| - 1 :: p[i] !in memo)
    && Shows(g, memo, p[|p| - 1], v)
  }

  /** `v` is seen from `n` by a walk that stops at the first node an earlier search memoised. */
  ghost predicate Seen<N(!new), V>(g: Graph<N, V>, memo: Memo<N, V>, n: N, v: V) {
    exists p :: SeenAlong(g, memo, p, n, v)
  }

  lemma SeenByStep<N(!new), V>(g: Graph<N, V>, memo: Memo<N, V>, n: N, t: N, v: V)
    requires n !in memo && Edge(g, n, t) && Seen(g, memo, t, v)
    ensures Seen(g, memo, n, v)
  {
    var p :| SeenAlong(g, memo, p, t, v);
    var q := [n] + p;
    forall i | 0 < i < |q|
      ensures Edge(g, q[i - 1], q[i])
    {
      if i > 1 {
        assert Edge(g, p[i - 2], p[i - 1]);
      }
    }
    assert forall i | 0 < i < |q| - 1 :: q[i] == p[i - 1];
    assert SeenAlong(g, memo, q, n, v);
  }

  /** Entries made since `start` hold only what is seen past `start`. */
  ghost predicate SeenSince<N(!new), V(!new)>(g: Graph<N, V>, start: Memo<N, V>, memo: Memo<N, V>) {
    && (forall k | k in start :: k in memo && memo[k] == start[k])
    && (forall k, v | k in memo && v in memo[k] :: Seen(g, start, k, v))
  }

  lemma {:induction false} CollectSeesOnly<N(!new), V(!new)>(
      g: Graph<N, V>, start: Memo<N, V>, n: N, stack: set<N>, memo: Memo<N, V>)
    requires Closed(g) && n in g.refs && SeenSince(g, start, memo)
    ensures var (found, after) := Collect(g, n, stack, memo);
            SeenSince(g, start, after) && forall v | v in found :: Seen(g, start, n, v)
    decreases g.refs.Keys - stack, 1, 0
  {
    if n !in memo && n !in stack {
      assert n in g.refs.Keys - stack;
      CollectEachSeesOnly(g, start, n, g.refs[n], stack + {n}, memo);
      forall v | v in g.own[n]
        ensures Seen(g, start, n, v)
      {
        assert SeenAlong(g, start, [n], n, v);
      }
    }
  }

  lemma {:induction false} CollectEachSeesOnly<N(!new), V(!new)>(
      g: Graph<N, V>, start: Memo<N, V>, from: N, ns: seq<N>, stack: set<N>, memo: Memo<N, V>)
    requires Closed(g) && SeenSince(g, start, memo) && from !in start
    requires forall i | 0 <= i < |ns| :: ns[i] in g.refs && Edge(g, from, ns[i])
    ensures var (found, after) := CollectEach(g, ns, stack, memo);
            SeenSince(g, start, after) && forall v | v in found :: Seen(g, start, from, v)
    decreases g.refs.Keys - stack, 2, |ns|
  {
    if ns != [] {
      var last := ns[|ns| - 1];
      CollectEachSeesOnly(g, start, from, ns[..|ns| - 1], stack, memo);
      var (_, m) := CollectEach(g, ns[..|ns| - 1], stack, memo);
      CollectSeesOnly(g, start, last, stack, m);
      forall v | v in Collect(g, last, stack, m).0
        ensures Seen(g, start, from, v)
      {
        SeenByStep(g, start, from, last, v);
      }
    }
  }

  /** A walk past the old memo stays among the nodes the search adds, up to its last node. */
  lemma {:induction false} RouteIsAdded<N(!new), V>(
      g: Graph<N, V>, before: Memo<N, V>, after: Memo<N, V>, p: seq<N>, i: nat)
    requires Route(g, p) && ClosedUpTo(g, after, {}) && p[0] in after && i < |p|
    requires forall j | 0 <= j < |p| - 1 :: p[j] !in before
    ensures p[i] in after
  {
    if i > 0 {
      RouteIsAdded(g, before, after, p, i - 1);
      assert Edge(g, p[i - 1], p[i]);
    }
  }

  /**
   What a search started between two others returns, exactly: the values on walks that stop at
   the first memoised node, which contributes its memo entry, complete or not.
   */
  lemma SearchFindsExactlyTheSeen<N(!new), V(!new)>(g: Graph<N, V>, root: N, memo: Memo<N, V>, v: V)
    requires Closed(g) && root in g.refs && ClosedUpTo(g, memo, {})
    ensures v in Collect(g, root, {}, memo).0 <==> Seen(g, memo, root, v)
  {
    forall k, w | k in memo && w in memo[k]
      ensures Seen(g, memo, k, w)
    {
      assert SeenAlong(g, memo, [k], k, w);
    }
    CollectSeesOnly(g, memo, root, {}, memo);
    CollectKeeps(g, root, {}, memo);
    var (found, after) := Collect(g, root, {}, memo);
    if Seen(g, memo, root, v) {
      var p :| SeenAlong(g, memo, p, root, v);
      var last := |p| - 1;
      RouteIsAdded(g, memo, after, p, last);
      if last > 0 {
        RouteIsAdded(g, memo, after, p, last - 1);
        assert Edge(g, p[last - 1], p[last]);
      }
    }
  }

  /** Hence the first root visited is exact, cyclic or not. */
  lemma FirstRootIsExact<N(!new), V(!new)>(g: Graph<N, V>, root: N, v: V)
    requires Closed(g) && root in g.refs
    ensures v in Collect(g, root, {}, map[]).0 <==> Holds(g, root, v)
  {
    SearchFindsExactlyTheSeen(g, root, map[], v);
    if Holds(g, root, v) {
      var m :| Reaches(g, root, m) && m in g.own && v in g.own[m];
      var p :| Joins(g, p, root, m);
      assert SeenAlong(g, map[], p, root, v);
    }
    if Seen(g, map[], root, v) {
      var p :| SeenAlong(g, map[], p, root, v);
      assert Joins(g, p, root, p[|p| - 1]);
    }
  }

  // ----- Entry by entry -----

  /** A search adds only nodes it reaches. */
  lemma {:induction false} CollectReaches<N(!new), V>(g: Graph<N, V>, n: N, stack: set<N>, memo: Memo<N, V>)
    requires Closed(g) && n in g.refs
    ensures forall k | k in Collect(g, n, stack, memo).1 && k !in memo :: Reaches(g, n, k)
    decreases g.refs.Keys - stack, 1, 0
  {
    if n !in memo && n !in stack {
      assert n in g.refs.Keys - stack;
      CollectEachReaches(g, n, g.refs[n], stack + {n}, memo);
      ReachesItself(g, n);
    }
  }

  lemma {:induction false} CollectEachReaches<N(!new), V>(
      g: Graph<N, V>, from: N, ns: seq<N>, stack: set<N>, memo: Memo<N, V>)
    requires Closed(g) && forall i | 0 <= i < |ns| :: ns[i] in g.refs && Edge(g, from, ns[i])
    ensures forall k | k in CollectEach(g, ns, stack, memo).1 && k !in memo :: Reaches(g, from, k)
    decreases g.refs.Keys - stack, 2, |ns|
  {
    if ns != [] {
      var init, last := ns[..|ns| - 1], ns[|ns| - 1];
      CollectEachReaches(g, from, init, stack, memo);
      var m := CollectEach(g, init, stack, memo).1;
      CollectReaches(g, last, stack, m);
      EdgeReaches(g, from, last);
      forall k | k in Collect(g, last, stack, m).1 && k !in m
        ensures Reaches(g, from, k)
      {
        ReachesTransitive(g, from, last, k);
      }
    }
  }

  ghost predicate ReachedFrom<N(!new), V>(g: Graph<N, V>, roots: seq<N>, n: N) {
    exists j :: 0 <= j < |roots| && Reaches(g, roots[j], n)
  }

  /** The memo holds only what some root so far reaches. */
  lemma {:induction false} MemoIsReached<N(!new), V>(g: Graph<N, V>, roots: seq<N>)
    requires Closed(g) && forall j | 0 <= j < |roots| :: roots[j] in g.refs
    ensures forall k | k in CollectRoots(g, roots).1 :: ReachedFrom(g, roots, k)
  {
    if roots != [] {
      var init, last := roots[..|roots| - 1], roots[|roots| - 1];
      MemoIsReached(g, init);
      var m := CollectRoots(g, init).1;
      CollectReaches(g, last, {}, m);
      forall k | k in CollectRoots(g, roots).1
        ensures ReachedFrom(g, roots, k)
      {
        if k in m {
          var j :| 0 <= j < |init| && Reaches(g, init[j], k);
          assert Reaches(g, roots[j], k);
        } else {
          assert Reaches(g, roots[|roots| - 1], k);
        }
      }
    }
  }

  lemma {:induction false} EntryIsSearch<N(!new), V(!new)>(g: Graph<N, V>, roots: seq<N>, i: nat)
    requires Closed(g) && i < |roots| && forall j | 0 <= j < |roots| :: roots[j] in g.refs
    ensures |CollectRoots(g, roots).0| == |roots| && ClosedUpTo(g, CollectRoots(g, roots[..i]).1, {})
    ensures CollectRoots(g, roots).0[i] == Collect(g, roots[i], {}, CollectRoots(g, roots[..i]).1).0
    decreases |roots|
  {
    var init := roots[..|roots| - 1];
    RootsKeep(g, init);
    if i < |init| {
      EntryIsSearch(g, init, i);
      assert init[..i] == roots[..i];
    } else {
      assert roots[..i] == init;
    }
  }

  /** What each entry of the table holds, exactly: what is seen past the memo the earlier roots have left. */
  lemma EntryIsTheSeen<N(!new), V(!new)>(g: Graph<N, V>, roots: seq<N>, i: nat, v: V)
    requires Closed(g) && i < |roots| && forall j | 0 <= j < |roots| :: roots[j] in g.refs
    ensures |CollectRoots(g, roots).0| == |roots|
    ensures v in CollectRoots(g, roots).0[i] <==> Seen(g, CollectRoots(g, roots[..i]).1, roots[i], v)
  {
    EntryIsSearch(g, roots, i);
    SearchFindsExactlyTheSeen(g, roots[i], CollectRoots(g, roots[..i]).1, v);
  }

  /** What this root shares with earlier ones has no cycle ahead. */
  ghost predicate SharesNoCycle<N(!new), V>(g: Graph<N, V>, roots: seq<N>, i: nat)
    requires i < |roots|
  {
    forall n | Reaches(g, roots[i], n) && ReachedFrom(g, roots[..i], n) :: Acyclic(g, n)
  }

  lemma RoutePrefixReaches<N(!new), V>(g: Graph<N, V>, p: seq<N>, i: nat)
    requires Route(g, p) && i < |p|
    ensures Reaches(g, p[0], p[i]) && Reaches(g, p[i], p[|p| - 1])
  {
    var before, after := p[..i + 1], p[i..];
    forall k | 0 < k < |after|
      ensures Edge(g, after[k - 1], after[k])
    {
      assert Edge(g, p[i + k - 1], p[i + k]);
    }
    assert Joins(g, before, p[0], p[i]) && Joins(g, after, p[i], p[|p| - 1]);
  }

  /** The first memoised node on a route, or its end. */
  lemma FirstMemoised<N(!new), V>(g: Graph<N, V>, memo: Memo<N, V>, p: seq<N>) returns (i: nat)
    requires Route(g, p)
    ensures i < |p| && (p[i] in memo || i == |p| - 1) && forall k | 0 <= k < i :: p[k] !in memo
  {
    i := 0;
    while p[i] !in memo && i < |p| - 1
      invariant i < |p| && forall k | 0 <= k < i :: p[k] !in memo
    {
      i := i + 1;
    }
  }

  lemma SeenIfEntriesComplete<N(!new), V(!new)>(g: Graph<N, V>, memo: Memo<N, V>, root: N, v: V)
    requires forall n | Reaches(g, root, n) && n in memo && Holds(g, n, v) :: v in memo[n]
    requires Holds(g, root, v)
    ensures Seen(g, memo, root, v)
  {
    var m :| Reaches(g, root, m) && m in g.own && v in g.own[m];
    var p :| Joins(g, p, root, m);
    var i := FirstMemoised(g, memo, p);
    RoutePrefixReaches(g, p, i);
    assert Holds(g, p[i], v);
    assert SeenAlong(g, memo, p[..i + 1], root, v);
  }

  /**
   The entry of a root is complete if what it shares with earlier roots has no cycle ahead. That covers the first
   root, roots that share nothing, and roots with no cycle ahead of them.
   */
  lemma CompleteUnlessCycleShared<N(!new), V(!new)>(g: Graph<N, V>, roots: seq<N>, i: nat, v: V)
    requires Closed(g) && i < |roots| && forall j | 0 <= j < |roots| :: roots[j] in g.refs
    requires SharesNoCycle(g, roots, i)
    ensures |CollectRoots(g, roots).0| == |roots|
    ensures v in CollectRoots(g, roots).0[i] <==> Holds(g, roots[i], v)
  {
    var memo := CollectRoots(g, roots[..i]).1;
    EntryIsTheSeen(g, roots, i, v);
    SearchIsSoundAt(g, roots, i, v);
    RootsKeep(g, roots[..i]);
    MemoIsReached(g, roots[..i]);
    if Holds(g, roots[i], v) {
      SeenIfEntriesComplete(g, memo, roots[i], v);
    }
  }

  lemma SearchIsSoundAt<N(!new), V(!new)>(g: Graph<N, V>, roots: seq<N>, i: nat, v: V)
    requires Closed(g) && i < |roots| && forall j | 0 <= j < |roots| :: roots[j] in g.refs
    ensures |CollectRoots(g, roots).0| == |roots|
    ensures v in CollectRoots(g, roots).0[i] ==> Holds(g, roots[i], v)
  {
    RootsKeep(g, roots);
  }

  /** The three cases it covers. */
  lemma SharesNoCycleCases<N(!new), V>(g: Graph<N, V>, roots: seq<N>, i: nat)
    requires i < |roots|
    requires i == 0 || Acyclic(g, roots[i])
             || forall n | Reaches(g, roots[i], n) :: !ReachedFrom(g, roots[..i], n)
    ensures SharesNoCycle(g, roots, i)
  {
    if Acyclic(g, roots[i]) {
      forall n | Reaches(g, roots[i], n)
        ensures Acyclic(g, n)
      {
        forall m | Reaches(g, n, m)
          ensures !OnCycle(g, m)
        {
          ReachesTransitive(g, roots[i], n, m);
        }
      }
    }
  }

  // ----- Where a value is missed -----

  /** A node with one reference. */
  lemma CollectSingle<N(!new), V>(g: Graph<N, V>, n: N, t: N, stack: set<N>, memo: Memo<N, V>)
    requires Closed(g) && n in g.refs && g.refs[n] == [t] && n !in memo && n !in stack
    ensures t in g.refs
    ensures var (below, after) := Collect(g, t, stack + {n}, memo);
            Collect(g, n, stack, memo) == (g.own[n] + below, after[n := g.own[n] + below])
  {
    var inner := stack + {n};
    assert g.refs[n][0] == t;
    assert [t][..0] == [];
    var (below, after) := Collect(g, t, inner, memo);
    assert CollectEach(g, [], inner, memo) == ({}, memo);
    assert {} + below == below;
    assert CollectEach(g, [t], inner, memo) == (below, after);
  }

  /** Two nodes that refer to each other: the second root misses what the first one holds. */
  lemma LaterRootMisses<N(!new), V(!new)>(g: Graph<N, V>, m: N, n: N)
    requires Closed(g) && m != n && m in g.refs && n in g.refs && g.refs[m] == [n] && g.refs[n] == [m]
    ensures CollectRoots(g, [m, n]).0 == [g.own[m] + g.own[n], g.own[n]]
    ensures forall v | v in g.own[m] :: Holds(g, n, v)
  {
    var none: Memo<N, V> := map[];
    var empty: set<V> := {};
    var one: set<N> := {};
    CollectSingle(g, m, n, one, none);
    CollectSingle(g, n, m, one + {m}, none);
    var both := one + {m} + {n};
    assert Collect(g, m, both, none) == (empty, none);
    assert g.own[n] + empty == g.own[n];
    var after := none[n := g.own[n]][m := g.own[m] + g.own[n]];
    assert Collect(g, m, one, none) == (g.own[m] + g.own[n], after);
    TwoRoots(g, m, n, g.own[m] + g.own[n], after);
    assert Joins(g, [n, m], n, m);
    assert Reaches(g, n, m);
  }

  lemma TwoRoots<N(!new), V>(g: Graph<N, V>, m: N, n: N, first: set<V>, after: Memo<N, V>)
    requires Closed(g) && m in g.refs && n in g.refs
    requires Collect(g, m, {}, map[]) == (first, after) && n in after
    ensures CollectRoots(g, [m, n]).0 == [first, after[n]]
  {
    var noRows: seq<set<V>> := [];
    var none: Memo<N, V> := map[];
    assert CollectRoots(g, []) == (noRows, none);
    assert [m][..0] == [] && [m, n][..1] == [m];
    assert noRows + [first] == [first];
    assert CollectRoots(g, [m]) == ([first], after);
    assert Collect(g, n, {}, after) == (after[n], after);
  }

  /** Searching `m` and then `n`, a value that `n` is meant to find is not found. */
  ghost predicate Loses<N(!new), V(!new)>(g: Graph<N, V>, m: N, n: N, lost: V) {
    && Closed(g) && m in g.refs && n in g.refs
    && |CollectRoots(g, [m, n]).0| == 2
    && Holds(g, n, lost) && lost !in CollectRoots(g, [m, n]).0[1]
  }

  lemma CycleLoses<N(!new), V(!new)>(g: Graph<N, V>, m: N, n: N, lost: V)
    requires Closed(g) && m != n && m in g.refs && n in g.refs && g.refs[m] == [n] && g.refs[n] == [m]
    requires lost in g.own[m] && lost !in g.own[n]
    ensures Loses(g, m, n, lost)
  {
    LaterRootMisses(g, m, n);
  }
}
