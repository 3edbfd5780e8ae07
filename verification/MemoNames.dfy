/**
 Which nodes each search finds, whatever values they hold: the search is run with every node holding its own
 name, and the table of any other assignment of values can be read off that one.
 */
module MemoNames {
  import opened MemoSearch

  /** The same references, each node holding its own name. */
  ghost function NamesOf<N(!new), V>(g: Graph<N, V>): (names: Graph<N, N>)
    requires Closed(g)
    ensures Closed(names)
  {
    Graph(map n | n in g.refs :: {n}, g.refs)
  }

  /** These are the values the named nodes hold. */
  ghost predicate Spells<N(!new), V(!new)>(g: Graph<N, V>, names: set<N>, found: set<V>) {
    forall v :: v in found <==> exists n :: n in names && n in g.own && v in g.own[n]
  }

  ghost predicate MemoSpells<N(!new), V(!new)>(g: Graph<N, V>, names: Memo<N, N>, memo: Memo<N, V>) {
    names.Keys == memo.Keys && forall k | k in memo :: Spells(g, names[k], memo[k])
  }

  lemma SpellsUnion<N(!new), V(!new)>(g: Graph<N, V>, a: set<N>, x: set<V>, b: set<N>, y: set<V>)
    requires Spells(g, a, x) && Spells(g, b, y)
    ensures Spells(g, a + b, x + y)
  {
  }

  lemma SpellsOwn<N(!new), V(!new)>(g: Graph<N, V>, n: N)
    requires n in g.own
    ensures Spells(g, {n}, g.own[n])
  {
    assert n in {n};
  }

  lemma {:induction false} CollectSpells<N(!new), V(!new)>(
      g: Graph<N, V>, n: N, stack: set<N>, names: Memo<N, N>, memo: Memo<N, V>)
    requires Closed(g) && n in g.refs && MemoSpells(g, names, memo)
    ensures var (a, b) := Collect(NamesOf(g), n, stack, names);
            var (x, y) := Collect(g, n, stack, memo);
            Spells(g, a, x) && MemoSpells(g, b, y)
    decreases g.refs.Keys - stack, 1, 0
  {
    if n !in memo && n !in stack {
      assert n in g.refs.Keys - stack;
      CollectEachSpells(g, g.refs[n], stack + {n}, names, memo);
      SpellsOwn(g, n);
      SpellsUnion(g, {n}, g.own[n], CollectEach(NamesOf(g), g.refs[n], stack + {n}, names).0,
                  CollectEach(g, g.refs[n], stack + {n}, memo).0);
    }
  }

  lemma {:induction false} CollectEachSpells<N(!new), V(!new)>(
      g: Graph<N, V>, ns: seq<N>, stack: set<N>, names: Memo<N, N>, memo: Memo<N, V>)
    requires Closed(g) && MemoSpells(g, names, memo) && forall i | 0 <= i < |ns| :: ns[i] in g.refs
    ensures var (a, b) := CollectEach(NamesOf(g), ns, stack, names);
            var (x, y) := CollectEach(g, ns, stack, memo);
            Spells(g, a, x) && MemoSpells(g, b, y)
    decreases g.refs.Keys - stack, 2, |ns|
  {
    if ns != [] {
      var init, last := ns[..|ns| - 1], ns[|ns| - 1];
      CollectEachSpells(g, init, stack, names, memo);
      var (a, b) := CollectEach(NamesOf(g), init, stack, names);
      var (x, y) := CollectEach(g, init, stack, memo);
      CollectSpells(g, last, stack, b, y);
      SpellsUnion(g, a, x, Collect(NamesOf(g), last, stack, b).0, Collect(g, last, stack, y).0);
    }
  }

  lemma {:induction false} RootsSpell<N(!new), V(!new)>(g: Graph<N, V>, roots: seq<N>)
    requires Closed(g) && forall i | 0 <= i < |roots| :: roots[i] in g.refs
    ensures var (a, b) := CollectRoots(NamesOf(g), roots);
            var (x, y) := CollectRoots(g, roots);
            && |a| == |x| == |roots| && MemoSpells(g, b, y)
            && forall i | 0 <= i < |roots| :: Spells(g, a[i], x[i])
  {
    if roots != [] {
      var init, last := roots[..|roots| - 1], roots[|roots| - 1];
      RootsSpell(g, init);
      CollectSpells(g, last, {}, CollectRoots(NamesOf(g), init).1, CollectRoots(g, init).1);
    }
  }

  /** The nodes whose values the entry of a root holds, whatever these values are. */
  ghost function FoundNodes<N(!new), V>(g: Graph<N, V>, roots: seq<N>, i: nat): set<N>
    requires Closed(g) && i < |roots| && forall j | 0 <= j < |roots| :: roots[j] in g.refs
  {
    var table := CollectRoots(NamesOf(g), roots).0;
    if i < |table| then table[i] else {}
  }

  /** Every entry of the table is made of the values of the nodes found, and those are reached. */
  lemma EntryIsFoundNodes<N(!new), V(!new)>(g: Graph<N, V>, roots: seq<N>, i: nat)
    requires Closed(g) && i < |roots| && forall j | 0 <= j < |roots| :: roots[j] in g.refs
    ensures |CollectRoots(g, roots).0| == |roots|
    ensures Spells(g, FoundNodes(g, roots, i), CollectRoots(g, roots).0[i])
    ensures forall n | n in FoundNodes(g, roots, i) :: Reaches(g, roots[i], n)
  {
    RootsSpell(g, roots);
    forall n | n in FoundNodes(g, roots, i)
      ensures Reaches(g, roots[i], n)
    {
      SearchIsSoundAt(NamesOf(g), roots, i, n);
      assert Holds(NamesOf(g), roots[i], n);
      SameReach(g, roots[i], n);
    }
  }

  lemma SameReach<N(!new), V>(g: Graph<N, V>, a: N, b: N)
    requires Closed(g)
    ensures Reaches(NamesOf(g), a, b) <==> Reaches(g, a, b)
    ensures Holds(NamesOf(g), a, b) ==> Reaches(g, a, b)
    ensures Reaches(g, a, b) && a in g.refs ==> Holds(NamesOf(g), a, b)
  {
    assert forall x, y :: Edge(NamesOf(g), x, y) <==> Edge(g, x, y);
    assert forall p, x, y :: Joins(NamesOf(g), p, x, y) <==> Joins(g, p, x, y);
    if Reaches(g, a, b) && a in g.refs {
      var p :| Joins(g, p, a, b);
      if |p| > 1 {
        assert Edge(g, p[|p| - 2], p[|p| - 1]);
      }
    }
  }

  // ----- When an entry is complete -----

  ghost predicate EntryComplete<N(!new), V(!new)>(g: Graph<N, V>, roots: seq<N>, i: nat)
    requires Closed(g) && i < |roots| && forall j | 0 <= j < |roots| :: roots[j] in g.refs
  {
    && i < |CollectRoots(g, roots).0|
    && forall v :: v in CollectRoots(g, roots).0[i] <==> Holds(g, roots[i], v)
  }

  ghost predicate FindsAll<N(!new), V(!new)>(g: Graph<N, V>, roots: seq<N>, i: nat)
    requires Closed(g) && i < |roots| && forall j | 0 <= j < |roots| :: roots[j] in g.refs
  {
    forall n | Reaches(g, roots[i], n) :: n in FoundNodes(g, roots, i)
  }

  /** Some node the search finds holds the value. */
  ghost predicate FoundValue<N(!new), V(!new)>(g: Graph<N, V>, roots: seq<N>, i: nat, v: V)
    requires Closed(g) && i < |roots| && forall j | 0 <= j < |roots| :: roots[j] in g.refs
  {
    exists m :: m in FoundNodes(g, roots, i) && m in g.own && v in g.own[m]
  }

  lemma EntryIsFoundValues<N(!new), V(!new)>(g: Graph<N, V>, roots: seq<N>, i: nat, v: V)
    requires Closed(g) && i < |roots| && forall j | 0 <= j < |roots| :: roots[j] in g.refs
    ensures |CollectRoots(g, roots).0| == |roots|
    ensures v in CollectRoots(g, roots).0[i] <==> FoundValue(g, roots, i, v)
    ensures FoundValue(g, roots, i, v) ==> Holds(g, roots[i], v)
  {
    EntryIsFoundNodes(g, roots, i);
    if FoundValue(g, roots, i, v) {
      var m :| m in FoundNodes(g, roots, i) && m in g.own && v in g.own[m];
      assert Reaches(g, roots[i], m);
    }
  }

  /** An entry is complete if and only if every value of a node missed is also held by a node found. */
  lemma CompleteExactly<N(!new), V(!new)>(g: Graph<N, V>, roots: seq<N>, i: nat)
    requires Closed(g) && i < |roots| && forall j | 0 <= j < |roots| :: roots[j] in g.refs
    ensures EntryComplete(g, roots, i) <==>
              forall n, v | Reaches(g, roots[i], n) && n in g.own && v in g.own[n] :: FoundValue(g, roots, i, v)
    ensures FindsAll(g, roots, i) ==> EntryComplete(g, roots, i)
  {
    EntryIsFoundNodes(g, roots, i);
    forall v
      ensures v in CollectRoots(g, roots).0[i] <==> FoundValue(g, roots, i, v)
      ensures FoundValue(g, roots, i, v) ==> Holds(g, roots[i], v)
    {
      EntryIsFoundValues(g, roots, i, v);
    }
    if EntryComplete(g, roots, i) {
      forall n, v | Reaches(g, roots[i], n) && n in g.own && v in g.own[n]
        ensures FoundValue(g, roots, i, v)
      {
        assert Holds(g, roots[i], v);
      }
    }
  }

  /** Whether every node is found can be read off the table of names. */
  lemma NamesTellAll<N(!new), V(!new)>(g: Graph<N, V>, roots: seq<N>, i: nat)
    requires Closed(g) && i < |roots| && forall j | 0 <= j < |roots| :: roots[j] in g.refs
    ensures EntryComplete(NamesOf(g), roots, i) <==> FindsAll(g, roots, i)
  {
    RootsSpell(g, roots);
    forall n
      ensures Holds(NamesOf(g), roots[i], n) <==> Reaches(g, roots[i], n)
    {
      SameReach(g, roots[i], n);
    }
    EntryIsFoundNodes(g, roots, i);
  }

  /**
   An entry is complete whatever values the nodes hold if and only if it is complete when each holds its own name;
   the references alone decide that.
   */
  lemma CompleteForEveryAssignment<N(!new)>(g: Graph<N, N>, roots: seq<N>, i: nat)
    requires Closed(g) && i < |roots| && forall j | 0 <= j < |roots| :: roots[j] in g.refs
    ensures (forall own: map<N, set<N>> {:trigger Graph(own, g.refs)} | own.Keys == g.refs.Keys ::
               EntryComplete(Graph(own, g.refs), roots, i))
            <==> FindsAll(g, roots, i)
  {
    NamesTellAll(g, roots, i);
    if FindsAll(g, roots, i) {
      forall own: map<N, set<N>> | own.Keys == g.refs.Keys
        ensures EntryComplete(Graph(own, g.refs), roots, i)
      {
        var h := Graph(own, g.refs);
        assert NamesOf(h) == NamesOf(g);
        SameRoutes(g, h);
        CompleteExactly(h, roots, i);
      }
    } else {
      var names := map n | n in g.refs :: {n};
      assert names.Keys == g.refs.Keys && Graph(names, g.refs) == NamesOf(g);
    }
  }

  lemma SameRoutes<N(!new), V, W>(g: Graph<N, V>, h: Graph<N, W>)
    requires g.refs == h.refs
    ensures forall a, b :: Reaches(g, a, b) <==> Reaches(h, a, b)
  {
    assert forall a, b :: Edge(g, a, b) <==> Edge(h, a, b);
    assert forall p, a, b :: Joins(g, p, a, b) <==> Joins(h, p, a, b);
  }

  /** What shares no cycle with earlier roots misses nothing. */
  lemma SharingNoCycleFindsAll<N(!new), V(!new)>(g: Graph<N, V>, roots: seq<N>, i: nat)
    requires Closed(g) && i < |roots| && forall j | 0 <= j < |roots| :: roots[j] in g.refs
    requires SharesNoCycle(g, roots, i)
    ensures FindsAll(g, roots, i)
  {
    SameRoutes(g, NamesOf(g));
    forall n | Reaches(g, roots[i], n)
      ensures n in FoundNodes(g, roots, i)
    {
      SameReach(g, roots[i], n);
      SharedAlike(g, roots, i);
      CompleteUnlessCycleShared(NamesOf(g), roots, i, n);
    }
  }

  lemma SharedAlike<N(!new), V(!new)>(g: Graph<N, V>, roots: seq<N>, i: nat)
    requires Closed(g) && i < |roots| && SharesNoCycle(g, roots, i)
    ensures SharesNoCycle(NamesOf(g), roots, i)
  {
    SameRoutes(g, NamesOf(g));
    assert forall p, a, b :: Joins(NamesOf(g), p, a, b) <==> Joins(g, p, a, b);
  }

  lemma ReachedIsNode<N(!new), V(!new)>(g: Graph<N, V>, a: N, b: N)
    requires Closed(g) && a in g.refs && Reaches(g, a, b)
    ensures b in g.refs
  {
    SameReach(g, a, b);
  }

  /** The search from `a`, which refers to `b` and `b` to it, leaves a complete entry for `a`. */
  lemma MemoOfCycle<N(!new)>(g: Graph<N, N>, a: N, b: N)
    requires Closed(g) && a != b && a in g.refs && b in g.refs && g.refs[a] == [b] && g.refs[b] == [a]
    ensures Collect(g, a, {}, map[]) == (g.own[a] + g.own[b], map[b := g.own[b], a := g.own[a] + g.own[b]])
  {
    var none: Memo<N, N> := map[];
    var empty: set<N> := {};
    CollectSingle(g, a, b, empty, none);
    CollectSingle(g, b, a, empty + {a}, none);
    assert Collect(g, a, empty + {a} + {b}, none) == (empty, none);
    assert g.own[b] + empty == g.own[b];
  }

  /**
   Sharing no cycle is not needed. Of two nodes that refer to each other and a third that refers to the first, the
   search from the third shares their cycle and finds everything, as the entry it meets is complete.
   */
  lemma CycleSharedWitness<N(!new), V(!new)>(g: Graph<N, V>, a: N, b: N, c: N)
    requires Closed(g) && a != b && a != c && b != c && g.refs == map[a := [b], b := [a], c := [a]]
    ensures !SharesNoCycle(g, [a, c], 1) && FindsAll(g, [a, c], 1)
  {
    SharesTheCycle(g, a, b, c);
    var names, empty := NamesOf(g), {};
    MemoOfCycle(names, a, b);
    var memo := map[b := {b}, a := {a} + {b}];
    CollectSingle(names, c, a, empty, memo);
    assert Collect(names, a, empty + {c}, memo) == ({a} + {b}, memo);
    SecondEntry(names, a, c, {a} + {b}, memo);
    forall n | Reaches(g, c, n)
      ensures n in {c} + ({a} + {b})
    {
      ReachedIsNode(g, c, n);
    }
  }

  lemma SecondEntry<N(!new)>(g: Graph<N, N>, a: N, c: N, found: set<N>, memo: Memo<N, N>)
    requires Closed(g) && a in g.refs && c in g.refs && Collect(g, a, {}, map[]) == (found, memo)
    ensures CollectRoots(g, [a, c]).0 == [found, Collect(g, c, {}, memo).0]
  {
    var noRows: seq<set<N>> := [];
    assert CollectRoots(g, []) == (noRows, map[]);
    assert [a][..0] == [] && [a, c][..1] == [a];
    assert noRows + [found] == [found];
    assert CollectRoots(g, [a]) == ([found], memo);
  }

  lemma SharesTheCycle<N(!new), V>(g: Graph<N, V>, a: N, b: N, c: N)
    requires a != b && a != c && b != c && g.refs == map[a := [b], b := [a], c := [a]]
    ensures !SharesNoCycle(g, [a, c], 1)
  {
    assert g.refs[a][0] == b && g.refs[b][0] == a && g.refs[c][0] == a;
    assert Joins(g, [a, b, a], a, a) && Joins(g, [c, a], c, a);
    ReachesItself(g, a);
    assert OnCycle(g, a) && !Acyclic(g, a);
    assert Reaches(g, c, a) && [a, c][..1][0] == a && ReachedFrom(g, [a, c][..1], a);
  }
}
