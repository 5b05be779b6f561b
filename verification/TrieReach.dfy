/** What is reachable in the graph of cached nodes, and how removals change it. */
module TrieReach {
  import opened TrieCache

  /** The cached nodes reachable from `h`, itself included. */
  ghost function Reach(nodes: Nodes, rank: Hash -> nat, h: Hash): set<Hash>
    requires Graph(nodes, rank) && h != META
    decreases rank(h)
  {
    if h !in nodes then {}
    else {h} + set c, x | c in Kids(nodes[h]) && x in Reach(nodes, rank, c) :: x
  }

  /** The meta-root and everything reachable from the roots it references. */
  ghost function Live(nodes: Nodes, rank: Hash -> nat): set<Hash>
    requires Graph(nodes, rank)
  {
    assert META in nodes;
    assert forall c :: c in Kids(nodes[META]) ==> c != META;
    {META} + set c, x | c in Kids(nodes[META]) && x in Reach(nodes, rank, c) :: x
  }

  /** Kid-closed removals: whatever a removed node references is removed too, if it was cached. */
  ghost predicate DownClosed(a: Nodes, removed: set<Hash>) {
    forall x, c :: x in removed && x in a && c in Kids(a[x]) && c in a ==> c in removed
  }

  /** Nodes only disappear; those that stay keep their references. */
  ghost predicate Shrunk(a: Nodes, b: Nodes) {
    b.Keys <= a.Keys && forall h :: h in b ==> b[h].content == a[h].content && b[h].children == a[h].children
  }

  lemma ShrunkKids(a: Nodes, b: Nodes, h: Hash)
    requires Shrunk(a, b) && h in b
    ensures Kids(a[h]) == Kids(b[h])
  {
  }

  lemma KidsBelow(nodes: Nodes, rank: Hash -> nat)
    requires Graph(nodes, rank)
    ensures META in nodes
    ensures forall p, c :: p in nodes && c in Kids(nodes[p]) ==> c != META
    ensures forall p, c {:trigger c in Kids(nodes[p])} :: p in nodes && p != META && c in Kids(nodes[p]) ==> rank(c) < rank(p)
  {
  }

  lemma ReachUnfold(nodes: Nodes, rank: Hash -> nat, h: Hash)
    requires Graph(nodes, rank) && h in nodes && h != META
    ensures forall c :: c in Kids(nodes[h]) ==> c != META
    ensures forall x :: x in Reach(nodes, rank, h) <==> x == h || exists c :: c in Kids(nodes[h]) && x in Reach(nodes, rank, c)
  {
    KidsBelow(nodes, rank);
  }

  lemma ReachEmpty(nodes: Nodes, rank: Hash -> nat, h: Hash)
    requires Graph(nodes, rank) && h !in nodes && h != META
    ensures Reach(nodes, rank, h) == {}
  {
  }

  lemma {:induction false} ReachCached(nodes: Nodes, rank: Hash -> nat, h: Hash)
    requires Graph(nodes, rank) && h != META
    ensures Reach(nodes, rank, h) <= nodes.Keys - {META}
    ensures forall x :: x in Reach(nodes, rank, h) ==> rank(x) <= rank(h)
    decreases rank(h)
  {
    if h in nodes {
      forall c | c in Kids(nodes[h])
        ensures c != META && rank(c) < rank(h)
        ensures Reach(nodes, rank, c) <= nodes.Keys - {META}
        ensures forall x :: x in Reach(nodes, rank, c) ==> rank(x) <= rank(c)
      {
        assert c != META;
        ReachCached(nodes, rank, c);
      }
    }
  }

  /** Reachability is closed under references. */
  lemma {:induction false} ReachStep(nodes: Nodes, rank: Hash -> nat, h: Hash, p: Hash, c: Hash)
    requires Graph(nodes, rank) && h != META
    requires p in Reach(nodes, rank, h) && p in nodes && c in Kids(nodes[p]) && c in nodes
    ensures c in Reach(nodes, rank, h)
    decreases rank(h)
  {
    assert c != META;
    if p == h {
      assert c in Reach(nodes, rank, c);
    } else {
      var k :| k in Kids(nodes[h]) && p in Reach(nodes, rank, k);
      assert k != META;
      ReachStep(nodes, rank, k, p, c);
    }
  }

  /** A kid-closed set holding `h`, or `h` not cached, holds everything reachable from it. */
  lemma {:induction false} ReachWithin(nodes: Nodes, rank: Hash -> nat, h: Hash, s: set<Hash>)
    requires Graph(nodes, rank) && h != META
    requires DownClosed(nodes, s) && (h in nodes ==> h in s)
    ensures Reach(nodes, rank, h) <= s
    decreases rank(h)
  {
    if h in nodes {
      forall c | c in Kids(nodes[h])
        ensures Reach(nodes, rank, c) <= s
      {
        assert c != META;
        ReachWithin(nodes, rank, c, s);
      }
    }
  }

  /** After a kid-closed removal, exactly the removed nodes drop out of reach. */
  lemma {:induction false} ReachMinus(a: Nodes, b: Nodes, rank: Hash -> nat, h: Hash)
    requires Graph(a, rank) && Graph(b, rank) && h != META
    requires Shrunk(a, b) && DownClosed(a, a.Keys - b.Keys)
    ensures Reach(b, rank, h) == Reach(a, rank, h) - (a.Keys - b.Keys)
    decreases rank(h)
  {
    hide Graph, DownClosed, Reach;
    var removed := a.Keys - b.Keys;
    KidsBelow(a, rank);
    if h in b {
      ShrunkKids(a, b, h);
      ReachUnfold(a, rank, h);
      ReachUnfold(b, rank, h);
      forall c | c in Kids(a[h])
        ensures Reach(b, rank, c) == Reach(a, rank, c) - removed
      {
        ReachMinus(a, b, rank, c);
      }
    } else {
      ReachEmpty(b, rank, h);
      ReachWithin(a, rank, h, removed);
    }
  }

  lemma ReachDownClosed(nodes: Nodes, rank: Hash -> nat, h: Hash)
    requires Graph(nodes, rank) && h != META
    ensures DownClosed(nodes, Reach(nodes, rank, h))
  {
    forall x, c | x in Reach(nodes, rank, h) && x in nodes && c in Kids(nodes[x]) && c in nodes
      ensures c in Reach(nodes, rank, h)
    {
      ReachStep(nodes, rank, h, x, c);
    }
  }

  // ---- collection is exact ----

  ghost function Above(order: seq<Hash>, rank: Hash -> nat, h: Hash): set<Hash> {
    set x | x in order && rank(x) > rank(h)
  }

  /** When no count exceeds the references and every node has a parent, every node is reachable from the meta-root. */
  lemma {:induction false} RootedIsLive(nodes: Nodes, order: seq<Hash>, rank: Hash -> nat, h: Hash)
    requires Graph(nodes, rank) && Covers(nodes, order, {}) && META !in order
    requires CountedMax(nodes, order, multiset{}) && Rooted(nodes, order)
    requires h in order
    ensures h in Live(nodes, rank)
    decreases |Above(order, rank, h)|
  {
    assert h in nodes && h != META;
    assert TotalRefs(nodes, order, h) > 0;
    if Mult(nodes[META], h) > 0 {
      MultKid(nodes[META], h);
      assert h in Reach(nodes, rank, h);
    } else {
      var p := RefsWitness(nodes, order, h);
      assert p != META;
      MultKid(nodes[p], h);
      assert rank(h) < rank(p);
      assert p in Above(order, rank, h) && p !in Above(order, rank, p);
      assert Above(order, rank, p) < Above(order, rank, h);
      SubsetSize(Above(order, rank, p), Above(order, rank, h));
      RootedIsLive(nodes, order, rank, p);
      var r :| r in Kids(nodes[META]) && p in Reach(nodes, rank, r);
      assert r != META;
      ReachStep(nodes, rank, r, p, h);
    }
  }

  lemma SubsetSize(a: set<Hash>, b: set<Hash>)
    requires a < b
    ensures |a| < |b|
  {
    var x :| x in b && x !in a;
    SubsetSizeLe(a, b - {x});
  }

  lemma {:induction false} SubsetSizeLe(a: set<Hash>, b: set<Hash>)
    requires a <= b
    ensures |a| <= |b|
  {
    if a != {} {
      var x :| x in a;
      SubsetSizeLe(a - {x}, b - {x});
    }
  }

  /** The children of live nodes that are not cached. */
  function Dangling(nodes: Nodes): set<Hash> {
    set p, c | p in nodes && c in Kids(nodes[p]) && c !in nodes :: c
  }

  /** A removal after which no reference newly dangles keeps everything reachable from the meta-root. */
  lemma LiveKept(a: Nodes, b: Nodes, order: seq<Hash>, rank: Hash -> nat)
    requires Graph(a, rank) && Graph(b, rank) && Covers(b, order, {})
    requires Shrunk(a, b) && Closed(b, order, Dangling(a))
    ensures Live(a, rank) <= b.Keys
  {
    assert META in b;
    ShrunkKids(a, b, META);
    forall p, c | p in b && c in Kids(a[p]) && c in a
      ensures c in b
    {
      ShrunkKids(a, b, p);
    }
    assert DownClosed(a, b.Keys);
    forall r | r in Kids(a[META])
      ensures Reach(a, rank, r) <= b.Keys
    {
      assert r != META;
      ReachWithin(a, rank, r, b.Keys);
    }
  }

  lemma LiveShrinks(a: Nodes, b: Nodes, rank: Hash -> nat)
    requires Graph(a, rank) && Graph(b, rank) && Shrunk(a, b)
    ensures Live(b, rank) <= Live(a, rank)
  {
    ShrunkKids(a, b, META);
    forall r | r in Kids(b[META])
      ensures Reach(b, rank, r) <= Reach(a, rank, r)
    {
      assert r != META;
      ReachShrinks(a, b, rank, r);
    }
  }

  lemma {:induction false} ReachShrinks(a: Nodes, b: Nodes, rank: Hash -> nat, h: Hash)
    requires Graph(a, rank) && Graph(b, rank) && Shrunk(a, b) && h != META
    ensures Reach(b, rank, h) <= Reach(a, rank, h)
    decreases rank(h)
  {
    if h in b {
      ShrunkKids(a, b, h);
      forall c | c in Kids(b[h])
        ensures Reach(b, rank, c) <= Reach(a, rank, c)
      {
        assert c != META;
        ReachShrinks(a, b, rank, c);
      }
    }
  }

  lemma SurvivorsShrunk(a: Nodes, b: Nodes, root: Hash)
    requires META in a && META in b && Survivors(a, b, META)
    requires b[META].children == DropOne(a[META].children, root)
    ensures Shrunk(WithoutRoot(a, root), b)
  {
  }

  /** What one dereference leaves of an exactly counted cache: the nodes still reachable from the meta-root. */
  lemma CollectedExactly(a: Nodes, b: Nodes, order: seq<Hash>, rank: Hash -> nat, root: Hash)
    requires Graph(a, rank) && Graph(b, rank) && Covers(b, order, {}) && META !in order
    requires Survivors(a, b, META) && b[META].children == DropOne(a[META].children, root)
    requires Closed(b, order, Dangling(a))
    requires CountedMax(b, order, multiset{}) && Rooted(b, order)
    ensures Graph(WithoutRoot(a, root), rank) && b.Keys == Live(WithoutRoot(a, root), rank)
  {
    var w := WithoutRoot(a, root);
    EditGraph(a, w, META, root, rank);
    SurvivorsShrunk(a, b, root);
    forall p, c | p in b && c in Kids(b[p]) && c !in b
      ensures c in Dangling(w)
    {
      assert p == META || p in order;
      assert c in Dangling(a);
      ShrunkKids(w, b, p);
      assert c !in w;
    }
    assert Closed(b, order, Dangling(w));
    LiveKept(w, b, order, rank);
    LiveShrinks(w, b, rank);
    forall h | h in b
      ensures h in Live(b, rank)
    {
      if h != META {
        RootedIsLive(b, order, rank, h);
      }
    }
  }

  /** In an exactly counted cache, only the dangling children are elsewhere; all of them are on disk. */
  lemma ElsewhereIsDisk(nodes: Nodes, rank: Hash -> nat, order: seq<Hash>, disk: set<Hash>, exact: bool)
    requires Closed(nodes, order, disk) && Counted(nodes, order, disk, multiset{}) && Covers(nodes, order, {})
    requires exact ==> Counted(nodes, order, {}, multiset{})
    requires Graph(nodes, rank)
    ensures var elsewhere := if exact then Dangling(nodes) else disk;
            Closed(nodes, order, elsewhere) && Counted(nodes, order, elsewhere, multiset{})
    ensures Dangling(nodes) <= disk
  {
    forall p, c | p in nodes && c in Kids(nodes[p]) && c !in order
      ensures c in disk && c in Dangling(nodes)
    {
      assert p == META || p in order;
      assert c != META;
    }
    assert forall p :: p in order ==> p in nodes;
  }

  lemma ElsewhereWas(a: Nodes, b: Nodes, order: seq<Hash>, disk: set<Hash>, exact: bool)
    requires Covers(b, order, {}) && b.Keys <= a.Keys && Dangling(a) <= disk
    requires var elsewhere := if exact then Dangling(a) else disk;
             Closed(b, order, elsewhere) && Counted(b, order, elsewhere, multiset{})
    ensures Closed(b, order, disk) && Counted(b, order, disk, multiset{})
    ensures exact ==> Counted(b, order, {}, multiset{})
  {
  }

  lemma SurvivorsOrdered(a: Nodes, b: Nodes, rank: Hash -> nat, s: seq<Hash>, order: seq<Hash>, disk: set<Hash>)
    requires Ordered(a, s, disk) && Survivors(a, b, META) && order == Keep(s, b.Keys) && META !in s
    requires Closed(b, order, disk)
    ensures Ordered(b, order, disk)
  {
    forall h | h in s && h in b
      ensures h in a && Kids(b[h]) == Kids(a[h])
      ensures forall c :: c in Kids(b[h]) ==> c in b || c in disk
    {
      assert h in order;
    }
    OrderedKeep(a, b, s, disk);
  }

  // ---- dereferencing what the meta-root does not reference ----

  /** The first step of a dereference by the meta-root: the edge, if there is one, and the count go down by one. */
  ghost function Uncounted(nodes: Nodes, root: Hash): Nodes
    requires META in nodes && root in nodes && root != META
  {
    var a := WithoutRoot(nodes, root);
    a[root := a[root].(parents := if a[root].parents > 0 then a[root].parents - 1 else 0)]
  }

  /** Counts that are exact stay exact if, and only if, there was a reference or nothing to count down: else one is lost. */
  lemma CountLost(nodes: Nodes, order: seq<Hash>, rank: Hash -> nat, root: Hash)
    requires Graph(nodes, rank) && CountedExactly(nodes, order) && META !in order && (forall h :: h in order ==> h in nodes)
    requires root in order && root in nodes && root != META
    ensures CountedExactly(Uncounted(nodes, root), order) <==> Releasable(nodes, root)
  {
    RootChildren(nodes, rank);
    var a, b := WithoutRoot(nodes, root), Uncounted(nodes, root);
    if root in nodes[META].children {
      DropRootEdge(nodes, a, order, {}, root);
      PayOne(a, b, order, {}, multiset{root}, root);
      assert multiset{root} - multiset{root} == multiset{};
    } else if nodes[root].parents == 0 {
      PayOne(nodes, b, order, {}, multiset{}, root);
      assert multiset{} - multiset{root} == multiset{};
    } else {
      RefsSame(nodes, b, order, root);
      assert b[root].parents < TotalRefs(b, order, root);
    }
    hide Refs, Mult, Graph, Kids;
  }

  /** And with a count of one the node is deleted although a cached node still refers to it. */
  lemma NodeLost(nodes: Nodes, order: seq<Hash>, rank: Hash -> nat, root: Hash) returns (p: Hash)
    requires Graph(nodes, rank) && CountedExactly(nodes, order) && META !in order && (forall h :: h in order ==> h in nodes)
    requires root in order && root in nodes && root != META && nodes[root].parents == 1 && !Releasable(nodes, root)
    ensures p in order && p in nodes && p != root && root in Kids(nodes[p])
  {
    assert TotalRefs(nodes, order, root) == 1;
    assert Mult(nodes[META], root) == 0;
    p := RefsWitness(nodes, order, root);
    assert root in Kids(nodes[p]) && rank(root) < rank(p);
    hide Refs;
  }
}
