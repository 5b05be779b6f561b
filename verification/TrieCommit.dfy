/** Committing a trie: everything reachable is written children first, then leaves the cache. */
module TrieCommit {
  import opened TrieNode
  import opened TrieCache
  import opened TrieReach

  /** The cached nodes reachable from a list of hashes. */
  ghost function ReachAll(nodes: Nodes, rank: Hash -> nat, cs: seq<Hash>): set<Hash>
    requires Graph(nodes, rank) && META !in cs
  {
    if cs == [] then {}
    else ReachAll(nodes, rank, cs[..|cs| - 1]) + Reach(nodes, rank, cs[|cs| - 1])
  }

  lemma {:induction false} ReachAllHas(nodes: Nodes, rank: Hash -> nat, cs: seq<Hash>)
    requires Graph(nodes, rank) && META !in cs
    ensures forall x :: x in ReachAll(nodes, rank, cs) <==> exists c :: c in cs && x in Reach(nodes, rank, c)
  {
    if cs != [] {
      var n := |cs| - 1;
      ReachAllHas(nodes, rank, cs[..n]);
      assert forall c :: c in cs <==> c in cs[..n] || c == cs[n];
    }
  }

  /** A node reaches itself and what its children reach. */
  lemma ReachByChilds(nodes: Nodes, rank: Hash -> nat, h: Hash, cs: seq<Hash>)
    requires Graph(nodes, rank) && h in nodes && h != META && META !in cs
    requires forall c :: c in cs <==> c in Kids(nodes[h])
    ensures Reach(nodes, rank, h) == {h} + ReachAll(nodes, rank, cs)
  {
    ReachUnfold(nodes, rank, h);
    ReachAllHas(nodes, rank, cs);
    hide Reach, ReachAll, Graph, Kids;
    assert forall x :: x in Reach(nodes, rank, h) <==> x in {h} + ReachAll(nodes, rank, cs);
  }

  // ---- writing ----

  /** Every node of the set is on disk as its serialised content. */
  ghost predicate Written(nodes: Nodes, disk: Disk, s: set<Hash>) {
    forall h :: h in s ==> h in nodes && h in disk && disk[h] == Blob(nodes[h])
  }

  lemma WrittenMore(nodes: Nodes, a: Disk, b: Disk, s: set<Hash>)
    requires Written(nodes, a, s) && Wrote(nodes, a, b)
    ensures Written(nodes, b, s)
  {
  }

  lemma WrittenUnion(nodes: Nodes, disk: Disk, s: set<Hash>, t: set<Hash>)
    requires Written(nodes, disk, s) && Written(nodes, disk, t)
    ensures Written(nodes, disk, s + t)
  {
  }

  lemma WroteOne(nodes: Nodes, disk: Disk, h: Hash)
    requires h in nodes && Kids(nodes[h]) <= disk.Keys
    ensures var disk' := disk[h := Blob(nodes[h])];
            Wrote(nodes, disk, disk') && Written(nodes, disk', {h})
  {
  }

  /** Once everything its children reach is written, a node's children are all on disk. */
  lemma KidsWritten(nodes: Nodes, rank: Hash -> nat, order: seq<Hash>, oldest: Hash, newest: Hash, disk0: Disk, disk: Disk, h: Hash, cs: seq<Hash>)
    requires Sound(nodes, order, oldest, newest, rank, disk0.Keys) && disk0.Keys <= disk.Keys
    requires h in nodes && h != META && META !in cs
    requires forall c :: c in cs <==> c in Kids(nodes[h])
    requires Graph(nodes, rank) && Written(nodes, disk, ReachAll(nodes, rank, cs))
    ensures Kids(nodes[h]) <= disk.Keys
  {
    ReachAllHas(nodes, rank, cs);
    forall c | c in Kids(nodes[h])
      ensures c in disk
    {
      assert h in order;
      if c !in disk0 {
        assert c in order && c in nodes;
        assert c in Reach(nodes, rank, c);
        assert c in ReachAll(nodes, rank, cs);
      }
    }
  }

  lemma WroteKeys(nodes: Nodes, a: Disk, b: Disk)
    requires Wrote(nodes, a, b)
    ensures a.Keys <= b.Keys
  {
  }

  lemma WrittenKeys(nodes: Nodes, disk: Disk, s: set<Hash>)
    requires Written(nodes, disk, s)
    ensures s <= disk.Keys
  {
  }

  // ---- uncaching ----

  /** `b` is `a` without the nodes in `gone`; only flush links differ. */
  ghost predicate Uncached(a: Nodes, b: Nodes, gone: set<Hash>) {
    b.Keys == a.Keys - gone && forall h :: h in b ==> SameCore(b[h], a[h])
  }

  lemma UncachedShrunk(a: Nodes, b: Nodes, gone: set<Hash>)
    requires Uncached(a, b, gone)
    ensures Shrunk(a, b) && a.Keys - b.Keys == gone * a.Keys
  {
  }

  lemma {:induction false} ReachAllDownClosed(nodes: Nodes, rank: Hash -> nat, cs: seq<Hash>)
    requires Graph(nodes, rank) && META !in cs
    ensures DownClosed(nodes, ReachAll(nodes, rank, cs)) && ReachAll(nodes, rank, cs) <= nodes.Keys
  {
    if cs != [] {
      var n := |cs| - 1;
      ReachAllDownClosed(nodes, rank, cs[..n]);
      ReachDownClosed(nodes, rank, cs[n]);
      ReachCached(nodes, rank, cs[n]);
    }
  }

  lemma UncachedNone(a: Nodes, rank: Hash -> nat, cs: seq<Hash>)
    requires Graph(a, rank) && META !in cs
    ensures META !in cs[..0] && Uncached(a, a, ReachAll(a, rank, cs[..0]))
  {
  }

  lemma ReachAllNext(nodes: Nodes, rank: Hash -> nat, cs: seq<Hash>, i: nat)
    requires Graph(nodes, rank) && META !in cs && i < |cs|
    ensures ReachAll(nodes, rank, cs[..i + 1]) == ReachAll(nodes, rank, cs[..i]) + Reach(nodes, rank, cs[i])
  {
    assert cs[..i + 1][..i] == cs[..i] && cs[..i + 1][i] == cs[i];
  }

  /** Uncaching what one more child reaches in what is left removes, in all, what the children so far reached at first. */
  lemma UncachedNext(a: Nodes, b: Nodes, c: Nodes, rank: Hash -> nat, cs: seq<Hash>, i: nat)
    requires Graph(a, rank) && Graph(b, rank) && META !in cs && i < |cs|
    requires Uncached(a, b, ReachAll(a, rank, cs[..i])) && Uncached(b, c, Reach(b, rank, cs[i]))
    ensures Uncached(a, c, ReachAll(a, rank, cs[..i + 1]))
  {
    hide Reach, ReachAll, Graph, DownClosed, Shrunk;
    var gone := ReachAll(a, rank, cs[..i]);
    ReachAllDownClosed(a, rank, cs[..i]);
    UncachedShrunk(a, b, gone);
    assert a.Keys - b.Keys == gone;
    ReachMinus(a, b, rank, cs[i]);
    ReachAllNext(a, rank, cs, i);
  }

  /** The next child still reaches only nodes on disk. */
  lemma ReachOnDisk(a: Nodes, b: Nodes, rank: Hash -> nat, cs: seq<Hash>, i: nat, disk: set<Hash>)
    requires Graph(a, rank) && Graph(b, rank) && META !in cs && i < |cs|
    requires Uncached(a, b, ReachAll(a, rank, cs[..i])) && ReachAll(a, rank, cs) <= disk
    ensures Reach(b, rank, cs[i]) <= disk
  {
    ReachAllHas(a, rank, cs);
    UncachedShrunk(a, b, ReachAll(a, rank, cs[..i]));
    ReachShrinks(a, b, rank, cs[i]);
    assert cs[i] in cs;
    hide Reach, ReachAll, Graph;
    assert forall x :: x in Reach(a, rank, cs[i]) ==> x in ReachAll(a, rank, cs);
  }

  /** A node and what its children reached, removed, is what the node reached. */
  lemma UncachedNode(a: Nodes, a': Nodes, b: Nodes, rank: Hash -> nat, h: Hash, cs: seq<Hash>)
    requires Graph(a, rank) && Graph(a', rank) && OnlyLinksDiffer(a, a') && h in a && h != META && META !in cs
    requires forall c :: c in cs <==> c in Kids(a[h])
    requires Uncached(a', b, ReachAll(a', rank, cs))
    ensures Uncached(a, b - {h}, Reach(a, rank, h))
  {
    hide *;
    SameKids(a, a', h);
    ReachSameLinks(a, a', rank, h);
    ReachByChilds(a', rank, h, cs);
    UncachedMore(a, a', b, h, ReachAll(a', rank, cs));
  }

  lemma UncachedMore(a: Nodes, a': Nodes, b: Nodes, h: Hash, gone: set<Hash>)
    requires OnlyLinksDiffer(a, a') && h in a && Uncached(a', b, gone)
    ensures Uncached(a, b - {h}, {h} + gone)
  {
  }

  lemma ReachSameLinks(a: Nodes, b: Nodes, rank: Hash -> nat, h: Hash)
    requires Graph(a, rank) && Graph(b, rank) && OnlyLinksDiffer(a, b) && h != META
    ensures Reach(a, rank, h) == Reach(b, rank, h)
  {
    ReachShrinks(a, b, rank, h);
    ReachShrinks(b, a, rank, h);
  }

  lemma ChildsAreKids(e: CachedNode, cs: seq<Hash>)
    requires multiset(cs) == multiset(e.children.Keys) + multiset(Embedded(e))
    ensures forall c :: c in cs <==> c in Kids(e)
  {
    forall c ensures c in cs <==> c in Kids(e) {
      assert c in cs <==> c in multiset(cs);
    }
  }

  // ---- unfolding ----

  lemma WroteSelf(nodes: Nodes, disk: Disk)
    ensures Wrote(nodes, disk, disk)
  {
  }

  lemma WrittenNone(nodes: Nodes, disk: Disk)
    ensures Written(nodes, disk, {})
  {
  }

  lemma ReachAllNone(nodes: Nodes, rank: Hash -> nat, cs: seq<Hash>)
    requires Graph(nodes, rank) && META !in cs
    ensures META !in cs[..0] && ReachAll(nodes, rank, cs[..0]) == {}
  {
  }

  lemma ReachSelf(nodes: Nodes, rank: Hash -> nat, h: Hash)
    requires Graph(nodes, rank) && h in nodes && h != META
    ensures h in Reach(nodes, rank, h)
  {
  }

  lemma SameKids(a: Nodes, b: Nodes, h: Hash)
    requires OnlyLinksDiffer(a, b) && h in a
    ensures h in b && Kids(b[h]) == Kids(a[h])
  {
  }

  lemma UncachedNothing(nodes: Nodes)
    ensures Uncached(nodes, nodes, {})
  {
  }

  lemma UncachedKeys(a: Nodes, b: Nodes, gone: set<Hash>)
    requires Uncached(a, b, gone)
    ensures b.Keys <= a.Keys
  {
  }

  lemma SoundParts(nodes: Nodes, order: seq<Hash>, oldest: Hash, newest: Hash, rank: Hash -> nat, disk: set<Hash>)
    requires Sound(nodes, order, oldest, newest, rank, disk)
    ensures Linked(nodes, order, oldest, newest) && Covers(nodes, order, {}) && Graph(nodes, rank)
    ensures Closed(nodes, order, disk) && Counted(nodes, order, disk, multiset{}) && Ordered(nodes, order, disk)
    ensures META !in order
  {
  }

  lemma SoundWhole(nodes: Nodes, order: seq<Hash>, oldest: Hash, newest: Hash, rank: Hash -> nat, disk: set<Hash>)
    requires Linked(nodes, order, oldest, newest) && Covers(nodes, order, {}) && Graph(nodes, rank)
    requires Closed(nodes, order, disk) && Counted(nodes, order, disk, multiset{}) && Ordered(nodes, order, disk)
    ensures Sound(nodes, order, oldest, newest, rank, disk)
  {
  }

  lemma UncachedOrdered(a: Nodes, b: Nodes, gone: set<Hash>, s: seq<Hash>, order: seq<Hash>, disk: set<Hash>)
    requires Uncached(a, b, gone) && Ordered(a, s, disk) && order == Keep(s, b.Keys) && META !in s
    requires Closed(b, order, disk) && Covers(b, order, {})
    ensures Ordered(b, order, disk)
  {
    forall h | h in s && h in b
      ensures h in a && Kids(b[h]) == Kids(a[h])
      ensures forall c :: c in Kids(b[h]) ==> c in b || c in disk
    {
      assert h in order;
    }
    OrderedKeep(a, b, s, disk);
  }

  /** `verifyIntegrity` lists the meta-root's registered children; it has no embedded ones. */
  lemma RootChilds(nodes: Nodes, rank: Hash -> nat, cs: seq<Hash>)
    requires Graph(nodes, rank)
    requires META in nodes && multiset(cs) == multiset(nodes[META].children.Keys) + multiset(Embedded(nodes[META]))
    ensures META !in cs && (forall c :: c in cs <==> c in Kids(nodes[META]))
    ensures META !in cs[..0] && ReachAll(nodes, rank, cs[..0]) == {}
  {
    ChildsAreKids(nodes[META], cs);
    KidsBelow(nodes, rank);
  }

  lemma LiveByChilds(nodes: Nodes, rank: Hash -> nat, cs: seq<Hash>)
    requires Graph(nodes, rank) && META in nodes && META !in cs
    requires forall c :: c in cs <==> c in Kids(nodes[META])
    ensures Live(nodes, rank) == {META} + ReachAll(nodes, rank, cs)
  {
    ReachAllHas(nodes, rank, cs);
    LiveHas(nodes, rank);
    hide Reach, ReachAll, Graph, Kids, Live;
    assert forall x :: x in Live(nodes, rank) <==> x in {META} + ReachAll(nodes, rank, cs);
  }

  lemma LiveHas(nodes: Nodes, rank: Hash -> nat)
    requires Graph(nodes, rank)
    ensures META in nodes
    ensures forall c :: c in Kids(nodes[META]) ==> c != META
    ensures forall x :: x in Live(nodes, rank) <==> x == META || exists c :: c in Kids(nodes[META]) && x in Reach(nodes, rank, c)
  {
    KidsBelow(nodes, rank);
  }
}
