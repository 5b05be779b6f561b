/** The trie database: an intermediate write layer between tries and the disk. */
module TrieDatabase {
  import opened Bytes
  import opened TrieNode
  import opened TrieCache
  import opened TrieReach
  import opened TrieFlush
  import opened TrieCommit
  import opened TrieRead
  import opened TrieLinks

  /** A batch of writes, applied to the disk at once. */
  datatype Batch = Batch(puts: Disk, size: nat)

  const EMPTY_BATCH := Batch(map[], 0)
  const IDEAL_BATCH_SIZE := 100 * 1024

  lemma KnownIs(nodes: Nodes, disk: set<Hash>, rank: Hash -> nat, h: Hash, cs: seq<Hash>, known: bool)
    requires (forall c :: c in cs ==> rank(c) < rank(h)) && (known <==> forall c | c in cs :: c != META && (c in nodes || c in disk))
    ensures known <==> Insertable(nodes, disk, rank, h, cs)
  {
  }

  lemma RoomIs(nodes: Nodes, order: seq<Hash>, disk: set<Hash>, cs: seq<Hash>, room: bool)
    requires META !in order && (forall h :: h in order ==> h in nodes) && (forall h :: h in nodes ==> h == META || h in order)
    requires room <==> forall c | c in nodes :: c == META || c in disk || nodes[c].parents + multiset(cs)[c] < 0x10000
    ensures room <==> NoOverflow(nodes, order, disk, cs)
  {
  }

  /** The operations of the database, as a caller may issue them. */
  datatype Op =
    | InsertBlobOp(hash: Hash, blob: bytes)
    | InsertOp(hash: Hash, blob: bytes, content: Content)
    | ReferenceOp(child: Hash, parent: Hash)
    | DereferenceOp(root: Hash)
    | CapOp(limit: int)
    | CommitOp(hash: Hash)

  class Database {
    var diskdb: Disk
    var nodes: Nodes
    var oldest: Hash
    var newest: Hash
    var nodesSize: int

    /** The cached nodes, meta-root excluded, in insertion order. */
    ghost var order: seq<Hash>
    /** For each node on disk, the children it had when it was written. */
    ghost var diskKids: map<Hash, set<Hash>>
    /** Content addressing makes the graph acyclic: a node's children come before it. */
    ghost const rank: Hash -> nat

    ghost predicate Shape(path: set<Hash>)
      reads this
    {
      Linked(nodes, order, oldest, newest) && Covers(nodes, order, path) && Graph(nodes, rank)
    }

    lemma LiveAreCached(path: set<Hash>)
      requires Shape(path)
      ensures META in nodes && META !in path && META !in order && Distinct(order)
      ensures forall h :: h in order ==> h in nodes && h !in path
      ensures forall h :: h in path ==> h in nodes
      ensures forall h :: h in nodes ==> h == META || h in order || h in path
      ensures order != [] ==> newest in order
      ensures oldest != META ==> order != []
    {
    }

    lemma ShapeIs(path: set<Hash>)
      ensures Shape(path) <==> Linked(nodes, order, oldest, newest) && Covers(nodes, order, path) && Graph(nodes, rank)
    {
    }

    /** What the cached bytes differ from what `nodesSize` says. */
    ghost function Drift(): int
      reads `nodesSize, `nodes, `order
    {
      nodesSize - Sizes(nodes, order)
    }

    /** Nothing referenced is lost, in the cache and on disk. */
    ghost predicate Valid()
      reads this
    {
      Sound(nodes, order, oldest, newest, rank, diskdb.Keys) && DiskClosed(diskdb.Keys, diskKids)
    }

    /** Counts equal references. */
    ghost predicate Exact()
      reads this
    {
      CountedExactly(nodes, order)
    }

    lemma ValidBasics()
      requires Valid()
      ensures META in nodes && META !in order && Distinct(order)
      ensures forall h :: h in order ==> h in nodes
      ensures forall h :: h in nodes ==> h == META || h in order
      ensures oldest == META <==> order == []
      ensures oldest != META ==> newest in nodes && newest != META
    {
      LiveAreCached({});
    }

    lemma Chain()
      requires Valid()
      ensures Sound(nodes, order, oldest, newest, rank, diskdb.Keys) && DiskClosed(diskdb.Keys, diskKids)
      ensures oldest == Head(order) && META !in order && Distinct(order)
      ensures forall h :: h in order ==> h in nodes
      ensures Drift() == nodesSize - Sizes(nodes, order) && Size() == SizeOf(nodesSize, nodes)
    {
    }

    lemma Unfolded()
      ensures Valid() <==> Sound(nodes, order, oldest, newest, rank, diskdb.Keys) && DiskClosed(diskdb.Keys, diskKids)
      ensures Exact() <==> CountedExactly(nodes, order)
      ensures Drift() == nodesSize - Sizes(nodes, order)
      ensures HASH_LENGTH == 32
    {
    }

    lemma DriftIs()
      ensures Drift() == nodesSize - Sizes(nodes, order) && Size() == SizeOf(nodesSize, nodes)
    {
    }

    /** What was valid before some cached nodes were written to disk is valid after. */
    lemma ValidAfter(disk0: Disk)
      requires Sound(nodes, order, oldest, newest, rank, disk0.Keys) && DiskClosed(diskdb.Keys, diskKids)
      requires Wrote(nodes, disk0, diskdb)
      ensures Valid()
    {
      SoundMoreDisk(nodes, order, oldest, newest, rank, disk0.Keys, diskdb.Keys);
    }

    /** Takes a node off the flush list. */
    method Unlink(h: Hash, ghost path: set<Hash>) returns (ghost k: nat)
      requires Shape(path) && h in order
      modifies `nodes, `oldest, `newest, `order
      ensures k < |old(order)| && old(order)[k] == h && order == old(order)[..k] + old(order)[k + 1..]
      ensures OnlyLinksDiffer(old(nodes), nodes)
      ensures Shape(path + {h})
    {
      hide *;
      ShapeIs(path);
      LiveAreCached(path);
      ghost var n, order0, oldest0, newest0 := nodes, order, oldest, newest;
      var node := nodes[h];
      k :| 0 <= k < |order| && order[k] == h;
      Neighbours(nodes, order, oldest, newest, k);
      OrderBasics(nodes, order, oldest, newest, k);
      if h == oldest {
        oldest := node.flushNext;
        nodes := nodes[node.flushNext := nodes[node.flushNext].(flushPrev := META)];
      } else if h == newest {
        newest := node.flushPrev;
        nodes := nodes[node.flushPrev := nodes[node.flushPrev].(flushNext := META)];
      } else {
        nodes := nodes[node.flushPrev := nodes[node.flushPrev].(flushNext := node.flushNext)];
        nodes := nodes[node.flushNext := nodes[node.flushNext].(flushPrev := node.flushPrev)];
      }
      Bypass(n, nodes, h, oldest0, newest0);
      order := order[..k] + order[k + 1..];
      Unlinked(n, nodes, order0, k, oldest0, newest0, oldest, newest, rank, path);
      ShapeIs(path + {h});
    }

    /** All tracked children of an entry: the registered ones in any order, then the embedded ones. */
    static method Childs(e: CachedNode) returns (cs: seq<Hash>)
      ensures multiset(cs) == multiset(e.children.Keys) + multiset(Embedded(e))
    {
      cs := [];
      var todo := e.children.Keys;
      while todo != {}
        invariant multiset(cs) + multiset(todo) == multiset(e.children.Keys)
        decreases todo
      {
        var c :| c in todo;
        cs := cs + [c];
        todo := todo - {c};
      }
      cs := cs + Embedded(e);
    }

    method dereference(child: Hash, parent: Hash, ghost path: set<Hash>, ghost owed: multiset<Hash>, ghost elsewhere: set<Hash>)
      requires Shape(path) && Closed(nodes, order, elsewhere) && Counted(nodes, order, elsewhere, owed)
      requires child != META
      requires if parent == META then path == {} && owed == multiset{} && Releasable(nodes, child)
               else parent in path && owed[child] > 0 && forall x :: x in path ==> rank(child) < rank(x)
      modifies `nodes, `oldest, `newest, `nodesSize, `order
      decreases rank(child), 3
      ensures Shape(path) && Closed(nodes, order, elsewhere)
      ensures Counted(nodes, order, elsewhere, owed - multiset{child})
      ensures old(CountedMax(nodes, order, owed)) ==> CountedMax(nodes, order, owed - multiset{child})
      ensures old(Rooted(nodes, order)) ==> Rooted(nodes, order)
      ensures Survivors(old(nodes), nodes, parent)
      ensures parent in nodes && nodes[parent].children == DropOne(old(nodes[parent].children), child)
      ensures order == Keep(old(order), nodes.Keys)
      ensures Drift() == old(Drift())
    {
      hide Linked, Covers, Graph, Closed, Counted, CountedMax, Rooted, Survivors, Keep, DropOne, Sizes, Mult, Kids, OnlyLinksDiffer, Distinct, TotalRefs;
      LiveAreCached(path);
      ghost var n0 := nodes;
      var node := nodes[parent];
      if child in node.children && node.children[child] > 0 {
        node := node.(children := node.children[child := node.children[child] - 1]);
        if node.children[child] == 0 {
          node := node.(children := node.children - {child});
        }
        nodes := nodes[parent := node];
      }
      DropOneStep(n0[parent].children, child);
      assert nodes == n0[parent := n0[parent].(children := DropOne(n0[parent].children, child))];
      EditEntry(n0, nodes, parent, child, order, oldest, newest, path, rank);
      ghost var due := if parent == META && child in n0[META].children then multiset{child} else owed;
      if parent == META && child in n0[META].children {
        RootChildren(n0, rank);
        DropRootEdge(n0, nodes, order, elsewhere, child);
      } else {
        Transfer(n0, nodes, order, elsewhere, owed);
      }
      assert due - multiset{child} == owed - multiset{child};
      if child !in nodes {
        PayAbsent(nodes, order, elsewhere, due, child);
        return;
      }
      ghost var n1 := nodes;
      Release(child, parent, path, due, elsewhere);
      SurvivorsTrans(n0, n1, nodes, parent);
    }

    /** The rest of `dereference`: uncounts a cached child and, when no references remain, deletes it and cascades. */
    method Release(child: Hash, parent: Hash, ghost path: set<Hash>, ghost due: multiset<Hash>, ghost elsewhere: set<Hash>)
      requires Shape(path) && Closed(nodes, order, elsewhere) && Counted(nodes, order, elsewhere, due)
      requires child in nodes && child != META && (parent == META || parent in path)
      requires due[child] > 0 || nodes[child].parents == 0
      requires forall x :: x in path ==> rank(child) < rank(x)
      modifies `nodes, `oldest, `newest, `nodesSize, `order
      decreases rank(child), 2
      ensures Shape(path) && Closed(nodes, order, elsewhere)
      ensures Counted(nodes, order, elsewhere, due - multiset{child})
      ensures old(CountedMax(nodes, order, due)) ==> CountedMax(nodes, order, due - multiset{child})
      ensures old(Rooted(nodes, order)) ==> Rooted(nodes, order)
      ensures Survivors(old(nodes), nodes, parent)
      ensures parent in nodes && nodes[parent].children == old(nodes[parent].children)
      ensures order == Keep(old(order), nodes.Keys)
      ensures Drift() == old(Drift())
    {
      hide Linked, Covers, Graph, Closed, Counted, CountedMax, Rooted, Survivors, Keep, DropOne, Sizes, Mult, Kids, OnlyLinksDiffer, Distinct, TotalRefs;
      LiveAreCached(path);
      ghost var owed, n := due - multiset{child}, nodes;
      if nodes[child].parents > 0 {
        nodes := nodes[child := nodes[child].(parents := nodes[child].parents - 1)];
      }
      assert nodes == n[child := n[child].(parents := if n[child].parents > 0 then n[child].parents - 1 else 0)];
      EditEntry(n, nodes, child, child, order, oldest, newest, path, rank);
      SurvivorsAny(n, nodes, child, parent);
      PayOne(n, nodes, order, elsewhere, due, child);
      if nodes[child].parents != 0 {
        return;
      }
      ghost var n1 := nodes;
      Collect(child, path, owed, elsewhere);
      LiveAreCached(path);
      SurvivorsAny(n1, nodes, child, parent);
      SurvivorsTrans(n, n1, nodes, parent);
    }

    /** Deletes a cached node without references, and its references to others. */
    method Collect(child: Hash, ghost path: set<Hash>, ghost owed: multiset<Hash>, ghost elsewhere: set<Hash>)
      requires Shape(path) && Closed(nodes, order, elsewhere) && Counted(nodes, order, elsewhere, owed)
      requires child in order && child in nodes && nodes[child].parents == 0
      requires forall x :: x in path ==> rank(child) < rank(x)
      modifies `nodes, `oldest, `newest, `nodesSize, `order
      decreases rank(child), 1
      ensures Shape(path) && Closed(nodes, order, elsewhere) && Counted(nodes, order, elsewhere, owed)
      ensures old(CountedMax(nodes, order, owed)) ==> CountedMax(nodes, order, owed)
      ensures old(forall h :: h in order && h in nodes && h != child ==> nodes[h].parents > 0) ==> Rooted(nodes, order)
      ensures child !in nodes && Survivors(old(nodes), nodes, child)
      ensures order == Keep(old(order), nodes.Keys)
      ensures Drift() == old(Drift())
    {
      hide *;
      ShapeIs(path);
      DriftIs();
      LiveAreCached(path);
      ghost var n0, order0, size0 := nodes, order, nodesSize;
      var node := nodes[child];
      ghost var k := Unlink(child, path);
      ghost var n1, order1 := nodes, order;
      DriftIs();
      var cs := Childs(node);
      DetachDone(n0, n1, rank, order0, k, elsewhere, owed, cs);
      Cascade(child, cs, path + {child}, owed, elsewhere);
      ghost var n2 := nodes;
      SurvivorsTrans(n0, n1, n2, child);
      DriftIs();
      ShapeIs(path + {child});
      LiveAreCached(path + {child});
      EraseDone(n2, child, order, oldest, newest, path, rank, elsewhere, owed);
      SurvivorsMinus(n0, n2, child);
      nodes := nodes - {child};
      nodesSize := nodesSize - (HASH_LENGTH + node.size);
      ShapeIs(path);
      DriftIs();
      KeepDetached(order0, k, order1, order, n2.Keys, nodes.Keys);
    }

    method Cascade(child: Hash, cs: seq<Hash>, ghost path: set<Hash>, ghost owed: multiset<Hash>, ghost elsewhere: set<Hash>)
      requires Shape(path) && Closed(nodes, order, elsewhere) && Counted(nodes, order, elsewhere, owed + multiset(cs))
      requires child in path && child != META && forall x :: x in path ==> rank(child) <= rank(x)
      requires forall c :: c in cs ==> c != META && rank(c) < rank(child)
      modifies `nodes, `oldest, `newest, `nodesSize, `order
      decreases rank(child), 0
      ensures Shape(path) && Closed(nodes, order, elsewhere) && Counted(nodes, order, elsewhere, owed)
      ensures old(CountedMax(nodes, order, owed + multiset(cs))) ==> CountedMax(nodes, order, owed)
      ensures old(Rooted(nodes, order)) ==> Rooted(nodes, order)
      ensures Survivors(old(nodes), nodes, child)
      ensures order == Keep(old(order), nodes.Keys)
      ensures Drift() == old(Drift())
    {
      hide *;
      LiveAreCached(path);
      KeepAll(order, nodes.Keys);
      SurvivorsSelf(nodes, child);
      assert cs[0..] == cs;
      for i := 0 to |cs|
        invariant Shape(path) && Closed(nodes, order, elsewhere)
        invariant Counted(nodes, order, elsewhere, owed + multiset(cs[i..]))
        invariant old(CountedMax(nodes, order, owed + multiset(cs))) ==> CountedMax(nodes, order, owed + multiset(cs[i..]))
        invariant old(Rooted(nodes, order)) ==> Rooted(nodes, order)
        invariant Survivors(old(nodes), nodes, child)
        invariant order == Keep(old(order), nodes.Keys)
        invariant Drift() == old(Drift())
      {
        ghost var n, due := nodes, owed + multiset(cs[i..]);
        assert cs[i..] == [cs[i]] + cs[i + 1..];
        assert due - multiset{cs[i]} == owed + multiset(cs[i + 1..]);
        assert cs[i] in cs;
        dereference(cs[i], child, path, due, elsewhere);
        SurvivorsTrans(old(nodes), n, nodes, child);
        KeepKeep(old(order), n.Keys, nodes.Keys);
      }
      assert owed + multiset(cs[|cs|..]) == owed;
    }

    /** Drops one reference of the meta-root to `root`, and everything only that reference kept alive. */
    method Dereference(root: Hash)
      requires Valid()
      requires root != META ==> Releasable(nodes, root)
      modifies `nodes, `oldest, `newest, `nodesSize, `order
      ensures Valid()
      ensures root == META ==> nodes == old(nodes) && order == old(order)
      ensures root != META ==> Survivors(old(nodes), nodes, META)
      ensures root != META ==> META in nodes && nodes[META].children == DropOne(old(nodes[META].children), root)
      ensures order == Keep(old(order), nodes.Keys)
      ensures Drift() == old(Drift()) && KeepsReadable(old(nodes), diskdb, nodes, diskdb)
      ensures root != META && old(Exact() && Rooted(nodes, order)) ==>
                && Exact() && Rooted(nodes, order)
                && old(Graph(WithoutRoot(nodes, root), rank))
                && nodes.Keys == old(Live(WithoutRoot(nodes, root), rank))
    {
      hide Linked, Covers, Graph, Closed, Counted, CountedMax, Rooted, Survivors, Keep, Sizes, Mult, Kids, OnlyLinksDiffer, Distinct, TotalRefs, DropOne, Ordered, DiskClosed, Dangling, Live;
      LiveAreCached({});
      KeepAll(order, nodes.Keys);
      NothingKeeps(nodes, diskdb);
      hide KeepsReadable;
      if root == META {
        return;
      }
      ghost var n, order0 := nodes, order;
      ghost var exact := Exact();
      ghost var elsewhere := if exact then Dangling(nodes) else diskdb.Keys;
      ElsewhereIsDisk(n, rank, order, diskdb.Keys, exact);
      dereference(root, META, {}, multiset{}, elsewhere);
      assert multiset{} - multiset{root} == multiset{};
      LiveAreCached({});
      ElsewhereWas(n, nodes, order, diskdb.Keys, exact);
      SurvivorsOrdered(n, nodes, rank, order0, order, diskdb.Keys);
      RemovalKeeps(n, diskdb, nodes, META);
      if exact && old(Rooted(nodes, order)) {
        CollectedExactly(n, nodes, order, rank, root);
      }
    }

    constructor (disk: map<Hash, bytes>, ghost kids: map<Hash, set<Hash>>, ghost rank: Hash -> nat)
      requires DiskClosed(disk.Keys, kids)
      ensures Valid() && Exact() && Rooted(nodes, order)
      ensures diskdb == disk && nodes.Keys == {META} && order == [] && nodesSize == 0
    {
      diskdb := disk;
      nodes := map[META := CachedNode(Collapsed(Nil), 0, 0, map[], META, META)];
      oldest, newest, nodesSize := META, META, 0;
      order, diskKids := [], kids;
      this.rank := rank;
    }

    /** Caches a blob that is not a trie node. */
    method InsertBlob(hash: Hash, blob: bytes)
      requires Valid()
      modifies `nodes, `oldest, `newest, `nodesSize, `order
      ensures hash in old(nodes) ==> nodes == old(nodes) && order == old(order) && nodesSize == old(nodesSize) && Valid()
      ensures hash !in old(nodes) ==> Inserted(old(nodes), nodes, hash, []) && nodes[hash].content == Raw(blob)
      ensures hash !in old(nodes) ==> order == old(order) + [hash] && Valid()
      ensures old(Exact()) && hash !in old(nodes) ==> (Exact() <==> old(META in nodes && TotalRefs(nodes, order, hash) == 0))
      ensures GenuineContent(Raw(blob)) ==> KeepsReadable(old(nodes), diskdb, nodes, diskdb)
    {
      hide GenuineContent, KeepsReadable;
      hide Sound, CountedExactly, Sizes, Inserted, TotalRefs, DiskClosed, Bump, Truncate;
      ValidBasics();
      insert(hash, blob, Raw(blob));
    }

    /** Caches a node under its hash unless it is cached already, and counts the references it holds. */
    method insert(hash: Hash, blob: bytes, content: Content)
      requires Valid()
      requires hash !in nodes ==> forall c :: c in EmbeddedIn(content) ==> rank(c) < rank(hash)
      modifies `nodes, `oldest, `newest, `nodesSize, `order
      ensures hash in old(nodes) ==> nodes == old(nodes) && order == old(order) && nodesSize == old(nodesSize) && Valid()
      ensures hash !in old(nodes) ==> Inserted(old(nodes), nodes, hash, EmbeddedIn(content)) && nodes[hash].content == content
      ensures hash !in old(nodes) ==> order == old(order) + [hash]
      ensures hash !in old(nodes) ==>
                (Valid() <==> Insertable(old(nodes), diskdb.Keys, rank, hash, EmbeddedIn(content)) &&
                              NoOverflow(old(nodes), old(order), diskdb.Keys, EmbeddedIn(content)))
      ensures old(Exact()) && hash !in old(nodes) ==>
                (Exact() <==> old(META in nodes && TotalRefs(nodes, order, hash) == 0) &&
                              NoOverflow(old(nodes), old(order), {}, EmbeddedIn(content)))
      ensures GenuineContent(content) ==> KeepsReadable(old(nodes), diskdb, nodes, diskdb)
      ensures hash !in old(nodes) ==>
                nodes[hash].size == |blob| % 0x10000 && nodesSize == old(nodesSize) + (|blob| % 0x10000 + 32) % 0x10000
      ensures hash !in old(nodes) ==> Drift() == old(Drift()) - if |blob| % 0x10000 > 65503 then 0x10000 else 0
    {
      hide *;
      ValidBasics();
      Unfolded();
      NothingKeeps(nodes, diskdb);
      if hash in nodes {
        return;
      }
      ghost var n, order0, oldest0, newest0, disk := nodes, order, oldest, newest, diskdb.Keys;
      var entry := CachedNode(content, Truncate(|blob|), 0, map[], newest, META);
      var cs := Childs(entry);
      EmbeddedOrder(entry, cs);
      CountChildren(cs);
      ghost var bumped := nodes;
      BumpedKeys(n, bumped, cs);
      Append(hash, entry);
      InsertDone(n, bumped, nodes, rank, order0, oldest0, newest0, disk, hash, entry, cs);
      InsertKeeps(n, diskdb, nodes, hash, Embedded(entry));
      Unfolded();
      TruncateIs(|blob|);
      SizeWraps(entry.size);
    }

    /** Adds a node at the new end of the flush list. */
    method Append(hash: Hash, entry: CachedNode)
      requires hash !in nodes && (oldest != META ==> newest in nodes)
      modifies `nodes, `oldest, `newest, `nodesSize, `order
      ensures nodes == Appended(old(nodes), hash, entry, old(oldest), old(newest))
      ensures oldest == (if old(oldest) == META then hash else old(oldest)) && newest == hash
      ensures nodesSize == old(nodesSize) + Bump(entry.size, HASH_LENGTH) && order == old(order) + [hash]
    {
      nodes := nodes[hash := entry];
      if oldest == META {
        oldest, newest := hash, hash;
      } else {
        nodes := nodes[newest := nodes[newest].(flushNext := hash)];
        newest := hash;
      }
      nodesSize := nodesSize + Bump(entry.size, HASH_LENGTH);
      order := order + [hash];
    }

    /** Counts one more parent for each listed occurrence of a cached node. */
    method CountChildren(cs: seq<Hash>)
      modifies `nodes
      ensures Bumped(old(nodes), nodes, cs)
    {
      for i := 0 to |cs|
        invariant nodes.Keys == old(nodes).Keys
        invariant forall c :: c in nodes ==> nodes[c] == old(nodes)[c].(parents := Bump(old(nodes)[c].parents, multiset(cs[..i])[c]))
      {
        assert cs[..i + 1] == cs[..i] + [cs[i]];
        var c := cs[i];
        if c in nodes {
          BumpTwice(old(nodes)[c].parents, multiset(cs[..i])[c]);
          nodes := nodes[c := nodes[c].(parents := Bump(nodes[c].parents, 1))];
        }
      }
      assert cs[..|cs|] == cs;
    }

    /** Registers a reference from `parent` to `child`: once per parent, but as often as asked for the meta-root. */
    method Reference(child: Hash, parent: Hash)
      requires Valid() && child != META
      requires child in nodes ==> parent in nodes
      requires child in nodes && parent != META ==> rank(child) < rank(parent)
      modifies `nodes
      ensures var skip := child !in old(nodes) || (parent != META && child in old(nodes)[parent].children);
              && (skip ==> nodes == old(nodes) && Valid())
              && (!skip ==> nodes == Referenced(old(nodes), child, parent))
              && (!skip ==> (Valid() <==> && (parent == META || child in diskdb || Precedes(order, child, parent))
                                          && (child in old(nodes)[parent].children ==> old(nodes)[parent].children[child] < 0xFFFF)
                                          && (child in diskdb || old(nodes)[child].parents < 0xFFFF)))
              && (!skip && Valid() && old(Exact()) && old(nodes)[child].parents < 0xFFFF ==> Exact())
      ensures Drift() == old(Drift()) && KeepsReadable(old(nodes), diskdb, nodes, diskdb)
    {
      hide *;
      ValidBasics();
      Unfolded();
      NothingKeeps(nodes, diskdb);
      if child !in nodes {
        return;
      }
      if child in nodes[parent].children && parent != META {
        return;
      }
      ghost var n := nodes;
      nodes := nodes[child := nodes[child].(parents := Bump(nodes[child].parents, 1))];
      var held := if child in nodes[parent].children then nodes[parent].children[child] else 0;
      nodes := nodes[parent := nodes[parent].(children := nodes[parent].children[child := Bump(held, 1)])];
      ReferencedIs(n, child, parent);
      ReferenceKeeps(n, diskdb, child, parent);
      ReferenceDone(n, nodes, rank, order, oldest, newest, diskdb.Keys, child, parent);
      Unfolded();
    }

    // ---- writing to disk ----

    /** The batch holds cached nodes, each with its children already on disk or in the batch. */
    ghost predicate Writable(batch: Batch)
      reads this
    {
      forall h :: h in batch.puts ==>
        h in nodes && batch.puts[h] == Blob(nodes[h]) && Kids(nodes[h]) <= diskdb.Keys + batch.puts.Keys
    }

    lemma EmptyBatch()
      ensures Writable(EMPTY_BATCH) && diskdb + EMPTY_BATCH.puts == diskdb
    {
    }

    /** Writes a batch atomically, or fails and writes nothing. */
    method Write(batch: Batch) returns (ok: bool)
      requires DiskClosed(diskdb.Keys, diskKids) && Writable(batch)
      modifies `diskdb, `diskKids
      ensures DiskClosed(diskdb.Keys, diskKids)
      ensures diskdb == if ok then old(diskdb) + batch.puts else old(diskdb)
    {
      ok := *;
      if ok {
        diskdb := diskdb + batch.puts;
        diskKids := diskKids + map h | h in batch.puts :: Kids(nodes[h]);
      }
    }

    /** Adds a node to the batch, and writes the batch out once it is large enough. */
    method Put(h: Hash, batch: Batch) returns (ok: bool, batch': Batch)
      requires DiskClosed(diskdb.Keys, diskKids) && Writable(batch)
      requires h in nodes && Kids(nodes[h]) <= (diskdb + batch.puts).Keys
      modifies `diskdb, `diskKids
      ensures DiskClosed(diskdb.Keys, diskKids)
      ensures Wrote(nodes, old(diskdb), diskdb)
      ensures ok ==> Writable(batch') && diskdb + batch'.puts == (old(diskdb) + batch.puts)[h := Blob(nodes[h])]
    {
      hide DiskClosed, Blob, Kids, Wrote;
      var blob := Blob(nodes[h]);
      ok, batch' := true, Batch(batch.puts[h := blob], batch.size + |blob|);
      WritableNext(h, batch, batch');
      hide Writable;
      WroteBatch(batch');
      if batch'.size >= IDEAL_BATCH_SIZE {
        ok := Write(batch');
        EmptyBatch();
        batch' := EMPTY_BATCH;
      }
    }

    lemma WritableNext(h: Hash, batch: Batch, batch': Batch)
      requires Writable(batch) && h in nodes && Kids(nodes[h]) <= (diskdb + batch.puts).Keys
      requires batch'.puts == batch.puts[h := Blob(nodes[h])]
      ensures Writable(batch') && diskdb + batch'.puts == (diskdb + batch.puts)[h := Blob(nodes[h])]
    {
      hide Blob, Kids;
      assert (diskdb + batch.puts).Keys == diskdb.Keys + batch.puts.Keys;
    }

    lemma WroteBatch(batch: Batch)
      requires Writable(batch)
      ensures Wrote(nodes, diskdb, diskdb) && Wrote(nodes, diskdb, diskdb + batch.puts)
    {
      hide Blob, Kids;
    }

    /** The memory the cache is said to use. */
    function Size(): int
      reads `nodesSize, `nodes
    {
      SizeOf(nodesSize, nodes)
    }

    /** The first loop of `Cap`: batches the oldest nodes until what remains is within `limit`. */
    method Flush(limit: int) returns (ok: bool, cur: Hash, batch: Batch, ghost m: nat)
      requires Valid()
      modifies `diskdb, `diskKids
      ensures DiskClosed(diskdb.Keys, diskKids) && Wrote(nodes, old(diskdb), diskdb)
      ensures ok ==> Writable(batch) && m <= |order| && cur == Head(order[m..])
      ensures ok ==> Wrote(nodes, old(diskdb), diskdb + batch.puts) && Stored(nodes, diskdb + batch.puts, order[..m])
      ensures ok ==> EnoughFlushed(nodes, order, old(Size()), limit, m)
    {
      hide *;
      Chain();
      ghost var size0, disk0, virtual := Size(), diskdb, diskdb;
      FlushStart(nodes, order, oldest, Size(), limit, disk0);
      ok, cur, batch, m := true, oldest, EMPTY_BATCH, 0;
      EmptyBatch();
      var size := Size();
      while size > limit && cur != META
        invariant FlushInv(nodes, order, size0, limit, size, cur, m)
        invariant DiskClosed(diskdb.Keys, diskKids) && Wrote(nodes, disk0, diskdb) && Writable(batch)
        invariant virtual == diskdb + batch.puts && m <= |order| && Wrote(nodes, disk0, virtual) && Stored(nodes, virtual, order[..m])
        decreases |order| - m
      {
        FlushStep(nodes, order, oldest, newest, rank, size0, limit, size, cur, m, disk0, virtual);
        var node := nodes[cur];
        ghost var disk := diskdb;
        ok, batch := Put(cur, batch);
        WroteTrans(nodes, disk0, disk, diskdb);
        if !ok {
          return;
        }
        virtual := virtual[cur := Blob(node)];
        size := size - (3 * HASH_LENGTH + node.size);
        cur := node.flushNext;
        m := m + 1;
      }
      FlushEnd(nodes, order, size0, limit, size, cur, m);
    }

    /** The second loop of `Cap`: drops what was written. */
    method Drop(cur: Hash, ghost m: nat)
      requires Valid() && m <= |order| && cur == Head(order[m..])
      requires forall h :: h in order[..m] ==> h in diskdb
      modifies `nodes, `oldest, `nodesSize, `order
      ensures Valid() && m <= |old(order)| && Dropped(old(nodes), old(order), nodes, order, m)
      ensures nodesSize == old(nodesSize) - Sizes(old(nodes), old(order)[..m]) && Drift() == old(Drift())
    {
      hide *;
      Chain();
      ghost var n, s, size0 := nodes, order, nodesSize;
      ghost var j := 0;
      DropStart(nodes, order, nodesSize);
      while oldest != cur
        invariant j <= m && DropInv(n, s, size0, nodes, order, nodesSize, j)
        invariant Sound(nodes, order, oldest, newest, rank, diskdb.Keys)
        decreases m - j
      {
        DropStep(n, s, size0, nodes, order, oldest, newest, rank, diskdb.Keys, nodesSize, j, m, cur);
        var node := nodes[oldest];
        nodes := nodes - {oldest};
        oldest := node.flushNext;
        nodesSize := nodesSize - (HASH_LENGTH + node.size);
        order := order[1..];
        j := j + 1;
      }
      DropEnd(n, s, size0, nodes, order, newest, rank, diskdb.Keys, nodesSize, j, m, cur);
      DropInvSize(n, s, size0, nodes, order, nodesSize, j);
      if oldest != META {
        nodes := nodes[oldest := nodes[oldest].(flushPrev := META)];
      }
      DriftIs();
      ValidIs();
    }

    lemma ValidIs()
      requires Sound(nodes, order, oldest, newest, rank, diskdb.Keys) && DiskClosed(diskdb.Keys, diskKids)
      ensures Valid()
    {
    }

    /**
      Writes the oldest nodes out and drops them until the cache is within `limit` or empty. `m` is how many.
      A failed write drops nothing.
     */
    method Cap(limit: int) returns (ok: bool, ghost m: nat)
      requires Valid()
      modifies `diskdb, `diskKids, `nodes, `oldest, `nodesSize, `order
      ensures Valid() && Drift() == old(Drift())
      ensures Wrote(old(nodes), old(diskdb), diskdb)
      ensures SameReads(old(nodes), old(diskdb), nodes, diskdb) && KeepsReadable(old(nodes), old(diskdb), nodes, diskdb)
      ensures !ok ==> nodes == old(nodes) && order == old(order) && nodesSize == old(nodesSize)
      ensures ok ==> m <= |old(order)| && Dropped(old(nodes), old(order), nodes, order, m)
      ensures ok ==> m <= |old(order)| && Stored(old(nodes), diskdb, old(order)[..m])
      ensures ok ==> nodesSize + 64 * (|nodes| - 1) <= limit || order == []
      ensures ok ==> EnoughFlushed(old(nodes), old(order), old(Size()), limit, m)
    {
      hide *;
      Chain();
      ghost var n, s, size0, disk0 := nodes, order, nodesSize, diskdb;
      var cur, batch;
      ok, cur, batch, m := Flush(limit);
      ValidAfter(disk0);
      WriteReads(n, disk0, diskdb);
      WriteKeeps(n, disk0, diskdb);
      if ok {
        ok := Write(batch);
        ValidAfter(disk0);
        WriteReads(n, disk0, diskdb);
        WriteKeeps(n, disk0, diskdb);
        if ok {
          StoredKeys(nodes, diskdb, order[..m]);
          Drop(cur, m);
          CapReads(n, s, disk0, nodes, order, diskdb, m);
          CapKeeps(n, s, disk0, nodes, order, diskdb, m);
          DriftIs();
          SizeDropped(n, s, size0, nodes, order, nodesSize, m);
          WithinLimit(n, s, SizeOf(size0, n), limit, m, nodes, order);
          SizeIs(nodesSize, nodes);
        }
      }
      DriftIs();
    }

    /** Batches a cached node and everything reachable from it, children first. */
    method commit(hash: Hash, batch: Batch, ghost disk0: Disk) returns (ok: bool, batch': Batch)
      requires Sound(nodes, order, oldest, newest, rank, disk0.Keys) && hash != META
      requires Wrote(nodes, disk0, diskdb) && DiskClosed(diskdb.Keys, diskKids) && Writable(batch)
      requires Graph(nodes, rank)
      modifies `diskdb, `diskKids
      decreases rank(hash), 1
      ensures DiskClosed(diskdb.Keys, diskKids) && Wrote(nodes, old(diskdb), diskdb)
      ensures ok ==> Writable(batch') && Wrote(nodes, old(diskdb) + batch.puts, diskdb + batch'.puts)
      ensures ok ==> Written(nodes, diskdb + batch'.puts, Reach(nodes, rank, hash))
    {
      hide *;
      ok, batch' := true, batch;
      WroteBatch(batch);
      if hash !in nodes {
        WroteSelf(nodes, diskdb + batch.puts);
        ReachEmpty(nodes, rank, hash);
        WrittenNone(nodes, diskdb + batch.puts);
        return;
      }
      var node := nodes[hash];
      var cs := Childs(node);
      ChildsOf(nodes, rank, hash, cs);
      ChildsAreKids(node, cs);
      ok, batch' := CommitAll(hash, cs, batch, disk0);
      if !ok {
        return;
      }
      ghost var disk1, virtual := diskdb, diskdb + batch'.puts;
      WroteTrans(nodes, disk0, old(diskdb), disk1);
      WroteBatch(batch');
      WroteTrans(nodes, disk0, disk1, virtual);
      WroteKeys(nodes, disk0, virtual);
      KidsWritten(nodes, rank, order, oldest, newest, disk0, virtual, hash, cs);
      ok, batch' := Put(hash, batch');
      WroteTrans(nodes, old(diskdb), disk1, diskdb);
      if ok {
        WroteOne(nodes, virtual, hash);
        ghost var virtual' := diskdb + batch'.puts;
        WroteTrans(nodes, old(diskdb) + batch.puts, virtual, virtual');
        WrittenMore(nodes, virtual, virtual', ReachAll(nodes, rank, cs));
        WrittenUnion(nodes, virtual', {hash}, ReachAll(nodes, rank, cs));
        ReachByChilds(nodes, rank, hash, cs);
      }
    }

    method CommitAll(hash: Hash, cs: seq<Hash>, batch: Batch, ghost disk0: Disk) returns (ok: bool, batch': Batch)
      requires Sound(nodes, order, oldest, newest, rank, disk0.Keys)
      requires Wrote(nodes, disk0, diskdb) && DiskClosed(diskdb.Keys, diskKids) && Writable(batch)
      requires Graph(nodes, rank) && forall c :: c in cs ==> c != META && rank(c) < rank(hash)
      modifies `diskdb, `diskKids
      decreases rank(hash), 0
      ensures DiskClosed(diskdb.Keys, diskKids) && Wrote(nodes, old(diskdb), diskdb)
      ensures ok ==> Writable(batch') && Wrote(nodes, old(diskdb) + batch.puts, diskdb + batch'.puts)
      ensures ok ==> Written(nodes, diskdb + batch'.puts, ReachAll(nodes, rank, cs))
    {
      hide *;
      ok, batch' := true, batch;
      WroteBatch(batch);
      WroteSelf(nodes, diskdb + batch.puts);
      ReachAllNone(nodes, rank, cs);
      WrittenNone(nodes, diskdb + batch.puts);
      for i := 0 to |cs|
        invariant DiskClosed(diskdb.Keys, diskKids) && Wrote(nodes, disk0, diskdb) && Wrote(nodes, old(diskdb), diskdb)
        invariant Writable(batch') && Wrote(nodes, old(diskdb) + batch.puts, diskdb + batch'.puts)
        invariant Written(nodes, diskdb + batch'.puts, ReachAll(nodes, rank, cs[..i]))
      {
        ghost var disk, virtual := diskdb, diskdb + batch'.puts;
        ok, batch' := commit(cs[i], batch', disk0);
        WroteTrans(nodes, disk0, disk, diskdb);
        WroteTrans(nodes, old(diskdb), disk, diskdb);
        if !ok {
          return;
        }
        ghost var virtual' := diskdb + batch'.puts;
        WroteTrans(nodes, old(diskdb) + batch.puts, virtual, virtual');
        WrittenMore(nodes, virtual, virtual', ReachAll(nodes, rank, cs[..i]));
        WrittenUnion(nodes, virtual', ReachAll(nodes, rank, cs[..i]), Reach(nodes, rank, cs[i]));
        ReachAllNext(nodes, rank, cs, i);
      }
      assert cs[..|cs|] == cs;
    }

    /** Removes a node on disk, and everything reachable from it, from the cache. */
    method uncache(hash: Hash, ghost path: set<Hash>)
      requires Shape(path) && Closed(nodes, order, diskdb.Keys) && Counted(nodes, order, diskdb.Keys, multiset{})
      requires Graph(nodes, rank) && hash != META && Reach(nodes, rank, hash) <= diskdb.Keys
      requires forall x :: x in path ==> rank(hash) < rank(x)
      modifies `nodes, `oldest, `newest, `nodesSize, `order
      decreases rank(hash), 1
      ensures Shape(path) && Closed(nodes, order, diskdb.Keys) && Counted(nodes, order, diskdb.Keys, multiset{})
      ensures Graph(old(nodes), rank) && Uncached(old(nodes), nodes, Reach(old(nodes), rank, hash))
      ensures order == Keep(old(order), nodes.Keys)
      ensures Drift() == old(Drift())
    {
      hide *;
      LiveAreCached(path);
      ShapeIs(path);
      DriftIs();
      ghost var n0, order0 := nodes, order;
      if hash !in nodes {
        ReachEmpty(nodes, rank, hash);
        UncachedNothing(nodes);
        KeepAll(order, nodes.Keys);
        return;
      }
      var node := nodes[hash];
      ghost var k := Unlink(hash, path);
      ghost var n1, order1 := nodes, order;
      DriftIs();
      var cs := Childs(node);
      ChildsOf(n0, rank, hash, cs);
      ChildsAreKids(node, cs);
      GraphSame(n0, n1, rank);
      ReachSelf(n0, rank, hash);
      DetachWritten(n0, n1, order0, k, diskdb.Keys);
      DetachSizes(n0, n1, order0, k);
      ReachSameLinks(n0, n1, rank, hash);
      SameKids(n0, n1, hash);
      ReachByChilds(n1, rank, hash, cs);
      UncacheAll(hash, cs, path + {hash});
      ghost var n2 := nodes;
      UncachedNode(n0, n1, n2, rank, hash, cs);
      DriftIs();
      ShapeIs(path + {hash});
      nodes := nodes - {hash};
      nodesSize := nodesSize - (HASH_LENGTH + node.size);
      DeleteNode(n2, hash, order, oldest, newest, path, rank);
      Transfer(n2, nodes, order, diskdb.Keys, multiset{});
      ShapeIs(path);
      DriftIs();
      KeepDetached(order0, k, order1, order, n2.Keys, nodes.Keys);
    }

    method UncacheAll(hash: Hash, cs: seq<Hash>, ghost path: set<Hash>)
      requires Shape(path) && Closed(nodes, order, diskdb.Keys) && Counted(nodes, order, diskdb.Keys, multiset{})
      requires Graph(nodes, rank) && forall c :: c in cs ==> c != META && rank(c) < rank(hash)
      requires ReachAll(nodes, rank, cs) <= diskdb.Keys
      requires forall x :: x in path ==> rank(hash) <= rank(x)
      modifies `nodes, `oldest, `newest, `nodesSize, `order
      decreases rank(hash), 0
      ensures Shape(path) && Closed(nodes, order, diskdb.Keys) && Counted(nodes, order, diskdb.Keys, multiset{})
      ensures Graph(old(nodes), rank) && Uncached(old(nodes), nodes, ReachAll(old(nodes), rank, cs))
      ensures order == Keep(old(order), nodes.Keys)
      ensures Drift() == old(Drift())
    {
      hide *;
      LiveAreCached(path);
      ghost var n0, order0 := nodes, order;
      KeepAll(order, nodes.Keys);
      UncachedNone(nodes, rank, cs);
      for i := 0 to |cs|
        invariant Shape(path) && Closed(nodes, order, diskdb.Keys) && Counted(nodes, order, diskdb.Keys, multiset{})
        invariant Uncached(n0, nodes, ReachAll(n0, rank, cs[..i]))
        invariant order == Keep(order0, nodes.Keys) && nodes.Keys <= n0.Keys
        invariant Drift() == old(Drift())
      {
        ghost var n := nodes;
        ShapeIs(path);
        ReachOnDisk(n0, n, rank, cs, i, diskdb.Keys);
        uncache(cs[i], path);
        ShapeIs(path);
        UncachedKeys(n, nodes, Reach(n, rank, cs[i]));
        UncachedNext(n0, n, nodes, rank, cs, i);
        KeepKeep(order0, n.Keys, nodes.Keys);
      }
      assert cs[..|cs|] == cs;
    }

    /**
      Writes a node and everything reachable from it to disk, then drops it all from the cache. A failed write leaves
      the cache as it was.
     */
    method Commit(hash: Hash) returns (ok: bool)
      requires Valid() && hash != META
      modifies `diskdb, `diskKids, `nodes, `oldest, `newest, `nodesSize, `order
      ensures Valid() && Drift() == old(Drift())
      ensures Wrote(old(nodes), old(diskdb), diskdb)
      ensures SameReads(old(nodes), old(diskdb), nodes, diskdb) && KeepsReadable(old(nodes), old(diskdb), nodes, diskdb)
      ensures ok && hash in old(nodes) ==> hash in diskdb
      ensures ok && hash in old(nodes) && old(Genuine(nodes) && Readable(diskdb)) ==>
                forall p :: p != [] && p[0] == hash && Way(diskdb, p) ==> p[|p| - 1] in diskdb
      ensures !ok ==> nodes == old(nodes) && order == old(order)
      ensures old(Graph(nodes, rank)) && order == Keep(old(order), nodes.Keys)
      ensures ok ==> Written(old(nodes), diskdb, old(Reach(nodes, rank, hash)))
      ensures ok ==> Uncached(old(nodes), nodes, old(Reach(nodes, rank, hash)))
    {
      hide *;
      Chain();
      ghost var disk0, n0, order0 := diskdb, nodes, order;
      SoundParts(nodes, order, oldest, newest, rank, diskdb.Keys);
      KeepAll(order, nodes.Keys);
      WroteSelf(nodes, diskdb);
      EmptyBatch();
      var batch;
      ok, batch := commit(hash, EMPTY_BATCH, disk0);
      ValidAfter(disk0);
      WriteReads(n0, disk0, diskdb);
      WriteKeeps(n0, disk0, diskdb);
      if ok {
        ok := Write(batch);
        ValidAfter(disk0);
        WriteReads(n0, disk0, diskdb);
        WriteKeeps(n0, disk0, diskdb);
        if ok {
          WrittenKeys(nodes, diskdb, Reach(nodes, rank, hash));
          Chain();
          SoundParts(nodes, order, oldest, newest, rank, diskdb.Keys);
          ShapeIs({});
          uncache(hash, {});
          CommitReads(n0, disk0, nodes, diskdb, Reach(n0, rank, hash));
          CommitKeeps(n0, disk0, nodes, diskdb, Reach(n0, rank, hash));
          AllOnDisk(n0, disk0, hash);
          ShapeIs({});
          UncachedOrdered(n0, nodes, Reach(n0, rank, hash), order0, order, diskdb.Keys);
          SoundWhole(nodes, order, oldest, newest, rank, diskdb.Keys);
          ValidIs();
        }
      }
      DriftIs();
    }

    /** From a committed node on, everything can be read from disk. */
    lemma AllOnDisk(n0: Nodes, disk0: Disk, hash: Hash)
      requires Graph(n0, rank) && hash != META && Written(n0, diskdb, Reach(n0, rank, hash)) && KeepsReadable(n0, disk0, nodes, diskdb)
      ensures hash in n0 ==> hash in diskdb
      ensures hash in n0 && Genuine(n0) && Readable(disk0) ==>
                forall p :: p != [] && p[0] == hash && Way(diskdb, p) ==> p[|p| - 1] in diskdb
    {
      if hash in n0 {
        assert hash in Reach(n0, rank, hash);
        if Genuine(n0) && Readable(disk0) {
          forall p | p != [] && p[0] == hash && Way(diskdb, p)
            ensures p[|p| - 1] in diskdb
          {
            WayStays(diskdb, p);
          }
        }
      }
      hide Genuine, Readable, Way, Reach;
    }

    /** Reads a node from the cache, or from disk. */
    method node(hash: Hash) returns (r: Reading)
      requires hash != META
      ensures r == Read(nodes, diskdb, hash)
      ensures Valid() && Genuine(nodes) && Readable(diskdb) ==> forall c :: LeadsOn(r, c) ==> Read(nodes, diskdb, c) != Absent
    {
      AllLeadOn(hash);
      hide Valid, LeadsOn, Genuine, Readable;
      if hash in nodes {
        return Expanded(nodes[hash].content);
      }
      if hash !in diskdb {
        return Absent;
      }
      return Decoded(diskdb[hash]);
    }

    lemma AllLeadOn(h: Hash)
      requires h != META
      ensures Valid() && Genuine(nodes) && Readable(diskdb) ==>
                forall c :: LeadsOn(Read(nodes, diskdb, h), c) ==> Read(nodes, diskdb, c) != Absent
    {
      if Valid() && Genuine(nodes) && Readable(diskdb) {
        forall c | LeadsOn(Read(nodes, diskdb, h), c)
          ensures Read(nodes, diskdb, c) != Absent
        {
          NoDangling(nodes, order, oldest, newest, rank, diskdb, h, c);
        }
      }
    }

    // ---- availability ----

    /** The children of a node, cached or on disk, as far as they are known. */
    ghost function KidsOf(h: Hash): set<Hash>
      reads this
    {
      if h in nodes then Kids(nodes[h]) else if h in diskKids then diskKids[h] else {}
    }

    /** A chain of references from the meta-root. */
    ghost predicate Chained(p: seq<Hash>)
      reads this
    {
      && p != [] && p[0] == META
      && forall i :: 0 <= i < |p| - 1 ==> p[i + 1] in KidsOf(p[i])
    }

    /** Whatever a chain of references from the meta-root leads to is cached or on disk. */
    lemma {:induction false} NothingLost(p: seq<Hash>)
      requires Valid() && Chained(p)
      ensures p[|p| - 1] in nodes || p[|p| - 1] in diskdb
    {
      var n := |p| - 1;
      if n > 0 {
        assert Chained(p[..n]);
        NothingLost(p[..n]);
        var h := p[..n][n - 1];
        assert p[n] in KidsOf(h);
        if h in nodes {
          assert h == META || h in order;
        }
      }
    }

    // ---- runs ----

    /** What an operation asks of the state, counters that have room included. */
    ghost predicate Permitted(op: Op)
      reads this
    {
      match op
      case InsertBlobOp(_, _) => true
      case InsertOp(h, _, content) =>
        h !in nodes ==> Insertable(nodes, diskdb.Keys, rank, h, EmbeddedIn(content)) && NoOverflow(nodes, order, diskdb.Keys, EmbeddedIn(content))
      case ReferenceOp(child, parent) =>
        child != META && (child in nodes ==> Referable(child, parent))
      case DereferenceOp(root) => root != META ==> Releasable(nodes, root)
      case CapOp(_) => true
      case CommitOp(h) => h != META
    }

    /** A reference to a cached node: its parent comes after it, unless it is on disk, and the counters have room. */
    ghost predicate Referable(child: Hash, parent: Hash)
      requires child in nodes
      reads this
    {
      && parent in nodes
      && (parent != META ==> rank(child) < rank(parent) && (child in diskdb || Precedes(order, child, parent)))
      && (child in nodes[parent].children ==> parent != META || nodes[parent].children[child] < 0xFFFF)
      && (child in diskdb || nodes[child].parents < 0xFFFF)
    }

    /** Whether a node comes before another on the flush list. */
    method comesBefore(child: Hash, parent: Hash) returns (b: bool)
      requires Valid() && parent in nodes && parent != META && child != parent
      ensures b <==> Precedes(order, child, parent)
    {
      hide *;
      ValidBasics();
      Chain();
      assert order[0..] == order;
      var cur := oldest;
      ghost var i := 0;
      while true
        invariant i <= |order| && cur == Head(order[i..]) && child !in order[..i] && parent !in order[..i]
        decreases |order| - i
      {
        OnList(parent, i);
        ListWalk(i);
        Passed(child, parent, i);
        if cur == child {
          return true;
        }
        if cur == parent {
          return false;
        }
        cur := nodes[cur].flushNext;
        i := i + 1;
      }
    }

    lemma OnList(h: Hash, i: nat)
      requires Valid() && h in nodes && h != META && i <= |order| && h !in order[..i]
      ensures i < |order|
    {
      ValidBasics();
      assert order[..|order|] == order;
      hide Valid;
    }

    /** Following the flush list. */
    lemma ListWalk(i: nat)
      requires Valid() && i <= |order|
      ensures Head(order[i..]) == META <==> i == |order|
      ensures i < |order| ==>
                && Head(order[i..]) == order[i] && order[i] in nodes && nodes[order[i]].flushNext == Head(order[i + 1..])
                && order[..i + 1] == order[..i] + [order[i]]
    {
      LiveAreCached({});
    }

    /** Where the walk meets the one or the other first. */
    lemma Passed(child: Hash, parent: Hash, i: nat)
      requires Valid() && i < |order| && child !in order[..i] && parent !in order[..i] && child != parent
      ensures order[i] == child ==> Precedes(order, child, parent)
      ensures order[i] == parent ==> !Precedes(order, child, parent)
    {
    }
    /** What an operation asks of its arguments alone: references go down in rank. */
    ghost predicate Ranked(op: Op)
    {
      match op
      case InsertOp(h, _, content) => forall c :: c in EmbeddedIn(content) ==> rank(c) < rank(h)
      case ReferenceOp(child, parent) => parent != META ==> rank(child) < rank(parent)
      case _ => true
    }

    /** Decides whether an operation is permitted. */
    method permitted(op: Op) returns (b: bool)
      requires Valid() && Ranked(op)
      ensures b <==> Permitted(op)
    {
      ValidBasics();
      match op
      case InsertBlobOp(_, _) => return true;
      case InsertOp(h, _, content) =>
        var cs := EmbeddedIn(content);
        var known := forall c | c in cs :: c != META && (c in nodes || c in diskdb);
        var room := forall c | c in nodes :: c == META || c in diskdb || nodes[c].parents + multiset(cs)[c] < 0x10000;
        InsertPermitted(op, known, room);
        return h in nodes || (known && room);
      case ReferenceOp(child, parent) =>
        if child == META {
          return false;
        }
        if child !in nodes {
          return true;
        }
        b := referable(child, parent);
      case DereferenceOp(root) => return root == META || Releasable(nodes, root);
      case CapOp(_) => return true;
      case CommitOp(h) => return h != META;
    }

    lemma InsertPermitted(op: Op, known: bool, room: bool)
      requires Valid() && op.InsertOp? && Ranked(op)
      requires var cs := EmbeddedIn(op.content);
               && (known <==> forall c | c in cs :: c != META && (c in nodes || c in diskdb))
               && (room <==> forall c | c in nodes :: c == META || c in diskdb || nodes[c].parents + multiset(cs)[c] < 0x10000)
      ensures Permitted(op) <==> op.hash in nodes || (known && room)
    {
      ValidBasics();
      KnownIs(nodes, diskdb.Keys, rank, op.hash, EmbeddedIn(op.content), known);
      RoomIs(nodes, order, diskdb.Keys, EmbeddedIn(op.content), room);
      hide Valid, EmbeddedIn, Insertable, NoOverflow;
    }

    method referable(child: Hash, parent: Hash) returns (b: bool)
      requires Valid() && child in nodes && child != META && (parent != META ==> rank(child) < rank(parent))
      ensures b <==> Referable(child, parent)
    {
      if parent !in nodes {
        return false;
      }
      var ordered := parent == META || child in diskdb;
      if !ordered {
        ordered := comesBefore(child, parent);
      }
      hide Valid, Precedes;
      var room := child in diskdb || nodes[child].parents < 0xFFFF;
      var more := child !in nodes[parent].children || parent != META || nodes[parent].children[child] < 0xFFFF;
      return ordered && room && more;
    }

    /** Carries out an operation. */
    method perform(op: Op)
      requires Valid() && Permitted(op)
      modifies this
      ensures Valid()
      ensures GenuineOp(op) ==> KeepsReadable(old(nodes), old(diskdb), nodes, diskdb)
    {
      PermittedIs(op);
      if GenuineOp(op) {
        GenuineOpIs(op);
      }
      hide *;
      match op
      case InsertBlobOp(h, blob) => InsertBlob(h, blob);
      case InsertOp(h, blob, content) => insert(h, blob, content);
      case ReferenceOp(child, parent) => Reference(child, parent);
      case DereferenceOp(root) => Dereference(root);
      case CapOp(limit) => var _, _ := Cap(limit);
      case CommitOp(h) => var _ := Commit(h);
    }

    /** What is inserted is a trie node as hashing leaves it, or a blob that leads nowhere. */
    ghost predicate GenuineOp(op: Op) {
      match op
      case InsertBlobOp(_, blob) => GenuineContent(Raw(blob))
      case InsertOp(_, _, content) => GenuineContent(content)
      case _ => true
    }

    lemma GenuineOpIs(op: Op)
      requires GenuineOp(op)
      ensures op.InsertBlobOp? ==> GenuineContent(Raw(op.blob))
      ensures op.InsertOp? ==> GenuineContent(op.content)
    {
    }

    lemma PermittedIs(op: Op)
      requires Valid() && Permitted(op)
      ensures op.InsertOp? && op.hash !in nodes ==>
                Insertable(nodes, diskdb.Keys, rank, op.hash, EmbeddedIn(op.content))
                && NoOverflow(nodes, order, diskdb.Keys, EmbeddedIn(op.content))
      ensures op.ReferenceOp? ==>
                && op.child != META
                && (op.child in nodes ==>
                      && op.parent in nodes && (op.parent != META ==> rank(op.child) < rank(op.parent))
                      && (op.parent == META || op.child in diskdb || Precedes(order, op.child, op.parent))
                      && (op.child in nodes[op.parent].children ==> op.parent != META || nodes[op.parent].children[op.child] < 0xFFFF)
                      && (op.child in diskdb || nodes[op.child].parents < 0xFFFF))
      ensures op.DereferenceOp? && op.root != META ==> Releasable(nodes, op.root)
      ensures op.CommitOp? ==> op.hash != META
    {
      hide Valid;
    }

    /**
      A run: one operation after the other, as far as they are permitted. Whatever the operations, in whatever order, all
      that the meta-root leads to is in the cache or on disk after each of them, and if only genuine nodes are inserted,
      what is on disk can always be read on to the end.
     */
    method Run(ops: seq<Op>) returns (done: nat)
      requires Valid() && forall op :: op in ops ==> Ranked(op)
      modifies this
      ensures Valid() && done <= |ops| && (done < |ops| ==> !Permitted(ops[done]))
      ensures forall p :: Chained(p) ==> p[|p| - 1] in nodes || p[|p| - 1] in diskdb
      ensures (forall op :: op in ops ==> GenuineOp(op)) ==> KeepsReadable(old(nodes), old(diskdb), nodes, diskdb)
    {
      hide *;
      done := 0;
      NothingKeeps(nodes, diskdb);
      while done < |ops|
        invariant Valid() && done <= |ops|
        invariant (forall op :: op in ops ==> GenuineOp(op)) ==> KeepsReadable(old(nodes), old(diskdb), nodes, diskdb)
      {
        assert ops[done] in ops;
        ghost var n, disk := nodes, diskdb;
        var may := permitted(ops[done]);
        if !may {
          break;
        }
        perform(ops[done]);
        if forall op :: op in ops ==> GenuineOp(op) {
          KeepsTrans(old(nodes), old(diskdb), n, disk, nodes, diskdb);
        }
        done := done + 1;
      }
      AllKept();
    }

    lemma AllKept()
      requires Valid()
      ensures forall p :: Chained(p) ==> p != [] && (p[|p| - 1] in nodes || p[|p| - 1] in diskdb)
    {
      forall p | Chained(p)
        ensures p != [] && (p[|p| - 1] in nodes || p[|p| - 1] in diskdb)
      {
        NothingLost(p);
      }
    }

    // ---- the integrity check ----

    /** Adds `hash`, if cached, and everything cached that it reaches. */
    method accumulate(hash: Hash, reachable: set<Hash>) returns (reachable': set<Hash>)
      requires Graph(nodes, rank) && hash != META
      ensures reachable' == reachable + Reach(nodes, rank, hash)
      decreases rank(hash)
    {
      hide *;
      reachable' := reachable;
      if hash !in nodes {
        ReachEmpty(nodes, rank, hash);
        return;
      }
      reachable' := reachable' + {hash};
      var cs := Childs(nodes[hash]);
      ChildsOf(nodes, rank, hash, cs);
      ChildsAreKids(nodes[hash], cs);
      ReachAllNone(nodes, rank, cs);
      for i := 0 to |cs|
        invariant reachable' == reachable + {hash} + ReachAll(nodes, rank, cs[..i])
      {
        reachable' := accumulate(cs[i], reachable');
        ReachAllNext(nodes, rank, cs, i);
      }
      assert cs[..|cs|] == cs;
      ReachByChilds(nodes, rank, hash, cs);
    }

    /** Reports whether every cached node is reachable from the meta-root. */
    method verifyIntegrity() returns (ok: bool)
      requires Valid() && Graph(nodes, rank)
      ensures ok <==> nodes.Keys <= Live(nodes, rank)
    {
      hide *;
      Chain();
      SoundParts(nodes, order, oldest, newest, rank, diskdb.Keys);
      var reachable := {META};
      var cs := Childs(nodes[META]);
      RootChilds(nodes, rank, cs);
      for i := 0 to |cs|
        invariant reachable == {META} + ReachAll(nodes, rank, cs[..i])
      {
        reachable := accumulate(cs[i], reachable);
        ReachAllNext(nodes, rank, cs, i);
      }
      assert cs[..|cs|] == cs;
      LiveByChilds(nodes, rank, cs);
      ok := forall h :: h in nodes ==> h in reachable;
    }
  }
}
