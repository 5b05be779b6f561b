/**
  The reference-counted cache of trie nodes in front of the disk database: the graph of cached
  nodes, the reference counts and the flush order, as predicates on the values of the fields.
 */
module TrieCache {
  import opened Bytes
  import opened TrieNode

  /** A 32-byte hash, read as a big-endian number. */
  type Hash = nat

  /** The zero hash: the key of the meta-root, whose children are the referenced roots. */
  const META: Hash := 0

  const HASH_LENGTH := 32

  type uint16 = x: nat | x < 0x10000

  function BytesToHash(b: bytes): Hash { FromBE(b) % Pow256(HASH_LENGTH) }

  /** Different hashes have different numbers. */
  lemma HashInjective(a: bytes, b: bytes)
    requires |a| == |b| == HASH_LENGTH && BytesToHash(a) == BytesToHash(b)
    ensures a == b
  {
    FromBEBound(a);
    FromBEBound(b);
    SmallModulus(FromBE(a), Pow256(HASH_LENGTH));
    SmallModulus(FromBE(b), Pow256(HASH_LENGTH));
    FromBEInjective(a, b);
  }

  lemma SmallModulus(n: nat, m: nat)
    requires n < m
    ensures n % m == n
  {
  }

  /** Either an opaque blob or a collapsed trie node. */
  datatype Content = Raw(blob: bytes) | Collapsed(node: Node)

  datatype CachedNode = CachedNode(
    content: Content,
    size: uint16,
    parents: uint16,
    children: map<Hash, uint16>,
    flushPrev: Hash,
    flushNext: Hash)

  type Nodes = map<Hash, CachedNode>

  function Blob(e: CachedNode): bytes {
    match e.content
    case Raw(b) => b
    case Collapsed(n) => Serialise(n)
  }

  /** The hashes embedded in a collapsed node; child 16 of a full node is a value, never a hash. */
  function Gather(n: Node): seq<Hash>
    decreases n, 0
  {
    match n
    case Short(_, c) => Gather(c)
    case Full(cs) => GatherFrom(cs, 0)
    case HashRef(h) => [BytesToHash(h)]
    case Val(_) => []
    case Nil => []
  }

  function GatherFrom(cs: seq<Node>, i: nat): seq<Hash>
    decreases cs, 17 - i
  {
    if i < 16 && i < |cs| then Gather(cs[i]) + GatherFrom(cs, i + 1) else []
  }

  function Embedded(e: CachedNode): seq<Hash> { EmbeddedIn(e.content) }

  function EmbeddedIn(content: Content): seq<Hash> {
    match content
    case Raw(_) => []
    case Collapsed(n) => Gather(n)
  }

  /** How many references `e` holds to `c`: registered ones plus embedded ones. */
  function Mult(e: CachedNode, c: Hash): nat {
    (if c in e.children then e.children[c] else 0) + multiset(Embedded(e))[c]
  }

  /** The children a node holds at least one reference to. */
  function Kids(e: CachedNode): set<Hash>
  {
    e.children.Keys + set c | c in Embedded(e)
  }

  /** References to `c` held by the nodes listed in `s`. */
  function Refs(nodes: Nodes, s: seq<Hash>, c: Hash): nat {
    if s == [] then 0
    else (if s[0] in nodes then Mult(nodes[s[0]], c) else 0) + Refs(nodes, s[1..], c)
  }

  /** References to `c` held by the meta-root and by the nodes listed in `s`. */
  function TotalRefs(nodes: Nodes, s: seq<Hash>, c: Hash): nat
    requires META in nodes
  {
    Mult(nodes[META], c) + Refs(nodes, s, c)
  }

  /** The part of an entry that the flush list does not own. */
  predicate SameCore(a: CachedNode, b: CachedNode) {
    a.content == b.content && a.size == b.size && a.parents == b.parents && a.children == b.children
  }

  ghost predicate OnlyLinksDiffer(a: Nodes, b: Nodes) {
    a.Keys == b.Keys && forall h :: h in a ==> SameCore(a[h], b[h])
  }

  // ---- invariants ----

  ghost predicate Distinct(s: seq<Hash>) {
    forall i, j :: 0 <= i < j < |s| ==> s[i] != s[j]
  }

  /** `order` is what following `flushNext` from `oldest` enumerates, with consistent back links. */
  ghost predicate Linked(nodes: Nodes, order: seq<Hash>, oldest: Hash, newest: Hash) {
    && Distinct(order)
    && (forall i :: 0 <= i < |order| ==> order[i] in nodes && order[i] != META)
    && oldest == (if order == [] then META else order[0])
    && (order != [] ==> newest == order[|order| - 1] && nodes[order[|order| - 1]].flushNext == META)
    && (forall i :: 0 <= i < |order| - 1 ==> nodes[order[i]].flushNext == order[i + 1])
    && (forall i :: 0 < i < |order| ==> nodes[order[i]].flushPrev == order[i - 1])
  }

  /**
    Every cached node is the meta-root, on the flush list, or on `path`: the chain of nodes whose
    removal is under way, already unlinked and still in the map.
   */
  ghost predicate Covers(nodes: Nodes, order: seq<Hash>, path: set<Hash>) {
    && (forall h :: h in nodes <==> h == META || h in order || h in path)
    && META !in path
    && (forall h :: h in path ==> h !in order)
  }

  /** Edges of the graph: acyclic by `rank`, never to the meta-root, counted once unless from the meta-root. */
  ghost predicate Graph(nodes: Nodes, rank: Hash -> nat) {
    && META in nodes
    && Embedded(nodes[META]) == []
    && (forall p, c :: p in nodes && c in Kids(nodes[p]) ==> c != META)
    && (forall p, c {:trigger c in Kids(nodes[p])} :: p in nodes && p != META && c in Kids(nodes[p]) ==> rank(c) < rank(p))
    && (forall p, c :: p in nodes && c in nodes[p].children ==>
          if p == META then nodes[p].children[c] > 0 else nodes[p].children[c] == 1)
  }

  /** Children of live nodes are live or in `elsewhere`. */
  ghost predicate Closed(nodes: Nodes, order: seq<Hash>, elsewhere: set<Hash>) {
    && META in nodes
    && (forall c :: c in Kids(nodes[META]) ==> c in order || c in elsewhere)
    && (forall p, c :: p in order && p in nodes && c in Kids(nodes[p]) ==> c in order || c in elsewhere)
  }

  /** Counts cover the live references and those in `owed`, except for nodes in `elsewhere`. */
  ghost predicate Counted(nodes: Nodes, order: seq<Hash>, elsewhere: set<Hash>, owed: multiset<Hash>) {
    && META in nodes
    && forall c :: c in order && c in nodes && c !in elsewhere ==>
         nodes[c].parents >= TotalRefs(nodes, order, c) + owed[c]
  }

  /** Counts never exceed the live references and those in `owed`. */
  ghost predicate CountedMax(nodes: Nodes, order: seq<Hash>, owed: multiset<Hash>) {
    && META in nodes
    && forall c :: c in order && c in nodes ==> nodes[c].parents <= TotalRefs(nodes, order, c) + owed[c]
  }

  /** Every live entry has a parent. */
  ghost predicate Rooted(nodes: Nodes, order: seq<Hash>) {
    forall c :: c in order && c in nodes ==> nodes[c].parents > 0
  }

  /** Children come earlier in the list, unless they are in `elsewhere`. */
  ghost predicate Ordered(nodes: Nodes, s: seq<Hash>, elsewhere: set<Hash>) {
    s == [] ||
    (var n := |s| - 1;
     && Ordered(nodes, s[..n], elsewhere)
     && (s[n] in nodes ==> forall c :: c in Kids(nodes[s[n]]) ==> c in elsewhere || c in s[..n]))
  }

  /**
    Nothing referenced is lost: children of cached nodes are cached or on disk, counts of nodes not yet on disk cover their
    references, and the flush list puts children before parents.
   */
  ghost predicate Sound(nodes: Nodes, order: seq<Hash>, oldest: Hash, newest: Hash, rank: Hash -> nat, disk: set<Hash>) {
    && Linked(nodes, order, oldest, newest)
    && Covers(nodes, order, {})
    && Graph(nodes, rank)
    && Closed(nodes, order, disk)
    && Counted(nodes, order, disk, multiset{})
    && Ordered(nodes, order, disk)
  }

  /** Counts equal references. */
  ghost predicate CountedExactly(nodes: Nodes, order: seq<Hash>) {
    Counted(nodes, order, {}, multiset{}) && CountedMax(nodes, order, multiset{})
  }

  // ---- the elements of a list that survive ----

  function Keep(s: seq<Hash>, keep: set<Hash>): (r: seq<Hash>)
    ensures forall x :: x in r <==> x in s && x in keep
  {
    if s == [] then []
    else if s[0] in keep then [s[0]] + Keep(s[1..], keep)
    else Keep(s[1..], keep)
  }

  lemma {:induction false} KeepAll(s: seq<Hash>, keep: set<Hash>)
    requires forall x :: x in s ==> x in keep
    ensures Keep(s, keep) == s
  {
    if s != [] {
      KeepAll(s[1..], keep);
    }
  }

  lemma {:induction false} KeepKeep(s: seq<Hash>, a: set<Hash>, b: set<Hash>)
    requires forall x :: x in s && x in b ==> x in a
    ensures Keep(Keep(s, a), b) == Keep(s, b)
  {
    if s != [] {
      KeepKeep(s[1..], a, b);
      var t := Keep(s[1..], a);
      if s[0] in a {
        assert Keep(s, a)[0] == s[0] && Keep(s, a)[1..] == t;
      }
    }
  }

  lemma {:induction false} KeepConcat(s: seq<Hash>, t: seq<Hash>, keep: set<Hash>)
    ensures Keep(s + t, keep) == Keep(s, keep) + Keep(t, keep)
  {
    if s == [] {
      assert s + t == t;
    } else {
      KeepConcat(s[1..], t, keep);
      assert (s + t)[1..] == s[1..] + t;
    }
  }

  /** Removing the element at `k` of a duplicate-free list is keeping everything else. */
  lemma KeepRemove(s: seq<Hash>, k: nat, keep: set<Hash>)
    requires k < |s| && Distinct(s) && s[k] !in keep
    ensures Keep(s, keep) == Keep(s[..k] + s[k + 1..], keep)
  {
    assert s == s[..k] + ([s[k]] + s[k + 1..]);
    KeepConcat(s[..k], [s[k]] + s[k + 1..], keep);
    KeepConcat([s[k]], s[k + 1..], keep);
    assert Keep([s[k]], keep) == [];
    KeepConcat(s[..k], s[k + 1..], keep);
  }

  // ---- references ----

  lemma {:induction false} RefsSame(a: Nodes, b: Nodes, s: seq<Hash>, c: Hash)
    requires forall h :: h in s ==> (h in a <==> h in b)
    requires forall h :: h in s && h in a ==> Mult(a[h], c) == Mult(b[h], c)
    ensures Refs(a, s, c) == Refs(b, s, c)
  {
    if s != [] {
      RefsSame(a, b, s[1..], c);
    }
  }

  lemma {:induction false} RefsConcat(nodes: Nodes, s: seq<Hash>, t: seq<Hash>, c: Hash)
    ensures Refs(nodes, s + t, c) == Refs(nodes, s, c) + Refs(nodes, t, c)
  {
    if s == [] {
      assert s + t == t;
    } else {
      RefsConcat(nodes, s[1..], t, c);
      assert (s + t)[1..] == s[1..] + t;
    }
  }

  lemma {:induction false} RefsPositive(nodes: Nodes, s: seq<Hash>, p: Hash, c: Hash)
    requires p in s && p in nodes
    ensures Refs(nodes, s, c) >= Mult(nodes[p], c)
  {
    if s[0] != p {
      RefsPositive(nodes, s[1..], p, c);
    }
  }

  /** The other way round: a referenced node has a holder in the list. */
  lemma {:induction false} RefsWitness(nodes: Nodes, s: seq<Hash>, c: Hash) returns (p: Hash)
    requires Refs(nodes, s, c) > 0
    ensures p in s && p in nodes && Mult(nodes[p], c) > 0
  {
    if s[0] in nodes && Mult(nodes[s[0]], c) > 0 {
      p := s[0];
    } else {
      p := RefsWitness(nodes, s[1..], c);
    }
  }

  lemma RefsRemove(nodes: Nodes, s: seq<Hash>, k: nat, c: Hash)
    requires k < |s| && s[k] in nodes
    ensures Refs(nodes, s, c) == Mult(nodes[s[k]], c) + Refs(nodes, s[..k] + s[k + 1..], c)
  {
    assert s == s[..k] + ([s[k]] + s[k + 1..]);
    RefsConcat(nodes, s[..k], [s[k]] + s[k + 1..], c);
    RefsConcat(nodes, [s[k]], s[k + 1..], c);
    RefsConcat(nodes, s[..k], s[k + 1..], c);
    assert Refs(nodes, [s[k]], c) == Mult(nodes[s[k]], c);
  }

  /** Dropping listed nodes can only lower the references. */
  lemma {:induction false} RefsKeep(nodes: Nodes, s: seq<Hash>, keep: set<Hash>, c: Hash)
    ensures Refs(nodes, Keep(s, keep), c) <= Refs(nodes, s, c)
    ensures (forall h :: h in s && h in nodes && h !in keep ==> Mult(nodes[h], c) == 0) ==>
              Refs(nodes, Keep(s, keep), c) == Refs(nodes, s, c)
  {
    if s != [] {
      RefsKeep(nodes, s[1..], keep, c);
      if s[0] in keep {
        assert Keep(s, keep)[1..] == Keep(s[1..], keep);
      }
    }
  }

  // ---- sizes ----

  /** What a list of nodes contributes to the size of the cache. */
  function Sizes(nodes: Nodes, s: seq<Hash>): int {
    if s == [] then 0
    else (if s[0] in nodes then HASH_LENGTH + nodes[s[0]].size else 0) + Sizes(nodes, s[1..])
  }

  lemma {:induction false} SizesSame(a: Nodes, b: Nodes, s: seq<Hash>)
    requires forall h :: h in s ==> h in a && h in b && a[h].size == b[h].size
    ensures Sizes(a, s) == Sizes(b, s)
  {
    if s != [] {
      SizesSame(a, b, s[1..]);
    }
  }

  lemma {:induction false} SizesConcat(nodes: Nodes, s: seq<Hash>, t: seq<Hash>)
    ensures Sizes(nodes, s + t) == Sizes(nodes, s) + Sizes(nodes, t)
  {
    if s == [] {
      assert s + t == t;
    } else {
      SizesConcat(nodes, s[1..], t);
      assert (s + t)[1..] == s[1..] + t;
    }
  }

  lemma SizesRemove(nodes: Nodes, s: seq<Hash>, k: nat)
    requires k < |s| && s[k] in nodes
    ensures Sizes(nodes, s) == HASH_LENGTH + nodes[s[k]].size + Sizes(nodes, s[..k] + s[k + 1..])
  {
    assert s == s[..k] + ([s[k]] + s[k + 1..]);
    SizesConcat(nodes, s[..k], [s[k]] + s[k + 1..]);
    SizesConcat(nodes, [s[k]], s[k + 1..]);
    SizesConcat(nodes, s[..k], s[k + 1..]);
    assert Sizes(nodes, [s[k]]) == HASH_LENGTH + nodes[s[k]].size;
  }

  // ---- single steps of the reference counter ----

  lemma MultKid(e: CachedNode, c: Hash)
    requires forall x :: x in e.children ==> e.children[x] > 0
    ensures c in Kids(e) <==> Mult(e, c) > 0
  {
  }

  function DropOne(children: map<Hash, uint16>, c: Hash): map<Hash, uint16> {
    if c !in children || children[c] == 0 then children
    else if children[c] == 1 then children - {c}
    else children[c := children[c] - 1]
  }

  /** Everything the counter relies on depends only on the live entries and the meta-root. */
  lemma Transfer(a: Nodes, b: Nodes, order: seq<Hash>, elsewhere: set<Hash>, owed: multiset<Hash>)
    requires META in a && META in b
    requires forall h :: h in order ==> h in a && h in b
    requires forall h :: h in order ==> Embedded(a[h]) == Embedded(b[h]) && a[h].children == b[h].children && a[h].parents == b[h].parents
    requires Embedded(a[META]) == Embedded(b[META]) && a[META].children == b[META].children
    ensures Closed(a, order, elsewhere) ==> Closed(b, order, elsewhere)
    ensures Counted(a, order, elsewhere, owed) ==> Counted(b, order, elsewhere, owed)
    ensures CountedMax(a, order, owed) ==> CountedMax(b, order, owed)
    ensures Rooted(a, order) ==> Rooted(b, order)
  {
    forall c ensures TotalRefs(a, order, c) == TotalRefs(b, order, c) {
      RefsSame(a, b, order, c);
    }
  }

  lemma DropOneStep(children: map<Hash, uint16>, c: Hash)
    ensures c !in children || children[c] == 0 ==> DropOne(children, c) == children
    ensures c in children && children[c] == 1 ==> DropOne(children, c) == children[c := 0] - {c}
    ensures c in children && children[c] > 1 ==> DropOne(children, c) == children[c := children[c] - 1]
  {
  }

  lemma RootChildren(nodes: Nodes, rank: Hash -> nat)
    requires Graph(nodes, rank)
    ensures META in nodes
    ensures forall c :: c in nodes[META].children ==> nodes[META].children[c] > 0
  {
  }

  /** An owed reference to a node that is not cached is paid by doing nothing. */
  lemma PayAbsent(nodes: Nodes, order: seq<Hash>, elsewhere: set<Hash>, owed: multiset<Hash>, child: Hash)
    requires child !in order
    ensures Counted(nodes, order, elsewhere, owed) ==> Counted(nodes, order, elsewhere, owed - multiset{child})
    ensures CountedMax(nodes, order, owed) ==> CountedMax(nodes, order, owed - multiset{child})
  {
  }

  /** Removing the meta-root's reference to `child` turns it into an owed one. */
  lemma DropRootEdge(a: Nodes, b: Nodes, order: seq<Hash>, elsewhere: set<Hash>, child: Hash)
    requires META in a && META !in order && child in a[META].children && a[META].children[child] > 0
    requires b == a[META := a[META].(children := DropOne(a[META].children, child))]
    ensures Closed(a, order, elsewhere) ==> Closed(b, order, elsewhere)
    ensures Counted(a, order, elsewhere, multiset{}) ==> Counted(b, order, elsewhere, multiset{child})
    ensures CountedMax(a, order, multiset{}) ==> CountedMax(b, order, multiset{child})
    ensures Rooted(a, order) ==> Rooted(b, order)
  {
    forall c ensures TotalRefs(a, order, c) == TotalRefs(b, order, c) + multiset{child}[c] {
      RefsSame(a, b, order, c);
    }
  }

  /** Lowering a positive count pays one owed reference; a count of zero owes nothing unless the node is elsewhere. */
  lemma PayOne(a: Nodes, b: Nodes, order: seq<Hash>, elsewhere: set<Hash>, owed: multiset<Hash>, child: Hash)
    requires META in a && child != META && child in order && child in a && (owed[child] > 0 || a[child].parents == 0)
    requires forall h :: h in order ==> h in a
    requires b == a[child := a[child].(parents := if a[child].parents > 0 then a[child].parents - 1 else 0)]
    ensures Closed(a, order, elsewhere) ==> Closed(b, order, elsewhere)
    ensures Counted(a, order, elsewhere, owed) ==> Counted(b, order, elsewhere, owed - multiset{child})
    ensures CountedMax(a, order, owed) ==> CountedMax(b, order, owed - multiset{child})
    ensures Rooted(a, order) ==> forall h :: h in order && h != child ==> b[h].parents > 0
    ensures Rooted(a, order) && b[child].parents > 0 ==> Rooted(b, order)
  {
    assert forall h :: h in a ==> Kids(b[h]) == Kids(a[h]);
    forall c ensures TotalRefs(a, order, c) == TotalRefs(b, order, c) {
      RefsSame(a, b, order, c);
    }
    hide Mult, Refs, Kids, TotalRefs;
    assert forall h :: h in order && h != child ==> b[h].parents == a[h].parents;
  }

  /** The references a list holds, less those of the element taken out. */
  lemma DetachRefs(a: Nodes, b: Nodes, order: seq<Hash>, k: nat, c: Hash)
    requires k < |order| && OnlyLinksDiffer(a, b) && META in a && order[k] in a
    ensures TotalRefs(a, order, c) == TotalRefs(b, order[..k] + order[k + 1..], c) + Mult(a[order[k]], c)
  {
    RefsRemove(a, order, k, c);
    RefsSame(a, b, order[..k] + order[k + 1..], c);
  }

  lemma DetachClosed(a: Nodes, order: seq<Hash>, k: nat, elsewhere: set<Hash>, p: Hash, c: Hash)
    requires k < |order| && META in a && META !in order
    requires forall h :: h in order ==> h in a
    requires p == META || p in order
    requires forall x :: x in a[p].children ==> a[p].children[x] > 0
    requires order[k] in elsewhere || TotalRefs(a, order, order[k]) == 0
    requires Closed(a, order, elsewhere) && c in Kids(a[p])
    ensures c in order[..k] + order[k + 1..] || c in elsewhere
  {
    MultKid(a[p], c);
    if p != META {
      RefsPositive(a, order, p, c);
    }
    if c != order[k] && c !in elsewhere {
      var i :| 0 <= i < |order| && order[i] == c;
      assert c == if i < k then (order[..k] + order[k + 1..])[i] else (order[..k] + order[k + 1..])[i - 1];
    }
  }

  /** Taking an uncounted node off the live list turns the references it holds into owed ones. */
  lemma Detach(a: Nodes, b: Nodes, order: seq<Hash>, k: nat, elsewhere: set<Hash>, owed: multiset<Hash>, cs: seq<Hash>)
    requires k < |order| && Distinct(order) && META !in order
    requires OnlyLinksDiffer(a, b) && META in a
    requires forall h :: h in order ==> h in a
    requires forall h, c :: (h == META || h in order) && c in a[h].children ==> a[h].children[c] > 0
    requires a[order[k]].parents == 0
    requires forall c :: multiset(cs)[c] == Mult(a[order[k]], c)
    requires Closed(a, order, elsewhere) && Counted(a, order, elsewhere, owed)
    ensures var rest := order[..k] + order[k + 1..];
            && Closed(b, rest, elsewhere)
            && Counted(b, rest, elsewhere, owed + multiset(cs))
            && (CountedMax(a, order, owed) ==> CountedMax(b, rest, owed + multiset(cs)))
            && ((forall h :: h in order && h != order[k] ==> a[h].parents > 0) ==> Rooted(b, rest))
  {
    var rest := order[..k] + order[k + 1..];
    forall c ensures TotalRefs(a, order, c) == TotalRefs(b, rest, c) + multiset(cs)[c] {
      DetachRefs(a, b, order, k, c);
    }
    assert forall h :: h in rest ==> h in order && h != order[k];
    forall p, c | (p == META || p in rest) && c in Kids(b[p])
      ensures c in rest || c in elsewhere
    {
      DetachClosed(a, order, k, elsewhere, p, c);
    }
  }

  // ---- the flush list ----

  lemma GraphSame(a: Nodes, b: Nodes, rank: Hash -> nat)
    requires Graph(a, rank) && OnlyLinksDiffer(a, b)
    ensures Graph(b, rank)
  {
    forall p | p in b ensures Kids(b[p]) == Kids(a[p]) && b[p].children == a[p].children {
    }
  }

  lemma CoversRemove(a: Nodes, b: Nodes, order: seq<Hash>, k: nat, path: set<Hash>)
    requires k < |order| && Distinct(order) && a.Keys == b.Keys
    requires Covers(a, order, path) && order[k] != META
    ensures Covers(b, order[..k] + order[k + 1..], path + {order[k]})
  {
    var rest := order[..k] + order[k + 1..];
    forall h ensures h in order <==> h in rest || h == order[k] {
      if h in order && h != order[k] {
        var i :| 0 <= i < |order| && order[i] == h;
        assert h == if i < k then rest[i] else rest[i - 1];
      }
    }
    assert order[k] !in rest;
  }

  /** Bypassing the element at `k` leaves a well-linked list. */
  lemma LinkedRemove(a: Nodes, b: Nodes, order: seq<Hash>, k: nat, oldest: Hash, newest: Hash, oldest': Hash, newest': Hash)
    requires k < |order| && Linked(a, order, oldest, newest) && a.Keys == b.Keys
    requires forall i :: 0 <= i < |order| && i != k && i != k - 1 ==> b[order[i]].flushNext == a[order[i]].flushNext
    requires forall i :: 0 <= i < |order| && i != k && i != k + 1 ==> b[order[i]].flushPrev == a[order[i]].flushPrev
    requires k > 0 ==> b[order[k - 1]].flushNext == a[order[k]].flushNext
    requires 0 < k < |order| - 1 ==> b[order[k + 1]].flushPrev == a[order[k]].flushPrev
    requires oldest' == if k == 0 then a[order[0]].flushNext else oldest
    requires newest' == if 0 < k == |order| - 1 then a[order[k]].flushPrev else newest
    ensures Linked(b, order[..k] + order[k + 1..], oldest', newest')
  {
    var rest := order[..k] + order[k + 1..];
    assert forall i :: 0 <= i < |rest| ==> rest[i] == order[if i < k then i else i + 1];
  }

  /** The links of an element's neighbours, read off the element itself. */
  lemma Neighbours(nodes: Nodes, order: seq<Hash>, oldest: Hash, newest: Hash, k: nat)
    requires k < |order| && Linked(nodes, order, oldest, newest) && META in nodes
    ensures order[k] in nodes
    ensures order[k] == oldest <==> k == 0
    ensures order[k] == newest <==> k == |order| - 1
    ensures var n := nodes[order[k]];
            && n.flushNext in nodes
            && n.flushNext == (if k == |order| - 1 then META else order[k + 1])
            && (k > 0 ==> n.flushPrev in nodes && n.flushPrev == order[k - 1])
  {
    if k < |order| - 1 {
      assert order[k + 1] in nodes;
    }
    if k > 0 {
      assert order[k - 1] in nodes;
    }
  }

  /** `b` is `a` with the neighbours `prev` and `next` of a node linked past it, as far as they are changed. */
  ghost predicate Bypassed(a: Nodes, b: Nodes, node: CachedNode, first: bool, last: bool) {
    && OnlyLinksDiffer(a, b)
    && (forall x :: x in a ==> b[x].flushNext == if x == node.flushPrev && !first then node.flushNext else a[x].flushNext)
    && (forall x :: x in a && x != META ==>
          b[x].flushPrev == if x == node.flushNext && (first || !last) then (if first then META else node.flushPrev) else a[x].flushPrev)
  }

  lemma BypassedLinked(a: Nodes, b: Nodes, order: seq<Hash>, k: nat, oldest: Hash, newest: Hash, oldest': Hash, newest': Hash)
    requires k < |order| && Linked(a, order, oldest, newest) && META in a
    requires Bypassed(a, b, a[order[k]], k == 0, k == |order| - 1)
    requires oldest' == if k == 0 then a[order[0]].flushNext else oldest
    requires newest' == if 0 < k == |order| - 1 then a[order[k]].flushPrev else newest
    ensures Linked(b, order[..k] + order[k + 1..], oldest', newest')
  {
    Neighbours(a, order, oldest, newest, k);
    LinkedRemove(a, b, order, k, oldest, newest, oldest', newest');
  }

  lemma Bypass(a: Nodes, b: Nodes, h: Hash, oldest: Hash, newest: Hash)
    requires h in a
    requires var n := a[h];
             if h == oldest then n.flushNext in a && b == a[n.flushNext := a[n.flushNext].(flushPrev := META)]
             else if h == newest then n.flushPrev in a && n.flushNext == META && b == a[n.flushPrev := a[n.flushPrev].(flushNext := META)]
             else n.flushPrev in a && n.flushNext in a && n.flushNext != n.flushPrev &&
                  b == a[n.flushPrev := a[n.flushPrev].(flushNext := n.flushNext)]
                        [n.flushNext := a[n.flushNext].(flushPrev := n.flushPrev)]
    ensures Bypassed(a, b, a[h], h == oldest, h == newest)
  {
  }

  /** Taking a node off the flush list keeps it linked and moves the node to the path. */
  lemma Unlinked(a: Nodes, b: Nodes, order: seq<Hash>, k: nat, oldest: Hash, newest: Hash, oldest': Hash, newest': Hash, rank: Hash -> nat, path: set<Hash>)
    requires k < |order| && Linked(a, order, oldest, newest) && Covers(a, order, path) && Graph(a, rank) && order[k] in a
    requires Bypassed(a, b, a[order[k]], order[k] == oldest, order[k] == newest)
    requires oldest' == if order[k] == oldest then a[order[k]].flushNext else oldest
    requires newest' == if order[k] != oldest && order[k] == newest then a[order[k]].flushPrev else newest
    ensures OnlyLinksDiffer(a, b) && Linked(b, order[..k] + order[k + 1..], oldest', newest')
    ensures Covers(b, order[..k] + order[k + 1..], path + {order[k]}) && Graph(b, rank)
  {
    hide Graph;
    GraphMeta(a, rank);
    Neighbours(a, order, oldest, newest, k);
    BypassedLinked(a, b, order, k, oldest, newest, oldest', newest');
    OrderBasics(a, order, oldest, newest, k);
    hide Linked;
    CoversRemove(a, b, order, k, path);
    GraphSame(a, b, rank);
  }

  lemma OrderBasics(a: Nodes, order: seq<Hash>, oldest: Hash, newest: Hash, k: nat)
    requires k < |order| && Linked(a, order, oldest, newest)
    ensures Distinct(order) && order[k] != META
    ensures k < |order| - 1 && 0 < k ==> a[order[k]].flushNext != a[order[k]].flushPrev
  {
    if k < |order| - 1 && 0 < k {
      assert order[k + 1] != order[k - 1];
    }
  }

  // ---- what a removal keeps ----

  /** Nodes only disappear; those that stay keep their content and, `parent` apart, their registered children. */
  ghost predicate Survivors(a: Nodes, b: Nodes, parent: Hash) {
    && b.Keys <= a.Keys
    && (forall h :: h in b ==> b[h].content == a[h].content && b[h].size == a[h].size)
    && (forall h :: h in b && h != parent ==> b[h].children == a[h].children)
  }

  lemma SurvivorsSelf(a: Nodes, parent: Hash)
    ensures Survivors(a, a, parent)
  {
  }

  /** An edit that leaves the registered children alone excepts nobody. */
  lemma SurvivorsAny(a: Nodes, b: Nodes, h: Hash, parent: Hash)
    requires Survivors(a, b, h) && h in a && (h in b ==> b[h].children == a[h].children)
    ensures Survivors(a, b, parent)
    ensures forall x :: x in b ==> b[x].children == a[x].children
  {
  }

  lemma SurvivorsTrans(a: Nodes, b: Nodes, c: Nodes, parent: Hash)
    requires Survivors(a, b, parent) && Survivors(b, c, parent)
    ensures Survivors(a, c, parent) && c.Keys <= b.Keys <= a.Keys
  {
  }

  lemma EditGraph(a: Nodes, b: Nodes, h: Hash, c: Hash, rank: Hash -> nat)
    requires h in a && h in b && b == a[h := b[h]] && b[h].content == a[h].content
    requires b[h].children == a[h].children || b[h].children == DropOne(a[h].children, c)
    requires Graph(a, rank)
    ensures Graph(b, rank)
  {
    forall p | p in b ensures Kids(b[p]) <= Kids(a[p]) {
    }
  }

  lemma SameLinks(a: Nodes, b: Nodes, order: seq<Hash>, oldest: Hash, newest: Hash, path: set<Hash>)
    requires Linked(a, order, oldest, newest) && Covers(a, order, path)
    requires b.Keys == a.Keys && forall x :: x in b ==> b[x].flushPrev == a[x].flushPrev && b[x].flushNext == a[x].flushNext
    ensures Linked(b, order, oldest, newest) && Covers(b, order, path)
    ensures forall x :: x in order ==> x in a && x in b
  {
  }

  /** Rewriting one entry's count, or dropping one of its registered references, leaves the shape alone. */
  lemma EditEntry(a: Nodes, b: Nodes, h: Hash, c: Hash, order: seq<Hash>, oldest: Hash, newest: Hash, path: set<Hash>, rank: Hash -> nat)
    requires h in a && h in b && b == a[h := b[h]]
    requires b[h].flushPrev == a[h].flushPrev && b[h].flushNext == a[h].flushNext
    requires b[h].content == a[h].content && b[h].size == a[h].size
    requires b[h].children == a[h].children || b[h].children == DropOne(a[h].children, c)
    requires Linked(a, order, oldest, newest) && Covers(a, order, path) && Graph(a, rank)
    ensures Linked(b, order, oldest, newest) && Covers(b, order, path) && Graph(b, rank)
    ensures Sizes(b, order) == Sizes(a, order) && Keep(order, b.Keys) == order && Survivors(a, b, h)
  {
    EditFacts(a, b, h);
    hide *;
    EditGraph(a, b, h, c, rank);
    SameLinks(a, b, order, oldest, newest, path);
    SizesSame(a, b, order);
    KeepAll(order, b.Keys);
    SurvivorsAre(a, b, h);
  }

  lemma EditFacts(a: Nodes, b: Nodes, h: Hash)
    requires h in a && h in b && b == a[h := b[h]]
    requires b[h].flushPrev == a[h].flushPrev && b[h].flushNext == a[h].flushNext
    requires b[h].content == a[h].content && b[h].size == a[h].size
    ensures b.Keys == a.Keys
    ensures forall x :: x in b ==> b[x].flushPrev == a[x].flushPrev && b[x].flushNext == a[x].flushNext
    ensures forall x :: x in b ==> b[x].content == a[x].content && b[x].size == a[x].size
    ensures forall x :: x in b && x != h ==> b[x].children == a[x].children
  {
  }

  lemma SurvivorsAre(a: Nodes, b: Nodes, h: Hash)
    requires b.Keys == a.Keys
    requires forall x :: x in b ==> b[x].content == a[x].content && b[x].size == a[x].size
    requires forall x :: x in b && x != h ==> b[x].children == a[x].children
    ensures Survivors(a, b, h)
  {
  }

  /** Deleting an unlinked node completes its removal. */
  lemma DeleteNode(a: Nodes, x: Hash, order: seq<Hash>, oldest: Hash, newest: Hash, path: set<Hash>, rank: Hash -> nat)
    requires x !in path && x != META
    requires Linked(a, order, oldest, newest) && Covers(a, order, path + {x}) && Graph(a, rank)
    ensures Linked(a - {x}, order, oldest, newest) && Covers(a - {x}, order, path) && Graph(a - {x}, rank)
    ensures Sizes(a - {x}, order) == Sizes(a, order)
  {
    SizesSame(a, a - {x}, order);
  }

  /** The tracked children of a node, listed with their multiplicities. */
  lemma ChildsOf(nodes: Nodes, rank: Hash -> nat, h: Hash, cs: seq<Hash>)
    requires Graph(nodes, rank) && h in nodes && h != META
    requires multiset(cs) == multiset(nodes[h].children.Keys) + multiset(Embedded(nodes[h]))
    ensures forall c :: multiset(cs)[c] == Mult(nodes[h], c)
    ensures forall c :: c in cs ==> c in Kids(nodes[h]) && c != META && rank(c) < rank(h)
    ensures forall p, c :: p in nodes && c in nodes[p].children ==> nodes[p].children[c] > 0
  {
    forall c | c in cs ensures c in Kids(nodes[h]) {
      assert c in multiset(cs);
    }
  }

  lemma DetachSizes(a: Nodes, b: Nodes, order: seq<Hash>, k: nat)
    requires k < |order| && OnlyLinksDiffer(a, b) && forall h :: h in order ==> h in a
    ensures Sizes(a, order) == HASH_LENGTH + a[order[k]].size + Sizes(b, order[..k] + order[k + 1..])
  {
    SizesRemove(a, order, k);
    SizesSame(a, b, order[..k] + order[k + 1..]);
  }

  lemma SurvivorsLinks(a: Nodes, b: Nodes, h: Hash)
    requires OnlyLinksDiffer(a, b)
    ensures Survivors(a, b, h)
  {
  }

  /** Everything about a node taken off the live list. */
  lemma DetachDone(a: Nodes, b: Nodes, rank: Hash -> nat, order: seq<Hash>, k: nat, elsewhere: set<Hash>, owed: multiset<Hash>, cs: seq<Hash>)
    requires Graph(a, rank) && OnlyLinksDiffer(a, b) && k < |order| && Distinct(order) && META !in order
    requires (forall h :: h in order ==> h in a) && a[order[k]].parents == 0
    requires multiset(cs) == multiset(a[order[k]].children.Keys) + multiset(Embedded(a[order[k]]))
    requires Closed(a, order, elsewhere) && Counted(a, order, elsewhere, owed)
    ensures var rest := order[..k] + order[k + 1..];
            && Closed(b, rest, elsewhere) && Counted(b, rest, elsewhere, owed + multiset(cs))
            && (CountedMax(a, order, owed) ==> CountedMax(b, rest, owed + multiset(cs)))
            && ((forall h :: h in order && h in a && h != order[k] ==> a[h].parents > 0) ==> Rooted(b, rest))
            && Sizes(a, order) == HASH_LENGTH + a[order[k]].size + Sizes(b, rest)
    ensures Survivors(a, b, order[k]) && forall c :: c in cs ==> c != META && rank(c) < rank(order[k])
  {
    GraphMeta(a, rank);
    hide *;
    ChildsOf(a, rank, order[k], cs);
    RootChildren(a, rank);
    Detach(a, b, order, k, elsewhere, owed, cs);
    DetachSizes(a, b, order, k);
    SurvivorsLinks(a, b, order[k]);
  }

  /** Everything about the deletion of an unlinked node. */
  lemma EraseDone(a: Nodes, x: Hash, order: seq<Hash>, oldest: Hash, newest: Hash, path: set<Hash>, rank: Hash -> nat,
                  elsewhere: set<Hash>, owed: multiset<Hash>)
    requires x !in path && x != META && META !in order && x !in order && (forall h :: h in order ==> h in a)
    requires Linked(a, order, oldest, newest) && Covers(a, order, path + {x}) && Graph(a, rank)
    ensures var b := a - {x};
            && Linked(b, order, oldest, newest) && Covers(b, order, path) && Graph(b, rank) && Sizes(b, order) == Sizes(a, order)
            && (Closed(a, order, elsewhere) ==> Closed(b, order, elsewhere))
            && (Counted(a, order, elsewhere, owed) ==> Counted(b, order, elsewhere, owed))
            && (CountedMax(a, order, owed) ==> CountedMax(b, order, owed)) && (Rooted(a, order) ==> Rooted(b, order))
  {
    GraphMeta(a, rank);
    hide *;
    DeleteNode(a, x, order, oldest, newest, path, rank);
    Transfer(a, a - {x}, order, elsewhere, owed);
  }

  lemma SurvivorsMinus(a: Nodes, b: Nodes, x: Hash)
    requires Survivors(a, b, x)
    ensures Survivors(a, b - {x}, x)
  {
  }

  lemma KeepDetached(order: seq<Hash>, k: nat, rest: seq<Hash>, left: seq<Hash>, with: set<Hash>, without: set<Hash>)
    requires k < |order| && Distinct(order) && rest == order[..k] + order[k + 1..]
    requires left == Keep(rest, with) && without == with - {order[k]}
    ensures left == Keep(order, without)
  {
    assert forall x :: x in rest ==> x != order[k];
    KeepKeep(rest, with, without);
    KeepAll(left, without);
    KeepRemove(order, k, without);
  }

  // ---- the order of writing ----

  lemma {:induction false} OrderedAt(nodes: Nodes, s: seq<Hash>, elsewhere: set<Hash>, i: nat)
    requires Ordered(nodes, s, elsewhere) && i < |s| && s[i] in nodes
    ensures forall c :: c in Kids(nodes[s[i]]) ==> c in elsewhere || c in s[..i]
  {
    var n := |s| - 1;
    if i < n {
      OrderedAt(nodes, s[..n], elsewhere, i);
      assert s[..n][..i] == s[..i];
    }
  }

  /** A list stays ordered when its nodes keep or lose references, and more nodes are elsewhere. */
  lemma {:induction false} OrderedSame(a: Nodes, b: Nodes, s: seq<Hash>, d: set<Hash>, e: set<Hash>)
    requires Ordered(a, s, d) && d <= e
    requires forall h :: h in s && h in b ==> h in a && Kids(b[h]) <= Kids(a[h])
    ensures Ordered(b, s, e)
  {
    if s != [] {
      OrderedSame(a, b, s[..|s| - 1], d, e);
    }
  }

  /** Removals keep the order as long as the references of the kept nodes are kept or elsewhere. */
  lemma {:induction false} OrderedKeep(a: Nodes, b: Nodes, s: seq<Hash>, elsewhere: set<Hash>)
    requires Ordered(a, s, elsewhere)
    requires forall h :: h in s && h in b ==> h in a && Kids(b[h]) == Kids(a[h])
    requires forall p, c :: p in s && p in b && c in Kids(b[p]) ==> c in b || c in elsewhere
    ensures Ordered(b, Keep(s, b.Keys), elsewhere)
  {
    if s != [] {
      var n := |s| - 1;
      OrderedKeep(a, b, s[..n], elsewhere);
      assert s == s[..n] + [s[n]];
      KeepConcat(s[..n], [s[n]], b.Keys);
      var t := Keep(s[..n], b.Keys);
      if s[n] in b {
        assert Keep([s[n]], b.Keys) == [s[n]];
        assert (t + [s[n]])[..|t|] == t;
      } else {
        assert Keep([s[n]], b.Keys) == [];
        assert t + [] == t;
      }
    }
  }

  /** Moving a prefix elsewhere keeps the rest ordered. */
  lemma {:induction false} OrderedDrop(nodes: Nodes, s: seq<Hash>, m: nat, d: set<Hash>, e: set<Hash>)
    requires Ordered(nodes, s, d) && m <= |s| && d <= e && forall x :: x in s[..m] ==> x in e
    ensures Ordered(nodes, s[m..], e)
  {
    var n := |s| - 1;
    if m < |s| {
      OrderedDrop(nodes, s[..n], m, d, e);
      assert s[..n][..m] == s[..m] && s[..n][m..] == s[m..][..n - m] && s[m..][n - m] == s[n];
      assert s[..n] == s[..m] + s[m..][..n - m];
    }
  }

  /** The disk holds, with each node it was given, the children that node had then. */
  ghost predicate DiskClosed(disk: set<Hash>, kids: map<Hash, set<Hash>>) {
    forall h :: h in disk ==> h in kids && kids[h] <= disk
  }

  /** The meta-root's children after one reference to `root` is dropped. */
  function WithoutRoot(nodes: Nodes, root: Hash): Nodes
    requires META in nodes
  {
    nodes[META := nodes[META].(children := DropOne(nodes[META].children, root))]
  }

  /** Dereferencing `root` takes no count that another node's reference stands for. */
  predicate Releasable(nodes: Nodes, root: Hash) {
    META in nodes && (root in nodes[META].children || root !in nodes || nodes[root].parents == 0)
  }

  // ---- insertion ----

  /** `(x + k) mod 2^16`: what `k` increments do to a counter. */
  function Bump(x: uint16, k: nat): uint16 { (x + k) % 0x10000 }

  lemma {:induction false} RefsZero(nodes: Nodes, s: seq<Hash>, c: Hash)
    requires forall p :: p in s && p in nodes ==> Mult(nodes[p], c) == 0
    ensures Refs(nodes, s, c) == 0
  {
    if s != [] {
      RefsZero(nodes, s[1..], c);
    }
  }

  /** No counter of a listed node overflows when the references `cs` are counted. */
  ghost predicate NoOverflow(nodes: Nodes, order: seq<Hash>, elsewhere: set<Hash>, cs: seq<Hash>) {
    forall c :: c in order && c in nodes && c !in elsewhere ==> nodes[c].parents + multiset(cs)[c] < 0x10000
  }

  /** `b` is `a` with `h` added, holding the references `cs`, and each of them counted. */
  ghost predicate Inserted(a: Nodes, b: Nodes, h: Hash, cs: seq<Hash>) {
    && b.Keys == a.Keys + {h}
    && b[h].children == map[] && Embedded(b[h]) == cs && b[h].parents == 0
    && forall c :: c in a ==>
         b[c].content == a[c].content && b[c].size == a[c].size && b[c].children == a[c].children &&
         b[c].parents == Bump(a[c].parents, multiset(cs)[c])
  }

  lemma InsertedRefs(a: Nodes, b: Nodes, order: seq<Hash>, h: Hash, cs: seq<Hash>, c: Hash)
    requires Inserted(a, b, h, cs) && META in a && h !in a && forall x :: x in order ==> x in a
    ensures TotalRefs(b, order + [h], c) == TotalRefs(a, order, c) + multiset(cs)[c]
  {
    RefsConcat(b, order, [h], c);
    RefsSame(a, b, order, c);
    assert Refs(b, [h], c) == Mult(b[h], c);
    assert Mult(b[META], c) == Mult(a[META], c);
  }

  /** Counting the new node's references keeps the counts right exactly when no counter that matters overflows. */
  lemma InsertedCounts(a: Nodes, b: Nodes, rank: Hash -> nat, order: seq<Hash>, elsewhere: set<Hash>, h: Hash, cs: seq<Hash>)
    requires Inserted(a, b, h, cs) && META in a && h !in a && (forall x :: x in order ==> x in a) && Graph(a, rank)
    requires Closed(a, order, elsewhere) && Counted(a, order, elsewhere, multiset{})
    requires forall c :: c in cs ==> c != META && rank(c) < rank(h) && (c in order || c in elsewhere)
    ensures Closed(b, order + [h], elsewhere)
    ensures Counted(b, order + [h], elsewhere, multiset{}) <==> NoOverflow(a, order, elsewhere, cs)
  {
    var order' := order + [h];
    assert h !in cs;
    InsertedClosed(a, b, order, elsewhere, h, cs);
    if h !in elsewhere {
      NoRefs(a, rank, order, elsewhere, h);
    }
    hide Closed, Graph;
    forall c ensures TotalRefs(b, order', c) == TotalRefs(a, order, c) + multiset(cs)[c] {
      InsertedRefs(a, b, order, h, cs, c);
    }
    hide TotalRefs, Bump;
    assert forall c :: c in order' <==> c in order || c == h;
    forall c | c in order && c !in elsewhere
      ensures b[c].parents >= TotalRefs(b, order', c) <==> a[c].parents + multiset(cs)[c] < 0x10000
    {
      BumpCovers(a[c].parents, multiset(cs)[c], TotalRefs(a, order, c));
    }
  }

  lemma InsertedClosed(a: Nodes, b: Nodes, order: seq<Hash>, elsewhere: set<Hash>, h: Hash, cs: seq<Hash>)
    requires Inserted(a, b, h, cs) && META in a && h !in a && (forall x :: x in order ==> x in a)
    requires Closed(a, order, elsewhere) && forall c :: c in cs ==> c in order || c in elsewhere
    ensures Closed(b, order + [h], elsewhere)
  {
    forall p | p in a ensures Kids(b[p]) == Kids(a[p]) {
    }
    assert Kids(b[h]) == set c | c in cs;
    hide Kids, Inserted;
  }

  /** Nothing refers to a node that is neither cached nor elsewhere. */
  lemma NoRefs(nodes: Nodes, rank: Hash -> nat, order: seq<Hash>, elsewhere: set<Hash>, h: Hash)
    requires Graph(nodes, rank) && Closed(nodes, order, elsewhere) && h !in order && h !in elsewhere
    requires forall x :: x in order ==> x in nodes
    ensures META in nodes && TotalRefs(nodes, order, h) == 0
  {
    RootChildren(nodes, rank);
    forall p | p == META || p in order
      ensures Mult(nodes[p], h) == 0
    {
      MultKid(nodes[p], h);
    }
    RefsZero(nodes, order, h);
  }

  /** A new entry's references go to nodes that come before it and are cached or on disk. */
  ghost predicate Insertable(nodes: Nodes, disk: set<Hash>, rank: Hash -> nat, h: Hash, cs: seq<Hash>) {
    forall c :: c in cs ==> c != META && rank(c) < rank(h) && (c in nodes || c in disk)
  }

  /** The cache with a new entry as its newest. */
  function Appended(nodes: Nodes, h: Hash, entry: CachedNode, oldest: Hash, newest: Hash): Nodes
    requires oldest != META ==> newest in nodes
  {
    if oldest == META then nodes[h := entry] else nodes[h := entry][newest := nodes[newest].(flushNext := h)]
  }


  /** The conversion of a length to uint16. */
  function Truncate(n: nat): uint16 { n % 0x10000 }

  lemma TruncateIs(n: nat)
    ensures Truncate(n) == n % 0x10000 && Bump(Truncate(n), HASH_LENGTH) == (n % 0x10000 + 32) % 0x10000
  {
  }

  /** The accounted size is computed in uint16 and wraps for the longest blobs. */
  lemma SizeWraps(size: uint16)
    ensures Bump(size, HASH_LENGTH) == HASH_LENGTH + size - if size > 0xFFFF - HASH_LENGTH then 0x10000 else 0
  {
  }

  lemma BumpTwice(p: uint16, k: nat)
    ensures Bump(Bump(p, k), 1) == Bump(p, k + 1)
  {
  }

  lemma EmbeddedOrder(e: CachedNode, cs: seq<Hash>)
    requires e.children == map[] && multiset(cs) == multiset(e.children.Keys) + multiset(Embedded(e))
    ensures multiset(cs) == multiset(Embedded(e)) && Embedded(e) == EmbeddedIn(e.content)
  {
    assert e.children.Keys == {};
  }

  lemma NewestIsLast(nodes: Nodes, order: seq<Hash>, oldest: Hash, newest: Hash)
    requires Linked(nodes, order, oldest, newest)
    ensures oldest == META <==> order == []
    ensures order != [] ==> newest in nodes && newest in order && newest != META
    ensures forall x :: x in order ==> x in nodes && x != META
  {
  }

  lemma BumpCovers(p: uint16, k: nat, refs: nat)
    ensures p >= refs ==> (Bump(p, k) >= refs + k <==> p + k < 0x10000)
    ensures p == refs ==> (Bump(p, k) == refs + k <==> p + k < 0x10000)
  {
  }

  /** An exactly counted cache stays so when no counter overflows and nothing already refers to the new node. */
  lemma InsertedExact(a: Nodes, b: Nodes, order: seq<Hash>, h: Hash, cs: seq<Hash>)
    requires Inserted(a, b, h, cs) && META in a && h !in a && (forall x :: x in order ==> x in a) && h !in cs
    requires Counted(a, order, {}, multiset{}) && CountedMax(a, order, multiset{})
    ensures Counted(b, order + [h], {}, multiset{}) && CountedMax(b, order + [h], multiset{}) <==>
              TotalRefs(a, order, h) == 0 && NoOverflow(a, order, {}, cs)
  {
    var order' := order + [h];
    forall c ensures TotalRefs(b, order', c) == TotalRefs(a, order, c) + multiset(cs)[c] {
      InsertedRefs(a, b, order, h, cs, c);
    }
    hide Mult, TotalRefs, Refs, Bump;
    forall c | c in order
      ensures b[c].parents == TotalRefs(b, order', c) <==> a[c].parents + multiset(cs)[c] < 0x10000
    {
      BumpCovers(a[c].parents, multiset(cs)[c], TotalRefs(a, order, c));
    }
    assert forall c :: c in order' ==> c in order || c == h;
    assert h in order';
  }

  lemma InsertedShape(a: Nodes, b: Nodes, rank: Hash -> nat, order: seq<Hash>, elsewhere: set<Hash>, h: Hash, cs: seq<Hash>)
    requires Inserted(a, b, h, cs) && h !in a && h != META && Graph(a, rank) && Covers(a, order, {})
    requires Ordered(a, order, elsewhere)
    requires forall c :: c in cs ==> c != META && rank(c) < rank(h) && (c in order || c in elsewhere)
    ensures Graph(b, rank) && Covers(b, order + [h], {}) && Ordered(b, order + [h], elsewhere)
  {
    forall p | p in a ensures Kids(b[p]) == Kids(a[p]) {
    }
    assert Kids(b[h]) == set c | c in cs;
    OrderedSame(a, b, order, elsewhere, elsewhere);
    assert (order + [h])[..|order|] == order;
  }

  lemma LinkedAppend(a: Nodes, b: Nodes, order: seq<Hash>, oldest: Hash, newest: Hash, h: Hash)
    requires Linked(a, order, oldest, newest) && h !in a && h != META && b.Keys == a.Keys + {h}
    requires b[h].flushNext == META && b[h].flushPrev == newest
    requires forall x :: x in order ==> b[x].flushPrev == a[x].flushPrev
    requires forall x :: x in order ==> b[x].flushNext == if x == newest then h else a[x].flushNext
    ensures Linked(b, order + [h], if order == [] then h else oldest, h)
  {
    var order' := order + [h];
    assert forall i :: 0 <= i < |order| ==> order'[i] == order[i] && order[i] in a;
    assert forall i :: 0 <= i < |order| - 1 ==> order[i] != order[|order| - 1];
  }

  ghost predicate Bumped(a: Nodes, b: Nodes, cs: seq<Hash>) {
    b.Keys == a.Keys && forall c :: c in a ==> b[c] == a[c].(parents := Bump(a[c].parents, multiset(cs)[c]))
  }

  lemma BumpedKeys(a: Nodes, b: Nodes, cs: seq<Hash>)
    requires Bumped(a, b, cs)
    ensures b.Keys == a.Keys
  {
  }

  /** The new entry, put behind the newest node. */
  lemma InsertedBuild(a: Nodes, bumped: Nodes, b: Nodes, order: seq<Hash>, oldest: Hash, newest: Hash, h: Hash, entry: CachedNode, cs: seq<Hash>)
    requires Linked(a, order, oldest, newest) && h !in a && h != META && META in a && Bumped(a, bumped, cs)
    requires entry.parents == 0 && entry.children == map[] && entry.flushPrev == newest && entry.flushNext == META
    requires multiset(cs) == multiset(Embedded(entry))
    requires oldest != META ==> newest in bumped
    requires b == if oldest == META then bumped[h := entry] else bumped[h := entry][newest := bumped[newest].(flushNext := h)]
    ensures Inserted(a, b, h, Embedded(entry)) && b[h] == entry
    ensures Linked(b, order + [h], if order == [] then h else oldest, h)
  {
    NewestIsLast(a, order, oldest, newest);
    LinkedAppend(a, b, order, oldest, newest, h);
  }

  lemma InsertedSizes(a: Nodes, b: Nodes, order: seq<Hash>, h: Hash, cs: seq<Hash>)
    requires Inserted(a, b, h, cs) && forall x :: x in order ==> x in a
    ensures Sizes(b, order + [h]) == Sizes(a, order) + HASH_LENGTH + b[h].size
  {
    SizesConcat(b, order, [h]);
    SizesSame(a, b, order);
    assert Sizes(b, [h]) == HASH_LENGTH + b[h].size;
  }

  // ---- explicit references ----

  /** One more registered reference from `parent` to `child`. */
  function Referenced(a: Nodes, child: Hash, parent: Hash): Nodes
    requires child in a && parent in a && child != parent
  {
    var held := if child in a[parent].children then a[parent].children[child] else 0;
    a[child := a[child].(parents := Bump(a[child].parents, 1))]
     [parent := a[parent].(children := a[parent].children[child := Bump(held, 1)])]
  }

  lemma ReferencedIs(a: Nodes, child: Hash, parent: Hash)
    requires child in a && parent in a && child != parent
    ensures var b := a[child := a[child].(parents := Bump(a[child].parents, 1))];
            var held := if child in b[parent].children then b[parent].children[child] else 0;
            Referenced(a, child, parent) == b[parent := b[parent].(children := b[parent].children[child := Bump(held, 1)])]
  {
  }

  lemma ReferencedMult(a: Nodes, b: Nodes, child: Hash, parent: Hash, c: Hash)
    requires child in a && parent in a && child != parent && b == Referenced(a, child, parent)
    requires child in a[parent].children ==> a[parent].children[child] < 0xFFFF
    ensures b.Keys == a.Keys
    ensures forall x :: x in a ==> Mult(b[x], c) == Mult(a[x], c) + if x == parent && c == child then 1 else 0
  {
  }

  lemma ReferencedRefs(a: Nodes, b: Nodes, order: seq<Hash>, child: Hash, parent: Hash, c: Hash)
    requires child in a && parent in a && child != parent && META in a && META !in order && Distinct(order)
    requires parent == META || parent in order
    requires child in a[parent].children ==> a[parent].children[child] < 0xFFFF
    requires b == Referenced(a, child, parent) && META in b
    ensures TotalRefs(b, order, c) == TotalRefs(a, order, c) + if c == child then 1 else 0
  {
    ReferencedMult(a, b, child, parent, c);
    hide Referenced, Mult, Refs;
    if parent == META {
      RefsSame(a, b, order, c);
    } else {
      var k :| 0 <= k < |order| && order[k] == parent;
      RefsRemove(a, order, k, c);
      RefsRemove(b, order, k, c);
      assert parent !in order[..k] + order[k + 1..];
      RefsSame(a, b, order[..k] + order[k + 1..], c);
    }
  }

  /** A reference keeps the counts right exactly when no counter that matters overflows. */
  lemma ReferencedCounts(a: Nodes, b: Nodes, order: seq<Hash>, elsewhere: set<Hash>, child: Hash, parent: Hash)
    requires child in order && child in a && parent in a && child != parent && META in a && META !in order && Distinct(order)
    requires parent == META || parent in order
    requires child in a[parent].children ==> a[parent].children[child] < 0xFFFF
    requires Counted(a, order, elsewhere, multiset{}) && b == Referenced(a, child, parent)
    requires forall h :: h in order ==> h in a
    ensures Counted(b, order, elsewhere, multiset{}) <==> child in elsewhere || a[child].parents < 0xFFFF
    ensures Counted(a, order, {}, multiset{}) && CountedMax(a, order, multiset{}) && a[child].parents < 0xFFFF ==>
              Counted(b, order, {}, multiset{}) && CountedMax(b, order, multiset{})
  {
    ReferencedFacts(a, child, parent);
    ReferencedParents(a, b, child, parent);
    hide Referenced;
    forall c ensures TotalRefs(b, order, c) == TotalRefs(a, order, c) + if c == child then 1 else 0 {
      ReferencedRefs(a, b, order, child, parent, c);
    }
    hide TotalRefs, Bump;
    BumpCovers(a[child].parents, 1, TotalRefs(a, order, child));
  }

  lemma ReferencedParents(a: Nodes, b: Nodes, child: Hash, parent: Hash)
    requires child in a && parent in a && child != parent && b == Referenced(a, child, parent)
    ensures b.Keys == a.Keys && b[child].parents == Bump(a[child].parents, 1)
    ensures forall c :: c in a && c != child ==> b[c].parents == a[c].parents
  {
  }

  lemma ReferencedClosed(a: Nodes, b: Nodes, order: seq<Hash>, elsewhere: set<Hash>, child: Hash, parent: Hash)
    requires child in order && child in a && parent in a && child != parent && META in a
    requires Closed(a, order, elsewhere) && b == Referenced(a, child, parent)
    ensures Closed(b, order, elsewhere)
  {
    ReferencedFacts(a, child, parent);
    hide Referenced, Kids;
  }

  /** The flush order has a node before another, wherever that other one is. */
  ghost predicate Precedes(order: seq<Hash>, child: Hash, parent: Hash) {
    forall i :: 0 <= i < |order| && order[i] == parent ==> child in order[..i]
  }

  lemma {:induction false} OrderedAdd(a: Nodes, b: Nodes, s: seq<Hash>, elsewhere: set<Hash>, child: Hash, parent: Hash)
    requires Ordered(a, s, elsewhere) && forall h :: h in s ==> h in a && h in b
    requires forall h :: h in s ==> Kids(b[h]) <= Kids(a[h]) + if h == parent then {child} else {}
    requires child in elsewhere || Precedes(s, child, parent)
    ensures Ordered(b, s, elsewhere)
  {
    if s != [] {
      var n := |s| - 1;
      forall i | 0 <= i < n && s[..n][i] == parent && child !in elsewhere
        ensures child in s[..n][..i]
      {
        assert s[..n][..i] == s[..i];
      }
      OrderedAdd(a, b, s[..n], elsewhere, child, parent);
    }
  }

  /** In an ordered list every child precedes its parent, unless it is elsewhere. */
  lemma PrecedesAll(b: Nodes, s: seq<Hash>, elsewhere: set<Hash>, child: Hash, parent: Hash)
    requires Ordered(b, s, elsewhere) && parent in b && child in Kids(b[parent])
    ensures child in elsewhere || Precedes(s, child, parent)
  {
    forall i | 0 <= i < |s| && s[i] == parent && child !in elsewhere
      ensures child in s[..i]
    {
      OrderedAt(b, s, elsewhere, i);
    }
  }

  /** What a new reference changes, entry by entry. */
  lemma ReferencedFacts(a: Nodes, child: Hash, parent: Hash)
    requires child in a && parent in a && child != parent
    ensures var b := Referenced(a, child, parent);
            && b.Keys == a.Keys
            && (forall x :: x in a ==> b[x].flushPrev == a[x].flushPrev && b[x].flushNext == a[x].flushNext)
            && (forall x :: x in a ==> b[x].content == a[x].content && b[x].size == a[x].size)
            && (forall x :: x in a && x != parent ==> b[x].children == a[x].children)
            && (forall x :: x in a ==> Kids(b[x]) == Kids(a[x]) + if x == parent then {child} else {})
            && child in b[parent].children
            && (forall x :: x in b[parent].children && x != child ==> x in a[parent].children && b[parent].children[x] == a[parent].children[x])
            && b[parent].children[child] == Bump(if child in a[parent].children then a[parent].children[child] else 0, 1)
  {
  }

  lemma ReferencedKids(a: Nodes, b: Nodes, rank: Hash -> nat, child: Hash, parent: Hash)
    requires child in a && parent in a && child != parent && child != META && Graph(a, rank)
    requires parent != META ==> rank(child) < rank(parent)
    requires b == Referenced(a, child, parent)
    ensures forall p, c :: p in b && c in Kids(b[p]) ==> c != META
    ensures forall p, c {:trigger c in Kids(b[p])} :: p in b && p != META && c in Kids(b[p]) ==> rank(c) < rank(p)
  {
    ReferencedFacts(a, child, parent);
    hide Referenced, Kids;
    forall p, c | p in b && c in Kids(b[p])
      ensures c != META && (p != META ==> rank(c) < rank(p))
    {
      assert c in Kids(a[p]) || (p == parent && c == child);
    }
  }

  lemma ReferencedGraph(a: Nodes, b: Nodes, rank: Hash -> nat, child: Hash, parent: Hash)
    requires child in a && parent in a && child != parent && child != META && Graph(a, rank)
    requires parent != META ==> rank(child) < rank(parent) && child !in a[parent].children
    requires b == Referenced(a, child, parent)
    ensures Graph(b, rank) <==> child in a[parent].children ==> a[parent].children[child] < 0xFFFF
  {
    ReferencedFacts(a, child, parent);
    if child in a[parent].children && a[parent].children[child] == 0xFFFF {
      hide Referenced, Kids;
      assert child in b[META].children && b[META].children[child] == 0;
    } else {
      ReferencedKids(a, b, rank, child, parent);
      ReferencedChildren(a, b, child, parent);
      GraphMeta(a, rank);
      hide Referenced, Kids, Embedded;
    }
  }

  lemma ReferencedChildren(a: Nodes, b: Nodes, child: Hash, parent: Hash)
    requires child in a && parent in a && child != parent && b == Referenced(a, child, parent) && META in a
    requires Embedded(a[META]) == []
    requires forall p, c :: p in a && c in a[p].children ==> if p == META then a[p].children[c] > 0 else a[p].children[c] == 1
    requires parent != META ==> child !in a[parent].children
    requires child in a[parent].children ==> a[parent].children[child] < 0xFFFF
    ensures META in b && Embedded(b[META]) == []
    ensures forall p, c :: p in b && c in b[p].children ==> if p == META then b[p].children[c] > 0 else b[p].children[c] == 1
  {
    ReferencedFacts(a, child, parent);
    hide Referenced, Kids;
    forall p, c | p in b && c in b[p].children
      ensures if p == META then b[p].children[c] > 0 else b[p].children[c] == 1
    {
      if p != parent || c != child {
        assert c in a[p].children;
      }
    }
  }

  lemma SameChain(a: Nodes, b: Nodes, order: seq<Hash>, oldest: Hash, newest: Hash, path: set<Hash>)
    requires Linked(a, order, oldest, newest) && Covers(a, order, path) && a.Keys == b.Keys
    requires forall x :: x in order ==> x in a && b[x].flushNext == a[x].flushNext
    requires forall i :: 0 < i < |order| ==> b[order[i]].flushPrev == a[order[i]].flushPrev
    ensures Linked(b, order, oldest, newest) && Covers(b, order, path)
  {
    hide Distinct;
  }

  lemma ReferencedShape(a: Nodes, b: Nodes, rank: Hash -> nat, order: seq<Hash>, oldest: Hash, newest: Hash, elsewhere: set<Hash>, child: Hash, parent: Hash)
    requires child in a && parent in a && child != parent && child != META
    requires Linked(a, order, oldest, newest) && Covers(a, order, {}) && Graph(a, rank) && Ordered(a, order, elsewhere)
    requires parent != META ==> rank(child) < rank(parent) && child !in a[parent].children
    requires b == Referenced(a, child, parent)
    ensures Linked(b, order, oldest, newest) && Covers(b, order, {})
    ensures Ordered(b, order, elsewhere) <==> parent == META || child in elsewhere || Precedes(order, child, parent)
    ensures Sizes(b, order) == Sizes(a, order)
    ensures Graph(b, rank) <==> child in a[parent].children ==> a[parent].children[child] < 0xFFFF
  {
    ReferencedGraph(a, b, rank, child, parent);
    ReferencedFacts(a, child, parent);
    hide *;
    NewestIsLast(a, order, oldest, newest);
    SizesSame(a, b, order);
    SameChain(a, b, order, oldest, newest, {});
    if parent == META {
      OrderedSame(a, b, order, elsewhere, elsewhere);
    } else if child in elsewhere || Precedes(order, child, parent) {
      OrderedAdd(a, b, order, elsewhere, child, parent);
    } else if Ordered(b, order, elsewhere) {
      PrecedesAll(b, order, elsewhere, child, parent);
    }
  }

  /** Everything about the insertion of a new entry. */
  lemma InsertDone(a: Nodes, bumped: Nodes, b: Nodes, rank: Hash -> nat, order: seq<Hash>, oldest: Hash, newest: Hash, disk: set<Hash>,
                   h: Hash, entry: CachedNode, cs: seq<Hash>)
    requires Sound(a, order, oldest, newest, rank, disk) && h !in a && h != META && Bumped(a, bumped, cs)
    requires entry.parents == 0 && entry.children == map[] && entry.flushPrev == newest && entry.flushNext == META
    requires multiset(cs) == multiset(Embedded(entry))
    requires oldest != META ==> newest in bumped
    requires b == Appended(bumped, h, entry, oldest, newest)
    requires forall c :: c in Embedded(entry) ==> rank(c) < rank(h)
    ensures Inserted(a, b, h, Embedded(entry)) && b[h] == entry
    ensures Sound(b, order + [h], if oldest == META then h else oldest, h, rank, disk) <==>
              Insertable(a, disk, rank, h, Embedded(entry)) && NoOverflow(a, order, disk, Embedded(entry))
    ensures Sizes(b, order + [h]) == Sizes(a, order) + HASH_LENGTH + entry.size
    ensures META in a
    ensures CountedExactly(a, order) ==>
              (CountedExactly(b, order + [h]) <==> TotalRefs(a, order, h) == 0 && NoOverflow(a, order, {}, Embedded(entry)))
  {
    hide Linked, Graph, Closed, Counted, CountedMax, Sizes, Distinct, TotalRefs, Ordered, Bumped, Inserted, NoOverflow, Embedded;
    assert forall c :: c in a ==> c == META || c in order;
    NewestIsLast(a, order, oldest, newest);
    GraphMeta(a, rank);
    InsertedBuild(a, bumped, b, order, oldest, newest, h, entry, cs);
    if Insertable(a, disk, rank, h, Embedded(entry)) {
      InsertedShape(a, b, rank, order, disk, h, Embedded(entry));
      InsertedCounts(a, b, rank, order, disk, h, Embedded(entry));
    } else if Graph(b, rank) && Closed(b, order + [h], disk) {
      KnownChildren(a, b, rank, order, disk, h, Embedded(entry));
    }
    InsertedSizes(a, b, order, h, Embedded(entry));
    if CountedExactly(a, order) {
      InsertedExact(a, b, order, h, Embedded(entry));
    }
  }

  /** In a sound cache the newest entry's references go to nodes that are cached or on disk. */
  lemma KnownChildren(a: Nodes, b: Nodes, rank: Hash -> nat, order: seq<Hash>, disk: set<Hash>, h: Hash, cs: seq<Hash>)
    requires Inserted(a, b, h, cs) && Graph(b, rank) && Closed(b, order + [h], disk)
    requires (forall x :: x in order ==> x in a) && forall c :: c in cs ==> rank(c) < rank(h)
    ensures Insertable(a, disk, rank, h, cs)
  {
    assert h in order + [h];
    forall c | c in cs
      ensures c in Kids(b[h])
    {
      assert Embedded(b[h]) == cs;
    }
    hide Inserted, Kids;
  }

  lemma GraphMeta(nodes: Nodes, rank: Hash -> nat)
    requires Graph(nodes, rank)
    ensures META in nodes
  {
  }

  /** Everything about a newly registered reference. */
  lemma ReferenceDone(a: Nodes, b: Nodes, rank: Hash -> nat, order: seq<Hash>, oldest: Hash, newest: Hash, disk: set<Hash>, child: Hash, parent: Hash)
    requires Sound(a, order, oldest, newest, rank, disk)
    requires child in a && parent in a && child != parent && child != META && b == Referenced(a, child, parent)
    requires parent != META ==> rank(child) < rank(parent) && child !in a[parent].children
    ensures Sound(b, order, oldest, newest, rank, disk) <==>
              && (parent == META || child in disk || Precedes(order, child, parent))
              && (child in a[parent].children ==> a[parent].children[child] < 0xFFFF)
              && (child in disk || a[child].parents < 0xFFFF)
    ensures Sound(b, order, oldest, newest, rank, disk) && CountedExactly(a, order) && a[child].parents < 0xFFFF ==> CountedExactly(b, order)
    ensures Sizes(b, order) == Sizes(a, order)
  {
    NewestIsLast(a, order, oldest, newest);
    GraphMeta(a, rank);
    assert forall c :: c in a ==> c == META || c in order;
    assert Distinct(order);
    hide Linked, Graph, Closed, Counted, CountedMax, Sizes, Distinct, TotalRefs, Ordered, Referenced, Precedes;
    ReferencedShape(a, b, rank, order, oldest, newest, disk, child, parent);
    if child in a[parent].children ==> a[parent].children[child] < 0xFFFF {
      ReferencedClosed(a, b, order, disk, child, parent);
      ReferencedCounts(a, b, order, disk, child, parent);
    }
  }

  // ---- the disk ----

  type Disk = map<Hash, bytes>

  /** `b` is `a` with some nodes written, each as its serialised content, and none without its children. */
  ghost predicate Wrote(nodes: Nodes, a: Disk, b: Disk) {
    && a.Keys <= b.Keys
    && forall h :: h in b ==> (h in a && b[h] == a[h]) || (h in nodes && b[h] == Blob(nodes[h]) && Kids(nodes[h]) <= b.Keys)
  }

  /** The listed nodes are cached, and on disk as their serialised content. */
  ghost predicate Stored(nodes: Nodes, disk: Disk, s: seq<Hash>) {
    forall h :: h in s ==> h in nodes && h in disk && disk[h] == Blob(nodes[h])
  }

  lemma StoreNext(nodes: Nodes, disk0: Disk, disk: Disk, s: seq<Hash>, h: Hash)
    requires Wrote(nodes, disk0, disk) && Stored(nodes, disk, s) && h in nodes && Kids(nodes[h]) <= disk.Keys
    ensures var disk' := disk[h := Blob(nodes[h])];
            Wrote(nodes, disk0, disk') && Stored(nodes, disk', s + [h])
  {
  }

  /** In list order, a node's children are stored before the node. */
  lemma KidsStored(nodes: Nodes, order: seq<Hash>, disk0: Disk, disk: Disk, m: nat)
    requires Ordered(nodes, order, disk0.Keys) && m < |order| && order[m] in nodes
    requires Wrote(nodes, disk0, disk) && Stored(nodes, disk, order[..m])
    ensures Kids(nodes[order[m]]) <= disk.Keys
  {
    OrderedAt(nodes, order, disk0.Keys, m);
  }

  lemma WroteTrans(nodes: Nodes, a: Disk, b: Disk, c: Disk)
    requires Wrote(nodes, a, b) && Wrote(nodes, b, c)
    ensures Wrote(nodes, a, c)
  {
  }

  /** What is on disk spares its references from being counted. */
  lemma SoundMoreDisk(nodes: Nodes, order: seq<Hash>, oldest: Hash, newest: Hash, rank: Hash -> nat, d: set<Hash>, e: set<Hash>)
    requires Sound(nodes, order, oldest, newest, rank, d) && d <= e
    ensures Sound(nodes, order, oldest, newest, rank, e)
  {
    OrderedSame(nodes, nodes, order, d, e);
  }

  lemma LinkedTail(a: Nodes, order: seq<Hash>, oldest: Hash, newest: Hash)
    requires Linked(a, order, oldest, newest) && order != []
    ensures Linked(a - {order[0]}, order[1..], a[order[0]].flushNext, newest)
  {
    var b, rest := a - {order[0]}, order[1..];
    assert forall i :: 0 <= i < |rest| ==> rest[i] == order[i + 1] && rest[i] != order[0] && rest[i] in b;
    assert rest != [] ==> rest[|rest| - 1] == order[|order| - 1];
  }

  lemma DropOldestShape(a: Nodes, order: seq<Hash>, oldest: Hash, newest: Hash, rank: Hash -> nat)
    requires Linked(a, order, oldest, newest) && Covers(a, order, {}) && Graph(a, rank) && order != []
    ensures Linked(a - {order[0]}, order[1..], a[order[0]].flushNext, newest)
    ensures Covers(a - {order[0]}, order[1..], {}) && Graph(a - {order[0]}, rank)
  {
    var rest := order[1..];
    LinkedTail(a, order, oldest, newest);
    assert order[0] !in rest && order[0] != META;
    assert order == [order[0]] + rest;
    hide Linked;
    assert forall h :: h in order <==> h == order[0] || h in rest;
  }

  /** Dropping the oldest node is safe once it is on disk. */
  lemma DropOldest(a: Nodes, order: seq<Hash>, oldest: Hash, newest: Hash, rank: Hash -> nat, disk: set<Hash>)
    requires Sound(a, order, oldest, newest, rank, disk) && order != [] && order[0] in disk
    ensures order[0] in a && order[0] != META
    ensures Sound(a - {order[0]}, order[1..], a[order[0]].flushNext, newest, rank, disk)
    ensures Sizes(a, order) == HASH_LENGTH + a[order[0]].size + Sizes(a - {order[0]}, order[1..])
  {
    var b, rest := a - {order[0]}, order[1..];
    DropOldestShape(a, order, oldest, newest, rank);
    assert order == [order[0]] + rest;
    assert forall h :: h in rest ==> h in b;
    forall c ensures TotalRefs(b, rest, c) <= TotalRefs(a, order, c) {
      RefsConcat(a, [order[0]], rest, c);
      RefsSame(a, b, rest, c);
    }
    SizesSame(a, b, rest);
    OrderedDrop(a, order, 1, disk, disk);
    OrderedSame(a, b, rest, disk, disk);
    assert Closed(b, rest, disk);
  }

  /** The oldest node's back link means nothing. */
  lemma ClearBackLink(a: Nodes, order: seq<Hash>, oldest: Hash, newest: Hash, rank: Hash -> nat, disk: set<Hash>)
    requires Sound(a, order, oldest, newest, rank, disk) && order != []
    ensures oldest in a
    ensures var b := a[oldest := a[oldest].(flushPrev := META)];
            && OnlyLinksDiffer(a, b) && Sound(b, order, oldest, newest, rank, disk) && Sizes(b, order) == Sizes(a, order)
  {
    var b := a[oldest := a[oldest].(flushPrev := META)];
    NewestIsLast(a, order, oldest, newest);
    assert OnlyLinksDiffer(a, b);
    assert forall i :: 0 < i < |order| ==> order[i] != order[0];
    SameChain(a, b, order, oldest, newest, {});
    hide Linked, Covers, Graph, Ordered, Counted, CountedMax, Closed, Kids;
    SizesSame(a, b, order);
    Transfer(a, b, order, disk, multiset{});
    GraphSame(a, b, rank);
    KidsSame(a, b);
    OrderedSame(a, b, order, disk, disk);
    hide *;
  }

  lemma KidsSame(a: Nodes, b: Nodes)
    requires OnlyLinksDiffer(a, b)
    ensures forall h :: h in a ==> h in b && Kids(b[h]) == Kids(a[h])
  {
  }

  /** Uncaching a written node: its references vanish with it, references to it are on disk. */
  lemma DetachWritten(a: Nodes, b: Nodes, order: seq<Hash>, k: nat, disk: set<Hash>)
    requires k < |order| && Distinct(order) && META !in order && order[k] in disk
    requires OnlyLinksDiffer(a, b) && META in a && forall h :: h in order ==> h in a
    requires Closed(a, order, disk) && Counted(a, order, disk, multiset{})
    ensures Closed(b, order[..k] + order[k + 1..], disk) && Counted(b, order[..k] + order[k + 1..], disk, multiset{})
  {
    var rest := order[..k] + order[k + 1..];
    forall c ensures TotalRefs(b, rest, c) <= TotalRefs(a, order, c) {
      DetachRefs(a, b, order, k, c);
    }
    forall h ensures h in order <==> h in rest || h == order[k] {
      if h in order && h != order[k] {
        var i :| 0 <= i < |order| && order[i] == h;
        assert h == if i < k then rest[i] else rest[i - 1];
      }
    }
  }
}
