/** Eviction by size: which nodes `Cap` writes out and drops, and what is left of the cache. */
module TrieFlush {
  import opened TrieNode
  import opened TrieCache

  function Elements(s: seq<Hash>): set<Hash> { set h | h in s }

  function Head(s: seq<Hash>): Hash { if s == [] then META else s[0] }

  /** The size a cache reports: its blobs, and two hashes of flush-list links per node. */
  function SizeOf(nodesSize: int, nodes: Nodes): int { nodesSize + (|nodes| - 1) * 2 * HASH_LENGTH }

  lemma SizeIs(nodesSize: int, nodes: Nodes)
    ensures SizeOf(nodesSize, nodes) == nodesSize + 64 * (|nodes| - 1)
  {
  }

  /** What remains of `size` once the first `m` nodes are gone. */
  function SizeLeft(nodes: Nodes, order: seq<Hash>, size: int, m: nat): int
    requires m <= |order|
  {
    size - Sizes(nodes, order[..m]) - m * 2 * HASH_LENGTH
  }

  /** `m` oldest nodes are enough to get within the limit, and no fewer. */
  ghost predicate EnoughFlushed(nodes: Nodes, order: seq<Hash>, size: int, limit: int, m: nat) {
    && m <= |order|
    && (SizeLeft(nodes, order, size, m) <= limit || m == |order|)
    && (m > 0 ==> SizeLeft(nodes, order, size, m - 1) > limit)
  }

  /** The cache without its `m` oldest nodes. */
  ghost predicate Dropped(a: Nodes, s: seq<Hash>, b: Nodes, order: seq<Hash>, m: nat) {
    && m <= |s| && order == s[m..]
    && b.Keys == a.Keys - Elements(s[..m])
    && forall h :: h in b ==> SameCore(b[h], a[h])
  }

  // ---- writing out ----

  ghost predicate FlushInv(nodes: Nodes, order: seq<Hash>, size0: int, limit: int, size: int, cur: Hash, m: nat) {
    && m <= |order| && cur == Head(order[m..])
    && size == SizeLeft(nodes, order, size0, m)
    && (m > 0 ==> SizeLeft(nodes, order, size0, m - 1) > limit)
  }

  lemma FlushStart(nodes: Nodes, order: seq<Hash>, oldest: Hash, size0: int, limit: int, disk0: Disk)
    requires oldest == Head(order)
    ensures FlushInv(nodes, order, size0, limit, size0, oldest, 0)
    ensures Wrote(nodes, disk0, disk0) && Stored(nodes, disk0, order[..0])
  {
    assert order[0..] == order;
  }

  lemma SizesNext(nodes: Nodes, s: seq<Hash>, m: nat)
    requires m < |s| && s[m] in nodes
    ensures Sizes(nodes, s[..m + 1]) == Sizes(nodes, s[..m]) + HASH_LENGTH + nodes[s[m]].size
  {
    assert s[..m + 1] == s[..m] + [s[m]];
    SizesConcat(nodes, s[..m], [s[m]]);
    assert Sizes(nodes, [s[m]]) == HASH_LENGTH + nodes[s[m]].size;
  }

  /** The next node to write: its children are written already, and its link leads to the one after. */
  lemma FlushStep(nodes: Nodes, order: seq<Hash>, oldest: Hash, newest: Hash, rank: Hash -> nat,
                  size0: int, limit: int, size: int, cur: Hash, m: nat, disk0: Disk, disk: Disk)
    requires Sound(nodes, order, oldest, newest, rank, disk0.Keys)
    requires FlushInv(nodes, order, size0, limit, size, cur, m) && size > limit && cur != META
    requires Wrote(nodes, disk0, disk) && Stored(nodes, disk, order[..m])
    ensures m < |order| && cur == order[m] && cur in nodes && Kids(nodes[cur]) <= disk.Keys
    ensures FlushInv(nodes, order, size0, limit, size - (3 * HASH_LENGTH + nodes[cur].size), nodes[cur].flushNext, m + 1)
    ensures var disk' := disk[cur := Blob(nodes[cur])];
            Wrote(nodes, disk0, disk') && Stored(nodes, disk', order[..m + 1])
  {
    FlushNext(nodes, order, oldest, newest, rank, size0, limit, size, cur, m, disk0.Keys);
    hide *;
    KidsStored(nodes, order, disk0, disk, m);
    StoreNext(nodes, disk0, disk, order[..m], cur);
  }

  lemma FlushNext(nodes: Nodes, order: seq<Hash>, oldest: Hash, newest: Hash, rank: Hash -> nat,
                  size0: int, limit: int, size: int, cur: Hash, m: nat, disk: set<Hash>)
    requires Sound(nodes, order, oldest, newest, rank, disk)
    requires FlushInv(nodes, order, size0, limit, size, cur, m) && size > limit && cur != META
    ensures m < |order| && cur == order[m] && cur in nodes && Ordered(nodes, order, disk) && order[..m + 1] == order[..m] + [cur]
    ensures FlushInv(nodes, order, size0, limit, size - (3 * HASH_LENGTH + nodes[cur].size), nodes[cur].flushNext, m + 1)
  {
    assert order[m..][0] == order[m];
    assert cur in nodes;
    SizesNext(nodes, order, m);
    hide Sizes, Ordered;
    assert nodes[cur].flushNext == Head(order[m + 1..]);
  }

  lemma FlushEnd(nodes: Nodes, order: seq<Hash>, size0: int, limit: int, size: int, cur: Hash, m: nat)
    requires FlushInv(nodes, order, size0, limit, size, cur, m) && META !in order
    requires size <= limit || cur == META
    ensures m <= |order| && cur == Head(order[m..]) && EnoughFlushed(nodes, order, size0, limit, m)
  {
    assert m < |order| ==> order[m..][0] == order[m] && order[m] in order;
  }

  // ---- dropping ----

  ghost predicate DropInv(a: Nodes, s: seq<Hash>, size0: int, b: Nodes, order: seq<Hash>, size: int, j: nat) {
    && j <= |s| && order == s[j..]
    && b.Keys == a.Keys - Elements(s[..j])
    && (forall h :: h in b ==> b[h] == a[h])
    && size == size0 - Sizes(a, s[..j])
  }

  lemma DropStart(nodes: Nodes, order: seq<Hash>, size: int)
    ensures DropInv(nodes, order, size, nodes, order, size, 0)
  {
    assert order[0..] == order;
  }

  /** While nodes remain to be dropped, the oldest one is next. */
  lemma DropNext(s: seq<Hash>, b: Nodes, order: seq<Hash>, oldest: Hash, newest: Hash, j: nat, m: nat, cur: Hash)
    requires Linked(b, order, oldest, newest) && j <= m <= |s| && order == s[j..] && Distinct(s) && META !in s
    requires cur == Head(s[m..])
    ensures oldest == cur <==> j == m
    ensures j < m ==> order != [] && oldest == s[j] && order[0] == s[j] && order[1..] == s[j + 1..] && s[j] in s[..m]
  {
    assert j < |s| ==> s[j..][0] == s[j];
    assert m < |s| ==> s[m..][0] == s[m];
    if j < m {
      assert s[..m][j] == s[j];
    }
  }

  lemma DropInvNext(a: Nodes, s: seq<Hash>, size0: int, b: Nodes, order: seq<Hash>, size: int, j: nat)
    requires DropInv(a, s, size0, b, order, size, j) && j < |s| && s[j] in b
    ensures DropInv(a, s, size0, b - {s[j]}, s[j + 1..], size - (HASH_LENGTH + b[s[j]].size), j + 1)
  {
    SizesNext(a, s, j);
    hide Sizes;
    assert s[..j + 1] == s[..j] + [s[j]];
    assert Elements(s[..j + 1]) == Elements(s[..j]) + {s[j]};
  }

  lemma DropStep(a: Nodes, s: seq<Hash>, size0: int, b: Nodes, order: seq<Hash>, oldest: Hash, newest: Hash, rank: Hash -> nat, disk: set<Hash>,
                 size: int, j: nat, m: nat, cur: Hash)
    requires DropInv(a, s, size0, b, order, size, j) && Sound(b, order, oldest, newest, rank, disk)
    requires j <= m <= |s| && Distinct(s) && META !in s && cur == Head(s[m..]) && oldest != cur
    requires forall h :: h in s[..m] ==> h in disk
    ensures j < m && oldest in b && order != []
    ensures Sound(b - {oldest}, order[1..], b[oldest].flushNext, newest, rank, disk)
    ensures DropInv(a, s, size0, b - {oldest}, order[1..], size - (HASH_LENGTH + b[oldest].size), j + 1)
  {
    DropNext(s, b, order, oldest, newest, j, m, cur);
    hide *;
    DropOldest(b, order, oldest, newest, rank, disk);
    DropInvNext(a, s, size0, b, order, size, j);
  }

  lemma DropEnd(a: Nodes, s: seq<Hash>, size0: int, b: Nodes, order: seq<Hash>, newest: Hash, rank: Hash -> nat, disk: set<Hash>,
                size: int, j: nat, m: nat, cur: Hash)
    requires DropInv(a, s, size0, b, order, size, j) && Sound(b, order, cur, newest, rank, disk)
    requires j <= m <= |s| && Distinct(s) && META !in s && cur == Head(s[m..])
    requires forall h :: h in s ==> h in a
    ensures j == m && (cur != META ==> cur in b)
    ensures var c := if cur == META then b else b[cur := b[cur].(flushPrev := META)];
            && Sound(c, order, cur, newest, rank, disk) && Dropped(a, s, c, order, m)
            && size - Sizes(c, order) == size0 - Sizes(a, s)
  {
    DropNext(s, b, order, cur, newest, j, m, cur);
    assert forall h :: h in order ==> h in b && b[h] == a[h];
    hide *;
    DroppedNow(a, s, size0, b, order, size, j);
    if cur != META {
      ClearBackLink(b, order, cur, newest, rank, disk);
      DroppedLinks(a, s, b, b[cur := b[cur].(flushPrev := META)], order, m);
    }
  }

  /** The size accounted for the dropped nodes is the size they had. */
  lemma DroppedNow(a: Nodes, s: seq<Hash>, size0: int, b: Nodes, order: seq<Hash>, size: int, j: nat)
    requires DropInv(a, s, size0, b, order, size, j) && forall h :: h in order ==> h in a && h in b
    ensures Dropped(a, s, b, order, j) && size - Sizes(b, order) == size0 - Sizes(a, s)
  {
    SizesConcat(a, s[..j], s[j..]);
    assert s == s[..j] + s[j..];
    SizesSame(a, b, order);
  }

  lemma DroppedLinks(a: Nodes, s: seq<Hash>, b: Nodes, c: Nodes, order: seq<Hash>, m: nat)
    requires Dropped(a, s, b, order, m) && OnlyLinksDiffer(b, c)
    ensures Dropped(a, s, c, order, m)
  {
  }

  lemma {:induction false} ListSize(s: seq<Hash>)
    requires Distinct(s)
    ensures |Elements(s)| == |s|
  {
    if s != [] {
      var t := s[1..];
      ListSize(t);
      assert s[0] !in t;
      assert Elements(s) == Elements(t) + {s[0]};
    }
  }

  /** The size the cache reports afterwards is the one `Cap` counted down to. */
  lemma SizeDropped(a: Nodes, s: seq<Hash>, size0: int, b: Nodes, order: seq<Hash>, size: int, m: nat)
    requires Dropped(a, s, b, order, m) && Distinct(s) && forall h :: h in s ==> h in a
    requires size == size0 - Sizes(a, s[..m])
    ensures SizeOf(size, b) == SizeLeft(a, s, SizeOf(size0, a), m)
  {
    var gone := Elements(s[..m]);
    ListSize(s[..m]);
    assert a.Keys == b.Keys + gone && b.Keys !! gone;
    assert |a.Keys| == |b.Keys| + m;
    assert |a| == |a.Keys| && |b| == |b.Keys|;
  }

  lemma DropInvSize(a: Nodes, s: seq<Hash>, size0: int, b: Nodes, order: seq<Hash>, size: int, j: nat)
    requires DropInv(a, s, size0, b, order, size, j)
    ensures j <= |s| && size == size0 - Sizes(a, s[..j])
  {
  }

  lemma WithinLimit(a: Nodes, s: seq<Hash>, size: int, limit: int, m: nat, b: Nodes, order: seq<Hash>)
    requires EnoughFlushed(a, s, size, limit, m) && Dropped(a, s, b, order, m)
    ensures SizeLeft(a, s, size, m) <= limit || order == []
  {
  }

  lemma StoredKeys(nodes: Nodes, disk: Disk, s: seq<Hash>)
    requires Stored(nodes, disk, s)
    ensures forall h :: h in s ==> h in disk
  {
  }
}
