/** The hashes a node holds: those gathered from the collapsed node are those met when it is read back. */
module TrieLinks {
  import opened Bytes
  import opened TrieNode
  import opened TrieEncoding
  import opened TrieInsert
  import opened TrieCache
  import opened TrieRead
  import opened TrieFlush
  import opened TrieCommit
  import TrieHash
  import TrieProof

  // ---- what is met on reading ----

  /** Following a full key through a node ends at a hash. */
  ghost predicate Meets(n: Node, key: bytes, h: bytes) {
    TrieProof.Reads(n, key) && TrieProof.get(n, key).1 == HashRef(h)
  }

  /** Some key leads to the hash. */
  ghost predicate LinksTo(n: Node, c: Hash) {
    exists key, h :: Meets(n, key, h) && BytesToHash(h) == c
  }

  /** A place in a node where a hash stands: all keys that go on from there lead to it. */
  ghost predicate LeadsTo(n: Node, p: bytes, h: bytes) {
    forall k :: FullKey(k) ==> TrieProof.Reads(n, p + k) && TrieProof.get(n, p + k) == (k, HashRef(h))
  }

  /** None begins another. */
  ghost predicate Apart(ps: seq<bytes>) {
    forall i, j :: 0 <= i < j < |ps| ==> !(ps[i] <= ps[j]) && !(ps[j] <= ps[i])
  }

  ghost predicate Covered(n: Node, ps: seq<bytes>) {
    forall key, h :: Meets(n, key, h) ==> exists i :: 0 <= i < |ps| && ps[i] <= key
  }

  /** All places where hashes stand, each once. */
  ghost predicate Places(n: Node, ps: seq<bytes>, hs: seq<bytes>) {
    && |ps| == |hs| && (forall i :: 0 <= i < |ps| ==> LeadsTo(n, ps[i], hs[i])) && Apart(ps) && Covered(n, ps)
  }

  ghost predicate Names(hs: seq<bytes>, cs: seq<Hash>) {
    |hs| == |cs| && forall i :: 0 <= i < |hs| ==> BytesToHash(hs[i]) == cs[i]
  }

  /** What stands in a child slot, the value slot excepted, or is stored on its own. */
  predicate Held(n: Node) { TrieHash.Slot(n) || TrieHash.Collapsed(n) }

  // ---- live forms ----

  lemma HeldIs(n: Node)
    requires Held(n)
    ensures !n.Val? && (n.Short? || n.Full? ==> TrieHash.Collapsed(n))
  {
  }

  lemma {:induction false} LiveDecoded(n: Node)
    requires Held(n)
    ensures TrieProof.Decoded(TrieHash.expandNode(n))
    decreases n
  {
    HeldIs(n);
    var x := TrieHash.expandNode(n);
    hide TrieHash.Collapsed, TrieHash.Slot, CompactToHex;
    if n.Short? {
      ShortHeld(n);
      if !n.child.Val? {
        LiveDecoded(n.child);
      }
    } else if n.Full? {
      FullHeld(n, 0);
      forall i | 0 <= i < 16
        ensures TrieProof.Decoded(x.children[i])
      {
        FullHeld(n, i);
        LiveDecoded(n.children[i]);
      }
      FullDecoded(x);
    }
  }

  lemma FullDecoded(x: Node)
    requires x.Full? && |x.children| == 17 && (x.children[16].Nil? || x.children[16].Val?)
    requires forall i :: 0 <= i < 16 ==> TrieProof.Decoded(x.children[i])
    ensures TrieProof.Decoded(x)
  {
  }

  lemma ShortHeld(n: Node)
    requires Held(n) && n.Short?
    ensures var x := TrieHash.expandNode(n);
            && x.Short? && Hex(x.key) && x.child == TrieHash.expandNode(n.child)
            && if hasTerm(x.key) then n.child.Val? && x.child.Val? else Held(n.child) && !n.child.Val?
  {
    HeldIs(n);
    hide CompactToHex;
  }

  lemma FullHeld(n: Node, i: nat)
    requires Held(n) && n.Full? && i < 16
    ensures |n.children| == 17 && Held(n.children[i]) && !n.children[i].Val?
    ensures var x := TrieHash.expandNode(n); x.Full? && |x.children| == 17 && x.children[i] == TrieHash.expandNode(n.children[i])
    ensures n.children[16].Nil? || n.children[16].Val?
    ensures TrieHash.expandNode(n).children[16] == n.children[16]
  {
    HeldIs(n);
    hide CompactToHex;
  }

  // ---- one step down ----

  lemma ExtendedKey(p: bytes, k: bytes)
    requires Nibbles(p) && FullKey(k)
    ensures FullKey(p + k)
  {
    assert (p + k)[..|p + k| - 1] == p + k[..|k| - 1];
  }

  lemma LeadsAt(x: Node, p: bytes, h: bytes, k: bytes)
    requires LeadsTo(x, p, h) && FullKey(k)
    ensures TrieProof.Reads(x, p + k) && TrieProof.get(x, p + k) == (k, HashRef(h))
  {
    hide TrieProof.Reads, TrieProof.get, FullKey;
  }

  lemma LeadsIf(x: Node, p: bytes, h: bytes)
    requires forall k :: FullKey(k) ==> TrieProof.Reads(x, p + k) && TrieProof.get(x, p + k) == (k, HashRef(h))
    ensures LeadsTo(x, p, h)
  {
    hide TrieProof.Reads, TrieProof.get, FullKey;
  }

  /** Reading on to a hash needs something left of the key. */
  lemma HashNeedsKey(x: Node, key: bytes)
    requires TrieProof.Reads(x, key) && TrieProof.get(x, key).1.HashRef?
    ensures FullKey(key)
  {
  }

  lemma ShortStep(x: Node, rest: bytes)
    requires x.Short? && !hasTerm(x.key) && Hex(x.key) && TrieProof.Decoded(x) && FullKey(rest) && TrieProof.Reads(x.child, rest)
    ensures TrieProof.Reads(x, x.key + rest) && TrieProof.get(x, x.key + rest) == TrieProof.get(x.child, rest)
  {
    ExtendedKey(x.key, rest);
    var key := x.key + rest;
    assert key[..|x.key|] == x.key && key[|x.key|..] == rest;
  }

  lemma FullStep(x: Node, i: byte, rest: bytes)
    requires x.Full? && |x.children| == 17 && i < 16 && TrieProof.Decoded(x) && FullKey(rest) && TrieProof.Reads(x.children[i], rest)
    ensures TrieProof.Reads(x, [i] + rest) && TrieProof.get(x, [i] + rest) == TrieProof.get(x.children[i], rest)
  {
    ExtendedKey([i], rest);
    var key := [i] + rest;
    assert key[0] == i && key[1..] == rest;
  }

  /** Through a short node, its key comes first. */
  lemma ShortLeads(x: Node, p: bytes, h: bytes)
    requires x.Short? && !hasTerm(x.key) && Hex(x.key) && TrieProof.Decoded(x) && LeadsTo(x.child, p, h)
    ensures LeadsTo(x, x.key + p, h)
  {
    hide *;
    forall k | FullKey(k)
      ensures TrieProof.Reads(x, x.key + p + k) && TrieProof.get(x, x.key + p + k) == (k, HashRef(h))
    {
      LeadsAt(x.child, p, h, k);
      HashNeedsKey(x.child, p + k);
      ShortStep(x, p + k);
      assert x.key + (p + k) == x.key + p + k;
    }
    LeadsIf(x, x.key + p, h);
  }

  lemma ShortCovered(x: Node, key: bytes, h: bytes)
    requires x.Short? && Meets(x, key, h)
    ensures x.key <= key && Meets(x.child, key[|x.key|..], h)
  {
    TrieProof.ReadsShort(x, key);
  }

  /** Through a full node, the index of the child comes first. */
  lemma FullLeads(x: Node, i: byte, p: bytes, h: bytes)
    requires x.Full? && |x.children| == 17 && i < 16 && TrieProof.Decoded(x) && LeadsTo(x.children[i], p, h)
    ensures LeadsTo(x, [i] + p, h)
  {
    hide *;
    forall k | FullKey(k)
      ensures TrieProof.Reads(x, [i] + p + k) && TrieProof.get(x, [i] + p + k) == (k, HashRef(h))
    {
      LeadsAt(x.children[i], p, h, k);
      HashNeedsKey(x.children[i], p + k);
      FullStep(x, i, p + k);
      assert [i] + (p + k) == [i] + p + k;
    }
    LeadsIf(x, [i] + p, h);
  }

  lemma FullCovered(x: Node, key: bytes, h: bytes)
    requires x.Full? && Meets(x, key, h)
    ensures key != [] && |x.children| == 17 && key[0] < 17 && Meets(x.children[key[0]], key[1..], h)
  {
    TrieProof.ReadsFull(x, key);
  }

  // ---- all places ----

  /** The places of the gathered hashes, one for each, and there are no others. */
  lemma {:induction false} Gathered(n: Node) returns (ps: seq<bytes>, hs: seq<bytes>)
    requires Held(n)
    ensures Places(TrieHash.expandNode(n), ps, hs) && Names(hs, Gather(n))
    decreases n, 20
  {
    var x := TrieHash.expandNode(n);
    LiveDecoded(n);
    match n {
      case Short(_, c) =>
        ShortHeld(n);
        if hasTerm(x.key) {
          ps, hs := [], [];
          NoneBelow(x);
        } else {
          var qs;
          qs, hs := Gathered(c);
          ps := ShortPlaces(x, qs, hs);
        }
      case Full(cs) =>
        ps, hs := GatheredFrom(n, 0);
        FullHeld(n, 0);
        FullCovers(x, ps);
      case HashRef(h) =>
        ps, hs := [[]], [h];
        HashPlace(h);
      case _ =>
        ps, hs := [], [];
        NoPlace(x);
    }
    hide TrieHash.Slot, TrieHash.Collapsed, CompactToHex, LeadsTo, Covered, Apart;
  }

  lemma HashPlace(h: bytes)
    ensures Places(HashRef(h), [[]], [h])
  {
    assert forall k: bytes :: [] + k == k;
    var ps: seq<bytes> := [[]];
    forall key, g | Meets(HashRef(h), key, g)
      ensures exists i :: 0 <= i < |ps| && ps[i] <= key
    {
      assert ps[0] <= key;
    }
  }

  lemma NoPlace(x: Node)
    requires x.Nil? || x.Val?
    ensures Places(x, [], [])
  {
    forall key, h
      ensures !Meets(x, key, h)
    {
    }
  }

  lemma NoneBelow(x: Node)
    requires x.Short? && x.child.Val?
    ensures forall key, h :: !Meets(x, key, h)
  {
    forall key, h | Meets(x, key, h)
      ensures false
    {
      ShortCovered(x, key, h);
    }
  }

  lemma ShortPlaces(x: Node, qs: seq<bytes>, hs: seq<bytes>) returns (ps: seq<bytes>)
    requires x.Short? && !hasTerm(x.key) && Hex(x.key) && TrieProof.Decoded(x) && Places(x.child, qs, hs)
    ensures Places(x, ps, hs)
  {
    hide LeadsTo, Meets, TrieProof.Decoded, Hex, hasTerm;
    ps := seq(|qs|, i requires 0 <= i < |qs| => x.key + qs[i]);
    forall i | 0 <= i < |ps|
      ensures LeadsTo(x, ps[i], hs[i])
    {
      ShortLeads(x, qs[i], hs[i]);
    }
    forall i, j | 0 <= i < |ps| && 0 <= j < |ps| && ps[i] <= ps[j]
      ensures qs[i] <= qs[j]
    {
      PrefixUnder(x.key, qs[i], qs[j]);
    }
    forall key, h | Meets(x, key, h)
      ensures exists i :: 0 <= i < |ps| && ps[i] <= key
    {
      ShortCovered(x, key, h);
      var i :| 0 <= i < |qs| && qs[i] <= key[|x.key|..];
      assert ps[i] <= key by {
        assert key == x.key + key[|x.key|..];
      }
    }
  }

  lemma PrefixUnder(k: bytes, p: bytes, q: bytes)
    requires k + p <= k + q
    ensures p <= q
  {
    assert forall i :: 0 <= i < |p| ==> p[i] == (k + p)[|k| + i] && q[i] == (k + q)[|k| + i];
  }

  /** Keys that start with a nibble from `lo` on. */
  ghost predicate CoveredFrom(x: Node, lo: nat, ps: seq<bytes>) {
    forall key, h :: Meets(x, key, h) && key != [] && lo <= key[0] < 16 ==> exists i :: 0 <= i < |ps| && ps[i] <= key
  }

  ghost predicate StartFrom(lo: nat, ps: seq<bytes>) {
    forall i :: 0 <= i < |ps| ==> ps[i] != [] && ps[i][0] >= lo
  }

  lemma FullCovers(x: Node, ps: seq<bytes>)
    requires x.Full? && |x.children| == 17 && (x.children[16].Nil? || x.children[16].Val?) && CoveredFrom(x, 0, ps)
    ensures Covered(x, ps)
  {
    forall key, h | Meets(x, key, h)
      ensures exists i :: 0 <= i < |ps| && ps[i] <= key
    {
      FullCovered(x, key, h);
    }
    hide Meets;
  }

  lemma {:induction false} GatheredFrom(n: Node, lo: nat) returns (ps: seq<bytes>, hs: seq<bytes>)
    requires Held(n) && n.Full? && lo <= 16
    ensures Names(hs, GatherFrom(n.children, lo)) && |ps| == |hs|
    ensures var x := TrieHash.expandNode(n);
            && (forall i :: 0 <= i < |ps| ==> LeadsTo(x, ps[i], hs[i])) && Apart(ps) && StartFrom(lo, ps) && CoveredFrom(x, lo, ps)
    decreases n, 17 - lo
  {
    hide *;
    var x := TrieHash.expandNode(n);
    if lo == 16 {
      ps, hs := [], [];
      FromEnd(n, x);
    } else {
      FullHeld(n, lo);
      LiveDecoded(n);
      var c := n.children[lo];
      var qs, gs := Gathered(c);
      var rs, fs := GatheredFrom(n, lo + 1);
      ps, hs := FullPlaces(x, lo, qs, gs, rs, fs);
      GatherNext(n.children, lo, gs, fs);
    }
  }

  lemma FromEnd(n: Node, x: Node)
    requires n.Full?
    ensures Names([], GatherFrom(n.children, 16)) && Apart([]) && StartFrom(16, []) && CoveredFrom(x, 16, [])
  {
  }

  lemma GatherNext(cs: seq<Node>, lo: nat, gs: seq<bytes>, fs: seq<bytes>)
    requires lo < 16 && lo < |cs| && Names(gs, Gather(cs[lo])) && Names(fs, GatherFrom(cs, lo + 1))
    ensures Names(gs + fs, GatherFrom(cs, lo))
  {
    hide Gather, BytesToHash;
  }

  lemma FullPlaces(x: Node, lo: byte, qs: seq<bytes>, gs: seq<bytes>, rs: seq<bytes>, fs: seq<bytes>)
    returns (ps: seq<bytes>, hs: seq<bytes>)
    requires x.Full? && |x.children| == 17 && lo < 16 && TrieProof.Decoded(x) && Places(x.children[lo], qs, gs)
    requires |rs| == |fs| && (forall i :: 0 <= i < |rs| ==> LeadsTo(x, rs[i], fs[i])) && Apart(rs)
    requires StartFrom(lo + 1, rs) && CoveredFrom(x, lo + 1, rs)
    ensures hs == gs + fs && |ps| == |hs| && (forall i :: 0 <= i < |ps| ==> LeadsTo(x, ps[i], hs[i])) && Apart(ps)
    ensures StartFrom(lo, ps) && CoveredFrom(x, lo, ps)
  {
    hide LeadsTo, Meets;
    var ts := seq(|qs|, i requires 0 <= i < |qs| => [lo] + qs[i]);
    ps, hs := ts + rs, gs + fs;
    forall i | 0 <= i < |ps|
      ensures LeadsTo(x, ps[i], hs[i])
    {
      if i < |ts| {
        FullLeads(x, lo, qs[i], gs[i]);
      }
    }
    forall i, j | 0 <= i < j < |ps|
      ensures !(ps[i] <= ps[j]) && !(ps[j] <= ps[i])
    {
      if j < |ts| {
        if ps[i] <= ps[j] {
          PrefixUnder([lo], qs[i], qs[j]);
        }
        if ps[j] <= ps[i] {
          PrefixUnder([lo], qs[j], qs[i]);
        }
      } else if i < |ts| {
        assert ps[j] == rs[j - |ts|] && ps[i][0] == lo;
      } else {
        assert ps[i] == rs[i - |ts|] && ps[j] == rs[j - |ts|];
      }
    }
    forall key, h | Meets(x, key, h) && key != [] && lo <= key[0] < 16
      ensures exists i :: 0 <= i < |ps| && ps[i] <= key
    {
      if key[0] == lo {
        FullCovered(x, key, h);
        var i :| 0 <= i < |qs| && qs[i] <= key[1..];
        assert ps[i] == [lo] + qs[i] && key == [lo] + key[1..];
        assert ps[i] <= key;
      } else {
        var i :| 0 <= i < |rs| && rs[i] <= key;
        assert ps[|ts| + i] <= key;
      }
    }
  }

  // ---- the embedded hashes ----

  lemma ShortestKey(p: bytes, x: Node, h: bytes)
    requires LeadsTo(x, p, h)
    ensures Nibbles(p) && Meets(x, p + [TERMINATOR], h)
  {
    var k: bytes := [TERMINATOR];
    assert FullKey(k) && TrieProof.Reads(x, p + k);
    assert (p + k)[..|p + k| - 1] == p;
  }

  lemma MeetsIs(x: Node, key: bytes, g: bytes)
    requires Meets(x, key, g)
    ensures TrieProof.Reads(x, key) && TrieProof.get(x, key).1 == HashRef(g)
  {
    hide TrieProof.Reads, TrieProof.get;
  }

  lemma KeyBeyond(p: bytes, key: bytes)
    requires Nibbles(p) && FullKey(key) && p <= key
    ensures |p| < |key| && FullKey(key[|p|..]) && key == p + key[|p|..]
  {
    if |p| < |key| {
      assert key[|p|..][..|key| - |p| - 1] == key[..|key| - 1][|p|..];
    }
  }

  lemma RestOfKey(x: Node, p: bytes, h: bytes, key: bytes, g: bytes)
    requires LeadsTo(x, p, h) && Meets(x, key, g) && p <= key
    ensures g == h
  {
    hide *;
    ShortestKey(p, x, h);
    MeetsIs(x, key, g);
    HashNeedsKey(x, key);
    KeyBeyond(p, key);
    LeadsAt(x, p, h, key[|p|..]);
  }

  /** The embedded hashes of a node are exactly those that reading it leads to. */
  lemma LinksAreEmbedded(n: Node, c: Hash)
    requires Held(n)
    ensures LinksTo(TrieHash.expandNode(n), c) <==> c in Gather(n)
  {
    hide *;
    var x := TrieHash.expandNode(n);
    var ps, hs := Gathered(n);
    if c in Gather(n) {
      var i :| 0 <= i < |Gather(n)| && Gather(n)[i] == c;
      PlaceAt(x, ps, hs, Gather(n), i);
      ShortestKey(ps[i], x, hs[i]);
      IsLink(x, ps[i] + [TERMINATOR], hs[i], c);
    }
    if LinksTo(x, c) {
      var key, h := LinkIs(x, c);
      var i := PlaceOf(x, ps, hs, key, h);
      PlaceAt(x, ps, hs, Gather(n), i);
      RestOfKey(x, ps[i], hs[i], key, h);
    }
  }

  lemma PlaceAt(x: Node, ps: seq<bytes>, hs: seq<bytes>, cs: seq<Hash>, i: nat)
    requires Places(x, ps, hs) && Names(hs, cs) && (i < |ps| || i < |cs|)
    ensures i < |ps| == |hs| == |cs| && LeadsTo(x, ps[i], hs[i]) && BytesToHash(hs[i]) == cs[i]
  {
    hide LeadsTo, BytesToHash, Covered, Apart;
  }

  lemma PlaceOf(x: Node, ps: seq<bytes>, hs: seq<bytes>, key: bytes, h: bytes) returns (i: nat)
    requires Places(x, ps, hs) && Meets(x, key, h)
    ensures i < |ps| == |hs| && ps[i] <= key
  {
    hide LeadsTo, Meets, Apart;
    i :| 0 <= i < |ps| && ps[i] <= key;
  }

  lemma IsLink(x: Node, key: bytes, h: bytes, c: Hash)
    requires Meets(x, key, h) && BytesToHash(h) == c
    ensures LinksTo(x, c)
  {
  }

  lemma LinkIs(x: Node, c: Hash) returns (key: bytes, h: bytes)
    requires LinksTo(x, c)
    ensures Meets(x, key, h) && BytesToHash(h) == c
  {
    hide Meets, BytesToHash;
    key, h :| Meets(x, key, h) && BytesToHash(h) == c;
  }

  // ---- reading on ----

  /** What is read leads on to `c`. */
  ghost predicate LeadsOn(r: Reading, c: Hash) { r.Found? && LinksTo(r.node, c) }

  /** Cached nodes are as hashing leaves them, and blobs that are not trie nodes lead nowhere when read as such. */
  ghost predicate Genuine(nodes: Nodes) {
    && WellFormed(nodes)
    && forall h, c :: h in nodes && h != META && nodes[h].content.Raw? ==> !LeadsOn(Expanded(nodes[h].content), c)
  }

  ghost predicate GenuineContent(content: Content) {
    match content
    case Raw(_) => forall c :: !LeadsOn(Expanded(content), c)
    case Collapsed(n) => TrieHash.Collapsed(n) && |Serialise(n)| < TWO64
  }

  /** Whatever is read from disk leads on to what is on disk. */
  ghost predicate Readable(disk: Disk) {
    forall h, c :: h in disk && h != META && LeadsOn(Decoded(disk[h]), c) ==> c in disk
  }

  /** What a cached node leads on to is among its children. */
  lemma LeadsToKids(nodes: Nodes, h: Hash, c: Hash)
    requires Genuine(nodes) && h in nodes && h != META && LeadsOn(Expanded(nodes[h].content), c)
    ensures c in Kids(nodes[h])
  {
    if nodes[h].content.Collapsed? {
      LinksAreEmbedded(nodes[h].content.node, c);
    }
    hide LinksTo, TrieHash.Collapsed, TrieHash.expandNode, Gather, Serialise;
  }

  /** Writing nodes with their children keeps the disk readable. */
  lemma WrittenReadable(nodes: Nodes, diskA: Disk, diskB: Disk)
    requires Genuine(nodes) && Readable(diskA) && Wrote(nodes, diskA, diskB)
    ensures Readable(diskB)
  {
    forall h, c | h in diskB && h != META && LeadsOn(Decoded(diskB[h]), c)
      ensures c in diskB
    {
      if !(h in diskA && diskB[h] == diskA[h]) {
        BlobReads(nodes[h]);
        LeadsToKids(nodes, h, c);
      }
    }
    hide LeadsOn, Decoded, Expanded, Blob, Kids;
  }

  /** Nodes that stay, with the content they had, stay genuine. */
  lemma StillGenuine(a: Nodes, b: Nodes)
    requires Genuine(a) && b.Keys <= a.Keys && forall h :: h in b ==> b[h].content == a[h].content
    ensures Genuine(b)
  {
    hide LeadsOn, Expanded, TrieHash.Collapsed, Serialise;
  }

  lemma InsertedGenuine(a: Nodes, b: Nodes, h: Hash)
    requires Genuine(a) && b.Keys == a.Keys + {h} && h in b && GenuineContent(b[h].content)
    requires forall x :: x in a && x != h ==> b[x].content == a[x].content
    ensures Genuine(b)
  {
    hide LeadsOn, Expanded, TrieHash.Collapsed, Serialise;
  }

  /** A way through what is on disk, each node leading on to the next. */
  ghost predicate Way(disk: Disk, p: seq<Hash>) {
    forall i :: 0 <= i < |p| - 1 ==> p[i] in disk && p[i] != META && LeadsOn(Decoded(disk[p[i]]), p[i + 1])
  }

  /** In a readable disk a way that starts there goes on to its end. */
  lemma {:induction false} WayStays(disk: Disk, p: seq<Hash>)
    requires Readable(disk) && Way(disk, p) && p != [] && p[0] in disk
    ensures p[|p| - 1] in disk
  {
    if |p| > 1 {
      hide LeadsOn, Decoded;
      var n := |p| - 1;
      assert Way(disk, p[..n]);
      WayStays(disk, p[..n]);
      assert p[n - 1] in disk && LeadsOn(Decoded(disk[p[n - 1]]), p[n - 1 + 1]);
    }
  }

  // ---- what operations keep ----

  /** If cached nodes are genuine and the disk is readable, they stay so. */
  ghost predicate KeepsReadable(a: Nodes, diskA: Disk, b: Nodes, diskB: Disk) {
    Genuine(a) && Readable(diskA) ==> Genuine(b) && Readable(diskB)
  }

  lemma WriteKeeps(a: Nodes, diskA: Disk, diskB: Disk)
    requires Wrote(a, diskA, diskB)
    ensures KeepsReadable(a, diskA, a, diskB)
  {
    if Genuine(a) && Readable(diskA) {
      WrittenReadable(a, diskA, diskB);
    }
  }

  lemma CapKeeps(a: Nodes, s: seq<Hash>, diskA: Disk, b: Nodes, order: seq<Hash>, diskB: Disk, m: nat)
    requires Wrote(a, diskA, diskB) && Dropped(a, s, b, order, m)
    ensures KeepsReadable(a, diskA, b, diskB)
  {
    WriteKeeps(a, diskA, diskB);
    if Genuine(a) {
      StillGenuine(a, b);
    }
  }

  lemma CommitKeeps(a: Nodes, diskA: Disk, b: Nodes, diskB: Disk, gone: set<Hash>)
    requires Wrote(a, diskA, diskB) && Uncached(a, b, gone)
    ensures KeepsReadable(a, diskA, b, diskB)
  {
    WriteKeeps(a, diskA, diskB);
    if Genuine(a) {
      StillGenuine(a, b);
    }
  }

  lemma InsertKeeps(a: Nodes, disk: Disk, b: Nodes, h: Hash, cs: seq<Hash>)
    requires h !in a && Inserted(a, b, h, cs)
    ensures GenuineContent(b[h].content) ==> KeepsReadable(a, disk, b, disk)
  {
    if Genuine(a) && GenuineContent(b[h].content) {
      InsertedGenuine(a, b, h);
    }
    hide Genuine, GenuineContent;
  }

  lemma ReferenceKeeps(a: Nodes, disk: Disk, child: Hash, parent: Hash)
    requires child in a && parent in a && child != parent
    ensures KeepsReadable(a, disk, Referenced(a, child, parent), disk)
  {
    ReferencedFacts(a, child, parent);
    if Genuine(a) {
      StillGenuine(a, Referenced(a, child, parent));
    }
    hide Genuine, Referenced;
  }

  lemma RemovalKeeps(a: Nodes, disk: Disk, b: Nodes, parent: Hash)
    requires Survivors(a, b, parent)
    ensures KeepsReadable(a, disk, b, disk)
  {
    if Genuine(a) {
      StillGenuine(a, b);
    }
    hide Genuine;
  }

  lemma NothingKeeps(a: Nodes, disk: Disk)
    ensures KeepsReadable(a, disk, a, disk)
  {
  }

  lemma KeepsTrans(a: Nodes, diskA: Disk, b: Nodes, diskB: Disk, c: Nodes, diskC: Disk)
    requires KeepsReadable(a, diskA, b, diskB) && KeepsReadable(b, diskB, c, diskC)
    ensures KeepsReadable(a, diskA, c, diskC)
  {
  }

  lemma KeepsIs(a: Nodes, diskA: Disk, b: Nodes, diskB: Disk)
    requires KeepsReadable(a, diskA, b, diskB)
    ensures Genuine(a) && Readable(diskA) ==> Genuine(b) && Readable(diskB)
  {
  }

  /** In a sound cache over a readable disk whatever is read leads on to what can be read: cached, or on disk. */
  lemma NoDangling(nodes: Nodes, order: seq<Hash>, oldest: Hash, newest: Hash, rank: Hash -> nat, disk: Disk, h: Hash, c: Hash)
    requires Sound(nodes, order, oldest, newest, rank, disk.Keys) && Genuine(nodes) && Readable(disk)
    requires h != META && LeadsOn(Read(nodes, disk, h), c)
    ensures Read(nodes, disk, c) != TrieRead.Absent
  {
    if h in nodes {
      LeadsToKids(nodes, h, c);
      assert h in order && c in Kids(nodes[h]);
    }
    hide LeadsOn, Decoded, Expanded, Kids, Genuine;
  }
}
