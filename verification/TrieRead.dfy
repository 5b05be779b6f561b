/** Reading a node: what the cache gives is what the disk would give. */
module TrieRead {
  import opened Bytes
  import opened TrieNode
  import opened TrieCache
  import opened TrieCommit
  import opened TrieFlush
  import opened TrieReach
  import TrieHash

  /** The outcome of reading a node: the program panics on bytes that are no node. */
  datatype Reading = Found(node: Node) | Absent | Panics

  function Decoded(blob: bytes): Reading {
    var r := TrieHash.decodeNode(blob);
    if r.Ok? then Found(r.value) else Panics
  }

  /** A cached node in its live form: raw bytes are parsed, a collapsed node is expanded. */
  function Expanded(content: Content): Reading {
    match content
    case Raw(blob) => Decoded(blob)
    case Collapsed(n) => Found(TrieHash.expandNode(n))
  }

  /** Reads from the cache, and if need be from disk. */
  function Read(nodes: Nodes, disk: Disk, h: Hash): Reading {
    if h in nodes then Expanded(nodes[h].content)
    else if h in disk then Decoded(disk[h])
    else Absent
  }

  /** The cached nodes, the meta-root excepted, are such as hashing leaves behind. */
  ghost predicate WellFormed(nodes: Nodes) {
    forall h :: h in nodes && h != META && nodes[h].content.Collapsed? ==>
      TrieHash.Collapsed(nodes[h].content.node) && |Serialise(nodes[h].content.node)| < TWO64
  }

  /** Nobody who reads nodes can tell the two states apart. */
  ghost predicate SameReads(a: Nodes, diskA: Disk, b: Nodes, diskB: Disk) {
    WellFormed(a) ==> WellFormed(b) && forall h :: h != META ==> Read(b, diskB, h) == Read(a, diskA, h)
  }

  /** What a node is written as is read back as the node. */
  lemma BlobReads(e: CachedNode)
    requires e.content.Collapsed? ==> TrieHash.Collapsed(e.content.node) && |Serialise(e.content.node)| < TWO64
    ensures Decoded(Blob(e)) == Expanded(e.content)
  {
    if e.content.Collapsed? {
      var n := e.content.node;
      TrieHash.DecodeBack(n, []);
      assert Serialise(n) + [] == Serialise(n);
      hide TrieHash.decodeNode, TrieHash.expandNode, TrieHash.Collapsed, Serialise;
    }
  }

  /** Writing nodes to disk, and dropping from the cache only what has been written, changes nothing for readers. */
  lemma WrittenReads(a: Nodes, diskA: Disk, b: Nodes, diskB: Disk)
    requires Wrote(a, diskA, diskB) && b.Keys <= a.Keys && forall h :: h in b ==> SameCore(b[h], a[h])
    requires forall h :: h in a && h !in b ==> h in diskB && diskB[h] == Blob(a[h])
    ensures SameReads(a, diskA, b, diskB)
  {
    if WellFormed(a) {
      forall h | h != META
        ensures Read(b, diskB, h) == Read(a, diskA, h)
      {
        if h in a && h !in b {
          BlobReads(a[h]);
        }
        hide Decoded, Expanded, Blob;
      }
    }
  }

  lemma WriteReads(a: Nodes, diskA: Disk, diskB: Disk)
    requires Wrote(a, diskA, diskB)
    ensures SameReads(a, diskA, a, diskB)
  {
    WrittenReads(a, diskA, a, diskB);
    hide Wrote, WellFormed, Read;
  }

  lemma CapReads(a: Nodes, s: seq<Hash>, diskA: Disk, b: Nodes, order: seq<Hash>, diskB: Disk, m: nat)
    requires Wrote(a, diskA, diskB) && Dropped(a, s, b, order, m) && Stored(a, diskB, s[..m])
    ensures SameReads(a, diskA, b, diskB)
  {
    WrittenReads(a, diskA, b, diskB);
    hide Wrote, WellFormed, Read;
  }

  lemma CommitReads(a: Nodes, diskA: Disk, b: Nodes, diskB: Disk, gone: set<Hash>)
    requires Wrote(a, diskA, diskB) && Uncached(a, b, gone) && Written(a, diskB, gone)
    ensures SameReads(a, diskA, b, diskB)
  {
    WrittenReads(a, diskA, b, diskB);
    hide Wrote, WellFormed, Read;
  }
}
