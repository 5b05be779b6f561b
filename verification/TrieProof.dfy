/** Merkle proofs: building them, checking them, and what a checked proof proves. */
module TrieProof {
  import opened Bytes
  import opened Rlp
  import opened TrieNode
  import opened TrieEncoding
  import opened TrieInsert
  import opened TrieUnique
  import opened TrieHash
  import opened Wrappers

  // ---- hashing a trie ----

  /** A node that has an encoding of its own. */
  ghost predicate Inner(n: Node) {
    Whole(n) && (n.Short? || n.Full?)
  }

  /** The node with its children hashed or embedded, ready to be serialised. */
  function hashChildren(hasher: Hasher, n: Node): Node
    requires Inner(n)
    decreases n, 1
  {
    match n
    case Short(k, c) => Short(HexToCompact(k), if c.Val? then c else hash(hasher, c))
    case Full(cs) => Full(seq(16, i requires 0 <= i < 16 => hash(hasher, cs[i])) + [cs[16]])
  }

  /** A small node, or the hash of a large one. */
  function hash(hasher: Hasher, n: Node): Node
    requires Whole(n) && !n.Val?
    decreases n, 2
  {
    if n.Nil? then Nil else store(hasher, hashChildren(hasher, n), false)
  }

  function store(hasher: Hasher, n: Node, force: bool): Node {
    if n.Nil? || n.HashRef? then n
    else if |Serialise(n)| < 32 && !force then n
    else HashRef(hasher(Serialise(n)))
  }

  /** The encoding of a node, as it is hashed and stored. */
  function Blob(hasher: Hasher, n: Node): bytes
    requires Inner(n)
  {
    Serialise(hashChildren(hasher, n))
  }

  lemma ShortParts(n: Node)
    requires Inner(n) && n.Short?
    ensures Hex(n.key) && n.key != []
    ensures if hasTerm(n.key) then n.child.Val? && n.child.val != [] else Inner(n.child) && n.child.Full?
  {
  }

  lemma FullParts(n: Node, i: nat)
    requires Inner(n) && n.Full? && i < 17
    ensures |n.children| == 17
    ensures if i == 16 then n.children[16].Nil? || (n.children[16].Val? && n.children[16].val != [])
            else Whole(n.children[i]) && !n.children[i].Val? && (!n.children[i].Nil? ==> Inner(n.children[i]))
  {
  }

  lemma HashShort(hasher: Hasher, n: Node)
    requires Inner(n) && n.Short?
    ensures n.child.Val? || (Whole(n.child) && !n.child.Val?)
    ensures hashChildren(hasher, n) == Short(HexToCompact(n.key), if n.child.Val? then n.child else hash(hasher, n.child))
  {
    ShortParts(n);
    hide HexToCompact, Canon;
  }

  lemma HashFull(hasher: Hasher, n: Node, i: nat)
    requires Inner(n) && n.Full? && i < 16
    ensures |n.children| == 17 && hashChildren(hasher, n).Full? && |hashChildren(hasher, n).children| == 17
    ensures hashChildren(hasher, n).children[16] == n.children[16]
    ensures Whole(n.children[i]) && !n.children[i].Val? && hashChildren(hasher, n).children[i] == hash(hasher, n.children[i])
  {
  }

  lemma {:induction false} CollapsedIs(hasher: Hasher, n: Node)
    requires Inner(n)
    ensures Collapsed(hashChildren(hasher, n))
    decreases n, 1
  {
    match n
    case Short(k, c) =>
      ShortParts(n);
      HashShort(hasher, n);
      CompactRoundTrip(k);
      if !c.Val? {
        SlotIs(hasher, c);
      }
      hide HexToCompact, CompactToHex, hash, Slot, hashChildren, Whole;
    case Full(cs) =>
      FullParts(n, 16);
      HashFull(hasher, n, 0);
      forall i | 0 <= i < 16
        ensures Slot(hashChildren(hasher, n).children[i])
      {
        HashFull(hasher, n, i);
        SlotIs(hasher, cs[i]);
      }
      hide hash, Slot, hashChildren, Whole;
  }

  lemma {:induction false} SlotIs(hasher: Hasher, n: Node)
    requires Whole(n) && !n.Val?
    ensures Slot(hash(hasher, n))
    decreases n, 2
  {
    if !n.Nil? {
      CollapsedIs(hasher, n);
      InnerKind(hasher, n);
      hide hashChildren, Serialise, Collapsed, Whole;
    }
  }

  /** Asked to, the hasher hashes small nodes too, as it does for the root. */
  lemma RootIsHashed(hasher: Hasher, n: Node)
    requires Inner(n)
    ensures store(hasher, hashChildren(hasher, n), true) == HashRef(hasher(Blob(hasher, n)))
  {
    if n.Short? {
      HashShort(hasher, n);
    } else {
      HashFull(hasher, n, 0);
    }
    hide Serialise, hashChildren, Whole;
  }

  lemma InnerKind(hasher: Hasher, n: Node)
    requires Whole(n) && !n.Val? && !n.Nil?
    ensures Inner(n) && (n.Short? <==> hashChildren(hasher, n).Short?) && (n.Full? <==> hashChildren(hasher, n).Full?)
    ensures hash(hasher, n) == store(hasher, hashChildren(hasher, n), false)
  {
  }

  /** The node as it is read back from its encoding. */
  ghost function Fold(hasher: Hasher, n: Node): Node
    requires Inner(n)
  {
    expandNode(hashChildren(hasher, n))
  }

  /** A child as it is read back: embedded, or known by its hash. */
  ghost function Ref(hasher: Hasher, n: Node): Node
    requires Whole(n) && !n.Val?
  {
    expandNode(hash(hasher, n))
  }

  lemma RefIs(hasher: Hasher, n: Node)
    requires Whole(n) && !n.Val?
    ensures n.Nil? ==> Ref(hasher, n) == Nil
    ensures !n.Nil? ==> Inner(n)
    ensures !n.Nil? && |Blob(hasher, n)| < 32 ==> Ref(hasher, n) == Fold(hasher, n)
    ensures !n.Nil? && |Blob(hasher, n)| >= 32 ==> Ref(hasher, n) == HashRef(hasher(Blob(hasher, n)))
  {
    if !n.Nil? {
      InnerKind(hasher, n);
      hide hashChildren, Serialise, Whole;
    }
  }

  lemma FoldShort(hasher: Hasher, n: Node)
    requires Inner(n) && n.Short?
    ensures Fold(hasher, n).Short? && Fold(hasher, n).key == n.key
    ensures if n.child.Val? then Fold(hasher, n).child == n.child else Whole(n.child) && Fold(hasher, n).child == Ref(hasher, n.child)
  {
    ShortParts(n);
    HashShort(hasher, n);
    CompactRoundTrip(n.key);
    hide HexToCompact, CompactToHex, hashChildren, Whole, hash;
    assert expandNode(hashChildren(hasher, n)) == Short(n.key, expandNode(hashChildren(hasher, n).child));
  }

  lemma FoldFull(hasher: Hasher, n: Node, i: nat)
    requires Inner(n) && n.Full? && i < 17
    ensures Fold(hasher, n).Full? && |Fold(hasher, n).children| == 17 == |n.children|
    ensures if i == 16 then Fold(hasher, n).children[16] == n.children[16]
            else Whole(n.children[i]) && !n.children[i].Val? && Fold(hasher, n).children[i] == Ref(hasher, n.children[i])
  {
    FullParts(n, 16);
    HashFull(hasher, n, if i < 16 then i else 0);
    ExpandFull(hashChildren(hasher, n).children);
    ExpandedAre(hashChildren(hasher, n).children);
    hide hash, hashChildren, Whole, expandNodes;
  }

  /** Reading back what is stored for a node. */
  lemma DecodeBlob(hasher: Hasher, n: Node)
    requires Inner(n) && |Blob(hasher, n)| < TWO64
    ensures decodeNode(Blob(hasher, n)) == TrieHash.Ok(Fold(hasher, n))
  {
    CollapsedIs(hasher, n);
    assert Blob(hasher, n) + [] == Blob(hasher, n);
    DecodeBack(hashChildren(hasher, n), []);
  }

  // ---- nodes that were read from anywhere ----

  /** What `decodeNode` can return, canonical or not. */
  predicate Decoded(n: Node) {
    match n
    case Nil => true
    case Val(_) => false
    case HashRef(_) => true
    case Short(k, c) => Hex(k) && if hasTerm(k) then c.Val? else Decoded(c)
    case Full(cs) => |cs| == 17 && (forall i :: 0 <= i < 16 ==> Decoded(cs[i])) && (cs[16].Nil? || cs[16].Val?)
  }

  predicate Reads(n: Node, key: bytes) {
    if key == [] then n.Val? || n.Nil? else FullKey(key) && Decoded(n)
  }

  lemma {:induction false} DecodedIs(buf: bytes)
    ensures decodeNode(buf).Ok? ==> Decoded(decodeNode(buf).value) && (decodeNode(buf).value.Short? || decodeNode(buf).value.Full?)
    decreases |buf|, 0
  {
    if decodeNode(buf).Ok? {
      ContentShorter(buf);
      var elems := RlpRaw.SplitList(buf).value.0;
      if decodeNode(buf) == decodeShort(elems) {
        DecodedShort(elems);
      } else {
        DecodedFull(elems);
      }
      hide decodeShort, decodeFull, RlpRaw.SplitList, RlpRaw.Count;
    }
  }

  lemma {:induction false} DecodedShort(elems: bytes)
    ensures decodeShort(elems).Ok? ==> Decoded(decodeShort(elems).value) && decodeShort(elems).value.Short?
    decreases |elems|, 2
  {
    if decodeShort(elems).Ok? {
      ContentShorter(elems);
      var k := RlpRaw.SplitString(elems).value;
      ChoppedHex(k.0);
      if !hasTerm(CompactToHex(k.0).value) {
        DecodedRef(k.1);
      }
      hide RlpRaw.SplitString, CompactToHex, decodeRef;
    }
  }

  lemma {:induction false} DecodedRef(buf: bytes)
    ensures decodeRef(buf).Ok? ==> Decoded(decodeRef(buf).value.0)
    decreases |buf|, 1
  {
    DecodedIs(buf);
    hide RlpRaw.Split, decodeNode;
  }

  lemma {:induction false} DecodedRefs(elems: bytes, n: nat)
    ensures decodeRefs(elems, n).Ok? ==> forall i :: 0 <= i < n ==> Decoded(decodeRefs(elems, n).value.0[i])
    decreases |elems|, 2, n
  {
    if n > 0 && decodeRef(elems).Ok? {
      DecodedRef(elems);
      DecodedRefs(decodeRef(elems).value.1, n - 1);
      hide decodeRef;
    }
  }

  lemma {:induction false} DecodedFull(elems: bytes)
    ensures decodeFull(elems).Ok? ==> Decoded(decodeFull(elems).value) && decodeFull(elems).value.Full?
    decreases |elems|, 3
  {
    DecodedRefs(elems, 16);
    hide decodeRefs, RlpRaw.SplitString;
  }

  // ---- walking down a node ----

  /** Follows a key through a node and what is embedded in it: what is left of the key, and what is found. */
  function get(n: Node, key: bytes): (bytes, Node)
    requires Reads(n, key)
  {
    match n
    case Short(k, c) =>
      if |key| < |k| || k != key[..|k|] then ([], Nil)
      else
        ReadsShort(n, key);
        get(c, key[|k|..])
    case Full(cs) =>
      ReadsFull(n, key);
      get(cs[key[0]], key[1..])
    case HashRef(_) => (key, n)
    case Nil => (key, Nil)
    case Val(_) => ([], n)
  }

  lemma ReadsShort(n: Node, key: bytes)
    requires Reads(n, key) && n.Short? && |n.key| <= |key| && n.key == key[..|n.key|]
    ensures Reads(n.child, key[|n.key|..])
  {
    var m := |n.key|;
    if m == 0 {
      assert key[0..] == key;
    } else {
      assert n.key[m - 1] == key[m - 1];
      if m < |key| {
        assert key[m - 1] == key[..|key| - 1][m - 1];
        assert key[m..][..|key| - m - 1] == key[..|key| - 1][m..];
      }
    }
  }

  lemma ReadsFull(n: Node, key: bytes)
    requires Reads(n, key) && n.Full?
    ensures key != [] && key[0] < |n.children| == 17 && Reads(n.children[key[0]], key[1..])
  {
    KeyRest(key);
  }

  /** What is found is a value, nothing, or a hash to go on from. */
  lemma {:induction false} GetEnds(n: Node, key: bytes)
    requires Reads(n, key)
    ensures var r := get(n, key);
            && (r.1.Nil? || r.1.Val? || r.1.HashRef?)
            && (r.1.HashRef? ==> FullKey(r.0) && r.1.hash in Refs(n))
  {
    match n
    case Short(k, c) =>
      if !(|key| < |k| || k != key[..|k|]) {
        ReadsShort(n, key);
        GetEnds(c, key[|k|..]);
      }
    case Full(cs) =>
      ReadsFull(n, key);
      GetEnds(cs[key[0]], key[1..]);
      RefsFull(cs, key[0]);
    case _ =>
  }

  /** The hashes in a node. */
  function Refs(n: Node): set<bytes> {
    match n
    case HashRef(h) => {h}
    case Short(_, c) => Refs(c)
    case Full(cs) => set i, h | 0 <= i < |cs| && h in Refs(cs[i]) :: h
    case _ => {}
  }

  lemma RefsFull(cs: seq<Node>, i: nat)
    requires i < |cs|
    ensures Refs(cs[i]) <= Refs(Full(cs))
  {
  }

  // ---- checking a proof ----

  /** A proof holds blobs by hash. */
  type Proof = map<bytes, bytes>

  datatype Verdict = Value(value: bytes) | Absent | Bad

  /** References only lead to blobs of lower rank: content addressing leaves no cycles. */
  ghost predicate Acyclic(proof: Proof, rank: bytes -> nat) {
    forall h :: h in proof && decodeNode(proof[h]).Ok? ==> forall r :: r in Refs(decodeNode(proof[h]).value) ==> rank(r) < rank(h)
  }

  /** The verdict on a key from a root hash on. */
  ghost function Verify(want: bytes, key: bytes, proof: Proof, rank: bytes -> nat): Verdict
    requires Acyclic(proof, rank) && FullKey(key)
    decreases rank(want)
  {
    if want !in proof then Bad
    else
      var n := decodeNode(proof[want]);
      if n.Err? then Bad
      else
        DecodedIs(proof[want]);
        FullKeyNotEmpty(key);
        GetEnds(n.value, key);
        var r := get(n.value, key);
        if r.1.Nil? then Absent
        else if r.1.Val? then Value(r.1.val)
        else Verify(r.1.hash, r.0, proof, rank)
  }

  /** Checks a proof for a key, node by node. */
  method VerifyProof(rootHash: bytes, keybytes: bytes, proofDb: Proof, ghost rank: bytes -> nat) returns (v: Verdict)
    requires Acyclic(proofDb, rank)
    ensures v == Verify(rootHash, KeybytesToHex(keybytes), proofDb, rank)
  {
    var key := keybytesToHex(keybytes);
    var wantHash := rootHash;
    while true
      invariant FullKey(key)
      invariant Verify(wantHash, key, proofDb, rank) == Verify(rootHash, KeybytesToHex(keybytes), proofDb, rank)
      decreases rank(wantHash)
    {
      if wantHash !in proofDb {
        return Bad;
      }
      var n := decodeNode(proofDb[wantHash]);
      if n.Err? {
        return Bad;
      }
      DecodedIs(proofDb[wantHash]);
      FullKeyNotEmpty(key);
      GetEnds(n.value, key);
      var r := get(n.value, key);
      match r.1 {
        case Nil => return Absent;
        case Val(value) => return Value(value);
        case HashRef(h) =>
          key, wantHash := r.0, h;
        case _ =>
      }
    }
  }

  // ---- what a proof proves ----

  /** The nodes of a trie that have encodings of their own. */
  ghost function Subs(n: Node): set<Node> {
    match n
    case Short(_, c) => {n} + Subs(c)
    case Full(cs) => {n} + set i, x | 0 <= i < |cs| && x in Subs(cs[i]) :: x
    case _ => {}
  }

  lemma SubsFull(cs: seq<Node>, i: nat)
    requires i < |cs|
    ensures Subs(cs[i]) <= Subs(Full(cs))
  {
  }

  /** The child a key leads to, and what is left of the key; nothing where the key leaves the trie or ends. */
  ghost function Down(n: Node, key: bytes): Option<(Node, bytes)>
    requires Inner(n) && FullKey(key)
  {
    match n
    case Short(k, c) => if k <= key && !c.Val? then Some((c, key[|k|..])) else None
    case Full(cs) =>
      FullKeyNotEmpty(key);
      if key[0] < 16 && !cs[key[0]].Nil? then Some((cs[key[0]], key[1..])) else None
  }

  lemma DownIs(hasher: Hasher, n: Node, key: bytes)
    requires Inner(n) && FullKey(key)
    ensures WholeFits(n, key) && Reads(Fold(hasher, n), key)
    ensures var d := Down(n, key);
            if d.Some? then
              && Inner(d.value.0) && FullKey(d.value.1) && |d.value.1| < |key| && WholeFits(d.value.0, d.value.1)
              && d.value.0 in Subs(n) && Subs(d.value.0) <= Subs(n)
              && Look(n, key) == Look(d.value.0, d.value.1)
              && Reads(Ref(hasher, d.value.0), d.value.1)
              && get(Fold(hasher, n), key) == get(Ref(hasher, d.value.0), d.value.1)
            else
              var r := get(Fold(hasher, n), key).1;
              (r.Nil? && Look(n, key) == None) || (r.Val? && Look(n, key) == Some(r.val))
  {
    FullKeyNotEmpty(key);
    if n.Short? {
      DownShort(hasher, n, key);
    } else {
      DownFull(hasher, n, key);
    }
  }

  lemma {:induction false} FoldReads(hasher: Hasher, n: Node)
    requires Inner(n)
    ensures Decoded(Fold(hasher, n))
    decreases n, 0
  {
    if n.Short? {
      ShortParts(n);
      FoldShort(hasher, n);
      if !n.child.Val? {
        RefReads(hasher, n.child);
      }
      hide Fold, Ref, Whole;
    } else {
      FullParts(n, 16);
      FoldFull(hasher, n, 16);
      forall i | 0 <= i < 16
        ensures Decoded(Fold(hasher, n).children[i])
      {
        FoldFull(hasher, n, i);
        FullParts(n, i);
        RefReads(hasher, n.children[i]);
      }
      hide Fold, Ref, Whole;
    }
  }

  lemma {:induction false} RefReads(hasher: Hasher, n: Node)
    requires Whole(n) && !n.Val?
    ensures Decoded(Ref(hasher, n))
    decreases n, 1
  {
    RefIs(hasher, n);
    if Inner(n) {
      FoldReads(hasher, n);
    }
    hide Fold, Ref, Whole;
  }

  lemma DownShort(hasher: Hasher, n: Node, key: bytes)
    requires Inner(n) && n.Short? && FullKey(key)
    ensures WholeFits(n, key) && Reads(Fold(hasher, n), key)
    ensures var d := Down(n, key);
            if d.Some? then
              && Inner(d.value.0) && FullKey(d.value.1) && |d.value.1| < |key| && WholeFits(d.value.0, d.value.1)
              && d.value.0 in Subs(n) && Subs(d.value.0) <= Subs(n)
              && Look(n, key) == Look(d.value.0, d.value.1)
              && Reads(Ref(hasher, d.value.0), d.value.1)
              && get(Fold(hasher, n), key) == get(Ref(hasher, d.value.0), d.value.1)
            else
              var r := get(Fold(hasher, n), key).1;
              (r.Nil? && Look(n, key) == None) || (r.Val? && Look(n, key) == Some(r.val))
  {
    FullKeyNotEmpty(key);
    FoldReads(hasher, n);
    FoldShort(hasher, n);
    ShortParts(n);
    LookShort(n, key);
    GetFoldShort(Fold(hasher, n), key);
    if n.key <= key {
      ShortChild(NO_STORE, n, key);
      if n.child.Val? {
        LookValue(n.child);
      } else {
        RefReads(hasher, n.child);
        SubsTop(n.child);
        FullKeyTail(n.child, key[|n.key|..]);
      }
    }
    hide Fold, Ref, Whole, WholeFits, Look, Decoded;
  }

  lemma SubsTop(n: Node)
    requires n.Short? || n.Full?
    ensures n in Subs(n)
  {
  }

  lemma FullKeyTail(n: Node, key: bytes)
    requires n.Full? && WholeFits(n, key)
    ensures FullKey(key)
  {
  }

  lemma GetFoldShort(f: Node, key: bytes)
    requires Reads(f, key) && f.Short? && FullKey(key) && f.key != []
    ensures f.key <= key ==> Reads(f.child, key[|f.key|..]) && get(f, key) == get(f.child, key[|f.key|..])
    ensures !(f.key <= key) ==> get(f, key) == ([], Nil)
    ensures f.key <= key && f.child.Val? ==> get(f.child, key[|f.key|..]) == ([], f.child)
  {
    if f.key <= key {
      assert key[..|f.key|] == f.key;
      ReadsShort(f, key);
    }
  }

  lemma GetFoldFull(f: Node, key: bytes)
    requires Reads(f, key) && f.Full? && FullKey(key)
    ensures key != [] && key[0] < |f.children| == 17 && Reads(f.children[key[0]], key[1..])
    ensures get(f, key) == get(f.children[key[0]], key[1..])
    ensures f.children[key[0]].Val? ==> get(f.children[key[0]], key[1..]) == ([], f.children[key[0]])
    ensures f.children[key[0]].Nil? ==> get(f.children[key[0]], key[1..]).1 == Nil
  {
    ReadsFull(f, key);
  }

  lemma DownFull(hasher: Hasher, n: Node, key: bytes)
    requires Inner(n) && n.Full? && FullKey(key)
    ensures WholeFits(n, key) && Reads(Fold(hasher, n), key)
    ensures var d := Down(n, key);
            if d.Some? then
              && Inner(d.value.0) && FullKey(d.value.1) && |d.value.1| < |key| && WholeFits(d.value.0, d.value.1)
              && d.value.0 in Subs(n) && Subs(d.value.0) <= Subs(n)
              && Look(n, key) == Look(d.value.0, d.value.1)
              && Reads(Ref(hasher, d.value.0), d.value.1)
              && get(Fold(hasher, n), key) == get(Ref(hasher, d.value.0), d.value.1)
            else
              var r := get(Fold(hasher, n), key).1;
              (r.Nil? && Look(n, key) == None) || (r.Val? && Look(n, key) == Some(r.val))
  {
    FullKeyNotEmpty(key);
    FoldReads(hasher, n);
    LookFull(n, key);
    KeyRest(key);
    var i := key[0];
    FullParts(n, i);
    FoldFull(hasher, n, i);
    GetFoldFull(Fold(hasher, n), key);
    SubsFull(n.children, i);
    if i < 16 {
      RefIs(hasher, n.children[i]);
      if !n.children[i].Nil? {
        SubsTop(n.children[i]);
      } else {
        LookNil(key[1..]);
      }
    } else {
      if n.children[16].Val? {
        LookValue(n.children[16]);
      } else {
        LookNil(key[1..]);
      }
    }
    hide Fold, Ref, Whole, WholeFits, Look, Decoded, Subs;
  }

  lemma LookNil(key: bytes)
    requires WholeFits(Nil, key)
    ensures Look(Nil, key) == None
  {
  }

  /** The first node below that is stored under a hash of its own, on the way of a key. */
  ghost function Next(hasher: Hasher, n: Node, key: bytes): Option<(Node, bytes)>
    requires Inner(n) && FullKey(key)
    decreases |key|
  {
    DownIs(hasher, n, key);
    var d := Down(n, key);
    if d == None then None
    else if |Blob(hasher, d.value.0)| >= 32 then d
    else Next(hasher, d.value.0, d.value.1)
  }

  /** Walking a node that was read back leads to the next node's hash, or ends as the trie does. */
  lemma {:induction false} WalkFold(hasher: Hasher, n: Node, key: bytes)
    requires Inner(n) && FullKey(key)
    ensures WholeFits(n, key) && Reads(Fold(hasher, n), key)
    ensures var d, r := Next(hasher, n, key), get(Fold(hasher, n), key);
            if d.Some? then
              var (y, rest) := d.value;
              && Inner(y) && FullKey(rest) && |rest| < |key| && WholeFits(y, rest) && y in Subs(n) && Subs(y) <= Subs(n)
              && |Blob(hasher, y)| >= 32 && r == (rest, HashRef(hasher(Blob(hasher, y)))) && Look(n, key) == Look(y, rest)
            else (r.1.Nil? && Look(n, key) == None) || (r.1.Val? && Look(n, key) == Some(r.1.val))
    decreases |key|
  {
    DownIs(hasher, n, key);
    var d := Down(n, key);
    if d.Some? {
      var (c, k) := d.value;
      RefIs(hasher, c);
      if |Blob(hasher, c)| < 32 {
        WalkFold(hasher, c, k);
        hide Fold, Ref, Whole, WholeFits, Look, Blob, get, Subs, Reads, Down;
      } else {
        GetHash(hasher(Blob(hasher, c)), k);
        hide Fold, Ref, Whole, WholeFits, Look, Blob, Subs, Down;
      }
    } else {
      hide Fold, Ref, Whole, WholeFits, Look, Blob, get, Subs, Reads, Down;
    }
  }

  lemma GetHash(h: bytes, key: bytes)
    requires FullKey(key)
    ensures Reads(HashRef(h), key) && get(HashRef(h), key) == (key, HashRef(h))
  {
    FullKeyNotEmpty(key);
  }

  /** Blobs are kept under their own hashes. */
  ghost predicate ContentAddressed(hasher: Hasher, proof: Proof) {
    forall h :: h in proof ==> hasher(proof[h]) == h
  }

  /** No blob of the proof collides with the encoding of a node of the trie, and those are of representable size. */
  ghost predicate NoCollision(hasher: Hasher, n: Node, proof: Proof) {
    && (forall y :: y in Subs(n) && Inner(y) ==> |Blob(hasher, y)| < TWO64)
    && (forall y, h :: y in Subs(n) && Inner(y) && h in proof && hasher(proof[h]) == hasher(Blob(hasher, y)) ==> proof[h] == Blob(hasher, y))
  }

  /** What the trie says of a key. */
  ghost function Truth(n: Node, key: bytes): Verdict
    requires WholeFits(n, key)
  {
    match Look(n, key)
    case None => Absent
    case Some(v) => Value(v)
  }

  /** One step of a check against a trie's own encoding. */
  lemma VerifyStep(hasher: Hasher, n: Node, key: bytes, proof: Proof, rank: bytes -> nat)
    requires Inner(n) && FullKey(key) && Acyclic(proof, rank) && |Blob(hasher, n)| < TWO64
    requires var h := hasher(Blob(hasher, n)); h in proof && proof[h] == Blob(hasher, n)
    ensures WholeFits(n, key)
    ensures var v, d := Verify(hasher(Blob(hasher, n)), key, proof, rank), Next(hasher, n, key);
            if d.Some? then
              var (y, rest) := d.value;
              Inner(y) && FullKey(rest) && v == Verify(hasher(Blob(hasher, y)), rest, proof, rank)
            else v == Truth(n, key)
  {
    DecodeBlob(hasher, n);
    WalkFold(hasher, n, key);
    FullKeyNotEmpty(key);
    hide Fold, Whole, WholeFits, Look, Blob, get, Subs, Reads, Next, decodeNode, Decoded;
  }

  /** Soundness: on a content-addressed proof, a verdict that is not `Bad` is the truth about the trie of the root hash. */
  lemma {:induction false} ProofSound(hasher: Hasher, n: Node, key: bytes, proof: Proof, rank: bytes -> nat)
    requires Inner(n) && FullKey(key) && Acyclic(proof, rank) && ContentAddressed(hasher, proof) && NoCollision(hasher, n, proof)
    ensures WholeFits(n, key)
    ensures var v := Verify(hasher(Blob(hasher, n)), key, proof, rank); v == Bad || v == Truth(n, key)
    decreases |key|
  {
    WalkFold(hasher, n, key);
    SubsTop(n);
    var h := hasher(Blob(hasher, n));
    if h in proof {
      assert hasher(proof[h]) == h;
      VerifyStep(hasher, n, key, proof, rank);
      var d := Next(hasher, n, key);
      if d.Some? {
        var (y, rest) := d.value;
        SmallerNoCollision(hasher, n, y, proof);
        ProofSound(hasher, y, rest, proof, rank);
      }
    }
    hide Fold, Whole, WholeFits, Look, Blob, get, Subs, Reads, Next, decodeNode, Decoded;
  }

  lemma SmallerNoCollision(hasher: Hasher, n: Node, y: Node, proof: Proof)
    requires NoCollision(hasher, n, proof) && Subs(y) <= Subs(n)
    ensures NoCollision(hasher, y, proof)
  {
  }

  // ---- building a proof ----

  /** The nodes on the way of a key. */
  ghost function Path(hasher: Hasher, n: Node, key: bytes): seq<Node>
    requires Inner(n) && FullKey(key)
    decreases |key|
  {
    DownIs(hasher, n, key);
    var d := Down(n, key);
    [n] + if d == None then [] else Path(hasher, d.value.0, d.value.1)
  }

  /** The encodings that go into a proof: the first node's, and those of nodes stored under their hashes. */
  ghost function Elements(hasher: Hasher, nodes: seq<Node>, first: bool): seq<bytes>
    requires forall y :: y in nodes ==> Inner(y)
  {
    if nodes == [] then []
    else
      (if first || |Blob(hasher, nodes[0])| >= 32 then [Blob(hasher, nodes[0])] else []) + Elements(hasher, nodes[1..], false)
  }

  function Puts(hasher: Hasher, proof: Proof, blobs: seq<bytes>): Proof {
    if blobs == [] then proof
    else Puts(hasher, proof, blobs[..|blobs| - 1])[hasher(blobs[|blobs| - 1]) := blobs[|blobs| - 1]]
  }

  lemma {:induction false} PutsHas(hasher: Hasher, proof: Proof, blobs: seq<bytes>, b: bytes)
    requires b in blobs && forall c :: c in blobs && hasher(c) == hasher(b) ==> c == b
    ensures hasher(b) in Puts(hasher, proof, blobs) && Puts(hasher, proof, blobs)[hasher(b)] == b
  {
    var n := |blobs| - 1;
    if blobs[n] != b {
      assert b in blobs[..n];
      PutsHas(hasher, proof, blobs[..n], b);
    }
  }

  lemma {:induction false} PathInner(hasher: Hasher, n: Node, key: bytes)
    requires Inner(n) && FullKey(key)
    ensures forall y :: y in Path(hasher, n, key) ==> Inner(y) && y in Subs(n)
    ensures Path(hasher, n, key) != [] && Path(hasher, n, key)[0] == n
    decreases |key|
  {
    hide *;
    InnerShape(n);
    SubsTop(n);
    DownIs(hasher, n, key);
    PathStep(hasher, n, key);
    var d := Down(n, key);
    if d.Some? {
      PathInner(hasher, d.value.0, d.value.1);
    }
  }

  lemma InnerShape(n: Node)
    requires Inner(n)
    ensures n.Short? || n.Full?
  {
  }

  lemma PathStep(hasher: Hasher, n: Node, key: bytes)
    requires Inner(n) && FullKey(key)
    ensures Down(n, key).Some? ==> Inner(Down(n, key).value.0) && FullKey(Down(n, key).value.1)
    ensures Path(hasher, n, key) == [n] + if Down(n, key) == None then [] else Path(hasher, Down(n, key).value.0, Down(n, key).value.1)
  {
    DownIs(hasher, n, key);
    hide Fold, Ref, Whole, WholeFits, Look, Blob, get, Reads, Down, Subs, Inner, FullKey;
  }

  lemma {:induction false} ElementsHas(hasher: Hasher, nodes: seq<Node>, first: bool)
    requires forall y :: y in nodes ==> Inner(y)
    ensures forall y :: y in nodes && |Blob(hasher, y)| >= 32 ==> Blob(hasher, y) in Elements(hasher, nodes, first)
    ensures first && nodes != [] ==> Blob(hasher, nodes[0]) in Elements(hasher, nodes, first)
    ensures forall b :: b in Elements(hasher, nodes, first) ==> exists y :: y in nodes && b == Blob(hasher, y)
  {
    if nodes != [] {
      ElementsHas(hasher, nodes[1..], false);
      hide Blob, Inner;
      forall b | b in Elements(hasher, nodes, first)
        ensures exists y :: y in nodes && b == Blob(hasher, y)
      {
        if b in Elements(hasher, nodes[1..], false) {
          var y :| y in nodes[1..] && b == Blob(hasher, y);
          assert y in nodes;
        } else {
          assert nodes[0] in nodes;
        }
      }
    }
  }

  /** The nodes of the trie have different hashes, or the same encoding, of representable size. */
  ghost predicate DistinctHashes(hasher: Hasher, n: Node) {
    && (forall y :: y in Subs(n) && Inner(y) ==> |Blob(hasher, y)| < TWO64)
    && (forall y, z :: y in Subs(n) && Inner(y) && z in Subs(n) && Inner(z) && hasher(Blob(hasher, y)) == hasher(Blob(hasher, z)) ==>
          Blob(hasher, y) == Blob(hasher, z))
  }

  /** The proof has what is needed on the way of a key. */
  ghost predicate Supplies(hasher: Hasher, n: Node, key: bytes, proof: Proof)
    requires Inner(n) && FullKey(key)
  {
    PathInner(hasher, n, key);
    forall y :: y in Path(hasher, n, key) && |Blob(hasher, y)| >= 32 ==>
      hasher(Blob(hasher, y)) in proof && proof[hasher(Blob(hasher, y))] == Blob(hasher, y)
  }

  /** The next stored node is on the way, and so is what follows it. */
  lemma {:induction false} NextOnPath(hasher: Hasher, n: Node, key: bytes)
    requires Inner(n) && FullKey(key) && Next(hasher, n, key).Some?
    ensures var (y, rest) := Next(hasher, n, key).value;
            && Inner(y) && FullKey(rest) && |rest| < |key| && y in Path(hasher, n, key) && |Blob(hasher, y)| >= 32
            && y in Subs(n) && Subs(y) <= Subs(n)
            && forall z :: z in Path(hasher, y, rest) ==> z in Path(hasher, n, key)
    decreases |key|
  {
    DownIs(hasher, n, key);
    var d := Down(n, key);
    PathInner(hasher, d.value.0, d.value.1);
    if |Blob(hasher, d.value.0)| < 32 {
      NextOnPath(hasher, d.value.0, d.value.1);
    }
    hide Fold, Ref, Whole, WholeFits, Look, Blob, get, Reads, Down, Subs;
  }

  /** A proof that supplies what is on a key's way is accepted, with the truth. */
  lemma {:induction false} SuppliedIsTrue(hasher: Hasher, n: Node, key: bytes, proof: Proof, rank: bytes -> nat)
    requires Inner(n) && FullKey(key) && Acyclic(proof, rank) && Supplies(hasher, n, key, proof)
    requires forall y :: y in Subs(n) && Inner(y) ==> |Blob(hasher, y)| < TWO64
    requires var h := hasher(Blob(hasher, n)); h in proof && proof[h] == Blob(hasher, n)
    ensures WholeFits(n, key) && Verify(hasher(Blob(hasher, n)), key, proof, rank) == Truth(n, key)
    decreases |key|
  {
    SubsTop(n);
    WalkFold(hasher, n, key);
    VerifyStep(hasher, n, key, proof, rank);
    var d := Next(hasher, n, key);
    if d.Some? {
      var (y, rest) := d.value;
      NextOnPath(hasher, n, key);
      SuppliesNext(hasher, n, key, y, rest, proof);
      hide Fold, Whole, WholeFits, Look, Blob, get, Subs, Reads, Next, decodeNode, Decoded, Supplies, Path;
      SuppliedIsTrue(hasher, y, rest, proof, rank);
    }
    hide *;
    TruthIs(n, key);
  }

  lemma SuppliesNext(hasher: Hasher, n: Node, key: bytes, y: Node, rest: bytes, proof: Proof)
    requires Inner(n) && FullKey(key) && Supplies(hasher, n, key, proof) && Inner(y) && FullKey(rest)
    requires y in Path(hasher, n, key) && |Blob(hasher, y)| >= 32
    requires forall z :: z in Path(hasher, y, rest) ==> z in Path(hasher, n, key)
    ensures Supplies(hasher, y, rest, proof)
    ensures hasher(Blob(hasher, y)) in proof && proof[hasher(Blob(hasher, y))] == Blob(hasher, y)
  {
    PathInner(hasher, n, key);
    PathInner(hasher, y, rest);
    hide Blob, Path, Inner;
  }

  lemma TruthIs(n: Node, key: bytes)
    requires WholeFits(n, key)
    ensures Truth(n, key) == if Look(n, key) == None then Absent else Value(Look(n, key).value)
  {
  }

  /** What `Prove` writes for a key. */
  ghost function ProofOf(hasher: Hasher, root: Node, key: bytes, proof0: Proof): Proof
    requires Inner(root) && FullKey(key)
  {
    PathInner(hasher, root, key);
    Puts(hasher, proof0, Elements(hasher, Path(hasher, root, key), true))
  }

  /** Completeness: the proof built for a key is accepted, with the truth about the key, present or absent. */
  lemma ProofComplete(hasher: Hasher, root: Node, key: bytes, proof0: Proof, rank: bytes -> nat)
    requires Inner(root) && FullKey(key) && DistinctHashes(hasher, root)
    requires Acyclic(ProofOf(hasher, root, key, proof0), rank)
    ensures WholeFits(root, key)
    ensures Verify(hasher(Blob(hasher, root)), key, ProofOf(hasher, root, key, proof0), rank) == Truth(root, key)
  {
    PathInner(hasher, root, key);
    var path := Path(hasher, root, key);
    var blobs := Elements(hasher, path, true);
    ElementsHas(hasher, path, true);
    var proof := ProofOf(hasher, root, key, proof0);
    SubsTop(root);
    hide Blob, Path, Elements, Inner, Subs;
    forall b | b in blobs
      ensures hasher(b) in proof && proof[hasher(b)] == b
    {
      forall c | c in blobs && hasher(c) == hasher(b)
        ensures c == b
      {
        var y :| y in path && b == Blob(hasher, y);
        var z :| z in path && c == Blob(hasher, z);
      }
      PutsHas(hasher, proof0, blobs, b);
    }
    assert Supplies(hasher, root, key, proof);
    hide *;
    Sizes(hasher, root);
    SuppliedIsTrue(hasher, root, key, proof, rank);
  }

  lemma Sizes(hasher: Hasher, n: Node)
    requires DistinctHashes(hasher, n)
    ensures forall y :: y in Subs(n) && Inner(y) ==> |Blob(hasher, y)| < TWO64
  {
  }

  /** `left` are the nodes still on the way of `key` from `n` on. */
  ghost predicate Walking(hasher: Hasher, n: Node, key: bytes, left: seq<Node>) {
    if key == [] || n.Nil? then left == [] else Inner(n) && FullKey(key) && left == Path(hasher, n, key)
  }

  lemma WalkStart(hasher: Hasher, root: Node, key: bytes)
    requires Whole(root) && !root.Val? && FullKey(key)
    ensures !root.Nil? ==> Inner(root)
    ensures Walking(hasher, root, key, if root.Nil? then [] else Path(hasher, root, key))
  {
    FullKeyNotEmpty(key);
    hide Whole, Path;
  }

  lemma WalkStep(hasher: Hasher, n: Node, key: bytes, left: seq<Node>, n': Node, key': bytes)
    requires Walking(hasher, n, key, left) && key != [] && !n.Nil?
    requires n.Short? ==>
               if |key| < |n.key| || n.key != key[..|n.key|] then n' == Nil && key' == key
               else n' == n.child && key' == key[|n.key|..]
    requires n.Full? && key[0] < |n.children| ==> n' == n.children[key[0]] && key' == key[1..]
    ensures left != [] && left[0] == n && Walking(hasher, n', key', left[1..])
    ensures n'.Nil? || |key'| < |key|
  {
    StepIs(hasher, n, key);
    hide Inner, FullKey, Path;
  }

  lemma WalkKind(hasher: Hasher, n: Node, key: bytes, left: seq<Node>)
    requires Walking(hasher, n, key, left) && key != [] && !n.Nil?
    ensures n.Short? || n.Full?
    ensures n.Full? ==> key[0] < |n.children|
  {
    StepIs(hasher, n, key);
  }

  lemma WalkEnd(hasher: Hasher, n: Node, key: bytes, left: seq<Node>)
    requires Walking(hasher, n, key, left) && (key == [] || n.Nil?)
    ensures left == []
  {
  }

  lemma MoveOne(nodes: seq<Node>, left: seq<Node>)
    requires left != []
    ensures nodes + [left[0]] + left[1..] == nodes + left
  {
  }

  /** The nodes on a key's way in a loaded trie, from the root down. */
  method CollectPath(ghost hasher: Hasher, root: Node, k: bytes) returns (nodes: seq<Node>)
    requires Whole(root) && !root.Val? && FullKey(k)
    ensures root.Nil? ==> nodes == []
    ensures !root.Nil? ==> Inner(root) && nodes == Path(hasher, root, k)
  {
    hide *;
    WalkStart(hasher, root, k);
    nodes := [];
    var key, tn := k, root;
    ghost var all := if root.Nil? then [] else Path(hasher, root, k);
    ghost var left := all;
    assert nodes + left == all;
    while |key| > 0 && !tn.Nil?
      invariant Walking(hasher, tn, key, left) && nodes + left == all
      decreases |key|, !tn.Nil?
    {
      ghost var n, key0 := tn, key;
      WalkKind(hasher, tn, key, left);
      nodes := nodes + [tn];
      if tn.Short? {
        if |key| < |tn.key| || tn.key != key[..|tn.key|] {
          tn := Nil;
        } else {
          key, tn := key[|tn.key|..], tn.child;
        }
      } else {
        key, tn := key[1..], tn.children[key[0]];
      }
      WalkStep(hasher, n, key0, left, tn, key);
      MoveOne(nodes[..|nodes| - 1], left);
      assert nodes[..|nodes| - 1] + [n] == nodes;
      left := left[1..];
    }
    WalkEnd(hasher, tn, key, left);
    assert nodes + [] == nodes;
  }

  /** One step down, as the loop takes it. */
  lemma StepIs(hasher: Hasher, n: Node, key: bytes)
    requires Inner(n) && FullKey(key)
    ensures n.Short? || n.Full?
    ensures key != [] && Path(hasher, n, key) != [] && Path(hasher, n, key)[0] == n
    ensures n.Short? ==> n.key != [] && (n.key <= key <==> |n.key| <= |key| && n.key == key[..|n.key|])
    ensures n.Full? ==> key[0] < |n.children|
    ensures var rest := Path(hasher, n, key)[1..];
            if n.Short? then
              if !(n.key <= key) then rest == []
              else if key[|n.key|..] == [] then rest == [] && !n.child.Nil?
              else Inner(n.child) && FullKey(key[|n.key|..]) && rest == Path(hasher, n.child, key[|n.key|..])
            else
              var c := n.children[key[0]];
              if key[1..] == [] || c.Nil? then rest == []
              else Inner(c) && FullKey(key[1..]) && rest == Path(hasher, c, key[1..])
  {
    FullKeyNotEmpty(key);
    DownIs(hasher, n, key);
    PathInner(hasher, n, key);
    if n.Short? {
      ShortParts(n);
      if n.key <= key {
        assert key[..|n.key|] == n.key;
        ShortChild(NO_STORE, n, key);
      }
    } else {
      KeyRest(key);
      FullParts(n, key[0]);
    }
    hide Fold, Ref, WholeFits, Look, Blob, get, Reads, Subs, Inner, FullKey;
  }

  /** `r` has the first `done` of the blobs, except those left out; the others come from the nodes from `i` on. */
  ghost predicate Putting(hasher: Hasher, nodes: seq<Node>, i: nat, blobs: seq<bytes>, done: nat, from: nat, level: nat, proof: Proof, r: Proof) {
    && i <= |nodes| && done <= |blobs| && (forall y :: y in nodes ==> Inner(y)) && (forall y :: y in nodes[i..] ==> Inner(y))
    && blobs[done..] == Elements(hasher, nodes[i..], i == 0)
    && level == (if done < from then from - done else 0)
    && r == Puts(hasher, proof, if from <= done then blobs[from..done] else [])
  }

  lemma PutStart(hasher: Hasher, nodes: seq<Node>, from: nat, proof: Proof)
    requires forall y :: y in nodes ==> Inner(y)
    ensures Putting(hasher, nodes, 0, Elements(hasher, nodes, true), 0, from, from, proof, proof)
  {
    assert nodes[0..] == nodes;
    hide Inner, Elements;
  }

  lemma PutStep(hasher: Hasher, nodes: seq<Node>, i: nat, blobs: seq<bytes>, done: nat, from: nat, level: nat, proof: Proof, r: Proof)
    requires Putting(hasher, nodes, i, blobs, done, from, level, proof, r) && i < |nodes|
    ensures Inner(nodes[i])
    ensures var b := Blob(hasher, nodes[i]);
            if i == 0 || |b| >= 32 then
              if level > 0 then Putting(hasher, nodes, i + 1, blobs, done + 1, from, level - 1, proof, r)
              else Putting(hasher, nodes, i + 1, blobs, done + 1, from, 0, proof, r[hasher(b) := b])
            else Putting(hasher, nodes, i + 1, blobs, done, from, level, proof, r)
  {
    NextElement(hasher, nodes, i);
    DropMore(blobs, done);
    if (i == 0 || |Blob(hasher, nodes[i])| >= 32) && level == 0 {
      PutOne(hasher, proof, blobs, from, done);
    }
    hide Inner, Elements, Blob, Puts;
  }

  lemma PutEnd(hasher: Hasher, nodes: seq<Node>, blobs: seq<bytes>, done: nat, from: nat, level: nat, proof: Proof, r: Proof)
    requires Putting(hasher, nodes, |nodes|, blobs, done, from, level, proof, r)
    ensures r == Puts(hasher, proof, if from <= |blobs| then blobs[from..] else [])
  {
    assert nodes[|nodes|..] == [];
    assert blobs[done..] == [] && done == |blobs|;
    assert from <= |blobs| ==> blobs[from..done] == blobs[from..];
    hide Inner, Puts;
  }

  /** Constructs a proof for a key. The first `fromLevel` elements are left out. */
  method Prove(hasher: Hasher, root: Node, keybytes: bytes, fromLevel: nat, proofDb: Proof) returns (r: Proof)
    requires Whole(root) && !root.Val?
    ensures root.Nil? ==> r == proofDb
    ensures !root.Nil? ==> Inner(root)
    ensures !root.Nil? && fromLevel == 0 ==> r == ProofOf(hasher, root, KeybytesToHex(keybytes), proofDb)
    ensures !root.Nil? ==>
              var blobs := Elements(hasher, PathOf(hasher, root, KeybytesToHex(keybytes)), true);
              r == Puts(hasher, proofDb, if fromLevel <= |blobs| then blobs[fromLevel..] else [])
  {
    hide *;
    var key := keybytesToHex(keybytes);
    var nodes := CollectPath(hasher, root, key);
    if root.Nil? {
      return proofDb;
    }
    PathIs(hasher, root, key);
    ghost var blobs := Elements(hasher, nodes, true);
    r := PutNodes(hasher, nodes, fromLevel, proofDb);
    assert blobs[0..] == blobs;
    ProofIs(hasher, root, key, proofDb);
  }

  lemma PathIs(hasher: Hasher, n: Node, key: bytes)
    requires Inner(n) && FullKey(key)
    ensures PathOf(hasher, n, key) == Path(hasher, n, key)
    ensures forall y :: y in Path(hasher, n, key) ==> Inner(y)
  {
    PathInner(hasher, n, key);
  }

  lemma ProofIs(hasher: Hasher, root: Node, key: bytes, proof: Proof)
    requires Inner(root) && FullKey(key)
    ensures ProofOf(hasher, root, key, proof) == Puts(hasher, proof, Elements(hasher, PathOf(hasher, root, key), true))
  {
  }

  /** Puts the nodes' encodings into the proof, from the `fromLevel`-th on. */
  method PutNodes(hasher: Hasher, nodes: seq<Node>, fromLevel: nat, proofDb: Proof) returns (r: Proof)
    requires forall y :: y in nodes ==> Inner(y)
    ensures var blobs := Elements(hasher, nodes, true);
            r == Puts(hasher, proofDb, if fromLevel <= |blobs| then blobs[fromLevel..] else [])
  {
    hide *;
    r := proofDb;
    var level := fromLevel;
    ghost var blobs, done := Elements(hasher, nodes, true), 0;
    PutStart(hasher, nodes, fromLevel, proofDb);
    for i := 0 to |nodes|
      invariant Putting(hasher, nodes, i, blobs, done, fromLevel, level, proofDb, r)
    {
      PutStep(hasher, nodes, i, blobs, done, fromLevel, level, proofDb, r);
      var n := hashChildren(hasher, nodes[i]);
      var hn := store(hasher, n, false);
      StoredIs(hasher, nodes[i]);
      if hn.HashRef? || i == 0 {
        if level > 0 {
          level := level - 1;
        } else {
          var enc := Serialise(n);
          var h := if hn.HashRef? then hn.hash else hasher(enc);
          r := r[h := enc];
        }
        done := done + 1;
      }
    }
    PutEnd(hasher, nodes, blobs, done, fromLevel, level, proofDb, r);
  }

  ghost function PathOf(hasher: Hasher, root: Node, key: bytes): (r: seq<Node>)
    requires Inner(root) && FullKey(key)
    ensures forall y :: y in r ==> Inner(y)
  {
    PathInner(hasher, root, key);
    Path(hasher, root, key)
  }

  lemma NextElement(hasher: Hasher, nodes: seq<Node>, i: nat)
    requires i < |nodes| && forall y :: y in nodes ==> Inner(y)
    ensures forall y :: y in nodes[i..] ==> Inner(y)
    ensures forall y :: y in nodes[i + 1..] ==> Inner(y)
    ensures Inner(nodes[i])
    ensures var left, more := Elements(hasher, nodes[i..], i == 0), Elements(hasher, nodes[i + 1..], false);
            if i == 0 || |Blob(hasher, nodes[i])| >= 32 then left != [] && left[0] == Blob(hasher, nodes[i]) && left[1..] == more
            else left == more
  {
    assert nodes[i..][1..] == nodes[i + 1..] && nodes[i..][0] == nodes[i];
    assert nodes[i] in nodes;
    hide Blob, Inner;
  }

  lemma DropMore(blobs: seq<bytes>, done: nat)
    requires done <= |blobs|
    ensures blobs[done..] != [] ==> done < |blobs| && blobs[done..][0] == blobs[done] && blobs[done..][1..] == blobs[done + 1..]
  {
  }

  lemma StoredIs(hasher: Hasher, n: Node)
    requires Inner(n)
    ensures var h := store(hasher, hashChildren(hasher, n), false);
            (h.HashRef? <==> |Blob(hasher, n)| >= 32) && (h.HashRef? ==> h.hash == hasher(Blob(hasher, n)))
    ensures Serialise(hashChildren(hasher, n)) == Blob(hasher, n)
  {
    InnerKind(hasher, n);
    hide hashChildren, Serialise, Whole;
  }

  lemma PutOne(hasher: Hasher, proof: Proof, blobs: seq<bytes>, from: nat, to: nat)
    requires from <= to < |blobs|
    ensures Puts(hasher, proof, blobs[from..to + 1]) == Puts(hasher, proof, blobs[from..to])[hasher(blobs[to]) := blobs[to]]
  {
    assert blobs[from..to + 1][..to - from] == blobs[from..to];
  }
}
