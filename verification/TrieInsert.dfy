/** The Merkle-Patricia trie as a map: lookup, insertion and deletion on partly loaded trees. */
module TrieInsert {
  import opened Bytes
  import opened TrieNode
  import opened TrieEncoding
  import opened Wrappers

  /** The decoded nodes the database has, by hash. */
  type Store = map<bytes, Node>

  /** A node that is needed is not in the database. */
  datatype Result<+T> = Ok(value: T) | Missing(hash: bytes)

  // ---- well-formed tries ----

  /** A full node, loaded or not. */
  predicate FullHere(db: Store, n: Node) {
    n.Full? || (n.HashRef? && (n.hash in db ==> db[n.hash].Full?))
  }

  /** Two different slots that are in use. */
  ghost predicate Many(cs: seq<Node>) {
    exists i, j :: 0 <= i < j < |cs| && !cs[i].Nil? && !cs[j].Nil?
  }

  /**
    The canonical form: short nodes never follow short nodes, full nodes have at least two children, values sit behind
    terminators and are not empty.
   */
  ghost predicate Canon(db: Store, n: Node) {
    match n
    case Nil => true
    case Val(_) => false
    case HashRef(_) => true
    case Short(k, c) =>
      && k != [] && Hex(k)
      && (if hasTerm(k) then c.Val? && c.val != [] else Canon(db, c) && FullHere(db, c))
    case Full(cs) =>
      && |cs| == 17 && Many(cs)
      && (forall i :: 0 <= i < 16 ==> Canon(db, cs[i]))
      && (cs[16].Nil? || (cs[16].Val? && cs[16].val != []))
  }

  /** The database holds canonical short and full nodes. */
  ghost predicate ValidStore(db: Store) {
    forall h :: h in db ==> (db[h].Short? || db[h].Full?) && Canon(db, db[h])
  }

  /** What is left of a key when a node is reached: nothing at a value, something that ends in a terminator elsewhere. */
  ghost predicate Fits(db: Store, n: Node, key: bytes) {
    if key == [] then n.Nil? || (n.Val? && n.val != []) else FullKey(key) && Canon(db, n)
  }

  function Rank(n: Node): nat { if n.HashRef? then 1 else 0 }

  lemma KeyRest(key: bytes)
    requires FullKey(key)
    ensures key[0] <= 16 && (key[0] == 16 <==> |key| == 1)
    ensures key[1..] == [] || FullKey(key[1..])
  {
    if |key| > 1 {
      assert key[0] == key[..|key| - 1][0];
      assert key[1..][..|key| - 2] == key[..|key| - 1][1..];
    }
  }

  /** A key matched by a short node fits the node's child. */
  lemma KeyTail(db: Store, n: Node, key: bytes)
    requires FullKey(key) && Canon(db, n) && n.Short? && |n.key| <= |key| && key[..|n.key|] == n.key
    ensures |n.key| == |key| <==> hasTerm(n.key)
    ensures Fits(db, n.child, key[|n.key|..])
  {
    var m := |n.key|;
    assert n.key[m - 1] == key[m - 1];
    if m < |key| {
      assert key[m - 1] == key[..|key| - 1][m - 1];
      assert key[m..][..|key| - m - 1] == key[..|key| - 1][m..];
    }
  }

  lemma FullChild(db: Store, n: Node, key: bytes)
    requires FullKey(key) && Canon(db, n) && n.Full?
    ensures key[0] < |n.children| && Fits(db, n.children[key[0]], key[1..])
  {
    KeyRest(key);
  }

  // ---- lookup ----

  /** The value of a key, or nothing; or a node on the way is missing. */
  function Get(db: Store, n: Node, key: bytes): Result<Option<bytes>>
    requires ValidStore(db) && Fits(db, n, key)
    decreases |key|, Rank(n)
  {
    match n
    case Nil => Ok(None)
    case Val(v) => Ok(Some(v))
    case Short(k, c) =>
      if |key| < |k| || k != key[..|k|] then Ok(None)
      else
        KeyTail(db, n, key);
        Get(db, c, key[|k|..])
    case Full(cs) =>
      FullChild(db, n, key);
      Get(db, cs[key[0]], key[1..])
    case HashRef(h) => if h in db then Get(db, db[h], key) else Missing(h)
  }

  // ---- insertion ----

  /** A node for a key and what it leads to. */
  function Leaf(key: bytes, n: Node): Node { if key == [] then n else Short(key, n) }

  const EMPTY: seq<Node> := [Nil, Nil, Nil, Nil, Nil, Nil, Nil, Nil, Nil, Nil, Nil, Nil, Nil, Nil, Nil, Nil, Nil]

  /** A full node with two children. */
  function Branch(i: byte, a: Node, j: byte, b: Node): Node
    requires i <= 16 && j <= 16
  {
    Full(EMPTY[i := a][j := b])
  }

  /** Whether the node changed, and the node with the value of `key` set. */
  function Insert(db: Store, n: Node, key: bytes, value: bytes): Result<(bool, Node)>
    requires ValidStore(db) && Fits(db, n, key) && value != []
    decreases |key|, Rank(n)
  {
    if key == [] then Ok((!(n.Val? && n.val == value), Val(value)))
    else
      match n
      case Short(k, c) =>
        var m := PrefixLen(key, k);
        if m == |k| then
          KeyTail(db, n, key);
          var r := Insert(db, c, key[m..], value);
          if r.Missing? then r
          else if !r.value.0 then Ok((false, n))
          else Ok((true, Short(k, r.value.1)))
        else
          Apart(db, n, key);
          Ok((true, Leaf(key[..m], Branch(k[m], Leaf(k[m + 1..], c), key[m], Leaf(key[m + 1..], Val(value))))))
      case Full(cs) =>
        FullChild(db, n, key);
        var r := Insert(db, cs[key[0]], key[1..], value);
        if r.Missing? then r
        else if !r.value.0 then Ok((false, n))
        else Ok((true, Full(cs[key[0] := r.value.1])))
      case Nil => Ok((true, Short(key, Val(value))))
      case HashRef(h) =>
        if h !in db then Missing(h)
        else
          var r := Insert(db, db[h], key, value);
          if r.Missing? then r
          else if !r.value.0 then Ok((false, db[h]))
          else r
  }

  /** Where a key and a short node's key come apart, both go on with a nibble or the terminator. */
  lemma Apart(db: Store, n: Node, key: bytes)
    requires FullKey(key) && Canon(db, n) && n.Short? && PrefixLen(key, n.key) < |n.key|
    ensures var m := PrefixLen(key, n.key);
            && m < |key| && key[m] != n.key[m] && key[m] <= 16 && n.key[m] <= 16
            && (key[m] == 16 <==> m == |key| - 1) && (n.key[m] == 16 <==> m == |n.key| - 1 && hasTerm(n.key))
  {
    var m := PrefixLen(key, n.key);
    if m > 0 {
      assert key[m - 1] == key[..m][m - 1] && n.key[m - 1] == n.key[..m][m - 1];
      assert n.key[m - 1] == Bare(n.key)[m - 1];
    }
    if m < |key| - 1 {
      assert key[m] == key[..|key| - 1][m];
    }
    if m < |Bare(n.key)| {
      assert n.key[m] == Bare(n.key)[m];
    }
  }

  // ---- what insertion does to the map, and to the form ----

  /** What a short node's child is when some of its key is taken off. */
  lemma ShortTail(db: Store, n: Node, m: nat)
    requires n.Short? && Canon(db, n) && m < |n.key|
    ensures var x := Leaf(n.key[m + 1..], n.child);
            if n.key[m] == 16 then x == n.child && x.Val? && x.val != [] else Canon(db, x) && !x.Nil?
  {
    var k := n.key;
    if m < |Bare(k)| {
      assert k[m] == Bare(k)[m];
    }
    if m + 1 < |k| {
      var t := k[m + 1..];
      assert t[|t| - 1] == k[|k| - 1];
      assert Bare(t) == Bare(k)[m + 1..];
    } else {
      assert k[m + 1..] == [];
    }
  }

  /** A canonical node for the rest of a key. */
  lemma NewTail(db: Store, key: bytes, m: nat, value: bytes)
    requires FullKey(key) && m < |key| && value != []
    ensures var x := Leaf(key[m + 1..], Val(value));
            if key[m] == 16 then x == Val(value) else Canon(db, x) && !x.Nil?
  {
    if m < |key| - 1 {
      assert key[m] == key[..|key| - 1][m];
      var t := key[m + 1..];
      assert t[|t| - 1] == key[|key| - 1];
      assert Bare(t) == key[..|key| - 1][m + 1..];
    }
  }

  lemma BranchCanon(db: Store, i: byte, a: Node, j: byte, b: Node)
    requires i <= 16 && j <= 16 && i != j
    requires if i == 16 then a.Val? && a.val != [] else Canon(db, a) && !a.Nil?
    requires if j == 16 then b.Val? && b.val != [] else Canon(db, b) && !b.Nil?
    ensures Branch(i, a, j, b).Full? && Canon(db, Branch(i, a, j, b))
  {
    var cs := Branch(i, a, j, b).children;
    assert cs[i] == a && cs[j] == b;
    assert Many(cs);
  }

  lemma LeafCanon(db: Store, p: bytes, n: Node)
    requires Nibbles(p) && n.Full? && Canon(db, n)
    ensures Canon(db, Leaf(p, n)) && (Leaf(p, n).Short? || Leaf(p, n).Full?)
  {
    if p != [] {
      assert !hasTerm(p) && Bare(p) == p;
    }
  }

  lemma CommonNibbles(db: Store, n: Node, key: bytes)
    requires FullKey(key) && Canon(db, n) && n.Short? && PrefixLen(key, n.key) < |n.key|
    ensures Nibbles(key[..PrefixLen(key, n.key)])
  {
    Apart(db, n, key);
    assert key[..PrefixLen(key, n.key)] == key[..|key| - 1][..PrefixLen(key, n.key)];
  }

  /** Replacing a child by a canonical one that is not empty. */
  lemma FullWith(db: Store, cs: seq<Node>, i: nat, x: Node)
    requires Canon(db, Full(cs)) && i <= 16 && (if i == 16 then x.Val? && x.val != [] else Canon(db, x) && !x.Nil?)
    ensures Canon(db, Full(cs[i := x]))
  {
    var a, b :| 0 <= a < b < |cs| && !cs[a].Nil? && !cs[b].Nil?;
    assert !cs[i := x][a].Nil? && !cs[i := x][b].Nil?;
  }

  lemma {:induction false} InsertCanon(db: Store, n: Node, key: bytes, value: bytes)
    requires ValidStore(db) && Fits(db, n, key) && value != [] && Insert(db, n, key, value).Ok?
    ensures var r := Insert(db, n, key, value).value.1;
            && (key != [] ==> Canon(db, r) && (r.Short? || r.Full?))
            && (key == [] ==> r == Val(value))
            && (key != [] && FullHere(db, n) ==> r.Full?)
    decreases |key|, Rank(n)
  {
    if key != [] {
      FitsIs(db, n, key);
      NotValue(db, n, key);
      match n
      case Short(k, c) =>
        PrefixBound(key, k);
        if PrefixLen(key, k) == |k| {
          InsertAt(db, n, key, value);
          ShortChild(db, n, key);
          InsertCanon(db, c, key[|k|..], value);
          hide *;
          ShortWith(db, n, Insert(db, c, key[|k|..], value).value.1);
        } else {
          InsertApart(db, n, key, value);
          ApartCanon(db, n, key, value);
          hide Canon, Insert, Branch;
        }
      case Full(cs) =>
        InsertFull(db, n, key, value);
        KeyRest(key);
        InsertCanon(db, cs[key[0]], key[1..], value);
        hide *;
        FullWith(db, cs, key[0], Insert(db, cs[key[0]], key[1..], value).value.1);
      case Nil =>
      case HashRef(h) =>
        InsertCanon(db, db[h], key, value);
        hide Canon;
    }
  }

  lemma ShortChild(db: Store, n: Node, key: bytes)
    requires n.Short? && Canon(db, n) && n.key <= key && FullKey(key)
    ensures n.key != [] && (hasTerm(n.key) <==> key[|n.key|..] == [])
    ensures if hasTerm(n.key) then n.child.Val? && n.child.val != [] else Canon(db, n.child) && FullHere(db, n.child)
  {
    assert key[..|n.key|] == n.key;
    KeyTail(db, n, key);
  }

  lemma ShortWith(db: Store, n: Node, x: Node)
    requires n.Short? && Canon(db, n) && if hasTerm(n.key) then x.Val? && x.val != [] else Canon(db, x) && x.Full?
    ensures Canon(db, Short(n.key, x))
  {
  }

  /** Looking up in a short node. */
  lemma GetShort(db: Store, n: Node, key: bytes)
    requires ValidStore(db) && FullKey(key) && n.Short? && Canon(db, n)
    ensures n.key <= key ==> Fits(db, n.child, key[|n.key|..]) && Get(db, n, key) == Get(db, n.child, key[|n.key|..])
    ensures !(n.key <= key) ==> Get(db, n, key) == Ok(None)
  {
    if n.key <= key {
      assert key[..|n.key|] == n.key;
      KeyTail(db, n, key);
    }
  }

  /** Looking up through a short node put in front, or through nothing put in front. */
  lemma GetLeaf(db: Store, p: bytes, n: Node, key: bytes)
    requires ValidStore(db) && Fits(db, Leaf(p, n), key) && (p != [] ==> FullKey(key))
    ensures p <= key ==> Fits(db, n, key[|p|..]) && Get(db, Leaf(p, n), key) == Get(db, n, key[|p|..])
    ensures !(p <= key) ==> Get(db, Leaf(p, n), key) == Ok(None)
  {
    if p == [] {
      assert key[0..] == key;
    } else {
      FullKeyNotEmpty(key);
      GetShort(db, Leaf(p, n), key);
    }
  }

  lemma FullKeyNotEmpty(key: bytes)
    requires FullKey(key)
    ensures key != []
  {
  }

  lemma FitsIs(db: Store, n: Node, key: bytes)
    ensures key != [] ==> (Fits(db, n, key) <==> FullKey(key) && Canon(db, n))
  {
  }

  /** Looking up in a full node. */
  lemma GetFull(db: Store, n: Node, key: bytes)
    requires ValidStore(db) && FullKey(key) && n.Full? && Canon(db, n)
    ensures key != [] && key[0] < |n.children| && Fits(db, n.children[key[0]], key[1..]) && |n.children| == 17
    ensures Get(db, n, key) == Get(db, n.children[key[0]], key[1..])
  {
    FullChild(db, n, key);
  }

  /** Looking up in a full node with two children. */
  lemma GetBranch(db: Store, i: byte, a: Node, j: byte, b: Node, key: bytes)
    requires i <= 16 && j <= 16 && i != j && ValidStore(db) && FullKey(key) && Canon(db, Branch(i, a, j, b))
    ensures key != []
    ensures key[0] == i ==> Fits(db, a, key[1..]) && Get(db, Branch(i, a, j, b), key) == Get(db, a, key[1..])
    ensures key[0] == j ==> Fits(db, b, key[1..]) && Get(db, Branch(i, a, j, b), key) == Get(db, b, key[1..])
    ensures key[0] != i && key[0] != j ==> Get(db, Branch(i, a, j, b), key) == Ok(None)
  {
    GetFull(db, Branch(i, a, j, b), key);
    hide Canon;
  }

  /** Prefixes, apart from what both start with. */
  lemma PrefixSplit(k: bytes, k': bytes, m: nat)
    requires m <= |k| && m <= |k'| && k[..m] == k'[..m]
    ensures k <= k' <==> k[m..] <= k'[m..]
    ensures k <= k' ==> k'[m..][|k| - m..] == k'[|k|..]
    ensures k == k' <==> k[m..] == k'[m..]
  {
    assert k == k[..m] + k[m..] && k' == k'[..m] + k'[m..];
  }

  lemma OneLess(k: bytes, m: nat)
    requires m < |k|
    ensures k[m..] != [] && k[m..][0] == k[m] && k[m..][1..] == k[m + 1..] && k[..m + 1] == k[..m] + [k[m]]
  {
  }

  lemma Diverges(k: bytes, k': bytes, m: nat)
    requires m < |k| && (m < |k'| ==> k[m] != k'[m])
    ensures !(k <= k')
  {
  }

  lemma NotPrefix(k: bytes, key: bytes, k': bytes, m: nat)
    requires m <= |k| && m <= |key| && k[..m] == key[..m] && !(key[..m] <= k')
    ensures !(k <= k') && key != k'
  {
  }

  lemma NoPrefix(p: bytes, q: bytes)
    ensures p != [] && q == [] ==> !(p <= q)
  {
  }

  /** The keys a short node holds are found behind what is left of it. */
  lemma OldKey(db: Store, n: Node, k': bytes, m: nat)
    requires ValidStore(db) && FullKey(k') && n.Short? && Canon(db, n) && m < |n.key| && m < |k'| && n.key[..m + 1] == k'[..m + 1]
    requires Fits(db, Leaf(n.key[m + 1..], n.child), k'[m + 1..])
    ensures Get(db, Leaf(n.key[m + 1..], n.child), k'[m + 1..]) == Get(db, n, k')
  {
    var h, p, rest := n.key[..m + 1], n.key[m + 1..], k'[m + 1..];
    TailFits(db, n, p, rest, m);
    hide *;
    Halves(n.key, m + 1);
    Halves(k', m + 1);
    OldKeyBehind(db, n, k', h, p, rest);
  }

  lemma Halves(k: bytes, m: nat)
    requires m <= |k|
    ensures k == k[..m] + k[m..]
  {
  }

  lemma OldKeyBehind(db: Store, n: Node, k': bytes, h: bytes, p: bytes, rest: bytes)
    requires ValidStore(db) && FullKey(k') && n.Short? && Canon(db, n) && n.key == h + p && k' == h + rest
    requires Fits(db, Leaf(p, n.child), rest) && (p != [] ==> FullKey(rest))
    ensures Get(db, Leaf(p, n.child), rest) == Get(db, n, k')
  {
    hide *;
    SameFront(h, p, rest);
    GetShort(db, n, k');
    GetLeaf(db, p, n.child, rest);
  }

  lemma SameFront(h: bytes, p: bytes, rest: bytes)
    ensures h + p <= h + rest <==> p <= rest
    ensures p <= rest ==> (h + rest)[|h + p|..] == rest[|p|..]
  {
    if h + p <= h + rest {
      assert forall i :: 0 <= i < |p| ==> p[i] == (h + p)[|h| + i] && rest[i] == (h + rest)[|h| + i];
    }
  }

  lemma TailFits(db: Store, n: Node, p: bytes, rest: bytes, m: nat)
    requires n.Short? && Canon(db, n) && m < |n.key| && p == n.key[m + 1..] && Fits(db, Leaf(p, n.child), rest)
    ensures p != [] ==> FullKey(rest)
  {
  }

  /** Behind the new branch only the new key is found. */
  lemma NewKey(db: Store, key: bytes, value: bytes, k': bytes, m: nat)
    requires ValidStore(db) && FullKey(key) && FullKey(k') && m < |key| && m < |k'| && key[..m + 1] == k'[..m + 1] && value != []
    requires Fits(db, Leaf(key[m + 1..], Val(value)), k'[m + 1..])
    ensures Get(db, Leaf(key[m + 1..], Val(value)), k'[m + 1..]) == if k' == key then Ok(Some(value)) else Ok(None)
  {
    var p, rest := key[m + 1..], k'[m + 1..];
    NewFits(db, p, rest, value);
    PrefixSplit(key, k', m + 1);
    GetLeaf(db, p, Val(value), rest);
    hide *;
    if p <= rest {
      ValueKey(db, value, rest, p);
    }
  }

  lemma NewFits(db: Store, p: bytes, rest: bytes, value: bytes)
    requires Fits(db, Leaf(p, Val(value)), rest)
    ensures p != [] ==> FullKey(rest)
  {
  }

  lemma ValueKey(db: Store, value: bytes, rest: bytes, p: bytes)
    requires ValidStore(db) && p <= rest && Fits(db, Val(value), rest[|p|..])
    ensures rest == p && Get(db, Val(value), rest[|p|..]) == Ok(Some(value))
  {
  }

  // ---- what an insertion does, case by case ----

  lemma InsertAt(db: Store, n: Node, key: bytes, value: bytes)
    requires ValidStore(db) && FullKey(key) && Canon(db, n) && n.Short? && value != [] && PrefixLen(key, n.key) == |n.key|
    ensures n.key <= key && Fits(db, n.child, key[|n.key|..])
    ensures var r, s := Insert(db, n, key, value), Insert(db, n.child, key[|n.key|..], value);
            if s.Missing? then r == s
            else r == Ok((s.value.0, if s.value.0 then Short(n.key, s.value.1) else n))
  {
    KeyTail(db, n, key);
  }

  lemma InsertApart(db: Store, n: Node, key: bytes, value: bytes)
    requires ValidStore(db) && FullKey(key) && Canon(db, n) && n.Short? && value != [] && PrefixLen(key, n.key) < |n.key|
    ensures var m := PrefixLen(key, n.key);
            && m < |key| && key[m] != n.key[m] && key[m] <= 16 && n.key[m] <= 16 && key[..m] == n.key[..m]
            && Insert(db, n, key, value) == Ok((true, Leaf(key[..m], Branch(n.key[m], Leaf(n.key[m + 1..], n.child), key[m], Leaf(key[m + 1..], Val(value))))))
  {
    Apart(db, n, key);
  }

  lemma InsertFull(db: Store, n: Node, key: bytes, value: bytes)
    requires ValidStore(db) && FullKey(key) && Canon(db, n) && n.Full? && value != []
    ensures key != [] && key[0] < |n.children| == 17 && Fits(db, n.children[key[0]], key[1..])
    ensures var r, s := Insert(db, n, key, value), Insert(db, n.children[key[0]], key[1..], value);
            if s.Missing? then r == s
            else r == Ok((s.value.0, if s.value.0 then Full(n.children[key[0] := s.value.1]) else n))
  {
    FullChild(db, n, key);
  }

  /** The branch that takes a short node's place is canonical. */
  lemma ApartCanon(db: Store, n: Node, key: bytes, value: bytes)
    requires ValidStore(db) && FullKey(key) && Canon(db, n) && n.Short? && value != [] && PrefixLen(key, n.key) < |n.key|
    ensures var m := PrefixLen(key, n.key);
            && m < |key| && key[m] <= 16 && n.key[m] <= 16 && Nibbles(key[..m])
            && var b := Branch(n.key[m], Leaf(n.key[m + 1..], n.child), key[m], Leaf(key[m + 1..], Val(value)));
               b.Full? && Canon(db, b) && Canon(db, Leaf(key[..m], b))
  {
    var m := PrefixLen(key, n.key);
    Apart(db, n, key);
    ShortTail(db, n, m);
    NewTail(db, key, m, value);
    CommonNibbles(db, n, key);
    hide Canon;
    BranchCanon(db, n.key[m], Leaf(n.key[m + 1..], n.child), key[m], Leaf(key[m + 1..], Val(value)));
    LeafCanon(db, key[..m], Branch(n.key[m], Leaf(n.key[m + 1..], n.child), key[m], Leaf(key[m + 1..], Val(value))));
  }

  /** Where a short node branches out, the new key is found, and the old ones still are. */
  lemma BranchOut(db: Store, n: Node, key: bytes, value: bytes, k': bytes)
    requires ValidStore(db) && FullKey(key) && FullKey(k') && n.Short? && Canon(db, n) && value != []
    requires PrefixLen(key, n.key) < |n.key|
    ensures Insert(db, n, key, value).Ok? && Fits(db, Insert(db, n, key, value).value.1, k')
    ensures Get(db, Insert(db, n, key, value).value.1, k') == if k' == key then Ok(Some(value)) else Get(db, n, k')
  {
    hide *;
    var k, c, m := n.key, n.child, PrefixLen(key, n.key);
    InsertApart(db, n, key, value);
    ApartCanon(db, n, key, value);
    var a, b := Leaf(k[m + 1..], c), Leaf(key[m + 1..], Val(value));
    var branch := Branch(k[m], a, key[m], b);
    FullKeyNotEmpty(k');
    FitsIs(db, Leaf(key[..m], branch), k');
    FitsIs(db, n, k');
    GetLeaf(db, key[..m], branch, k');
    GetShort(db, n, k');
    if key[..m] <= k' {
      BehindBranch(db, n, key, value, k', m);
    } else {
      NotPrefix(k, key, k', m);
    }
  }

  lemma BehindBranch(db: Store, n: Node, key: bytes, value: bytes, k': bytes, m: nat)
    requires ValidStore(db) && FullKey(key) && FullKey(k') && n.Short? && Canon(db, n) && value != []
    requires m < |key| && m < |n.key| && key[m] != n.key[m] && key[m] <= 16 && n.key[m] <= 16 && key[..m] == n.key[..m] && key[..m] <= k'
    requires var b := Branch(n.key[m], Leaf(n.key[m + 1..], n.child), key[m], Leaf(key[m + 1..], Val(value)));
             Canon(db, b) && b.Full? && Fits(db, b, k'[m..])
    ensures var b := Branch(n.key[m], Leaf(n.key[m + 1..], n.child), key[m], Leaf(key[m + 1..], Val(value)));
            Get(db, b, k'[m..]) == if k' == key then Ok(Some(value)) else Get(db, n, k')
  {
    var a, b := Leaf(n.key[m + 1..], n.child), Leaf(key[m + 1..], Val(value));
    var rest := k'[m..];
    FullNeedsKey(db, Branch(n.key[m], a, key[m], b), rest);
    hide *;
    GetBranch(db, n.key[m], a, key[m], b, rest);
    TakeMore(k', m);
    OneLess(k', m);
    OneLess(key, m);
    OneLess(n.key, m);
    GetShort(db, n, k');
    if k'[m] == n.key[m] {
      OldKey(db, n, k', m);
    } else {
      Diverges(n.key, k', m);
      if k'[m] == key[m] {
        NewKey(db, key, value, k', m);
      }
    }
  }

  lemma FullNeedsKey(db: Store, n: Node, key: bytes)
    requires n.Full? && Fits(db, n, key)
    ensures FullKey(key) && key != []
  {
  }

  lemma TakeMore(k: bytes, m: nat)
    requires m <= |k| && k[m..] != []
    ensures m < |k|
  {
  }

  /** After an insertion the key has the new value, and every other key what it had. */
  lemma {:induction false} GetInsert(db: Store, n: Node, key: bytes, value: bytes, k': bytes)
    requires ValidStore(db) && Fits(db, n, key) && Fits(db, n, k') && (key == [] <==> k' == [])
    requires value != [] && Insert(db, n, key, value).Ok?
    ensures var r := Insert(db, n, key, value).value.1;
            Fits(db, r, k') && Get(db, r, k') == if k' == key then Ok(Some(value)) else Get(db, n, k')
    decreases |key|, Rank(n), 1
  {
    if key == [] {
      GetInsertHere(db, n, value);
    } else {
      FitsIs(db, n, key);
      FitsIs(db, n, k');
      NotValue(db, n, key);
      hide *;
      match n
      case Short(k, c) =>
        PrefixBound(key, k);
        if PrefixLen(key, k) == |k| {
          GetInsertShort(db, n, key, value, k');
        } else {
          BranchOut(db, n, key, value, k');
        }
      case Full(cs) =>
        GetInsertFull(db, n, key, value, k');
      case Nil =>
        GetInsertNil(db, key, value, k');
      case HashRef(h) =>
        InsertHash(db, n, key, value, k');
        GetInsert(db, db[h], key, value, k');
    }
  }

  lemma PrefixBound(a: bytes, b: bytes)
    ensures PrefixLen(a, b) <= |b|
  {
  }

  lemma NotValue(db: Store, n: Node, key: bytes)
    requires Fits(db, n, key) && key != []
    ensures !n.Val? && Rank(n) == if n.HashRef? then 1 else 0
    ensures ValidStore(db) && n.HashRef? && n.hash in db ==> Rank(db[n.hash]) == 0
  {
  }

  lemma GetInsertHere(db: Store, n: Node, value: bytes)
    requires ValidStore(db) && Fits(db, n, []) && value != []
    ensures Insert(db, n, [], value).Ok?
    ensures var r := Insert(db, n, [], value).value.1;
            Fits(db, r, []) && Get(db, r, []) == Ok(Some(value))
  {
  }

  lemma GetInsertNil(db: Store, key: bytes, value: bytes, k': bytes)
    requires ValidStore(db) && FullKey(key) && FullKey(k') && value != []
    ensures Fits(db, Nil, key) && Insert(db, Nil, key, value).Ok?
    ensures var r := Insert(db, Nil, key, value).value.1;
            Fits(db, r, k') && Get(db, r, k') == if k' == key then Ok(Some(value)) else Get(db, Nil, k')
  {
    var r := Insert(db, Nil, key, value).value.1;
    InsertCanon(db, Nil, key, value);
    FullKeyNotEmpty(key);
    GetShort(db, r, k');
    if key <= k' {
      FullKeysBranch(key, k', |key|);
      assert k'[|key|..] == [];
    }
    hide Canon;
  }

  lemma InsertHash(db: Store, n: Node, key: bytes, value: bytes, k': bytes)
    requires ValidStore(db) && FullKey(key) && FullKey(k') && Canon(db, n) && n.HashRef? && value != [] && Insert(db, n, key, value).Ok?
    ensures n.hash in db && Fits(db, db[n.hash], key) && Fits(db, db[n.hash], k') && Fits(db, n, k')
    ensures Get(db, n, k') == Get(db, db[n.hash], k')
    ensures Insert(db, db[n.hash], key, value).Ok?
    ensures var r, s := Insert(db, n, key, value).value, Insert(db, db[n.hash], key, value).value;
            r.1 == if s.0 then s.1 else db[n.hash]
    ensures !Insert(db, db[n.hash], key, value).value.0 ==> Get(db, db[n.hash], key) == Ok(Some(value))
  {
    FullKeyNotEmpty(key);
    FullKeyNotEmpty(k');
    NotDirty(db, db[n.hash], key, value);
  }

  lemma {:induction false} GetInsertShort(db: Store, n: Node, key: bytes, value: bytes, k': bytes)
    requires ValidStore(db) && FullKey(key) && FullKey(k') && Canon(db, n) && n.Short? && PrefixLen(key, n.key) == |n.key|
    requires value != [] && Insert(db, n, key, value).Ok?
    ensures var r := Insert(db, n, key, value).value.1;
            Fits(db, r, k') && Get(db, r, k') == if k' == key then Ok(Some(value)) else Get(db, n, k')
    decreases |key|, 0, 0
  {
    InsertCanon(db, n, key, value);
    var k, r := n.key, Insert(db, n, key, value).value.1;
    assert k != [];
    FullKeyNotEmpty(key);
    FullKeyNotEmpty(k');
    hide *;
    InsertAt(db, n, key, value);
    FitsIs(db, r, k');
    GetShort(db, n, k');
    var s := Insert(db, n.child, key[|k|..], value);
    if !s.value.0 {
      NotDirty(db, n, key, value);
    } else {
      GetShort(db, r, k');
      if k <= k' {
        PrefixSplit(key, k', |k|);
        KeysEnd(db, n, key[|k|..], k'[|k|..]);
        GetInsert(db, n.child, key[|k|..], value, k'[|k|..]);
      }
    }
  }

  lemma {:induction false} GetInsertFull(db: Store, n: Node, key: bytes, value: bytes, k': bytes)
    requires ValidStore(db) && FullKey(key) && FullKey(k') && Canon(db, n) && n.Full?
    requires value != [] && Insert(db, n, key, value).Ok?
    ensures var r := Insert(db, n, key, value).value.1;
            Fits(db, r, k') && Get(db, r, k') == if k' == key then Ok(Some(value)) else Get(db, n, k')
    decreases |key|, 0, 0
  {
    InsertCanon(db, n, key, value);
    var r := Insert(db, n, key, value).value.1;
    FullKeyNotEmpty(k');
    hide *;
    InsertFull(db, n, key, value);
    FitsIs(db, r, k');
    GetFull(db, n, k');
    var s := Insert(db, n.children[key[0]], key[1..], value);
    if !s.value.0 {
      NotDirty(db, n, key, value);
    } else {
      GetFull(db, r, k');
      if k'[0] == key[0] {
        HeadTail(key, k');
        KeyRest(key);
        KeyRest(k');
        GetInsert(db, n.children[key[0]], key[1..], value, k'[1..]);
      }
    }
  }

  /** An insertion that changes nothing found the value there. */
  lemma {:induction false} NotDirty(db: Store, n: Node, key: bytes, value: bytes)
    requires ValidStore(db) && Fits(db, n, key) && value != [] && Insert(db, n, key, value).Ok?
    ensures !Insert(db, n, key, value).value.0 ==> Get(db, n, key) == Ok(Some(value))
    decreases |key|, Rank(n)
  {
    if key != [] {
      FitsIs(db, n, key);
      match n
      case Short(k, c) =>
        if PrefixLen(key, k) == |k| {
          InsertAt(db, n, key, value);
          GetShort(db, n, key);
          NotDirty(db, c, key[|k|..], value);
          hide *;
        }
      case Full(cs) =>
        InsertFull(db, n, key, value);
        GetFull(db, n, key);
        NotDirty(db, cs[key[0]], key[1..], value);
        hide *;
      case Nil =>
      case HashRef(h) =>
        NotDirty(db, db[h], key, value);
    }
  }

  lemma HeadTail(a: bytes, b: bytes)
    requires a != [] && b != [] && a[0] == b[0]
    ensures a == b <==> a[1..] == b[1..]
  {
    assert a == [a[0]] + a[1..] && b == [b[0]] + b[1..];
  }

  /** Two rests of keys at a short node's child end together. */
  lemma KeysEnd(db: Store, n: Node, a: bytes, b: bytes)
    requires n.Short? && Canon(db, n) && Fits(db, n.child, a) && Fits(db, n.child, b)
    ensures a == [] <==> b == []
  {
  }
}
