/** The trie as its users see it: a map from byte strings to byte strings. */
module TrieMap {
  import opened Bytes
  import opened TrieNode
  import opened TrieEncoding
  import opened TrieInsert
  import opened TrieDelete
  import opened TrieMissing
  import opened TrieUnique
  import opened Wrappers

  /** A lookup's value, and the node with what was loaded on the way put in. */
  datatype Found = Found(value: Option<bytes>, node: Node, didResolve: bool)

  /** Looks up what is left of a key, and puts loaded nodes in place of their hashes. */
  function tryGet(db: Store, n: Node, key: bytes): Result<Found>
    requires ValidStore(db) && Fits(db, n, key)
    decreases |key|, Rank(n)
  {
    match n
    case Nil => Ok(Found(None, Nil, false))
    case Val(v) => Ok(Found(Some(v), n, false))
    case Short(k, c) =>
      if |key| < |k| || k != key[..|k|] then Ok(Found(None, n, false))
      else
        KeyTail(db, n, key);
        var r := tryGet(db, c, key[|k|..]);
        if r.Missing? then r
        else if r.value.didResolve then Ok(r.value.(node := Short(k, r.value.node)))
        else Ok(r.value.(node := n))
    case Full(cs) =>
      FullChild(db, n, key);
      var r := tryGet(db, cs[key[0]], key[1..]);
      if r.Missing? then r
      else if r.value.didResolve then Ok(r.value.(node := Full(cs[key[0] := r.value.node])))
      else Ok(r.value.(node := n))
    case HashRef(h) =>
      if h !in db then Missing(h)
      else
        var r := tryGet(db, db[h], key);
        if r.Missing? then r else Ok(r.value.(didResolve := true))
  }

  /** Both hold the same, as far as what is needed can be loaded. */
  ghost predicate Same(db: Store, a: Node, b: Node) {
    && ValidStore(db) && Canon(db, a) && Canon(db, b)
    && forall k {:trigger FullKey(k)} :: FullKey(k) ==> Fits(db, a, k) && Fits(db, b, k) && Get(db, a, k) == Get(db, b, k)
  }

  lemma SameSelf(db: Store, a: Node)
    requires ValidStore(db) && Canon(db, a)
    ensures Same(db, a, a)
  {
    forall k | FullKey(k) ensures Fits(db, a, k) {
      FullKeyNotEmpty(k);
    }
  }

  lemma SameShort(db: Store, n: Node, x: Node)
    requires n.Short? && Canon(db, n) && !hasTerm(n.key) && Same(db, n.child, x) && FullHere(db, x)
    ensures Same(db, n, Short(n.key, x))
  {
    ShortWithHere(db, n, x);
    ShortKey(db, n);
    forall k | FullKey(k)
      ensures Fits(db, n, k) && Fits(db, Short(n.key, x), k) && Get(db, n, k) == Get(db, Short(n.key, x), k)
    {
      FullKeyNotEmpty(k);
      GetShort(db, n, k);
      GetShort(db, Short(n.key, x), k);
      if n.key <= k {
        ShortChild(db, n, k);
        SameFits(db, n, k, x);
      }
    }
  }

  lemma ShortWithHere(db: Store, n: Node, x: Node)
    requires n.Short? && Canon(db, n) && !hasTerm(n.key) && Canon(db, x) && FullHere(db, x)
    ensures Canon(db, Short(n.key, x))
  {
  }

  lemma SameFits(db: Store, n: Node, k: bytes, x: Node)
    requires n.Short? && !hasTerm(n.key) && Canon(db, n) && n.key <= k && FullKey(k) && Same(db, n.child, x) && k[|n.key|..] != []
    requires Fits(db, n.child, k[|n.key|..])
    ensures Fits(db, x, k[|n.key|..]) && Get(db, n.child, k[|n.key|..]) == Get(db, x, k[|n.key|..])
  {
    assert FullKey(k[|n.key|..]);
  }

  lemma SameFull(db: Store, cs: seq<Node>, i: nat, x: Node)
    requires Canon(db, Full(cs)) && i < 16 && Same(db, cs[i], x) && (x.Nil? ==> cs[i].Nil?)
    ensures Same(db, Full(cs), Full(cs[i := x]))
  {
    var ds := cs[i := x];
    if x.Nil? {
      assert ds == cs;
    } else {
      FullWith(db, cs, i, x);
    }
    forall k | FullKey(k)
      ensures Fits(db, Full(cs), k) && Fits(db, Full(ds), k) && Get(db, Full(cs), k) == Get(db, Full(ds), k)
    {
      FullKeyNotEmpty(k);
      GetFull(db, Full(cs), k);
      GetFull(db, Full(ds), k);
      KeyRest(k);
      if k[0] == i {
        assert FullKey(k[1..]);
      }
    }
  }

  lemma SameLoaded(db: Store, n: Node, x: Node)
    requires n.HashRef? && n.hash in db && Same(db, db[n.hash], x)
    ensures Same(db, n, x)
  {
    forall k | FullKey(k)
      ensures Fits(db, n, k) && Fits(db, x, k) && Get(db, n, k) == Get(db, x, k)
    {
      FullKeyNotEmpty(k);
    }
  }

  lemma TryShort(db: Store, n: Node, key: bytes)
    requires ValidStore(db) && Fits(db, n, key) && n.Short?
    ensures FullKey(key) && Canon(db, n) && n.key != []
    ensures !(n.key <= key) ==> tryGet(db, n, key) == Ok(Found(None, n, false))
    ensures n.key <= key ==>
              && Fits(db, n.child, key[|n.key|..])
              && var r, s := tryGet(db, n, key), tryGet(db, n.child, key[|n.key|..]);
                 if s.Missing? then r == s else r == Ok(s.value.(node := if s.value.didResolve then Short(n.key, s.value.node) else n))
    ensures n.key <= key && n.child.Val? ==> tryGet(db, n.child, key[|n.key|..]) == Ok(Found(Some(n.child.val), n.child, false))
  {
    if n.key <= key {
      assert key[..|n.key|] == n.key;
      KeyTail(db, n, key);
    }
  }

  lemma TryFull(db: Store, n: Node, key: bytes)
    requires ValidStore(db) && Fits(db, n, key) && n.Full?
    ensures FullKey(key) && Canon(db, n) && key != [] && key[0] < |n.children| == 17 && Fits(db, n.children[key[0]], key[1..])
    ensures var r, s := tryGet(db, n, key), tryGet(db, n.children[key[0]], key[1..]);
            if s.Missing? then r == s
            else r == Ok(s.value.(node := if s.value.didResolve then Full(n.children[key[0] := s.value.node]) else n))
    ensures n.children[key[0]].Val? || n.children[key[0]].Nil? ==>
              tryGet(db, n.children[key[0]], key[1..]).Ok? && !tryGet(db, n.children[key[0]], key[1..]).value.didResolve
  {
    FullChild(db, n, key);
  }

  /** A lookup finds what `Get` finds, and loading nodes does not change what the trie holds. */
  ghost predicate FoundRight(db: Store, n: Node, k: bytes, r: Result<Found>)
    requires ValidStore(db) && Fits(db, n, k)
  {
    var g := Get(db, n, k);
    if r.Missing? then g == Missing(r.hash)
    else && g == Ok(r.value.value)
         && (k == [] ==> r.value.node == n)
         && (k != [] ==> Same(db, n, r.value.node) && (FullHere(db, n) ==> FullHere(db, r.value.node)))
         && (r.value.node.Nil? ==> n.Nil?)
  }

  lemma FoundIs(db: Store, n: Node, k: bytes, r: Result<Found>)
    requires ValidStore(db) && Fits(db, n, k)
    ensures FoundRight(db, n, k, r) <==>
              if r.Missing? then Get(db, n, k) == Missing(r.hash)
              else && Get(db, n, k) == Ok(r.value.value)
                   && (k == [] ==> r.value.node == n)
                   && (k != [] ==> Same(db, n, r.value.node) && (FullHere(db, n) ==> FullHere(db, r.value.node)))
                   && (r.value.node.Nil? ==> n.Nil?)
  {
  }

  lemma {:induction false} TryGetIs(db: Store, n: Node, key: bytes)
    requires ValidStore(db) && Fits(db, n, key)
    ensures FoundRight(db, n, key, tryGet(db, n, key))
    decreases |key|, Rank(n)
  {
    if key != [] {
      FitsIs(db, n, key);
      NotValue(db, n, key);
      hide *;
      FoundIs(db, n, key, tryGet(db, n, key));
      match n
      case Short(p, c) =>
        TryShort(db, n, key);
        SameSelf(db, n);
        GetShort(db, n, key);
        if p <= key {
          ShortChild(db, n, key);
          TryGetIs(db, c, key[|p|..]);
          FoundIs(db, c, key[|p|..], tryGet(db, c, key[|p|..]));
          var r := tryGet(db, c, key[|p|..]);
          if r.Ok? && r.value.didResolve {
            SameShort(db, n, r.value.node);
          }
        }
        NotFullHere(db, n);
      case Full(cs) =>
        TryFull(db, n, key);
        SameSelf(db, n);
        GetFull(db, n, key);
        TryGetIs(db, cs[key[0]], key[1..]);
        FoundIs(db, cs[key[0]], key[1..], tryGet(db, cs[key[0]], key[1..]));
        KeyRest(key);
        LastChild(db, n);
        var r := tryGet(db, cs[key[0]], key[1..]);
        if r.Ok? && r.value.didResolve {
          SameFull(db, cs, key[0], r.value.node);
        }
        FullIsHere(db);
      case HashRef(h) =>
        TryHash(db, n, key);
        if h in db {
          TryGetIs(db, db[h], key);
          FoundIs(db, db[h], key, tryGet(db, db[h], key));
          if tryGet(db, db[h], key).Ok? {
            SameLoaded(db, n, tryGet(db, db[h], key).value.node);
          }
        }
      case _ =>
        FoundNil(db, key);
        SameSelf(db, n);
    }
  }

  lemma FoundNil(db: Store, key: bytes)
    requires ValidStore(db) && Fits(db, Nil, key)
    ensures tryGet(db, Nil, key) == Ok(Found(None, Nil, false)) && Get(db, Nil, key) == Ok(None)
  {
  }

  lemma NotFullHere(db: Store, n: Node)
    requires n.Short?
    ensures !FullHere(db, n)
  {
  }

  lemma FullIsHere(db: Store)
    ensures forall cs :: FullHere(db, Full(cs))
  {
  }

  lemma LastChild(db: Store, n: Node)
    requires Canon(db, n) && n.Full?
    ensures |n.children| == 17 && (n.children[16].Nil? || n.children[16].Val?)
  {
  }

  lemma TryHash(db: Store, n: Node, key: bytes)
    requires ValidStore(db) && Fits(db, n, key) && n.HashRef?
    ensures n.hash !in db ==> tryGet(db, n, key) == Missing(n.hash) && Get(db, n, key) == Missing(n.hash)
    ensures n.hash in db ==>
              && Fits(db, db[n.hash], key) && Get(db, n, key) == Get(db, db[n.hash], key)
              && (FullHere(db, n) <==> FullHere(db, db[n.hash])) && !db[n.hash].Nil?
              && var r, s := tryGet(db, n, key), tryGet(db, db[n.hash], key);
                 if s.Missing? then r == s else r == Ok(s.value.(didResolve := true))
  {
  }

  /** Every key that is held is the hex form of a byte string. */
  ghost predicate ByteKeys(db: Store, n: Node)
    requires ValidStore(db) && Canon(db, n)
  {
    forall k {:trigger FullKey(k)} :: FullKey(k) && Fits(db, n, k) && Get(db, n, k).Ok? && Get(db, n, k).value.Some? ==> IsByteKey(k)
  }

  lemma KeyFits(db: Store, n: Node, key: bytes)
    requires ValidStore(db) && Canon(db, n)
    ensures Fits(db, n, KeybytesToHex(key)) && FullKey(KeybytesToHex(key)) && KeybytesToHex(key) != []
  {
    FullKeyNotEmpty(KeybytesToHex(key));
  }

  /** What the trie holds for a byte string. */
  ghost function Held(db: Store, n: Node, key: bytes): Result<Option<bytes>>
    requires ValidStore(db) && Canon(db, n)
  {
    KeyFits(db, n, key);
    Get(db, n, KeybytesToHex(key))
  }

  /** Setting one key, on byte strings. */
  lemma InsertRoot(db: Store, n: Node, key: bytes, value: bytes)
    requires ValidStore(db) && Canon(db, n) && ByteKeys(db, n) && value != []
    ensures Fits(db, n, KeybytesToHex(key))
    ensures Insert(db, n, KeybytesToHex(key), value).Ok? ==>
              var r := Insert(db, n, KeybytesToHex(key), value).value.1;
              && Canon(db, r) && ByteKeys(db, r)
              && forall k :: Held(db, r, k) == if k == key then Ok(Some(value)) else Held(db, n, k)
  {
    var x := KeybytesToHex(key);
    KeyFits(db, n, key);
    if Insert(db, n, x, value).Ok? {
      InsertCanon(db, n, x, value);
      var r := Insert(db, n, x, value).value.1;
      hide *;
      IsByteKeyIs(key);
      KeepByteKeys(db, n, r, x) by {
        forall y | FullKey(y)
          ensures Fits(db, n, y) && Fits(db, r, y) && (y == x || Get(db, r, y) == Get(db, n, y))
        {
          FullKeyNotEmpty(y);
          FitsIs(db, n, y);
          GetInsert(db, n, x, value, y);
        }
      }
      forall k ensures Held(db, r, k) == if k == key then Ok(Some(value)) else Held(db, n, k) {
        HeldIs(db, n, k);
        HeldIs(db, r, k);
        GetInsert(db, n, x, value, KeybytesToHex(k));
        if KeybytesToHex(k) == x {
          KeyInjective(k, key);
        }
      }
    }
  }

  lemma IsByteKeyIs(key: bytes)
    ensures IsByteKey(KeybytesToHex(key))
  {
  }

  lemma HeldIs(db: Store, n: Node, key: bytes)
    requires ValidStore(db) && Canon(db, n)
    ensures Fits(db, n, KeybytesToHex(key)) && KeybytesToHex(key) != [] && Held(db, n, key) == Get(db, n, KeybytesToHex(key))
  {
    KeyFits(db, n, key);
  }

  /** Changing what is held for a byte key adds no other keys. */
  lemma KeepByteKeys(db: Store, n: Node, r: Node, x: bytes)
    requires ValidStore(db) && Canon(db, n) && Canon(db, r) && ByteKeys(db, n) && IsByteKey(x)
    requires forall y {:trigger FullKey(y)} :: FullKey(y) ==> Fits(db, n, y) && Fits(db, r, y) && (y == x || Get(db, r, y) == Get(db, n, y))
    ensures ByteKeys(db, r)
  {
    forall y | FullKey(y) && Fits(db, r, y) && Get(db, r, y).Ok? && Get(db, r, y).value.Some?
      ensures IsByteKey(y)
    {
      if y != x {
        assert Get(db, r, y) == Get(db, n, y);
      }
    }
  }

  /** Removing one key, on byte strings. */
  lemma DeleteRoot(db: Store, n: Node, key: bytes)
    requires ValidStore(db) && Canon(db, n) && ByteKeys(db, n)
    ensures Fits(db, n, KeybytesToHex(key))
    ensures Delete(db, n, KeybytesToHex(key)).Ok? ==>
              var r := Delete(db, n, KeybytesToHex(key)).value.1;
              && Canon(db, r) && ByteKeys(db, r)
              && forall k :: Held(db, r, k) == if k == key then Ok(None) else Held(db, n, k)
  {
    var x := KeybytesToHex(key);
    KeyFits(db, n, key);
    if Delete(db, n, x).Ok? {
      DeleteCanon(db, n, x);
      var r := Delete(db, n, x).value.1;
      LeftIs(db, n, x, r);
      hide *;
      IsByteKeyIs(key);
      KeepByteKeys(db, n, r, x) by {
        forall y | FullKey(y)
          ensures Fits(db, n, y) && Fits(db, r, y) && (y == x || Get(db, r, y) == Get(db, n, y))
        {
          FullKeyNotEmpty(y);
          FitsIs(db, n, y);
          GetDelete(db, n, x, y);
        }
      }
      forall k ensures Held(db, r, k) == if k == key then Ok(None) else Held(db, n, k) {
        HeldIs(db, n, k);
        HeldIs(db, r, k);
        GetDelete(db, n, x, KeybytesToHex(k));
        if KeybytesToHex(k) == x {
          KeyInjective(k, key);
        }
      }
    }
  }

  /** Loaded tries that hold the same for all byte strings are the same trie. */
  lemma SameMapSameTrie(a: Node, b: Node)
    requires Whole(a) && Whole(b) && ByteKeys(NO_STORE, a) && ByteKeys(NO_STORE, b)
    requires forall k :: Held(NO_STORE, a, k) == Held(NO_STORE, b, k)
    ensures a == b
  {
    forall k | FullKey(k)
      ensures WholeFits(a, k) && WholeFits(b, k) && Look(a, k) == Look(b, k)
    {
      FullKeyNotEmpty(k);
      LookOk(a, k);
      LookOk(b, k);
      if IsByteKey(k) {
        var bs :| k == KeybytesToHex(bs);
        assert Held(NO_STORE, a, bs) == Held(NO_STORE, b, bs);
      }
    }
    Unique(a, b);
  }

  ghost predicate IsByteKey(k: bytes) {
    exists b :: k == KeybytesToHex(b)
  }

  /** Loading nodes does not change what a trie holds. */
  lemma SameHeld(db: Store, a: Node, b: Node)
    requires Same(db, a, b) && ByteKeys(db, a)
    ensures Canon(db, b) && ByteKeys(db, b) && forall k :: Held(db, b, k) == Held(db, a, k)
  {
    forall k ensures Held(db, b, k) == Held(db, a, k) {
      KeyFits(db, a, k);
    }
    forall k | FullKey(k) && Fits(db, b, k) && Get(db, b, k).Ok? && Get(db, b, k).value.Some?
      ensures IsByteKey(k)
    {
      assert Get(db, a, k) == Get(db, b, k);
    }
  }

  /** A trie is its root node, and a database to load nodes from. */
  class Trie {
    const db: Store
    var root: Node

    ghost predicate Valid()
      reads this
    {
      ValidStore(db) && Canon(db, root) && ByteKeys(db, root)
    }

    /** What the trie holds for a key, or the node that is missing on the way. */
    ghost function Lookup(key: bytes): Result<Option<bytes>>
      requires Valid()
      reads this
    {
      Held(db, root, key)
    }

    constructor Empty(db: Store)
      requires ValidStore(db)
      ensures Valid() && this.db == db && forall k :: Lookup(k) == Ok(None)
    {
      this.db, root := db, Nil;
    }

    /** A trie over the node of a hash. */
    constructor New(db: Store, hash: bytes)
      requires ValidStore(db) && hash in db && ByteKeys(db, db[hash])
      ensures Valid() && this.db == db && root == db[hash]
    {
      this.db, root := db, db[hash];
    }

    method TryGet(key: bytes) returns (r: Result<Option<bytes>>)
      requires Valid()
      modifies this
      ensures Valid() && r == old(Lookup(key))
      ensures forall k :: Lookup(k) == old(Lookup(k))
    {
      hide *;
      ValidIs();
      var k := keybytesToHex(key);
      KeyFits(db, root, key);
      TryGetIs(db, root, k);
      var f := tryGet(db, root, k);
      FoundIs(db, root, k, f);
      LookupIs(key);
      if f.Missing? {
        return Missing(f.hash);
      }
      HeldAll();
      if f.value.didResolve {
        SameHeld(db, root, f.value.node);
        Become(f.value.node);
      }
      return Ok(f.value.value);
    }

    /** Puts a node in the root's place. */
    method Become(n: Node)
      requires ValidStore(db) && Canon(db, n) && ByteKeys(db, n)
      modifies this
      ensures Valid() && root == n && forall k :: Lookup(k) == Held(db, n, k)
    {
      root := n;
    }

    lemma ValidIs()
      ensures Valid() <==> ValidStore(db) && Canon(db, root) && ByteKeys(db, root)
    {
    }

    lemma HeldAll()
      requires Valid()
      ensures forall k :: Lookup(k) == Held(db, root, k)
    {
    }

    lemma LookupIs(key: bytes)
      requires Valid()
      ensures Fits(db, root, KeybytesToHex(key)) && Lookup(key) == Get(db, root, KeybytesToHex(key))
    {
      KeyFits(db, root, key);
    }

    lemma InsertFails(key: bytes, value: bytes)
      requires Valid() && value != [] && Fits(db, root, KeybytesToHex(key))
      ensures Insert(db, root, KeybytesToHex(key), value).Missing? <==> Get(db, root, KeybytesToHex(key)).Missing?
    {
      var k := KeybytesToHex(key);
      var r, g := Insert(db, root, k, value), Get(db, root, k);
      InsertMissing(db, root, k, value, if r.Missing? then r.hash else if g.Missing? then g.hash else []);
      hide Insert, Get, Canon, Fits;
    }

    lemma DeleteFails(key: bytes)
      requires Valid() && Fits(db, root, KeybytesToHex(key))
      ensures Delete(db, root, KeybytesToHex(key)).Missing? <==>
                Get(db, root, KeybytesToHex(key)).Missing? || exists h :: Strands(db, root, KeybytesToHex(key), h)
    {
      hide *;
      ValidIs();
      var k := KeybytesToHex(key);
      var r, g := Delete(db, root, k), Get(db, root, k);
      if r.Missing? {
        DeleteMissing(db, root, k, r.hash);
      } else if g.Missing? {
        DeleteMissing(db, root, k, g.hash);
      } else if exists h :: Strands(db, root, k, h) {
        var h :| Strands(db, root, k, h);
        DeleteMissing(db, root, k, h);
      }
    }

    /** Sets the value of a key; an empty value deletes the key. If a node is missing nothing changes. */
    method TryUpdate(key: bytes, value: bytes) returns (err: bool)
      requires Valid()
      modifies this
      ensures Valid()
      ensures err ==> root == old(root)
      ensures value != [] ==> (err <==> old(Lookup(key)).Missing?)
      ensures value == [] ==>
                (err <==> old(Lookup(key)).Missing? || exists h :: Strands(db, old(root), KeybytesToHex(key), h))
      ensures !err ==> forall k :: Lookup(k) == if k == key then Ok(if value == [] then None else Some(value)) else old(Lookup(k))
    {
      if |value| != 0 {
        var k := keybytesToHex(key);
        InsertRoot(db, root, key, value);
        InsertFails(key, value);
        LookupIs(key);
        var r := Insert(db, root, k, value);
        hide *;
        if r.Missing? {
          return true;
        }
        Become(r.value.1);
        return false;
      } else {
        err := TryDelete(key);
      }
    }

    /** Removes a key. If a node is missing nothing changes. */
    method TryDelete(key: bytes) returns (err: bool)
      requires Valid()
      modifies this
      ensures Valid()
      ensures err ==> root == old(root)
      ensures err <==> old(Lookup(key)).Missing? || exists h :: Strands(db, old(root), KeybytesToHex(key), h)
      ensures !err ==> forall k :: Lookup(k) == if k == key then Ok(None) else old(Lookup(k))
    {
      var k := keybytesToHex(key);
      DeleteRoot(db, root, key);
      DeleteFails(key);
      LookupIs(key);
      var r := Delete(db, root, k);
      hide *;
      if r.Missing? {
        return true;
      }
      Become(r.value.1);
      return false;
    }
  }
}
