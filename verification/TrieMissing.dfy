/** When a change to a partly loaded trie fails: exactly if a node that it needs is not in the database. */
module TrieMissing {
  import opened Bytes
  import opened TrieNode
  import opened TrieEncoding
  import opened TrieInsert
  import opened TrieDelete
  import opened Wrappers

  // ---- insertion ----

  /** Insertion fails for want of a node exactly if lookup does, and of the same node. */
  lemma {:induction false} InsertMissing(db: Store, n: Node, key: bytes, value: bytes, h: bytes)
    requires ValidStore(db) && Fits(db, n, key) && value != []
    ensures Insert(db, n, key, value) == Missing(h) <==> Get(db, n, key) == Missing(h)
    decreases |key|, Rank(n)
  {
    if key == [] {
      GetInsertHere(db, n, value);
      HereIs(db, n);
    } else {
      FitsIs(db, n, key);
      NotValue(db, n, key);
      hide *;
      match n
      case Short(k, c) =>
        PrefixBound(key, k);
        PrefixWhole(key, k);
        GetShort(db, n, key);
        if PrefixLen(key, k) == |k| {
          InsertAt(db, n, key, value);
          ShortChild(db, n, key);
          InsertMissing(db, c, key[|k|..], value, h);
        } else {
          InsertApart(db, n, key, value);
        }
      case Full(cs) =>
        InsertFull(db, n, key, value);
        GetFull(db, n, key);
        InsertMissing(db, cs[key[0]], key[1..], value, h);
      case Nil =>
        GetInsertNil(db, key, value, key);
        GetNone(db, key);
      case HashRef(g) =>
        InsertRef(db, n, key, value);
        if g in db {
          InsertMissing(db, db[g], key, value, h);
        }
    }
  }

  lemma HereIs(db: Store, n: Node)
    requires ValidStore(db) && Fits(db, n, [])
    ensures Get(db, n, []).Ok?
  {
  }

  lemma InsertRef(db: Store, n: Node, key: bytes, value: bytes)
    requires ValidStore(db) && FullKey(key) && Canon(db, n) && n.HashRef? && value != [] && Fits(db, n, key)
    ensures n.hash !in db ==> Insert(db, n, key, value) == Missing(n.hash) && Get(db, n, key) == Missing(n.hash)
    ensures n.hash in db ==>
              && Rank(db[n.hash]) < Rank(n) && Fits(db, db[n.hash], key) && Get(db, n, key) == Get(db, db[n.hash], key)
              && var r, s := Insert(db, n, key, value), Insert(db, db[n.hash], key, value);
                 if s.Missing? then r == s else r.Ok?
  {
  }

  // ---- deletion ----

  /** The key ends in this node: deleting it leaves nothing. */
  ghost predicate Ends(db: Store, n: Node, key: bytes) {
    match n
    case Val(_) => key == []
    case Short(k, _) => k == key
    case HashRef(h) => h in db && db[h].Short? && db[h].key == key
    case _ => false
  }

  /** Beside child `i` there is only one, which is known by a hash that the database does not have. */
  ghost predicate Alone(db: Store, cs: seq<Node>, i: nat, h: bytes) {
    h !in db && exists j :: 0 <= j < 16 && j < |cs| && j != i && cs[j] == HashRef(h) && forall x :: 0 <= x < |cs| && x != i && x != j ==> cs[x].Nil?
  }

  /** Where the key ends, it has a single sibling, which would have to be merged with its parent and is missing. */
  ghost predicate Strands(db: Store, n: Node, key: bytes, h: bytes)
    requires ValidStore(db)
    decreases |key|, Rank(n)
  {
    match n
    case Short(k, c) => k != [] && k <= key && Strands(db, c, key[|k|..], h)
    case Full(cs) =>
      key != [] && key[0] < |cs| && (Strands(db, cs[key[0]], key[1..], h) || (Ends(db, cs[key[0]], key[1..]) && Alone(db, cs, key[0], h)))
    case HashRef(g) => g in db && Strands(db, db[g], key, h)
    case _ => false
  }

  /** A deletion leaves nothing exactly where the key ends. */
  lemma {:induction false} LeavesNothing(db: Store, n: Node, key: bytes)
    requires ValidStore(db) && Fits(db, n, key) && Delete(db, n, key).Ok?
    ensures var r := Delete(db, n, key).value; r.0 && r.1.Nil? <==> Ends(db, n, key)
    decreases |key|, Rank(n)
  {
    if key != [] {
      FitsIs(db, n, key);
      NotValue(db, n, key);
      match n
      case Short(k, c) =>
        DeleteShort(db, n, key);
        hide Delete, Canon, Fits, Get;
      case Full(cs) =>
        DeleteFull(db, n, key);
        ReduceKind(db, cs[key[0] := Delete(db, cs[key[0]], key[1..]).value.1]);
        hide Delete, Canon, Fits, Reduce;
      case Nil =>
      case HashRef(g) =>
        DeleteRef(db, n, key);
        LeavesNothing(db, db[g], key);
        hide Delete, Canon;
    }
  }

  lemma ReduceKind(db: Store, cs: seq<Node>)
    requires |cs| == 17
    ensures Reduce(db, cs).Ok? ==> Reduce(db, cs).value.0 && (Reduce(db, cs).value.1.Full? || Reduce(db, cs).value.1.Short?)
  {
    hide OnlyChild;
  }

  lemma DeleteRef(db: Store, n: Node, key: bytes)
    requires ValidStore(db) && FullKey(key) && Canon(db, n) && n.HashRef? && Fits(db, n, key)
    ensures n.hash !in db ==> Delete(db, n, key) == Missing(n.hash) && Get(db, n, key) == Missing(n.hash)
    ensures n.hash in db ==>
              && Rank(db[n.hash]) < Rank(n) && Fits(db, db[n.hash], key) && (db[n.hash].Short? || db[n.hash].Full?)
              && Get(db, n, key) == Get(db, db[n.hash], key)
              && var r, s := Delete(db, n, key), Delete(db, db[n.hash], key);
                 if s.Missing? then r == s else r.Ok? && (r.value.0 <==> s.value.0) && (s.value.0 ==> r == s) && (!s.value.0 ==> r.value.1 == db[n.hash])
  {
  }

  /** With one child left, that child is needed, unless it is the value. */
  lemma ReduceMissing(db: Store, cs: seq<Node>, i: nat, x: Node, h: bytes)
    requires ValidStore(db) && Canon(db, Full(cs)) && i <= 16 && !cs[i].Nil?
    requires if i == 16 then x.Nil? else Canon(db, x)
    ensures Reduce(db, cs[i := x]) == Missing(h) <==> x.Nil? && Alone(db, cs, i, h)
  {
    var ds := cs[i := x];
    OnlyChildIs(ds, 0, -1);
    var pos := OnlyChild(ds, 0, -1);
    var a, b :| 0 <= a < b < |cs| && !cs[a].Nil? && !cs[b].Nil?;
    var c := if a == i then b else a;
    assert ds[c] == cs[c] && !ds[c].Nil? && c != i;
    OnlyChildUnique(ds, pos, c);
    if !x.Nil? {
      assert ds[i] == x;
      OnlyChildUnique(ds, pos, i);
    }
    if x.Nil? && Alone(db, cs, i, h) {
      var j :| 0 <= j < 16 && j < |cs| && j != i && cs[j] == HashRef(h) && forall k :: 0 <= k < |cs| && k != i && k != j ==> cs[k].Nil?;
      assert c == j;
      OneUsed(ds, j);
    } else if pos >= 0 {
      assert forall k :: 0 <= k < |cs| && k != i && k != pos ==> ds[k] == cs[k];
      OnlyUsed(ds, pos);
    }
  }

  /** An only child is the one that is in use. */
  lemma OnlyChildUnique(ds: seq<Node>, pos: int, c: nat)
    requires |ds| == 17 && pos == OnlyChild(ds, 0, -1) && c < 17 && !ds[c].Nil?
    ensures pos >= 0 ==> pos == c
    ensures pos != -1
  {
    OnlyChildIs(ds, 0, -1);
  }

  lemma OnlyUsed(ds: seq<Node>, pos: nat)
    requires |ds| == 17 && pos == OnlyChild(ds, 0, -1)
    ensures pos < 17 && forall k :: 0 <= k < 17 && k != pos ==> ds[k].Nil?
  {
    OnlyChildIs(ds, 0, -1);
  }

  lemma OneUsed(ds: seq<Node>, j: nat)
    requires |ds| == 17 && j < 17 && !ds[j].Nil? && forall k :: 0 <= k < 17 && k != j ==> ds[k].Nil?
    ensures OnlyChild(ds, 0, -1) == j
  {
    OnlyChildIs(ds, 0, -1);
  }

  /**
    Deletion fails for want of a node exactly if lookup does, of the same node, or if the only sibling of what is deleted
    is missing.
   */
  lemma {:induction false} DeleteMissing(db: Store, n: Node, key: bytes, h: bytes)
    requires ValidStore(db) && Fits(db, n, key)
    ensures Delete(db, n, key) == Missing(h) <==> Get(db, n, key) == Missing(h) || Strands(db, n, key, h)
    decreases |key|, Rank(n)
  {
    if key == [] {
      HereIs(db, n);
      DeleteHere(db, n, h);
    } else {
      FitsIs(db, n, key);
      NotValue(db, n, key);
      match n
      case Short(k, c) =>
        DeleteShort(db, n, key);
        GetShort(db, n, key);
        ShortStrands(db, n, key, h);
        if k <= key {
          ShortChild(db, n, key);
          if k < key {
            DeleteMissing(db, c, key[|k|..], h);
          }
        }
        hide *;
      case Full(cs) =>
        DeleteFull(db, n, key);
        GetFull(db, n, key);
        KeyRest(key);
        var d := cs[key[0]];
        DeleteMissing(db, d, key[1..], h);
        FullStrands(db, cs, key, h);
        var s := Delete(db, d, key[1..]);
        if s.Ok? && s.value.0 {
          LeavesNothing(db, d, key[1..]);
          DeleteCanon(db, d, key[1..]);
          ChangedUsed(db, d, key[1..]);
          LeftFor(db, d, key[1..], s.value.1);
          ReduceMissing(db, cs, key[0], s.value.1, h);
        } else if s.Ok? {
          LeavesNothing(db, d, key[1..]);
        }
        hide *;
      case Nil =>
        GetNone(db, key);
      case HashRef(g) =>
        DeleteRef(db, n, key);
        if g in db {
          DeleteMissing(db, db[g], key, h);
        }
        hide Delete, Get, Canon, Fits;
    }
  }

  lemma DeleteHere(db: Store, n: Node, h: bytes)
    requires ValidStore(db) && Fits(db, n, [])
    ensures Delete(db, n, []).Ok? && !Strands(db, n, [], h)
  {
  }

  lemma ShortStrands(db: Store, n: Node, key: bytes, h: bytes)
    requires ValidStore(db) && Canon(db, n) && n.Short? && FullKey(key)
    ensures Strands(db, n, key, h) <==> n.key <= key && Strands(db, n.child, key[|n.key|..], h)
    ensures n.key == key ==> !Strands(db, n.child, key[|n.key|..], h) && Get(db, n, key).Ok?
  {
    if n.key == key {
      KeyTail(db, n, key);
      assert key[|n.key|..] == [];
      HereIs(db, n.child);
      GetShort(db, n, key);
      DeleteHere(db, n.child, h);
    }
  }

  lemma FullStrands(db: Store, cs: seq<Node>, key: bytes, h: bytes)
    requires ValidStore(db) && Canon(db, Full(cs)) && FullKey(key) && key != [] && key[0] < |cs|
    ensures Strands(db, Full(cs), key, h) <==>
              Strands(db, cs[key[0]], key[1..], h) || (Ends(db, cs[key[0]], key[1..]) && Alone(db, cs, key[0], h))
  {
  }

  /** A node that changed was there. */
  lemma ChangedUsed(db: Store, n: Node, key: bytes)
    requires ValidStore(db) && Fits(db, n, key) && Delete(db, n, key).Ok? && Delete(db, n, key).value.0
    ensures !n.Nil?
  {
  }

  lemma LeftFor(db: Store, n: Node, key: bytes, r: Node)
    requires Left(db, n, key, r)
    ensures if key == [] then r.Nil? else Canon(db, r)
  {
  }
}
