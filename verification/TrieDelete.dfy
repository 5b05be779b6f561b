/** Deletion from a Merkle-Patricia trie, which keeps it in canonical form. */
module TrieDelete {
  import opened Bytes
  import opened TrieNode
  import opened TrieEncoding
  import opened TrieInsert
  import opened Wrappers

  /** A short node on top of what deletion left of its child: two short nodes in a row are merged. */
  function Merge(k: bytes, child: Node): Node {
    if child.Short? then Short(k + child.key, child.child) else Short(k, child)
  }

  /** The index of the only child that is there, -1 if there is none, -2 if there are more. */
  function OnlyChild(cs: seq<Node>, i: nat, pos: int): int
    requires i <= |cs|
    decreases |cs| - i
  {
    if i == |cs| then pos
    else if cs[i].Nil? then OnlyChild(cs, i + 1, pos)
    else if pos == -1 then OnlyChild(cs, i + 1, i)
    else -2
  }

  lemma {:induction false} OnlyChildIs(cs: seq<Node>, i: nat, pos: int)
    requires i <= |cs| && -1 <= pos < i && (pos >= 0 ==> !cs[pos].Nil?)
    requires forall j :: 0 <= j < i && j != pos ==> cs[j].Nil?
    ensures var p := OnlyChild(cs, i, pos);
            && (p >= 0 ==> p < |cs| && !cs[p].Nil? && forall j :: 0 <= j < |cs| && j != p ==> cs[j].Nil?)
            && (p == -1 ==> forall j :: 0 <= j < |cs| ==> cs[j].Nil?)
            && (p < -1 ==> Many(cs))
    decreases |cs| - i
  {
    if i < |cs| {
      if cs[i].Nil? {
        OnlyChildIs(cs, i + 1, pos);
      } else if pos == -1 {
        OnlyChildIs(cs, i + 1, i);
      }
    }
  }

  /** Loads a node if it is only known by its hash. */
  function Resolve(db: Store, n: Node): Result<Node> {
    if n.HashRef? then if n.hash in db then Ok(db[n.hash]) else Missing(n.hash) else Ok(n)
  }

  /** What becomes of a full node after a deletion in a child: with one child left, a short node. */
  function Reduce(db: Store, cs: seq<Node>): Result<(bool, Node)>
    requires |cs| == 17
  {
    var pos := OnlyChild(cs, 0, -1);
    OnlyChildIs(cs, 0, -1);
    if pos < 0 then Ok((true, Full(cs)))
    else if pos == 16 then Ok((true, Short([TERMINATOR], cs[16])))
    else
      var cnode := Resolve(db, cs[pos]);
      if cnode.Missing? then Missing(cnode.hash)
      else if cnode.value.Short? then Ok((true, Short([pos as byte] + cnode.value.key, cnode.value.child)))
      else Ok((true, Short([pos as byte], cs[pos])))
  }

  /** Whether the node changed, and the node without `key`. */
  function Delete(db: Store, n: Node, key: bytes): Result<(bool, Node)>
    requires ValidStore(db) && Fits(db, n, key)
    decreases |key|, Rank(n)
  {
    match n
    case Short(k, c) =>
      var m := PrefixLen(key, k);
      if m < |k| then Ok((false, n))
      else if m == |key| then Ok((true, Nil))
      else
        KeyTail(db, n, key);
        var r := Delete(db, c, key[|k|..]);
        if r.Missing? then r
        else if !r.value.0 then Ok((false, n))
        else Ok((true, Merge(k, r.value.1)))
    case Full(cs) =>
      FullChild(db, n, key);
      var r := Delete(db, cs[key[0]], key[1..]);
      if r.Missing? then r
      else if !r.value.0 then Ok((false, n))
      else Reduce(db, cs[key[0] := r.value.1])
    case Val(_) => Ok((true, Nil))
    case Nil => Ok((false, Nil))
    case HashRef(h) =>
      if h !in db then Missing(h)
      else
        var r := Delete(db, db[h], key);
        if r.Missing? then r
        else if !r.value.0 then Ok((false, db[h]))
        else r
  }

  // ---- case by case ----

  lemma DeleteShort(db: Store, n: Node, key: bytes)
    requires ValidStore(db) && FullKey(key) && Canon(db, n) && n.Short?
    ensures Fits(db, n, key)
    ensures !(n.key <= key) ==> Delete(db, n, key) == Ok((false, n))
    ensures n.key == key ==> Delete(db, n, key) == Ok((true, Nil))
    ensures n.key < key ==> Fits(db, n.child, key[|n.key|..])
    ensures n.key < key ==>
              var r, s := Delete(db, n, key), Delete(db, n.child, key[|n.key|..]);
              if s.Missing? then r == s else r == Ok((s.value.0, if s.value.0 then Merge(n.key, s.value.1) else n))
  {
    FullKeyNotEmpty(key);
    PrefixWhole(key, n.key);
    if n.key <= key {
      assert key[..|n.key|] == n.key;
      KeyTail(db, n, key);
    }
  }

  lemma DeleteFull(db: Store, n: Node, key: bytes)
    requires ValidStore(db) && FullKey(key) && Canon(db, n) && n.Full?
    ensures Fits(db, n, key) && key != [] && key[0] < |n.children| == 17 && Fits(db, n.children[key[0]], key[1..])
    ensures var r, s := Delete(db, n, key), Delete(db, n.children[key[0]], key[1..]);
            if s.Missing? then r == s
            else if !s.value.0 then r == Ok((false, n))
            else r == Reduce(db, n.children[key[0] := s.value.1])
  {
    FullKeyNotEmpty(key);
    FullChild(db, n, key);
  }

  // ---- the form is kept ----

  /** What a deletion may leave of a node: nothing, or a canonical node. */
  ghost predicate Left(db: Store, n: Node, key: bytes, r: Node) {
    && (key == [] ==> r == Nil)
    && (key != [] ==> Canon(db, r) && !r.HashRef? && !r.Val?)
    && (key != [] && FullHere(db, n) ==> r.Short? || r.Full?)
  }

  lemma MergeCanon(db: Store, n: Node, x: Node)
    requires n.Short? && Canon(db, n) && !hasTerm(n.key) && Canon(db, x) && (x.Short? || x.Full?)
    ensures Merge(n.key, x).Short? && Canon(db, Merge(n.key, x))
  {
    if x.Short? {
      var k := n.key + x.key;
      assert k[|k| - 1] == x.key[|x.key| - 1];
      assert Bare(k) == n.key + Bare(x.key);
      assert Bare(n.key) == n.key;
    }
  }

  /** What is left of a full node is canonical. */
  lemma ReduceCanon(db: Store, cs: seq<Node>, i: nat, x: Node)
    requires ValidStore(db) && Canon(db, Full(cs)) && i <= 16
    requires if i == 16 then x.Nil? else Canon(db, x)
    requires Reduce(db, cs[i := x]).Ok?
    ensures var r := Reduce(db, cs[i := x]).value;
            r.0 && Canon(db, r.1) && (r.1.Short? || r.1.Full?)
  {
    var ds := cs[i := x];
    var a, b :| 0 <= a < b < |cs| && !cs[a].Nil? && !cs[b].Nil?;
    assert !ds[if a == i then b else a].Nil?;
    OnlyChildIs(ds, 0, -1);
    var pos := OnlyChild(ds, 0, -1);
    if 0 <= pos < 16 {
      assert Canon(db, ds[pos]);
      ReducedCanon(db, ds[pos], pos as byte);
    } else if pos == 16 {
      assert ds[16] == cs[16];
    }
  }

  lemma ReducedCanon(db: Store, c: Node, pos: byte)
    requires ValidStore(db) && Canon(db, c) && !c.Nil? && !c.Val? && pos < 16 && Resolve(db, c).Ok?
    ensures var d := Resolve(db, c).value;
            if d.Short? then Canon(db, Short([pos] + d.key, d.child)) else Canon(db, Short([pos], c))
  {
    var d := Resolve(db, c).value;
    if d.Short? {
      var k := [pos] + d.key;
      assert k[|k| - 1] == d.key[|d.key| - 1];
      assert Bare(k) == [pos] + Bare(d.key);
    }
  }

  lemma {:induction false} DeleteCanon(db: Store, n: Node, key: bytes)
    requires ValidStore(db) && Fits(db, n, key) && Delete(db, n, key).Ok?
    ensures Left(db, n, key, Delete(db, n, key).value.1)
    decreases |key|, Rank(n)
  {
    if key != [] {
      FitsIs(db, n, key);
      NotValue(db, n, key);
      match n
      case Short(k, c) =>
        DeleteShort(db, n, key);
        if k < key {
          ShortChild(db, n, key);
          DeleteCanon(db, c, key[|k|..]);
          hide Delete, Canon, Merge;
          var s := Delete(db, c, key[|k|..]).value;
          if s.0 {
            MergeCanon(db, n, s.1);
          }
        } else {
          hide Delete;
        }
      case Full(cs) =>
        DeleteFull(db, n, key);
        KeyRest(key);
        DeleteCanon(db, cs[key[0]], key[1..]);
        var s := Delete(db, cs[key[0]], key[1..]).value;
        hide Delete, Canon, Reduce;
        if s.0 {
          ReduceCanon(db, cs, key[0], s.1);
        }
      case Nil =>
      case HashRef(h) =>
        DeleteCanon(db, db[h], key);
        hide Canon;
    }
  }

  // ---- the map ----

  lemma GetNone(db: Store, key: bytes)
    requires ValidStore(db) && Fits(db, Nil, key)
    ensures Get(db, Nil, key) == Ok(None)
  {
  }

  /** Merged short nodes hold what they held one above the other. */
  lemma GetMerge(db: Store, k: bytes, x: Node, key: bytes)
    requires ValidStore(db) && FullKey(key) && k != [] && (x.Short? || x.Full?) && Canon(db, x)
    requires Canon(db, Merge(k, x))
    ensures Fits(db, Merge(k, x), key)
    ensures k <= key && Fits(db, x, key[|k|..]) ==> Get(db, Merge(k, x), key) == Get(db, x, key[|k|..])
    ensures !(k <= key) ==> Get(db, Merge(k, x), key) == Ok(None)
  {
    FullKeyNotEmpty(key);
    FitsIs(db, Merge(k, x), key);
    hide Canon, Fits, Get, FullKey;
    GetShort(db, Merge(k, x), key);
    if x.Short? {
      if k <= key {
        PrefixSplit(k + x.key, key, |k|);
        assert (k + x.key)[|k|..] == x.key;
        if Fits(db, x, key[|k|..]) {
          LeftOfKey(db, x, key[|k|..]);
          GetShort(db, x, key[|k|..]);
        }
      } else {
        LongerPrefix(k, x.key, key);
      }
    }
  }

  lemma LeftOfKey(db: Store, x: Node, key: bytes)
    requires Fits(db, x, key) && x.Short?
    ensures FullKey(key)
  {
  }

  lemma LongerPrefix(k: bytes, x: bytes, key: bytes)
    ensures k + x <= key ==> k <= key
  {
    if k + x <= key {
      assert key[..|k|] == (k + x)[..|k|] == k;
    }
  }

  /** Loading a node does not change what it holds. */
  lemma GetResolved(db: Store, n: Node, key: bytes)
    requires ValidStore(db) && FullKey(key) && Canon(db, n) && Resolve(db, n).Ok?
    ensures Fits(db, n, key) && Fits(db, Resolve(db, n).value, key)
    ensures Get(db, n, key) == Get(db, Resolve(db, n).value, key)
  {
    FullKeyNotEmpty(key);
  }

  /** Reducing a full node does not change what it holds. */
  lemma GetReduce(db: Store, cs: seq<Node>, i: nat, x: Node, key: bytes)
    requires ValidStore(db) && Canon(db, Full(cs)) && i <= 16 && (if i == 16 then x.Nil? else Canon(db, x)) && FullKey(key)
    requires Reduce(db, cs[i := x]).Ok?
    ensures key != [] && key[0] < 17 && Fits(db, cs[i := x][key[0]], key[1..])
    ensures var r := Reduce(db, cs[i := x]).value.1;
            Fits(db, r, key) && Get(db, r, key) == Get(db, cs[i := x][key[0]], key[1..])
  {
    var ds := cs[i := x];
    var r := Reduce(db, ds).value.1;
    FullKeyNotEmpty(key);
    KeyRest(key);
    ReduceCanon(db, cs, i, x);
    OnlyChildIs(ds, 0, -1);
    var pos := OnlyChild(ds, 0, -1);
    ChildFits(db, ds, key);
    if pos < 0 {
      hide Canon, Fits, OnlyChild;
      GetFull(db, r, key);
    } else {
      var d := ds[key[0]];
      if key[0] == pos {
        GetReduced(db, ds, key, pos);
      } else {
        GetNone(db, key[1..]);
        hide Canon, Fits, OnlyChild, Get;
        GetShort(db, r, key);
        assert r.key[0] == pos;
      }
    }
  }

  lemma ChildFits(db: Store, ds: seq<Node>, key: bytes)
    requires |ds| == 17 && FullKey(key) && forall i :: 0 <= i < 16 ==> Canon(db, ds[i])
    requires ds[16].Nil? || (ds[16].Val? && ds[16].val != [])
    ensures key != [] && key[0] <= 16 && Fits(db, ds[key[0]], key[1..])
  {
    KeyRest(key);
  }

  /** The short node that takes a full node's place, at the key of the child that is left. */
  lemma GetReduced(db: Store, ds: seq<Node>, key: bytes, pos: nat)
    requires ValidStore(db) && |ds| == 17 && FullKey(key) && key != [] && key[0] == pos <= 16 && OnlyChild(ds, 0, -1) == pos
    requires Reduce(db, ds).Ok? && Canon(db, Reduce(db, ds).value.1) && Fits(db, ds[pos], key[1..])
    ensures Fits(db, Reduce(db, ds).value.1, key) && Get(db, Reduce(db, ds).value.1, key) == Get(db, ds[pos], key[1..])
  {
    var r := Reduce(db, ds).value.1;
    KeyRest(key);
    assert r.Short? && r.key[0] == pos;
    GetShort(db, r, key);
    assert key == [key[0]] + key[1..];
    if pos < 16 {
      GetResolved(db, ds[pos], key[1..]);
      var d := Resolve(db, ds[pos]).value;
      if d.Short? {
        assert r.key[1..] == d.key;
        PrefixSplit(r.key, key, 1);
        hide *;
        GetShort(db, d, key[1..]);
      }
    }
  }

  /** After a deletion the key has no value, and every other key what it had. */
  lemma {:induction false} GetDelete(db: Store, n: Node, key: bytes, k': bytes)
    requires ValidStore(db) && Fits(db, n, key) && Fits(db, n, k') && (key == [] <==> k' == []) && Delete(db, n, key).Ok?
    ensures var r := Delete(db, n, key).value;
            && Fits(db, r.1, k') && Get(db, r.1, k') == (if k' == key then Ok(None) else Get(db, n, k'))
            && (!r.0 ==> Get(db, n, key) == Ok(None))
    decreases |key|, Rank(n), 1
  {
    if key != [] {
      FitsIs(db, n, key);
      FitsIs(db, n, k');
      NotValue(db, n, key);
      match n
      case Short(k, c) =>
        GetDeleteShort(db, n, key, k');
      case Full(cs) =>
        GetDeleteFull(db, n, key, k');
      case Nil =>
      case HashRef(h) =>
        GetDelete(db, db[h], key, k');
        if k' != key {
          GetDelete(db, db[h], key, key);
        }
        hide Canon;
    }
  }

  lemma {:induction false} GetDeleteShort(db: Store, n: Node, key: bytes, k': bytes)
    requires ValidStore(db) && FullKey(key) && FullKey(k') && Canon(db, n) && n.Short? && Fits(db, n, key) && Delete(db, n, key).Ok?
    ensures Fits(db, n, k')
    ensures var r := Delete(db, n, key).value;
            && Fits(db, r.1, k') && Get(db, r.1, k') == (if k' == key then Ok(None) else Get(db, n, k'))
            && (!r.0 ==> Get(db, n, key) == Ok(None))
    decreases |key|, 0, 0
  {
    FullKeyNotEmpty(key);
    FullKeyNotEmpty(k');
    DeleteCanon(db, n, key);
    DeleteShort(db, n, key);
    LeftIs(db, n, key, Delete(db, n, key).value.1);
    ShortKey(db, n);
    hide *;
    var k, r := n.key, Delete(db, n, key).value;
    FitsIs(db, n, k');
    FitsIs(db, r.1, k');
    GetShort(db, n, k');
    GetShort(db, n, key);
    if k == key {
      if k <= k' {
        FullKeysBranch(key, k', |key|);
        SamePrefix(key, k');
      }
      GetNone(db, k');
    } else if k < key {
      ShortChild(db, n, key);
      var s := Delete(db, n.child, key[|k|..]).value;
      GetDelete(db, n.child, key[|k|..], key[|k|..]);
      if s.0 {
        DeleteCanon(db, n.child, key[|k|..]);
        LeftIs(db, n.child, key[|k|..], s.1);
        GetMerge(db, k, s.1, k');
        if k <= k' {
          PrefixSplit(key, k', |k|);
          KeysEnd(db, n, key[|k|..], k'[|k|..]);
          GetDelete(db, n.child, key[|k|..], k'[|k|..]);
        }
      }
    }
  }

  lemma SamePrefix(a: bytes, b: bytes)
    requires a <= b && |a| == |b|
    ensures a == b
  {
  }

  lemma ShortKey(db: Store, n: Node)
    requires n.Short? && Canon(db, n)
    ensures n.key != []
  {
  }

  lemma LeftIs(db: Store, n: Node, key: bytes, r: Node)
    requires Left(db, n, key, r)
    ensures key == [] ==> r == Nil
    ensures key != [] ==> Canon(db, r) && !r.HashRef? && !r.Val?
    ensures key != [] && FullHere(db, n) ==> r.Short? || r.Full?
  {
  }

  lemma {:induction false} GetDeleteFull(db: Store, n: Node, key: bytes, k': bytes)
    requires ValidStore(db) && FullKey(key) && FullKey(k') && Canon(db, n) && n.Full? && Fits(db, n, key) && Delete(db, n, key).Ok?
    ensures Fits(db, n, k')
    ensures var r := Delete(db, n, key).value;
            && Fits(db, r.1, k') && Get(db, r.1, k') == (if k' == key then Ok(None) else Get(db, n, k'))
            && (!r.0 ==> Get(db, n, key) == Ok(None))
    decreases |key|, 0, 0
  {
    FullKeyNotEmpty(key);
    FullKeyNotEmpty(k');
    KeyRest(key);
    KeyRest(k');
    hide *;
    FitsIs(db, n, k');
    DeleteFull(db, n, key);
    GetFull(db, n, k');
    GetFull(db, n, key);
    var s := Delete(db, n.children[key[0]], key[1..]).value;
    GetDelete(db, n.children[key[0]], key[1..], key[1..]);
    if s.0 {
      DeleteCanon(db, n.children[key[0]], key[1..]);
      LeftIs(db, n.children[key[0]], key[1..], s.1);
      GetReduce(db, n.children, key[0], s.1, k');
      if k'[0] == key[0] {
        HeadTail(key, k');
        GetDelete(db, n.children[key[0]], key[1..], k'[1..]);
      }
    }
  }
}
