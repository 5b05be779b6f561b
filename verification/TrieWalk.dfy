/** The nodes of a trie in the order of their paths, each before the ones below it. */
module TrieWalk {
  import opened Bytes
  import opened TrieNode
  import opened TrieEncoding
  import opened TrieInsert
  import opened Wrappers

  // ---- the order of paths ----

  /** Byte strings as a dictionary orders them: a prefix comes before what it begins. */
  predicate Less(a: bytes, b: bytes) {
    var n := PrefixLen(a, b);
    n < |b| && (n == |a| || a[n] < b[n])
  }

  /** `a` is less than `b` by the place where they come apart. */
  lemma LessBy(a: bytes, b: bytes, n: nat)
    requires n <= |a| && n < |b| && a[..n] == b[..n] && (n == |a| || a[n] < b[n])
    ensures Less(a, b)
  {
    PrefixIs(a, b, n);
  }

  lemma LessTrans(a: bytes, b: bytes, c: bytes)
    requires Less(a, b) && Less(b, c)
    ensures Less(a, c)
  {
    var m, n := PrefixLen(a, b), PrefixLen(b, c);
    var k := if m < n then m else n;
    assert a[..k] == a[..m][..k] && b[..m][..k] == b[..k] == b[..n][..k] && c[..k] == c[..n][..k];
    if m < n {
      assert b[m] == b[..n][m] == c[..n][m] == c[m];
    } else if n < m {
      assert a[n] == a[..m][n] == b[..m][n] == b[n];
    }
    LessBy(a, c, k);
  }

  /** A common prefix that is all of one string. */
  lemma PrefixAll(a: bytes, b: bytes, n: nat)
    requires n <= |a| && n <= |b| && a[..n] == b[..n]
    ensures n == |a| ==> a <= b && (n == |b| ==> a == b)
  {
    if n == |a| {
      assert a == a[..n];
      assert n == |b| ==> b == b[..n];
    }
  }

  /** Of two different paths one is less. */
  lemma LessTotal(a: bytes, b: bytes)
    requires a != b
    ensures Less(a, b) <==> !Less(b, a)
  {
    var n := PrefixLen(a, b);
    PrefixIs(b, a, n);
    PrefixAll(a, b, n);
    PrefixAll(b, a, n);
  }

  /** What begins with a path that is less than a key, and is no prefix of it, is less too. */
  lemma LessUnder(p: bytes, x: bytes, key: bytes)
    requires Less(p, key) && !(p <= key) && p <= x
    ensures Less(x, key)
  {
    var n := PrefixLen(p, key);
    PrefixAll(p, key, n);
    assert x[n] == x[..|p|][n] == p[n];
    assert x[..n] == x[..|p|][..n] == p[..n];
    LessBy(x, key, n);
  }

  // ---- the walk ----

  datatype Visit = Visit(path: bytes, node: Node)

  /** A node and what is below it. */
  ghost function Walk(t: Node, path: bytes): (r: seq<Visit>)
    ensures r != [] && r[0] == Visit(path, t)
    decreases t, 1, 0
  {
    [Visit(path, t)] + Below(t, path, -1)
  }

  /** What is below a node in the children past `index`. */
  ghost function Below(t: Node, path: bytes, index: int): seq<Visit>
    requires -1 <= index
    decreases t, 0, 0
  {
    match t
    case Short(k, c) => if index < 0 then Walk(c, path + k) else []
    case Full(cs) => Children(cs, path, index + 1)
    case _ => []
  }

  ghost function Children(cs: seq<Node>, path: bytes, i: nat): seq<Visit>
    decreases cs, 0, |cs| - i
  {
    if i >= |cs| || i > 16 then []
    else (if cs[i].Nil? then [] else Walk(cs[i], path + [i as byte])) + Children(cs, path, i + 1)
  }

  /** In increasing order of paths. */
  ghost predicate Ordered(vs: seq<Visit>) {
    forall i, j :: 0 <= i < j < |vs| ==> Less(vs[i].path, vs[j].path)
  }

  /** Every path begins with `path`. */
  ghost predicate Under(vs: seq<Visit>, path: bytes) {
    forall v :: v in vs ==> path <= v.path
  }

  /** Every path goes on from `path` by a nibble of `i` or more. */
  ghost predicate From(vs: seq<Visit>, path: bytes, i: nat) {
    forall v :: v in vs ==> path <= v.path && |path| < |v.path| && v.path[|path|] >= i
  }

  lemma OrderedJoin(a: seq<Visit>, b: seq<Visit>)
    requires Ordered(a) && Ordered(b)
    requires forall v, w :: v in a && w in b ==> Less(v.path, w.path)
    ensures Ordered(a + b)
  {
    var vs := a + b;
    forall i, j | 0 <= i < j < |vs|
      ensures Less(vs[i].path, vs[j].path)
    {
      if i < |a| <= j {
        assert a[i] in a && b[j - |a|] in b;
      }
    }
  }

  lemma OrderedTail(vs: seq<Visit>, k: nat)
    requires Ordered(vs) && k <= |vs|
    ensures Ordered(vs[k..])
  {
  }

  lemma LonelyOrdered(v: Visit)
    ensures Ordered([v])
  {
  }

  /** One child's visits come before those of later children. */
  lemma ChildBefore(a: seq<Visit>, b: seq<Visit>, path: bytes, i: byte)
    requires Under(a, path + [i]) && From(b, path, i + 1)
    ensures forall v, w :: v in a && w in b ==> Less(v.path, w.path)
    ensures From(a, path, i)
  {
    forall v | v in a
      ensures path <= v.path && |path| < |v.path| && v.path[|path|] == i
    {
      assert v.path[..|path| + 1] == path + [i];
      assert v.path[..|path|] == v.path[..|path| + 1][..|path|] == path;
      assert v.path[|path|] == v.path[..|path| + 1][|path|];
    }
    forall v, w | v in a && w in b
      ensures Less(v.path, w.path)
    {
      LessBy(v.path, w.path, |path|);
    }
  }

  /** A node comes before what is below it. */
  lemma TopBefore(path: bytes, t: Node, a: seq<Visit>, x: bytes)
    requires x != [] && Under(a, path + x)
    ensures forall w :: w in a ==> Less(path, w.path)
    ensures Under(a, path)
  {
    forall w | w in a
      ensures Less(path, w.path) && path <= w.path
    {
      assert w.path[..|path|] == w.path[..|path + x|][..|path|] == path;
      LessBy(path, w.path, |path|);
    }
  }

  /** A walk goes by increasing paths. */
  lemma {:induction false} WalkOrdered(db: Store, t: Node, path: bytes)
    requires Canon(db, t) || t.Val?
    ensures Ordered(Walk(t, path)) && Under(Walk(t, path), path)
    decreases t, 1, 0
  {
    var below := Below(t, path, -1);
    LonelyOrdered(Visit(path, t));
    match t {
      case Short(k, c) =>
        WalkOrdered(db, c, path + k);
        TopBefore(path, t, below, k);
        OrderedJoin([Visit(path, t)], below);
      case Full(cs) =>
        ChildrenOrdered(db, t, path, 0);
        forall w | w in below
          ensures Less(path, w.path)
        {
          LessBy(path, w.path, |path|);
        }
        OrderedJoin([Visit(path, t)], below);
      case _ =>
    }
  }

  lemma {:induction false} ChildrenOrdered(db: Store, t: Node, path: bytes, i: nat)
    requires Canon(db, t) && t.Full?
    ensures Ordered(Children(t.children, path, i)) && From(Children(t.children, path, i), path, i)
    decreases t, 0, |t.children| - i
  {
    var cs := t.children;
    if i <= 16 {
      ChildrenOrdered(db, t, path, i + 1);
      var rest := Children(cs, path, i + 1);
      if cs[i].Nil? {
        assert Children(cs, path, i) == rest;
      } else {
        var first := Walk(cs[i], path + [i as byte]);
        WalkOrdered(db, cs[i], path + [i as byte]);
        ChildBefore(first, rest, path, i as byte);
        OrderedJoin(first, rest);
      }
    }
  }

  lemma BelowOrdered(db: Store, t: Node, path: bytes, index: int)
    requires Canon(db, t) && -1 <= index
    ensures Under(Below(t, path, index), path)
    ensures t.Full? ==> From(Below(t, path, index), path, index + 1)
  {
    match t
    case Short(k, c) =>
      if index < 0 {
        WalkOrdered(db, c, path + k);
        TopBefore(path, t, Below(t, path, index), k);
      }
    case Full(cs) => ChildrenOrdered(db, t, path, index + 1);
    case _ =>
  }

  // ---- what a partly loaded trie stands for ----

  /** `t` is `n` with all nodes loaded that the database has. There is one unless references go round in a circle. */
  ghost predicate Denotes(db: Store, n: Node, t: Node)
    decreases t, Rank(n)
  {
    match n
    case HashRef(h) => if h in db then !db[h].HashRef? && Denotes(db, db[h], t) else t == n
    case Short(k, c) => t.Short? && t.key == k && Denotes(db, c, t.child)
    case Full(cs) => t.Full? && |t.children| == |cs| && forall i :: 0 <= i < |cs| ==> Denotes(db, cs[i], t.children[i])
    case _ => t == n
  }

  /** The references in a node lead to nodes of a rank below `top`. */
  ghost predicate RefsBelow(n: Node, rank: bytes -> nat, top: nat) {
    match n
    case HashRef(h) => rank(h) < top
    case Short(_, c) => RefsBelow(c, rank, top)
    case Full(cs) => forall i :: 0 <= i < |cs| ==> RefsBelow(cs[i], rank, top)
    case _ => true
  }

  ghost predicate NoCircle(db: Store, rank: bytes -> nat) {
    forall h :: h in db ==> RefsBelow(db[h], rank, rank(h))
  }

  /** Content addressing leaves no circles, and then the nodes can all be loaded. */
  lemma {:induction false} Loadable(db: Store, n: Node, rank: bytes -> nat, top: nat) returns (t: Node)
    requires ValidStore(db) && NoCircle(db, rank) && RefsBelow(n, rank, top)
    ensures Denotes(db, n, t)
    decreases top, n, 1, 0
  {
    match n
    case HashRef(h) =>
      if h in db {
        t := Loadable(db, db[h], rank, rank(h));
      } else {
        t := n;
      }
    case Short(k, c) =>
      var u := Loadable(db, c, rank, top);
      t := Short(k, u);
    case Full(cs) =>
      var ts := LoadableAll(db, n, rank, top, |cs|);
      t := Full(ts);
    case _ => t := n;
  }

  lemma {:induction false} LoadableAll(db: Store, n: Node, rank: bytes -> nat, top: nat, k: nat) returns (ts: seq<Node>)
    requires ValidStore(db) && NoCircle(db, rank) && RefsBelow(n, rank, top) && n.Full? && k <= |n.children|
    ensures |ts| == k && forall i :: 0 <= i < k ==> Denotes(db, n.children[i], ts[i])
    decreases top, n, 0, k
  {
    if k == 0 {
      ts := [];
    } else {
      ts := LoadableAll(db, n, rank, top, k - 1);
      var u := Loadable(db, n.children[k - 1], rank, top);
      ts := ts + [u];
    }
  }

  /** There is only one such trie. */
  lemma {:induction false} DenotesOne(db: Store, n: Node, t: Node, u: Node)
    requires Denotes(db, n, t) && Denotes(db, n, u)
    ensures t == u
    decreases t, Rank(n)
  {
    match n
    case HashRef(h) =>
      if h in db {
        DenotesOne(db, db[h], t, u);
      }
    case Short(k, c) => DenotesOne(db, c, t.child, u.child);
    case Full(cs) =>
      forall i | 0 <= i < |cs|
        ensures t.children[i] == u.children[i]
      {
        DenotesOne(db, cs[i], t.children[i], u.children[i]);
      }
    case _ =>
  }

  /** What is needed of the tree a reference stands for. */
  lemma DenotesKind(db: Store, n: Node, t: Node)
    requires ValidStore(db) && Denotes(db, n, t)
    ensures t.Nil? <==> n.Nil?
    ensures t.Val? <==> n.Val?
    ensures t.HashRef? ==> n == t && t.hash !in db
    ensures n.Full? ==> t.Full?
  {
  }

  /** The loaded trie is canonical too. */
  lemma {:induction false} DenotesCanon(db: Store, n: Node, t: Node)
    requires ValidStore(db) && Canon(db, n) && Denotes(db, n, t)
    ensures Canon(db, t) && (FullHere(db, n) ==> FullHere(db, t))
    decreases t, Rank(n)
  {
    match n
    case HashRef(h) =>
      if h in db {
        DenotesCanon(db, db[h], t);
      }
    case Short(k, c) =>
      DenotesKind(db, c, t.child);
      if !hasTerm(k) {
        DenotesCanon(db, c, t.child);
      }
    case Full(cs) =>
      forall i | 0 <= i < |cs|
        ensures (cs[i].Nil? <==> t.children[i].Nil?) && (i < 16 ==> Canon(db, t.children[i]))
      {
        DenotesKind(db, cs[i], t.children[i]);
        if i < 16 {
          DenotesCanon(db, cs[i], t.children[i]);
        }
      }
      ManyToo(cs, t.children);
    case _ =>
  }

  lemma ManyToo(cs: seq<Node>, ds: seq<Node>)
    requires Many(cs) && |ds| == |cs| && forall i :: 0 <= i < |cs| ==> (cs[i].Nil? <==> ds[i].Nil?)
    ensures Many(ds)
  {
    var i, j :| 0 <= i < j < |cs| && !cs[i].Nil? && !cs[j].Nil?;
    assert !ds[i].Nil? && !ds[j].Nil?;
  }

  // ---- the values a walk meets are the content ----

  lemma UnderBy(vs: seq<Visit>, path: bytes, i: byte, v: Visit)
    requires Under(vs, path + [i])
    ensures v in vs ==> |path| < |v.path| && v.path[|path|] == i
  {
    if v in vs {
      assert v.path[|path|] == v.path[..|path| + 1][|path|];
    }
  }

  lemma UnderKey(vs: seq<Visit>, path: bytes, key: bytes, k: bytes, v: Visit)
    requires Under(vs, path + key) && v.path == path + k
    ensures v in vs ==> key <= k
  {
    if v in vs {
      assert k[..|key|] == (path + k)[..|path + key|][|path|..] == key;
    }
  }

  /** A path below the `j`-th child is met there or nowhere. */
  lemma {:induction false} ChildrenHas(db: Store, t: Node, path: bytes, i: nat, v: Visit)
    requires Canon(db, t) && t.Full? && path <= v.path && |path| < |v.path| && v.path[|path|] <= 16
    ensures var j := v.path[|path|]; var c := t.children[j];
            v in Children(t.children, path, i) <==> i <= j && !c.Nil? && v in Walk(c, path + [j])
    decreases |t.children| - i
  {
    var j, cs := v.path[|path|], t.children;
    if i <= 16 {
      ChildrenHas(db, t, path, i + 1, v);
      if !cs[i].Nil? && i != j {
        WalkOrdered(db, cs[i], path + [i as byte]);
        UnderBy(Walk(cs[i], path + [i as byte]), path, i as byte, v);
      }
    }
  }

  /** Looking a path up through a short node. */
  lemma HasShort(db: Store, n: Node, t: Node, path: bytes, k: bytes, x: bytes)
    requires ValidStore(db) && FullKey(k) && Canon(db, n) && n.Short? && Denotes(db, n, t)
    ensures t.Short? && t.key == n.key && Denotes(db, n.child, t.child) && n.key != []
    ensures n.key <= k ==>
              && Fits(db, n.child, k[|n.key|..]) && Get(db, n, k) == Get(db, n.child, k[|n.key|..])
              && (Visit(path + k, Val(x)) in Walk(t, path)
                  <==> Visit((path + n.key) + k[|n.key|..], Val(x)) in Walk(t.child, path + n.key))
    ensures !(n.key <= k) ==> Get(db, n, k) == Ok(None) && Visit(path + k, Val(x)) !in Walk(t, path)
  {
    GetShort(db, n, k);
    DenotesCanon(db, n, t);
    hide Canon, Fits, Get;
    if n.key <= k {
      assert path + k == (path + n.key) + k[|n.key|..];
    } else {
      ShortChildCanon(db, t);
      WalkOrdered(db, t.child, path + n.key);
      UnderKey(Walk(t.child, path + n.key), path, n.key, k, Visit(path + k, Val(x)));
    }
  }

  lemma ShortChildCanon(db: Store, t: Node)
    requires Canon(db, t) && t.Short?
    ensures Canon(db, t.child) || t.child.Val?
  {
  }

  lemma WalkFull(t: Node, path: bytes)
    requires t.Full?
    ensures Walk(t, path) == [Visit(path, t)] + Children(t.children, path, 0)
  {
  }

  lemma DenotesFull(db: Store, n: Node, t: Node, j: nat)
    requires ValidStore(db) && n.Full? && Denotes(db, n, t) && j < |n.children|
    ensures t.Full? && |t.children| == |n.children| && Denotes(db, n.children[j], t.children[j])
    ensures n.children[j].Nil? <==> t.children[j].Nil?
  {
    DenotesKind(db, n.children[j], t.children[j]);
  }

  /** Looking a path up through a full node. */
  lemma HasFull(db: Store, n: Node, t: Node, path: bytes, k: bytes, x: bytes)
    requires ValidStore(db) && FullKey(k) && Canon(db, n) && n.Full? && Denotes(db, n, t)
    ensures k != [] && k[0] < |n.children| && t.Full? && |t.children| == |n.children|
    ensures var c, d := n.children[k[0]], t.children[k[0]];
            && Denotes(db, c, d) && Fits(db, c, k[1..]) && Get(db, n, k) == Get(db, c, k[1..])
            && (Visit(path + k, Val(x)) in Walk(t, path) <==> !c.Nil? && Visit((path + [k[0]]) + k[1..], Val(x)) in Walk(d, path + [k[0]]))
  {
    hide *;
    GetFull(db, n, k);
    KeyRest(k);
    DenotesCanon(db, n, t);
    DenotesFull(db, n, t, k[0]);
    var v := Visit(path + k, Val(x));
    assert path + k == (path + [k[0]]) + k[1..];
    assert v.path[|path|] == k[0];
    ChildrenHas(db, t, path, 0, v);
    WalkFull(t, path);
  }

  lemma GetNil(db: Store, k: bytes)
    requires ValidStore(db) && Fits(db, Nil, k)
    ensures Get(db, Nil, k) == Ok(None)
  {
  }

  lemma GetHash(db: Store, n: Node, k: bytes)
    requires ValidStore(db) && Fits(db, n, k) && n.HashRef?
    ensures n.hash in db ==> Fits(db, db[n.hash], k) && Get(db, n, k) == Get(db, db[n.hash], k)
    ensures n.hash !in db ==> Get(db, n, k) == Missing(n.hash)
  {
  }

  lemma GetVal(db: Store, n: Node, k: bytes)
    requires ValidStore(db) && Fits(db, n, k) && n.Val?
    ensures k == [] && Get(db, n, k) == Ok(Some(n.val))
  {
  }

  /** The walk of a trie meets a value at a key's path if, and only if, that is the key's value. */
  lemma {:induction false} WalkHas(db: Store, n: Node, t: Node, path: bytes, k: bytes, x: bytes)
    requires ValidStore(db) && Fits(db, n, k) && Denotes(db, n, t)
    ensures Visit(path + k, Val(x)) in Walk(t, path) <==> Get(db, n, k) == Ok(Some(x))
    decreases |k|, Rank(n)
  {
    FitsIs(db, n, k);
    match n
    case HashRef(h) =>
      GetHash(db, n, k);
      hide Get, Fits, Canon;
      if h in db {
        WalkHas(db, db[h], t, path, k, x);
      }
    case Short(key, c) =>
      FullKeyNotEmpty(k);
      HasShort(db, n, t, path, k, x);
      hide *;
      if key <= k {
        WalkHas(db, c, t.child, path + key, k[|key|..], x);
      }
    case Full(cs) =>
      HasFull(db, n, t, path, k, x);
      hide *;
      WalkHas(db, cs[k[0]], t.children[k[0]], path + [k[0]], k[1..], x);
      if cs[k[0]].Nil? {
        GetNil(db, k[1..]);
      }
    case Nil =>
      GetNil(db, k);
    case Val(y) =>
      GetVal(db, n, k);
      hide Get, Fits, Canon;
      assert path + k == path;
  }

  // ---- paths that are keys ----

  /** The path of a value is a full key, and only that of a value ends in the terminator. */
  predicate Proper(v: Visit) {
    Hex(v.path) && (hasTerm(v.path) <==> v.node.Val?) && (v.node.Val? ==> FullKey(v.path))
  }

  ghost predicate AllProper(vs: seq<Visit>) {
    forall v :: v in vs ==> Proper(v)
  }

  /** The place of a node: nibbles so far, and a terminator if it is a value. */
  ghost predicate Placed(db: Store, t: Node, path: bytes) {
    if t.Val? then FullKey(path) else Nibbles(path) && Canon(db, t)
  }

  lemma PlacedProper(db: Store, t: Node, path: bytes)
    requires Placed(db, t, path)
    ensures Proper(Visit(path, t))
  {
    assert |path| > 0 ==> path[|path| - 1] == path[|path| - 1];
  }

  lemma PlacedShort(db: Store, t: Node, path: bytes)
    requires Placed(db, t, path) && t.Short?
    ensures Placed(db, t.child, path + t.key)
  {
    var k := t.key;
    if hasTerm(k) {
      assert t.child.Val?;
      assert (path + k)[..|path + k| - 1] == path + Bare(k);
      assert hasTerm(path + k) by {
        assert (path + k)[|path + k| - 1] == k[|k| - 1];
      }
      assert Nibbles(path + Bare(k));
    } else {
      assert Bare(k) == k && !t.child.Val?;
    }
  }

  lemma PlacedFull(db: Store, t: Node, path: bytes, i: nat)
    requires Placed(db, t, path) && t.Full? && i < |t.children| && !t.children[i].Nil?
    ensures i <= 16 && Placed(db, t.children[i], path + [i as byte])
  {
    assert |t.children| == 17 && Nibbles(path);
    var p: bytes := path + [i as byte];
    assert p[..|p| - 1] == path && p[|p| - 1] == i;
    if i == 16 {
      assert t.children[16].Val? && FullKey(p);
    } else {
      assert Canon(db, t.children[i]) && !t.children[i].Val? && Nibbles(p);
    }
  }

  lemma {:induction false} WalkProper(db: Store, t: Node, path: bytes)
    requires Placed(db, t, path)
    ensures AllProper(Walk(t, path))
    decreases t, 1, 0
  {
    PlacedProper(db, t, path);
    match t
    case Short(k, c) =>
      PlacedShort(db, t, path);
      WalkProper(db, c, path + k);
    case Full(cs) =>
      ChildrenProper(db, t, path, 0);
    case _ =>
  }

  lemma {:induction false} ChildrenProper(db: Store, t: Node, path: bytes, i: nat)
    requires Placed(db, t, path) && t.Full?
    ensures AllProper(Children(t.children, path, i))
    decreases t, 0, |t.children| - i
  {
    if i < |t.children| && i <= 16 {
      ChildrenProper(db, t, path, i + 1);
      if !t.children[i].Nil? {
        PlacedFull(db, t, path, i);
        WalkProper(db, t.children[i], path + [i as byte]);
      }
    }
  }
}
