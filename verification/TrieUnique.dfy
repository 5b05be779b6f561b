/** Tries that hold the same are the same: the shape depends on the content alone, not on how it came about. */
module TrieUnique {
  import opened Bytes
  import opened TrieNode
  import opened TrieEncoding
  import opened TrieInsert
  import opened Wrappers

  /** Nothing is left to be loaded. */
  predicate Loaded(n: Node) {
    match n
    case HashRef(_) => false
    case Short(_, c) => Loaded(c)
    case Full(cs) => forall i :: 0 <= i < |cs| ==> Loaded(cs[i])
    case _ => true
  }

  const NO_STORE: Store := map[]

  /** A canonical trie, all of it loaded. */
  ghost predicate Whole(n: Node) {
    Loaded(n) && Canon(NO_STORE, n)
  }

  ghost predicate WholeFits(n: Node, key: bytes) {
    Loaded(n) && Fits(NO_STORE, n, key)
  }

  /** The value of a key in a loaded trie. */
  ghost function Look(n: Node, key: bytes): Option<bytes>
    requires WholeFits(n, key)
  {
    LookOk(n, key);
    Get(NO_STORE, n, key).value
  }

  lemma {:induction false} LookOk(n: Node, key: bytes)
    requires WholeFits(n, key)
    ensures ValidStore(NO_STORE) && Get(NO_STORE, n, key).Ok?
    decreases |key|
  {
    FitsIs(NO_STORE, n, key);
    if key != [] {
      match n
      case Short(k, c) =>
        GetShort(NO_STORE, n, key);
        if k <= key {
          LookOk(c, key[|k|..]);
        }
      case Full(cs) =>
        GetFull(NO_STORE, n, key);
        LookOk(cs[key[0]], key[1..]);
      case _ =>
    }
  }

  lemma LookShort(n: Node, key: bytes)
    requires Whole(n) && n.Short? && FullKey(key)
    ensures WholeFits(n, key) && n.key != []
    ensures n.key <= key ==> WholeFits(n.child, key[|n.key|..]) && Look(n, key) == Look(n.child, key[|n.key|..])
    ensures !(n.key <= key) ==> Look(n, key) == None
  {
    FullKeyNotEmpty(key);
    FitsIs(NO_STORE, n, key);
    LookOk(n, key);
    GetShort(NO_STORE, n, key);
    if n.key <= key {
      LookOk(n.child, key[|n.key|..]);
    }
  }

  lemma LookFull(n: Node, key: bytes)
    requires Whole(n) && n.Full? && FullKey(key)
    ensures WholeFits(n, key) && key != [] && key[0] < |n.children| == 17
    ensures WholeFits(n.children[key[0]], key[1..]) && Look(n, key) == Look(n.children[key[0]], key[1..])
  {
    FullKeyNotEmpty(key);
    FitsIs(NO_STORE, n, key);
    LookOk(n, key);
    GetFull(NO_STORE, n, key);
    LookOk(n.children[key[0]], key[1..]);
  }

  lemma LookValue(n: Node)
    requires n.Val? && n.val != []
    ensures WholeFits(n, []) && Look(n, []) == Some(n.val)
  {
  }

  /** A key that a canonical trie holds. */
  lemma {:induction false} SomeKey(n: Node) returns (key: bytes)
    requires Whole(n) && !n.Nil? && !n.Val?
    ensures WholeFits(n, key) && FullKey(key) && Look(n, key).Some?
    decreases n, 1
  {
    match n
    case Short(k, c) =>
      if hasTerm(k) {
        key := k;
        assert k[|k|..] == [];
        LookValue(c);
        assert FullKey(k);
      } else {
        var rest := SomeKey(c);
        key := k + rest;
        Joined(k, rest);
        assert key[|k|..] == rest;
      }
      LookShort(n, key);
    case Full(cs) =>
      var i, j :| 0 <= i < j < |cs| && !cs[i].Nil? && !cs[j].Nil?;
      key := KeyIn(n, i);
  }

  lemma Joined(k: bytes, rest: bytes)
    requires Nibbles(k) && FullKey(rest)
    ensures FullKey(k + rest)
  {
    var key := k + rest;
    assert key[..|key| - 1] == k + rest[..|rest| - 1];
  }

  /** A key that a full node holds in its `i`-th child. */
  lemma {:induction false} KeyIn(n: Node, i: nat) returns (key: bytes)
    requires Whole(n) && n.Full? && i < |n.children| && !n.children[i].Nil?
    ensures WholeFits(n, key) && FullKey(key) && Look(n, key).Some? && key[0] == i
    decreases n, 0
  {
    var cs := n.children;
    if i == 16 {
      key := [TERMINATOR];
      assert key[1..] == [];
      LookValue(cs[16]);
    } else {
      assert Whole(cs[i]) && !cs[i].Val?;
      var rest := SomeKey(cs[i]);
      key := [i as byte] + rest;
      Joined([i as byte], rest);
      assert key[1..] == rest;
    }
    LookFull(n, key);
  }

  /** Both hold the same value, or none, for every key. */
  ghost predicate SameContent(a: Node, b: Node) {
    Whole(a) && Whole(b) && forall k {:trigger FullKey(k)} :: FullKey(k) ==> WholeFits(a, k) && WholeFits(b, k) && Look(a, k) == Look(b, k)
  }

  lemma SameAt(a: Node, b: Node, k: bytes)
    requires SameContent(a, b) && FullKey(k)
    ensures WholeFits(a, k) && WholeFits(b, k) && Look(a, k) == Look(b, k)
  {
  }

  lemma SameBack(a: Node, b: Node)
    requires SameContent(a, b)
    ensures SameContent(b, a)
  {
    forall k | FullKey(k)
      ensures WholeFits(b, k) && WholeFits(a, k) && Look(b, k) == Look(a, k)
    {
    }
  }

  /** A short node's key starts every key, and no longer one does. */
  lemma ShorterKey(a: Node, b: Node)
    requires SameContent(a, b) && a.Short? && b.Short?
    ensures b.key <= a.key
  {
    if hasTerm(a.key) {
      var k := SomeKey(a);
      LookShort(a, k);
      SameAt(a, b, k);
      LookShort(b, k);
      FullKeysBranch(a.key, k, |a.key|);
      assert k == a.key;
    } else {
      ChildIsFull(a);
      var cs := a.child.children;
      var i, j :| 0 <= i < j < |cs| && !cs[i].Nil? && !cs[j].Nil?;
      var x := KeyIn(a.child, i);
      var y := KeyIn(a.child, j);
      Behind(a, b, x);
      Behind(a, b, y);
      Shared(b.key, a.key, x, y);
    }
  }

  lemma ChildIsFull(a: Node)
    requires Whole(a) && a.Short? && !hasTerm(a.key)
    ensures a.child.Full? && Whole(a.child) && Many(a.child.children)
  {
    ShortWhole(a);
    hide Canon;
    FullWhole(a.child);
  }

  lemma ShortWhole(a: Node)
    requires Whole(a) && a.Short? && !hasTerm(a.key)
    ensures Whole(a.child) && (a.child.Full? || a.child.HashRef?)
  {
    hide Hex;
  }

  lemma FullWhole(a: Node)
    requires Whole(a) && (a.Full? || a.HashRef?)
    ensures a.Full? && Many(a.children)
  {
    hide Hex;
  }

  lemma Behind(a: Node, b: Node, x: bytes)
    requires SameContent(a, b) && a.Short? && b.Short? && !hasTerm(a.key) && FullKey(x) && WholeFits(a.child, x) && Look(a.child, x).Some?
    ensures b.key <= a.key + x
  {
    var k := a.key + x;
    Joined(a.key, x);
    assert k[|a.key|..] == x;
    LookShort(a, k);
    SameAt(a, b, k);
    LookShort(b, k);
  }

  lemma Shared(p: bytes, k: bytes, x: bytes, y: bytes)
    requires p <= k + x && p <= k + y && x != [] && y != [] && x[0] != y[0]
    ensures p <= k
  {
    assert (k + x)[|k|] == x[0] && (k + y)[|k|] == y[0];
    assert (k + x)[..|k|] == k;
    assert |p| <= |k| ==> p == (k + x)[..|p|];
  }

  /** A full node's keys part at once, a short node's do not. */
  lemma ShortIsNotFull(a: Node, b: Node)
    requires SameContent(a, b)
    ensures !(a.Short? && b.Full?)
  {
    if a.Short? && b.Full? {
      var cs := b.children;
      var i, j :| 0 <= i < j < |cs| && !cs[i].Nil? && !cs[j].Nil?;
      var x := KeyIn(b, i);
      var y := KeyIn(b, j);
      SameAt(a, b, x);
      SameAt(a, b, y);
      LookShort(a, x);
      LookShort(a, y);
    }
  }

  /** Children at the same place hold the same. */
  lemma SameChildren(a: Node, b: Node, i: nat)
    requires SameContent(a, b) && a.Full? && b.Full? && i < 16
    ensures SameContent(a.children[i], b.children[i])
  {
    var c, d := a.children[i], b.children[i];
    assert Whole(c) && Whole(d);
    forall k | FullKey(k)
      ensures WholeFits(c, k) && WholeFits(d, k) && Look(c, k) == Look(d, k)
    {
      var key := [i as byte] + k;
      Joined([i as byte], k);
      assert key[1..] == k;
      LookFull(a, key);
      LookFull(b, key);
      SameAt(a, b, key);
    }
  }

  lemma SameValue(a: Node, b: Node)
    requires SameContent(a, b) && a.Full? && b.Full?
    ensures a.children[16] == b.children[16]
  {
    var key := [TERMINATOR];
    assert FullKey(key) && key[1..] == [];
    LookFull(a, key);
    LookFull(b, key);
    SameAt(a, b, key);
  }

  lemma SameBehind(a: Node, b: Node)
    requires SameContent(a, b) && a.Short? && b.Short? && a.key == b.key
    ensures hasTerm(a.key) ==> a.child == b.child
    ensures !hasTerm(a.key) ==> SameContent(a.child, b.child)
  {
    if hasTerm(a.key) {
      assert FullKey(a.key) && a.key[|a.key|..] == [];
      LookShort(a, a.key);
      LookShort(b, a.key);
      SameAt(a, b, a.key);
    } else {
      assert Whole(a.child) && Whole(b.child);
      forall k | FullKey(k)
        ensures WholeFits(a.child, k) && WholeFits(b.child, k) && Look(a.child, k) == Look(b.child, k)
      {
        var key := a.key + k;
        Joined(a.key, k);
        assert key[|a.key|..] == k;
        LookShort(a, key);
        LookShort(b, key);
        SameAt(a, b, key);
      }
    }
  }

  lemma NilHoldsNothing(a: Node, b: Node)
    requires SameContent(a, b) && a.Nil?
    ensures b.Nil?
  {
    if !b.Nil? {
      var k := SomeKey(b);
      SameAt(a, b, k);
    }
  }

  /** Canonical tries with the same content are equal. */
  lemma {:induction false} Unique(a: Node, b: Node)
    requires SameContent(a, b)
    ensures a == b
    decreases a
  {
    SameBack(a, b);
    if a.Nil? {
      NilHoldsNothing(a, b);
    } else if b.Nil? {
      NilHoldsNothing(b, a);
    } else if a.Short? && b.Short? {
      ShorterKey(a, b);
      ShorterKey(b, a);
      SameBehind(a, b);
      if !hasTerm(a.key) {
        Unique(a.child, b.child);
      }
    } else if a.Short? {
      ShortIsNotFull(a, b);
    } else if b.Short? {
      ShortIsNotFull(b, a);
    } else {
      SameValue(a, b);
      forall i | 0 <= i < 16
        ensures a.children[i] == b.children[i]
      {
        SameChildren(a, b, i);
        Unique(a.children[i], b.children[i]);
      }
      assert a.children == b.children;
    }
  }
}
