/** The iterator over a trie's nodes, and the one over its keys and values. */
module TrieIterator {
  import opened Bytes
  import opened TrieNode
  import opened TrieEncoding
  import opened TrieInsert
  import opened TrieMap
  import opened TrieUnique
  import opened TrieWalk
  import opened Wrappers

  /** Where the iteration is at one node: the child processed last, and the length of the path to the node's parent. */
  datatype Frame = Frame(node: Node, index: int, pathlen: nat)

  datatype Error =
    | End
    | MissingNode(hash: bytes, path: bytes)
    | SeekError(key: bytes, err: Error)

  // ---- the stack ----

  /** The path goes through the child that the parent's index says. */
  ghost predicate Entered(t: Node, index: int, path: bytes, at: nat) {
    && (t.Full? ==> at < |path| && path[at] == index)
    && (t.Short? ==> index >= 0)
  }

  ghost predicate Standing(db: Store, s: Frame, t: Node, path: bytes) {
    Denotes(db, s.node, t) && !s.node.HashRef? && (Canon(db, t) || t.Val?) && -1 <= s.index && s.pathlen <= |path|
  }

  /** A stack of nodes, each below the one before; `trees` are the nodes with everything below them loaded. */
  ghost predicate Chain(db: Store, stack: seq<Frame>, trees: seq<Node>, path: bytes)
    decreases |stack|
  {
    && |stack| == |trees|
    && if stack == [] then path == []
       else
         var last := |stack| - 1;
         var s := stack[last];
         && Standing(db, s, trees[last], path)
         && Chain(db, stack[..last], trees[..last], path[..s.pathlen])
         && (last == 0 ==> path == [])
         && (last > 0 ==> Entered(trees[last - 1], stack[last - 1].index, path, s.pathlen))
  }

  /** What is still ahead: below the top of the stack, then below what is under it. */
  ghost function Rest(db: Store, stack: seq<Frame>, trees: seq<Node>, path: bytes): seq<Visit>
    requires Chain(db, stack, trees, path)
    decreases |stack|
  {
    if stack == [] then []
    else
      var last := |stack| - 1;
      Below(trees[last], path, stack[last].index) + Rest(db, stack[..last], trees[..last], path[..stack[last].pathlen])
  }

  lemma ChainTop(db: Store, stack: seq<Frame>, trees: seq<Node>, path: bytes)
    requires Chain(db, stack, trees, path) && stack != []
    ensures var last := |stack| - 1; var s := stack[last];
            && |trees| == |stack| && s.pathlen <= |path| && Standing(db, s, trees[last], path) && -1 <= s.index
            && Chain(db, stack[..last], trees[..last], path[..s.pathlen])
            && Rest(db, stack, trees, path)
                 == Below(trees[last], path, s.index) + Rest(db, stack[..last], trees[..last], path[..s.pathlen])
            && (last > 0 ==> Entered(trees[last - 1], stack[last - 1].index, path, s.pathlen))
            && (last == 0 ==> path == [])
  {
  }

  /** The top's index moves on over empty children. */
  function At(stack: seq<Frame>, index: int): seq<Frame>
    requires stack != []
  {
    stack[|stack| - 1 := stack[|stack| - 1].(index := index)]
  }

  lemma ChainAt(db: Store, stack: seq<Frame>, trees: seq<Node>, path: bytes, index: int)
    requires Chain(db, stack, trees, path) && stack != [] && -1 <= index
    ensures var last := |stack| - 1; var s := stack[last];
            && |trees| == |stack| && s.pathlen <= |path|
            && Chain(db, At(stack, index), trees, path)
            && Chain(db, stack[..last], trees[..last], path[..s.pathlen])
            && Rest(db, At(stack, index), trees, path)
                 == Below(trees[last], path, index) + Rest(db, stack[..last], trees[..last], path[..s.pathlen])
  {
    assert At(stack, index)[..|stack| - 1] == stack[..|stack| - 1];
  }

  /** A child on top of its parent. */
  lemma ChainPush(db: Store, stack: seq<Frame>, trees: seq<Node>, path: bytes, s: Frame, t: Node, newPath: bytes)
    requires Chain(db, stack, trees, path) && Standing(db, s, t, newPath) && path <= newPath && s.pathlen == |path|
    requires stack == [] ==> newPath == []
    requires stack != [] ==> Entered(trees[|stack| - 1], stack[|stack| - 1].index, newPath, |path|)
    ensures Chain(db, stack + [s], trees + [t], newPath)
    ensures Rest(db, stack + [s], trees + [t], newPath) == Below(t, newPath, s.index) + Rest(db, stack, trees, path)
  {
    assert (stack + [s])[..|stack|] == stack && (trees + [t])[..|stack|] == trees && newPath[..|path|] == path;
  }

  lemma BelowUnder(db: Store, t: Node, path: bytes, index: int)
    requires (Canon(db, t) || t.Val?) && -1 <= index
    ensures Under(Below(t, path, index), path)
  {
    if !t.Val? {
      BelowOrdered(db, t, path, index);
    }
  }

  lemma UnderIs(vs: seq<Visit>, path: bytes, v: Visit)
    requires Under(vs, path) && v in vs
    ensures path <= v.path
  {
  }

  /** Nothing ahead under the top of the stack is below the path. */
  lemma {:induction false} RestOutside(db: Store, stack: seq<Frame>, trees: seq<Node>, path: bytes, p: bytes)
    requires Chain(db, stack, trees, path) && stack != [] && path <= p
    ensures var last := |stack| - 1;
            forall v :: v in Rest(db, stack[..last], trees[..last], path[..stack[last].pathlen]) ==> !(p <= v.path)
    decreases |stack|
  {
    ChainTop(db, stack, trees, path);
    var last := |stack| - 1;
    if last > 0 {
      var st, tr, pa := stack[..last], trees[..last], path[..stack[last].pathlen];
      ChainTop(db, st, tr, pa);
      var s, t := st[last - 1], tr[last - 1];
      assert pa <= p;
      RestOutside(db, st, tr, pa, p);
      forall v | v in Below(t, pa, s.index)
        ensures !(p <= v.path)
      {
        if t.Full? {
          BelowOrdered(db, t, pa, s.index);
          NotBelow(p, v.path, |pa|);
        }
      }
    }
  }

  lemma NotBelow(p: bytes, x: bytes, at: nat)
    requires at < |p| && at < |x| && p[at] != x[at]
    ensures !(p <= x)
  {
  }

  // ---- children, one by one ----

  lemma {:induction false} NextFull(cs: seq<Node>, path: bytes, from: nat, i: nat)
    requires from <= i < |cs| && i <= 16 && !cs[i].Nil? && forall j :: from <= j < i ==> cs[j].Nil?
    ensures Children(cs, path, from) == Walk(cs[i], path + [i as byte]) + Children(cs, path, i + 1)
    decreases i - from
  {
    if from < i {
      NextFull(cs, path, from + 1, i);
      assert Children(cs, path, from) == [] + Children(cs, path, from + 1);
    }
  }

  lemma {:induction false} NoneLeft(cs: seq<Node>, path: bytes, from: nat)
    requires forall j :: from <= j < |cs| ==> cs[j].Nil?
    ensures Children(cs, path, from) == []
    decreases |cs| - from
  {
    if from < |cs| && from <= 16 {
      NoneLeft(cs, path, from + 1);
    }
  }

  // ---- seeking ----

  /** The visits whose path is not less than a key. */
  ghost function AtLeast(vs: seq<Visit>, key: bytes): seq<Visit> {
    if vs == [] then [] else (if Less(vs[0].path, key) then [] else [vs[0]]) + AtLeast(vs[1..], key)
  }

  lemma {:induction false} AtLeastSkip(a: seq<Visit>, b: seq<Visit>, key: bytes)
    requires forall v :: v in a ==> Less(v.path, key)
    ensures AtLeast(a + b, key) == AtLeast(b, key)
  {
    if a == [] {
      assert a + b == b;
    } else {
      assert a[0] in a && (a + b)[1..] == a[1..] + b;
      AtLeastSkip(a[1..], b, key);
    }
  }

  lemma AtLeastNone(vs: seq<Visit>, key: bytes)
    requires vs == []
    ensures AtLeast(vs, key) == [] && !MissingFirst(vs)
  {
  }

  lemma AtLeastNext(vs: seq<Visit>, key: bytes)
    requires vs != [] && Less(vs[0].path, key)
    ensures AtLeast(vs, key) == AtLeast(vs[1..], key)
    ensures forall all :: Within(vs, all) ==> Within(vs[1..], all)
    ensures Ordered(vs) ==> Ordered(vs[1..])
  {
  }

  /** In order, everything from the first that is not less on is not less. */
  lemma {:induction false} AtLeastAll(vs: seq<Visit>, key: bytes)
    requires Ordered(vs) && (vs != [] ==> !Less(vs[0].path, key))
    ensures AtLeast(vs, key) == vs
  {
    if vs != [] {
      if |vs| > 1 && Less(vs[1].path, key) {
        LessTrans(vs[0].path, vs[1].path, key);
      }
      AtLeastAll(vs[1..], key);
    }
  }

  lemma {:induction false} AtLeastIs(vs: seq<Visit>, key: bytes)
    ensures forall v :: v in AtLeast(vs, key) <==> v in vs && !Less(v.path, key)
    ensures Ordered(vs) ==> Ordered(AtLeast(vs, key))
  {
    if vs != [] {
      AtLeastIs(vs[1..], key);
      var rest := AtLeast(vs[1..], key);
      if Ordered(vs) {
        forall w | w in rest
          ensures Less(vs[0].path, w.path)
        {
          assert w in vs[1..];
        }
        LonelyOrdered(vs[0]);
        OrderedJoin([vs[0]], rest);
      }
    }
  }

  /** The visits that are not below a path. */
  ghost function Outside(vs: seq<Visit>, path: bytes): seq<Visit> {
    if vs == [] then [] else (if path <= vs[0].path then [] else [vs[0]]) + Outside(vs[1..], path)
  }

  lemma {:induction false} OutsideSplit(a: seq<Visit>, b: seq<Visit>, path: bytes)
    requires Under(a, path) && forall v :: v in b ==> !(path <= v.path)
    ensures Outside(a + b, path) == b
  {
    if a != [] {
      assert a[0] in a && (a + b)[1..] == a[1..] + b;
      OutsideSplit(a[1..], b, path);
    } else if b != [] {
      assert [] + b == b;
      assert b[0] in b && b == [b[0]] + b[1..];
      OutsideSplit([], b[1..], path);
      assert [] + b[1..] == b[1..];
    }
  }

  // ---- one step ----

  /** The first child past `from` is `t`, at `newPath`; `index` is just before it. */
  ghost predicate NextIs(db: Store, parent: Node, path: bytes, from: int, index: int, s: Frame, t: Node, newPath: bytes) {
    && -1 <= from && -1 <= index && Denotes(db, s.node, t) && (Canon(db, t) || t.Val?) && s.pathlen == |path| && s.index == -1
    && path <= newPath && Entered(parent, index + 1, newPath, |path|)
    && Below(parent, path, from) == Below(parent, path, index) == Walk(t, newPath) + Below(parent, path, index + 1)
  }

  lemma FoundFull(db: Store, parent: Frame, pt: Node, path: bytes, i: nat)
    requires ValidStore(db) && Standing(db, parent, pt, path) && parent.node.Full? && parent.index + 1 <= i < |parent.node.children|
    requires forall j :: parent.index + 1 <= j < i ==> parent.node.children[j].Nil?
    requires !parent.node.children[i].Nil?
    ensures pt.Full? && i < |pt.children| && i <= 16
    ensures NextIs(db, pt, path, parent.index, i - 1, Frame(parent.node.children[i], -1, |path|), pt.children[i], path + [i as byte])
  {
    forall j | 0 <= j < |pt.children|
      ensures pt.children[j].Nil? <==> parent.node.children[j].Nil?
    {
      DenotesFull(db, parent.node, pt, j);
    }
    NextFull(pt.children, path, parent.index + 1, i);
    NextFull(pt.children, path, i, i);
    hide Walk, Children;
  }

  lemma FoundNone(db: Store, parent: Frame, pt: Node, path: bytes)
    requires ValidStore(db) && Standing(db, parent, pt, path)
    requires parent.node.Full? ==> forall j :: parent.index + 1 <= j < |parent.node.children| ==> parent.node.children[j].Nil?
    requires parent.node.Short? ==> parent.index >= 0
    ensures Below(pt, path, parent.index) == []
  {
    if parent.node.Full? {
      forall j | 0 <= j < |pt.children|
        ensures pt.children[j].Nil? <==> parent.node.children[j].Nil?
      {
        DenotesFull(db, parent.node, pt, j);
      }
      NoneLeft(pt.children, path, parent.index + 1);
    }
  }

  lemma FoundShort(db: Store, parent: Frame, pt: Node, path: bytes)
    requires Standing(db, parent, pt, path) && parent.node.Short? && parent.index < 0
    ensures pt.Short?
    ensures NextIs(db, pt, path, parent.index, parent.index, Frame(parent.node.child, -1, |path|), pt.child, path + parent.node.key)
  {
    hide Walk;
  }

  /** The next visit is to `t`, and after it comes what is then ahead. */
  ghost predicate Ready(db: Store, stack: seq<Frame>, trees: seq<Node>, path: bytes, s: Frame, t: Node, newPath: bytes, due: seq<Visit>) {
    && due != [] && due[0] == Visit(newPath, t) && path <= newPath && s.pathlen == |path| && !t.HashRef?
    && Denotes(db, s.node, t)
    && (stack != [] ==> -2 < stack[|stack| - 1].index)
    && var st := if stack == [] then [] else At(stack, stack[|stack| - 1].index + 1);
       && Chain(db, st + [s], trees + [t], newPath)
       && Rest(db, st + [s], trees + [t], newPath) == due[1..]
  }

  /** The next visit is to a node the database does not have. */
  ghost predicate Gap(db: Store, due: seq<Visit>, hash: bytes, path: bytes) {
    due != [] && due[0] == Visit(path, HashRef(hash)) && hash !in db
  }

  ghost predicate Within(a: seq<Visit>, b: seq<Visit>) {
    forall v :: v in a ==> v in b
  }

  lemma WithinTail(a: seq<Visit>, b: seq<Visit>)
    ensures Within(b, a + b)
  {
  }

  ghost predicate MissingFirst(vs: seq<Visit>) {
    vs != [] && vs[0].node.HashRef?
  }

  lemma WalkTail(t: Node, path: bytes, rest: seq<Visit>)
    ensures (Walk(t, path) + rest)[0] == Visit(path, t) && (Walk(t, path) + rest)[1..] == Below(t, path, -1) + rest
  {
    assert Walk(t, path) == [Visit(path, t)] + Below(t, path, -1);
  }

  lemma PushReady(db: Store, stack: seq<Frame>, trees: seq<Node>, path: bytes, index: int, s: Frame, c: Node, t: Node, newPath: bytes)
    requires Chain(db, stack, trees, path) && stack != [] && |trees| == |stack|
    requires NextIs(db, trees[|stack| - 1], path, stack[|stack| - 1].index, index, s.(node := c), t, newPath)
    requires ValidStore(db) && Denotes(db, s.node, t)
    ensures Chain(db, At(stack, index), trees, path)
    ensures Rest(db, At(stack, index), trees, path) == Rest(db, stack, trees, path)
    ensures !s.node.HashRef? ==> Ready(db, At(stack, index), trees, path, s, t, newPath, Rest(db, stack, trees, path))
    ensures s.node.HashRef? && s.node.hash !in db ==> Gap(db, Rest(db, stack, trees, path), s.node.hash, newPath)
  {
    hide *;
    var last := |stack| - 1;
    var p := trees[last];
    NextParts(db, p, path, stack[last].index, index, s.(node := c), t, newPath);
    ChainTop(db, stack, trees, path);
    ChainAt(db, stack, trees, path, index);
    var a, b := Below(p, path, index + 1), Rest(db, stack[..last], trees[..last], path[..stack[last].pathlen]);
    Regroup(Walk(t, newPath), a, b);
    WalkTail(t, newPath, a + b);
    DenotesKind(db, s.node, t);
    if !s.node.HashRef? {
      ChainAt(db, stack, trees, path, index + 1);
      AtAt(stack, index);
      AtIs(stack, index);
      AtIs(stack, index + 1);
      StandingIs(db, s, t, newPath);
      ChainPush(db, At(stack, index + 1), trees, path, s, t, newPath);
      ReadyTop(db, At(stack, index), trees, path, s, t, newPath, Rest(db, stack, trees, path));
    } else if s.node.hash !in db {
      GapFirst(db, s.node, t, newPath, Rest(db, stack, trees, path));
    }
  }

  lemma NextParts(db: Store, parent: Node, path: bytes, from: int, index: int, s: Frame, t: Node, newPath: bytes)
    requires NextIs(db, parent, path, from, index, s, t, newPath)
    ensures -1 <= from && -1 <= index && (Canon(db, t) || t.Val?) && s.pathlen == |path| && s.index == -1
    ensures path <= newPath && Entered(parent, index + 1, newPath, |path|)
    ensures Below(parent, path, from) == Below(parent, path, index) == Walk(t, newPath) + Below(parent, path, index + 1)
  {
  }

  lemma GapFirst(db: Store, n: Node, t: Node, path: bytes, due: seq<Visit>)
    requires n.HashRef? && n.hash !in db && Denotes(db, n, t) && due != [] && due[0] == Visit(path, t)
    ensures Gap(db, due, n.hash, path)
  {
  }

  lemma ReadyTop(db: Store, stack: seq<Frame>, trees: seq<Node>, path: bytes, s: Frame, t: Node, newPath: bytes, due: seq<Visit>)
    requires due != [] && due[0] == Visit(newPath, t) && path <= newPath && s.pathlen == |path| && !t.HashRef? && Denotes(db, s.node, t)
    requires stack != [] && -1 <= stack[|stack| - 1].index
    requires var st := At(stack, stack[|stack| - 1].index + 1);
             Chain(db, st + [s], trees + [t], newPath) && Rest(db, st + [s], trees + [t], newPath) == due[1..]
    ensures Ready(db, stack, trees, path, s, t, newPath, due)
  {
    hide Chain, Rest;
  }

  lemma AtAt(stack: seq<Frame>, index: int)
    requires stack != []
    ensures At(At(stack, index), index + 1) == At(stack, index + 1)
  {
  }

  lemma Regroup(a: seq<Visit>, b: seq<Visit>, c: seq<Visit>)
    ensures (a + b) + c == a + (b + c)
  {
  }

  lemma StandingIs(db: Store, s: Frame, t: Node, path: bytes)
    requires Denotes(db, s.node, t) && !s.node.HashRef? && (Canon(db, t) || t.Val?) && s.index == -1 && s.pathlen <= |path|
    ensures Standing(db, s, t, path)
  {
  }

  /** The root comes first of all. */
  lemma RootReady(db: Store, stack: seq<Frame>, trees: seq<Node>, path: bytes, s: Frame, tree: Node)
    requires ValidStore(db) && Canon(db, tree) && Denotes(db, s.node, tree) && s.pathlen == 0 && s.index == -1
    requires stack == [] && trees == [] && path == []
    ensures !s.node.HashRef? ==> Ready(db, stack, trees, path, s, tree, path, Walk(tree, path))
    ensures s.node.HashRef? && s.node.hash !in db ==> Gap(db, Walk(tree, path), s.node.hash, path)
  {
    hide *;
    DenotesKind(db, s.node, tree);
    var w := Walk(tree, path);
    if !s.node.HashRef? {
      NoChain(db, stack, trees, path);
      StandingIs(db, s, tree, path);
      ChainPush(db, stack, trees, path, s, tree, path);
      WalkAlone(tree, path, Rest(db, stack, trees, path));
      ReadyIs(db, stack, trees, path, s, tree, path, w);
    } else if s.node.hash !in db {
      GapIs(db, s.node, tree, path);
    }
  }

  lemma GapIs(db: Store, n: Node, t: Node, path: bytes)
    requires n.HashRef? && n.hash !in db && Denotes(db, n, t)
    ensures Gap(db, Walk(t, path), n.hash, path)
  {
  }

  lemma WalkAlone(t: Node, path: bytes, rest: seq<Visit>)
    requires rest == []
    ensures Walk(t, path) == [Visit(path, t)] + Below(t, path, -1) && Walk(t, path)[1..] == Below(t, path, -1) + rest
  {
  }

  lemma NoChain(db: Store, stack: seq<Frame>, trees: seq<Node>, path: bytes)
    requires stack == [] && trees == [] && path == []
    ensures Chain(db, stack, trees, path) && Rest(db, stack, trees, path) == []
  {
  }

  lemma RestEnds(db: Store, stack: seq<Frame>, trees: seq<Node>, path: bytes)
    requires Chain(db, stack, trees, path) && stack == []
    ensures Rest(db, stack, trees, path) == []
  {
  }

  lemma ReadyIs(db: Store, stack: seq<Frame>, trees: seq<Node>, path: bytes, s: Frame, t: Node, newPath: bytes, due: seq<Visit>)
    requires due != [] && due[0] == Visit(newPath, t) && path <= newPath && s.pathlen == |path| && !t.HashRef? && Denotes(db, s.node, t)
    requires stack == [] && Chain(db, stack + [s], trees + [t], newPath) && Rest(db, stack + [s], trees + [t], newPath) == due[1..]
    ensures Ready(db, stack, trees, path, s, t, newPath, due)
  {
    hide Chain, Rest;
  }

  lemma AtIs(stack: seq<Frame>, index: int)
    requires stack != []
    ensures |At(stack, index)| == |stack| && At(stack, index)[|stack| - 1].index == index
    ensures index == stack[|stack| - 1].index ==> At(stack, index) == stack
  {
  }

  class nodeIterator {
    const db: Store
    const root: Node
    /** The root with everything loaded that the database has. */
    ghost const tree: Node
    var stack: seq<Frame>
    var path: bytes
    var err: Option<Error>
    ghost var trees: seq<Node>

    ghost predicate Linked()
      reads this`stack, this`path, this`trees
    {
      && ValidStore(db) && Canon(db, tree) && Denotes(db, root, tree)
      && Chain(db, stack, trees, path)
    }

    /** What is ahead; an empty stack is one not started. */
    ghost function Ahead(): seq<Visit>
      requires Linked()
      reads this`stack, this`path, this`trees
    {
      if stack == [] then Walk(tree, []) else Rest(db, stack, trees, path)
    }

    /** What is ahead once the top of the stack is left. */
    ghost function Skipping(): seq<Visit>
      requires Linked()
      reads this`stack, this`path, this`trees
    {
      if stack == [] then Walk(tree, [])
      else
        ChainTop(db, stack, trees, path);
        Rest(db, stack[..|stack| - 1], trees[..|stack| - 1], path[..stack[|stack| - 1].pathlen])
    }

    /** The length of the path to the parent of the current node. */
    ghost function Above(): nat
      requires Linked()
      reads this`stack, this`path, this`trees
      ensures Above() <= |path|
    {
      if stack == [] then 0 else ChainTop(db, stack, trees, path); stack[|stack| - 1].pathlen
    }

    method pop()
      requires Linked() && stack != []
      modifies this`stack, this`path, this`trees
      ensures Linked()
      ensures |stack| == old(|stack|) - 1 && path == old(path[..Above()])
      ensures Rest(db, stack, trees, path) == old(Skipping())
    {
      ChainTop(db, stack, trees, path);
      var parent := stack[|stack| - 1];
      path := path[..parent.pathlen];
      stack, trees := stack[..|stack| - 1], trees[..|stack| - 1];
    }

    /** Loads the node of a frame, if it is a reference. */
    method resolve(state: Frame, path: bytes) returns (r: Frame, err: Option<Error>)
      requires ValidStore(db)
      ensures r == state.(node := r.node) && (r.node.HashRef? <==> err.Some?)
      ensures err.Some? ==> r == state && state.node.HashRef? && state.node.hash !in db && err == Some(MissingNode(state.node.hash, path))
      ensures forall t :: Denotes(db, state.node, t) ==> Denotes(db, r.node, t)
    {
      r, err := state, None;
      if state.node.HashRef? {
        if state.node.hash !in db {
          return r, Some(MissingNode(state.node.hash, path));
        }
        r := r.(node := db[state.node.hash]);
      }
    }

    /** The first slot from `from` on that is not empty, or the end. */
    static method firstChild(cs: seq<Node>, from: int) returns (i: nat)
      requires from >= 0
      ensures from <= i && (i < |cs| ==> !cs[i].Nil?)
      ensures forall j :: from <= j < i && j < |cs| ==> cs[j].Nil?
    {
      i := from;
      while i < |cs| && cs[i].Nil?
        invariant from <= i
        invariant forall j :: from <= j < i && j < |cs| ==> cs[j].Nil?
      {
        i := i + 1;
      }
    }

    /** The first child of the top of the stack that has not been processed, with its path. */
    method nextChild() returns (state: Frame, newPath: bytes, ok: bool, ghost t: Node)
      requires Linked() && stack != []
      modifies this`stack
      ensures |trees| == |stack| == old(|stack|)
      ensures !ok ==> stack == old(stack) && Below(trees[|stack| - 1], path, old(stack[|stack| - 1].index)) == []
      ensures ok ==>
                && stack == At(old(stack), stack[|stack| - 1].index)
                && NextIs(db, trees[|stack| - 1], path, old(stack[|stack| - 1].index), stack[|stack| - 1].index, state, t, newPath)
    {
      ChainTop(db, stack, trees, path);
      var last := |stack| - 1;
      var parent := stack[last];
      ghost var pt := trees[last];
      hide *;
      ok, state, newPath, t := false, parent, path, pt;
      match parent.node
      case Full(cs) =>
        var i := firstChild(cs, parent.index + 1);
        if i < |cs| {
          FoundFull(db, parent, pt, path, i);
          AtIs(stack, i - 1);
          stack := At(stack, i - 1);
          return Frame(cs[i], -1, |path|), path + [i as byte], true, pt.children[i];
        }
        FoundNone(db, parent, pt, path);
      case Short(k, c) =>
        if parent.index < 0 {
          FoundShort(db, parent, pt, path);
          AtIs(stack, parent.index);
          return Frame(c, -1, |path|), path + k, true, pt.child;
        }
        FoundNone(db, parent, pt, path);
      case _ =>
        FoundNone(db, parent, pt, path);
    }
 
    ghost function Due(descend: bool): seq<Visit>
      requires Linked()
      reads this`stack, this`path, this`trees
    {
      if descend then Ahead() else Skipping()
    }

    /** The next child of the top of the stack, loaded. */
    method loadChild() returns (state: Frame, newPath: bytes, ok: bool, err: Option<Error>, ghost t: Node)
      requires Linked() && stack != []
      modifies this`stack
      ensures Linked() && stack != []
      ensures !ok ==> stack == old(stack) && old(Ahead()) == old(Skipping())
      ensures err == None || err.value.MissingNode?
      ensures ok && err == None ==> Ready(db, stack, trees, path, state, t, newPath, old(Ahead()))
      ensures ok && err.Some? ==> Gap(db, old(Ahead()), err.value.hash, err.value.path)
      ensures ok ==> Ahead() == old(Ahead())
    {
      hide *;
      LinkedIs();
      ghost var was := stack;
      TopIs(was);
      state, newPath, ok, t := nextChild();
      err := None;
      if ok {
        ghost var c := state;
        FoundIs(c, t, newPath, was[|was| - 1].index, stack[|stack| - 1].index);
        state, err := resolve(state, newPath);
        PushReady(db, was, trees, path, stack[|stack| - 1].index, state, c.node, t, newPath);
        LinkedAgain();
      }
    }

    lemma FoundIs(s: Frame, t: Node, newPath: bytes, from: int, index: int)
      requires stack != [] && |trees| == |stack| && NextIs(db, trees[|stack| - 1], path, from, index, s, t, newPath)
      ensures Denotes(db, s.node, t)
    {
    }

    /** The top of the stack, and what is ahead. */
    lemma TopIs(st: seq<Frame>)
      requires Linked() && stack != [] && st == stack
      ensures Chain(db, st, trees, path) && |trees| == |st| && Ahead() == Rest(db, st, trees, path)
      ensures Below(trees[|st| - 1], path, st[|st| - 1].index) == [] ==> Ahead() == Skipping()
    {
      hide Chain, Rest, Walk, Below, Canon, Denotes;
      ChainTop(db, stack, trees, path);
    }

    lemma LinkedAgain()
      requires ValidStore(db) && Canon(db, tree) && Denotes(db, root, tree) && Chain(db, stack, trees, path) && stack != []
      ensures Linked() && Ahead() == Rest(db, stack, trees, path)
    {
    }

    /** The next node below the stack's nodes, from the top on; nodes with no more children are popped. */
    method forward() returns (state: Frame, newPath: bytes, err: Option<Error>, ghost t: Node)
      requires Linked()
      modifies this`stack, this`path, this`trees
      ensures Linked() && path <= old(path)
      ensures err == None || err == Some(End) || err.value.MissingNode?
      ensures err == Some(End) ==> stack == [] && old(Rest(db, stack, trees, path)) == []
      ensures err == None ==> Ready(db, stack, trees, path, state, t, newPath, old(Rest(db, stack, trees, path)))
      ensures err.Some? && err.value.MissingNode? ==> Gap(db, old(Rest(db, stack, trees, path)), err.value.hash, err.value.path)
      ensures err != Some(End) ==> stack != [] && Ahead() == old(Rest(db, stack, trees, path))
    {
      LinkedIs();
      hide *;
      ghost var due := Rest(db, stack, trees, path);
      state, newPath, err, t := Frame(root, -1, 0), [], Some(End), tree;
      while |stack| > 0
        invariant Linked() && path <= old(path)
        invariant Rest(db, stack, trees, path) == due
        decreases |stack|
      {
        LinkedIs();
        var ok;
        state, newPath, ok, err, t := loadChild();
        if ok {
          return;
        }
        pop();
      }
      LinkedIs();
      err := Some(End);
      RestEnds(db, stack, trees, path);
    }

    /** The next state of the iterator, with the path to it. */
    method peek(descend: bool) returns (state: Frame, hasParent: bool, newPath: bytes, err: Option<Error>, ghost t: Node)
      requires Linked()
      modifies this`stack, this`path, this`trees
      ensures Linked()
      ensures err == None || err == Some(End) || err.value.MissingNode?
      ensures err == Some(End) ==> stack == [] && old(Due(descend)) == []
      ensures err == None ==> Ready(db, stack, trees, path, state, t, newPath, old(Due(descend))) && hasParent == (stack != [])
      ensures err.Some? && err.value.MissingNode? ==> Gap(db, old(Due(descend)), err.value.hash, err.value.path)
      ensures err != Some(End) ==> Ahead() == old(Due(descend)) && (stack == [] <==> old(stack) == [])
      ensures path <= old(path) && (!descend ==> path <= old(path[..Above()]))
    {
      LinkedIs();
      ghost var due := Due(descend);
      assert descend ==> due == Ahead();
      assert !descend ==> due == Skipping();
      hide *;
      if |stack| == 0 {
        hasParent, newPath, t := false, [], tree;
        state, err := resolve(Frame(root, -1, 0), []);
        RootReady(db, stack, trees, path, state, tree);
        return;
      }
      if !descend {
        pop();
      }
      hasParent := true;
      state, newPath, err, t := forward();
    }

    lemma LinkedIs()
      requires Linked()
      ensures ValidStore(db) && Canon(db, tree) && Denotes(db, root, tree)
      ensures |stack| == |trees| && (stack == [] ==> path == [])
      ensures Chain(db, stack, trees, path)
      ensures stack == [] ==> Ahead() == Walk(tree, path) && Skipping() == Ahead() && Above() == 0
      ensures stack != [] ==> Ahead() == Rest(db, stack, trees, path)
    {
    }
 
    /** Goes to the node that was peeked at. */
    method push(state: Frame, hasParent: bool, newPath: bytes, ghost t: Node, ghost due: seq<Visit>)
      requires Linked() && Ready(db, stack, trees, path, state, t, newPath, due) && hasParent == (stack != [])
      modifies this`stack, this`path, this`trees
      ensures Linked() && stack != [] && path == newPath && Ahead() == due[1..] && Above() == old(|path|)
      ensures Denotes(db, stack[|stack| - 1].node, t) && !t.HashRef?
    {
      path := newPath;
      if hasParent {
        stack := At(stack, stack[|stack| - 1].index + 1);
      }
      stack, trees := stack + [state], trees + [t];
      hide Rest, Below, Canon, Denotes;
    }

    /** With the key to the right of the current path, and not below it, all below is less. */
    lemma SkipLess(key: bytes)
      requires Linked() && stack != [] && Less(path, key) && !(path <= key) && Ordered(Ahead())
      ensures AtLeast(Skipping(), key) == AtLeast(Ahead(), key) && Ordered(Skipping()) && |Skipping()| <= |Ahead()|
      ensures Within(Skipping(), Ahead())
    {
      ChainTop(db, stack, trees, path);
      var s, t := stack[|stack| - 1], trees[|stack| - 1];
      var below := Below(t, path, s.index);
      var rest := Skipping();
      assert Ahead() == below + rest;
      BelowUnder(db, t, path, s.index);
      hide *;
      forall v | v in below
        ensures Less(v.path, key)
      {
        UnderIs(below, path, v);
        LessUnder(path, v.path, key);
      }
      AtLeastSkip(below, rest, key);
      assert (below + rest)[|below|..] == rest;
      OrderedTail(below + rest, |below|);
      WithinTail(below, rest);
    }

    /** The state after a seek that ended with `err`. */
    ghost predicate Sought(prefix: bytes, all: seq<Visit>, err: Option<Error>)
      reads this`stack, this`path, this`trees
    {
      && Linked()
      && (err == None ==> Ahead() == AtLeast(all, Unpacked(prefix)) && Ordered(Ahead()))
      && (err == Some(End) ==> stack == [] && AtLeast(all, Unpacked(prefix)) == [])
      && (err.Some? && err != Some(End) ==>
            && Stuck(prefix, err) && Ordered(Ahead()) && Within(Ahead(), all)
            && AtLeast(Ahead(), Unpacked(prefix)) == AtLeast(all, Unpacked(prefix)))
    }

    /** A seek found a node missing, which is the next to visit. */
    ghost predicate Stuck(prefix: bytes, err: Option<Error>)
      requires Linked()
      reads this`stack, this`path, this`trees
    {
      && err.Some? && err.value.SeekError? && err.value.key == prefix && err.value.err.MissingNode?
      && path <= Unpacked(prefix) && Gap(db, Ahead(), err.value.err.hash, err.value.err.path)
    }

    /** Moves forward until just before the first node whose path is not less than the prefix. */
    method seek(prefix: bytes) returns (err: Option<Error>)
      requires Linked() && Ordered(Ahead()) && path <= Unpacked(prefix)
      modifies this`stack, this`path, this`trees
      ensures Sought(prefix, old(Ahead()), err)
      ensures old(MissingFirst(Ahead())) ==> Linked() && Stuck(prefix, err) && Ahead() == old(Ahead())
    {
      var key := keybytesToHex(prefix);
      key := key[..|key| - 1];
      assert key == Unpacked(prefix);
      hide *;
      ghost var all := Ahead();
      SeekStart(key);
      while true
        invariant Seeking(key, all)
        invariant (Ahead() == all && path <= key) || !MissingFirst(all)
        decreases |Ahead()|
      {
        var done;
        done, err := seekOne(prefix, key, all);
        if done {
          return;
        }
      }
    }

    lemma SoughtEnd(prefix: bytes, all: seq<Visit>)
      requires Linked() && stack == [] && AtLeast(all, Unpacked(prefix)) == []
      ensures Sought(prefix, all, Some(End))
    {
    }

    lemma SoughtIt(prefix: bytes, all: seq<Visit>)
      requires Linked() && Ahead() == AtLeast(all, Unpacked(prefix)) && Ordered(Ahead())
      ensures Sought(prefix, all, None)
    {
    }

    lemma SoughtGap(prefix: bytes, all: seq<Visit>, err: Option<Error>)
      requires Linked() && err.Some? && err.value.SeekError? && err.value.key == prefix && err.value.err.MissingNode?
      requires path <= Unpacked(prefix) && Gap(db, Ahead(), err.value.err.hash, err.value.err.path)
      requires Ordered(Ahead()) && Within(Ahead(), all) && AtLeast(Ahead(), Unpacked(prefix)) == AtLeast(all, Unpacked(prefix))
      ensures Stuck(prefix, err) && Sought(prefix, all, err)
    {
      hide Gap, Chain, Rest, AtLeast, Ordered;
    }

    /** One step of a seek. */
    method seekOne(prefix: bytes, key: bytes, ghost all: seq<Visit>) returns (done: bool, err: Option<Error>)
      requires Seeking(key, all) && key == Unpacked(prefix)
      modifies this`stack, this`path, this`trees
      ensures done ==> Sought(prefix, all, err)
      ensures !done ==> Linked() && Seeking(key, all) && |Ahead()| < old(|Ahead()|)
      ensures old(path <= key && MissingFirst(Ahead())) ==> done && Linked() && Stuck(prefix, err) && Ahead() == old(Ahead())
    {
      hide *;
      SeekDue(key, all);
      ghost var due := Due(path <= key);
      var state, hasParent, newPath, e, t := peek(path <= key);
      if e == Some(End) {
        AtLeastNone(due, key);
        SoughtEnd(prefix, all);
        return true, e;
      } else if e.Some? {
        err := Some(SeekError(prefix, e.value));
        SoughtGap(prefix, all, err);
        return true, err;
      }
      LinkedIs();
      ReadyFirst(state, t, newPath, due);
      if !Less(newPath, key) {
        AtLeastAll(due, key);
        SoughtIt(prefix, all);
        return true, None;
      }
      AtLeastNext(due, key);
      ghost var parent := path;
      push(state, hasParent, newPath, t, due);
      SeekAgain(key, all, parent);
      return false, None;
    }

    /** In the middle of a seek: what is not less than the key is all ahead. */
    ghost predicate Seeking(key: bytes, all: seq<Visit>)
      reads this`stack, this`path, this`trees
    {
      && Linked() && Ordered(Ahead()) && Within(Ahead(), all) && AtLeast(Ahead(), key) == AtLeast(all, key)
      && path[..Above()] <= key && (path <= key || (stack != [] && Less(path, key)))
    }

    lemma SeekStart(key: bytes)
      requires Linked() && Ordered(Ahead()) && path <= key
      ensures Seeking(key, Ahead())
    {
      hide Chain, Rest, Canon, Denotes, Walk, AtLeast;
      assert path[..Above()] <= path;
    }

    lemma SeekDue(key: bytes, all: seq<Visit>)
      requires Seeking(key, all)
      ensures Linked() && path[..Above()] <= key
      ensures Ordered(Due(path <= key)) && AtLeast(Due(path <= key), key) == AtLeast(all, key) && |Due(path <= key)| <= |Ahead()|
      ensures Within(Due(path <= key), all)
      ensures path <= key ==> Due(path <= key) == Ahead()
    {
      hide Chain, Rest, Canon, Denotes, Walk, AtLeast;
      if !(path <= key) {
        SkipLess(key);
      }
    }

    lemma SeekAgain(key: bytes, all: seq<Visit>, parent: bytes)
      requires Linked() && stack != [] && Ordered(Ahead()) && Within(Ahead(), all) && AtLeast(Ahead(), key) == AtLeast(all, key)
      requires parent <= path && Above() == |parent| && parent <= key && Less(path, key)
      ensures Seeking(key, all)
    {
      hide Chain, Rest, Canon, Denotes, Walk, AtLeast;
    }

    lemma ReadyFirst(s: Frame, t: Node, newPath: bytes, due: seq<Visit>)
      requires |stack| == |trees| && Ready(db, stack, trees, path, s, t, newPath, due)
      ensures due != [] && due[0] == Visit(newPath, t) && path <= newPath && !MissingFirst(due)
    {
      hide Chain, Rest, Denotes;
    }
 
    ghost predicate Valid()
      reads this
    {
      && Linked() && Ordered(Ahead()) && (err == Some(End) ==> stack == [])
      && (err.Some? && err.value.SeekError? ==> Stuck(err.value.key, err))
    }

    /** The nodes still to come. */
    ghost function Pending(): seq<Visit>
      requires Valid()
      reads this
    {
      if err == Some(End) then [] else Ahead()
    }

    /** The nodes still to come if those below the current one are skipped. */
    ghost function Wanted(descend: bool): seq<Visit>
      requires Valid()
      reads this
    {
      if descend || stack == [] then Pending() else Outside(Pending(), path)
    }

    ghost predicate OnNode(t: Node)
      reads this
    {
      stack != [] && Denotes(db, stack[|stack| - 1].node, t)
    }

    /** Starts before the first node whose path is not less than the start key's. */
    constructor (db: Store, root: Node, start: bytes, ghost tree: Node)
      requires ValidStore(db) && Canon(db, root) && Denotes(db, root, tree)
      ensures Valid() && this.db == db && this.root == root && this.tree == tree
      ensures err == None || err == Some(End) ==> Pending() == AtLeast(Walk(tree, []), Unpacked(start))
      ensures err.Some? && err != Some(End) ==>
                && err.value.SeekError? && err.value.key == start
                && AtLeast(Pending(), Unpacked(start)) == AtLeast(Walk(tree, []), Unpacked(start))
      ensures Within(Pending(), Walk(tree, []))
    {
      this.db, this.root, this.tree := db, root, tree;
      stack, path, err, trees := [], [], None, [];
      new;
      Unstarted();
      hide *;
      var e := seek(start);
      err := e;
      Started(start, Walk(tree, []));
    }

    lemma Started(start: bytes, all: seq<Visit>)
      requires Sought(start, all, err)
      ensures Valid() && Within(Pending(), all)
      ensures err == None || err == Some(End) ==> Pending() == AtLeast(all, Unpacked(start))
      ensures err.Some? && err != Some(End) ==>
                err.value.SeekError? && err.value.key == start && AtLeast(Pending(), Unpacked(start)) == AtLeast(all, Unpacked(start))
    {
      EndOrdered();
      AtLeastIs(all, Unpacked(start));
      hide Chain, Rest, Canon, Denotes, Walk, AtLeast;
    }

    lemma Unstarted()
      requires ValidStore(db) && Canon(db, root) && Denotes(db, root, tree) && stack == [] && trees == [] && path == []
      ensures Linked() && Ahead() == Walk(tree, []) && Ordered(Ahead())
    {
      DenotesCanon(db, root, tree);
      NoChain(db, stack, trees, path);
      WalkOrdered(db, tree, []);
      hide *;
    }

    lemma EndOrdered()
      requires Linked()
      ensures stack == [] ==> Ordered(Ahead())
    {
      if stack == [] {
        WalkOrdered(db, tree, []);
      }
    }

    /** Moves to the next node. If `descend` is false, the nodes below the current one are skipped. */
    method Next(descend: bool) returns (ok: bool)
      requires Valid()
      modifies this
      ensures Valid()
      ensures old(err.Some? && err.value.SeekError?) ==> !ok && err == old(err) && Pending() == old(Pending())
      ensures !old(err.Some? && err.value.SeekError?) ==>
                var due := old(Wanted(descend));
                if due == [] then !ok && err == Some(End) && Pending() == []
                else if due[0].node.HashRef? then
                  !ok && err == Some(MissingNode(due[0].node.hash, due[0].path)) && due[0].node.hash !in db && Pending() == due
                else ok && err == None && Pending() == due[1..] && path == due[0].path && OnNode(due[0].node)
    {
      hide *;
      if err == Some(End) {
        EndedIs(descend);
        return false;
      }
      if err.Some? && err.value.SeekError? {
        StuckIs();
        ghost var key := err.value.key;
        var e := seek(err.value.key);
        err := e;
        StuckAgain(key);
        return false;
      }
      ok := step(descend);
    }

    /** Moves on where neither the end has been reached nor a seek has failed. */
    method step(descend: bool) returns (ok: bool)
      requires Valid() && err != Some(End) && !(err.Some? && err.value.SeekError?)
      modifies this
      ensures Valid()
      ensures var due := old(Wanted(descend));
              if due == [] then !ok && err == Some(End) && Pending() == []
              else if due[0].node.HashRef? then
                !ok && err == Some(MissingNode(due[0].node.hash, due[0].path)) && due[0].node.hash !in db && Pending() == due
              else ok && err == None && Pending() == due[1..] && path == due[0].path && OnNode(due[0].node)
    {
      hide *;
      ValidIs();
      DueIs(descend);
      ghost var due := Due(descend);
      var state, hasParent, newPath, e, t := peek(descend);
      err := e;
      if err.Some? {
        if err != Some(End) {
          GapNode(due, err.value.hash, err.value.path);
        }
        ValidErr(due);
        return false;
      }
      LinkedIs();
      ReadyFirst(state, t, newPath, due);
      push(state, hasParent, newPath, t, due);
      OrderedTail(due, 1);
      ValidOk(t, due);
      return true;
    }

    lemma EndedIs(descend: bool)
      requires Valid() && err == Some(End)
      ensures Pending() == [] && Wanted(descend) == []
    {
      hide Chain, Rest, Walk, AtLeast, Denotes, Canon, Ordered;
    }

    lemma StuckIs()
      requires Valid() && err.Some? && err.value.SeekError?
      ensures Linked() && Stuck(err.value.key, err) && Ordered(Ahead()) && path <= Unpacked(err.value.key)
      ensures MissingFirst(Ahead()) && Pending() == Ahead()
      ensures Ahead() != [] && Ahead()[0].node.HashRef?
      ensures err == Some(SeekError(err.value.key, MissingNode(Ahead()[0].node.hash, Ahead()[0].path)))
    {
      hide Chain, Rest, Walk, AtLeast, Denotes, Canon, Ordered;
    }

    lemma StuckAgain(key: bytes)
      requires Linked() && Stuck(key, err) && Ordered(Ahead())
      ensures Valid() && Pending() == Ahead() && Ahead() != [] && Ahead()[0].node.HashRef?
      ensures err == Some(SeekError(key, MissingNode(Ahead()[0].node.hash, Ahead()[0].path)))
    {
      hide Chain, Rest, Walk, AtLeast, Denotes, Canon, Ordered;
    }

    lemma ValidIs()
      requires Valid() && err != Some(End)
      ensures Linked() && Ordered(Ahead()) && Pending() == Ahead() && |stack| == |trees|
    {
      hide Rest, Walk, AtLeast, Denotes, Canon, Ordered;
    }

    lemma DueIs(descend: bool)
      requires Valid() && err != Some(End)
      ensures Linked() && Due(descend) == Wanted(descend) && Ordered(Due(descend))
    {
      if !descend && stack != [] {
        SkippingIs();
      }
      hide Chain, Rest, Walk, AtLeast, Denotes, Canon, Ordered;
    }

    /** Leaving the current node skips what is below its path, and nothing else. */
    lemma SkippingIs()
      requires Linked() && stack != [] && Ordered(Ahead())
      ensures Skipping() == Outside(Ahead(), path) && Ordered(Skipping())
    {
      ChainTop(db, stack, trees, path);
      RestOutside(db, stack, trees, path, path);
      var s, t := stack[|stack| - 1], trees[|stack| - 1];
      var below, rest := Below(t, path, s.index), Skipping();
      assert Ahead() == below + rest;
      BelowUnder(db, t, path, s.index);
      hide *;
      OutsideSplit(below, rest, path);
      assert (below + rest)[|below|..] == rest;
      OrderedTail(below + rest, |below|);
    }

    lemma GapNode(due: seq<Visit>, hash: bytes, path: bytes)
      requires Gap(db, due, hash, path)
      ensures due != [] && due[0] == Visit(path, HashRef(hash)) && hash !in db
    {
    }

    lemma ValidErr(due: seq<Visit>)
      requires Linked() && Ordered(due) && err.Some? && !err.value.SeekError?
      requires err == Some(End) ==> stack == []
      requires err != Some(End) ==> Ahead() == due
      ensures Valid() && Pending() == if err == Some(End) then [] else due
    {
      EndOrdered();
      hide Chain, Rest, Walk, AtLeast, Denotes, Canon, Ordered;
    }

    lemma ValidOk(t: Node, due: seq<Visit>)
      requires Linked() && due != [] && Ordered(due[1..]) && err == None && stack != [] && Ahead() == due[1..]
      requires Denotes(db, stack[|stack| - 1].node, t)
      ensures Valid() && Pending() == due[1..] && OnNode(t)
    {
      hide Chain, Rest, Walk, AtLeast, Denotes, Canon, Ordered;
    }
 
    /** Whether the current node is a value: its path ends in the terminator. */
    predicate Leaf()
      reads this`path
    {
      hasTerm(path)
    }

    /** The key of the current value; anywhere else there is none, and asking for it is a fault. */
    method LeafKey() returns (key: Option<bytes>)
      requires Valid() && Hex(path)
      ensures forall t, k :: OnNode(t) && t.Val? && path == KeybytesToHex(k) ==> key == Some(k)
      ensures forall t :: OnNode(t) && !t.Val? ==> key == None
      ensures stack == [] ==> key == None
    {
      OnNodeIs();
      hide *;
      if |stack| > 0 {
        if stack[|stack| - 1].node.Val? {
          key := hexToKeybytes(path);
          return;
        }
      }
      return None;
    }

    /** The current value; anywhere else there is none, and asking for it is a fault. */
    method LeafBlob() returns (blob: Option<bytes>)
      requires Valid()
      ensures forall t :: OnNode(t) ==> blob == if t.Val? then Some(t.val) else None
      ensures stack == [] ==> blob == None
    {
      OnNodeIs();
      hide *;
      if |stack| > 0 {
        if stack[|stack| - 1].node.Val? {
          return Some(stack[|stack| - 1].node.val);
        }
      }
      return None;
    }

    /** The current node is a value just if the node on top of the stack is that value. */
    lemma OnNodeIs()
      requires Valid()
      ensures forall t :: OnNode(t) ==>
                stack != [] && (t.Val? <==> stack[|stack| - 1].node.Val?) && (t.Val? ==> stack[|stack| - 1].node == t)
    {
      if stack != [] {
        LinkedIs();
        ChainTop(db, stack, trees, path);
        hide Chain, Rest, Below, Walk, Ordered, Canon;
        forall t | OnNode(t)
          ensures (t.Val? <==> stack[|stack| - 1].node.Val?) && (t.Val? ==> stack[|stack| - 1].node == t)
        {
          DenotesKind(db, stack[|stack| - 1].node, t);
        }
      }
    }

    lemma WantedAll()
      requires Valid()
      ensures Wanted(true) == Pending()
      ensures err.Some? && err.value.SeekError? ==> MissingFirst(Pending()) && err.value.err.MissingNode?
    {
      hide Linked, Ahead;
    }

    /** The failure, if there was one; the end is none. */
    function Error(): (e: Option<Error>)
      reads this`err
    {
      if err == Some(End) then None
      else if err.Some? && err.value.SeekError? then Some(err.value.err)
      else err
    }
  }

  // ---- keys and values ----

  /** The paths and values among the visits, up to the first node that is missing. */
  ghost function Entries(vs: seq<Visit>): seq<(bytes, bytes)> {
    if vs == [] || vs[0].node.HashRef? then []
    else (if vs[0].node.Val? then [(vs[0].path, vs[0].node.val)] else []) + Entries(vs[1..])
  }

  /** The node that is missing, if there is one among the visits. */
  ghost function FirstGap(vs: seq<Visit>): Option<Visit> {
    if vs == [] then None else if vs[0].node.HashRef? then Some(vs[0]) else FirstGap(vs[1..])
  }

  lemma EntriesStep(vs: seq<Visit>)
    requires vs != [] && !vs[0].node.HashRef?
    ensures Entries(vs) == (if vs[0].node.Val? then [(vs[0].path, vs[0].node.val)] else []) + Entries(vs[1..])
    ensures FirstGap(vs) == FirstGap(vs[1..])
  {
  }

  /** Every value has the path of a byte key. */
  ghost predicate KeyPaths(vs: seq<Visit>) {
    AllProper(vs) && forall v :: v in vs && v.node.Val? ==> IsByteKey(v.path)
  }

  /** The iterator over keys and values. */
  class Iterator {
    const nodeIt: nodeIterator
    var Key: bytes
    var Value: bytes
    var Err: Option<Error>

    ghost predicate Valid()
      reads nodeIt
    {
      nodeIt.Valid() && KeyPaths(nodeIt.Pending())
    }

    /** The paths and values still to come. */
    ghost function Left(): seq<(bytes, bytes)>
      requires Valid()
      reads nodeIt
    {
      Entries(nodeIt.Pending())
    }

    ghost function Lost(): Option<Visit>
      requires Valid()
      reads nodeIt
    {
      FirstGap(nodeIt.Pending())
    }

    constructor (it: nodeIterator)
      requires it.Valid() && KeyPaths(it.Pending())
      ensures nodeIt == it && Valid()
    {
      nodeIt, Key, Value, Err := it, [], [], None;
    }

    /** Moves forward one entry: each entry comes once, in order, and then the end or a node that is missing. */
    method Next() returns (ok: bool)
      requires Valid()
      modifies this, nodeIt
      ensures Valid() && Lost() == old(Lost())
      ensures ok <==> old(Left()) != []
      ensures ok ==> (KeybytesToHex(Key), Value) == old(Left())[0] && Left() == old(Left())[1..]
      ensures !ok ==> Left() == [] && (Err == None <==> Lost() == None)
    {
      hide *;
      ghost var left, lost := Left(), Lost();
      LeftIs();
      while true
        invariant Valid() && nodeIt.Valid() && Left() == left && Lost() == lost
        decreases |nodeIt.Pending()|
      {
        LeftIs();
        ghost var due := nodeIt.Pending();
        ok := nodeIt.Next(true);
        if !ok {
          StoppedIs(due);
          break;
        }
        EntriesStep(due);
        KeyPathsTail(due);
        MovedIs(due[1..]);
        if nodeIt.Leaf() {
          take(due[0]);
          return true;
        }
        NotLeafIs(due[0]);
      }
      Key, Value, Err := [], [], nodeIt.Error();
    }

    /** Takes the key and the value of the current node. */
    method take(ghost v: Visit)
      requires Valid() && nodeIt.OnNode(v.node) && nodeIt.path == v.path && nodeIt.Leaf() && Proper(v) && (v.node.Val? ==> IsByteKey(v.path))
      modifies this`Key, this`Value
      ensures Valid() && v.node.Val? && KeybytesToHex(Key) == v.path && Value == v.node.val
    {
      hide *;
      LeafIs(v);
      var k := nodeIt.LeafKey();
      var b := nodeIt.LeafBlob();
      ghost var x := ByteKeyOf(v.path);
      Key, Value := k.value, b.value;
    }

    lemma LeftIs()
      requires Valid()
      ensures nodeIt.Valid() && KeyPaths(nodeIt.Pending()) && Left() == Entries(nodeIt.Pending()) && Lost() == FirstGap(nodeIt.Pending())
      ensures nodeIt.Wanted(true) == nodeIt.Pending()
      ensures nodeIt.err.Some? && nodeIt.err.value.SeekError? ==>
                nodeIt.Pending() != [] && nodeIt.Pending()[0].node.HashRef? && nodeIt.err.value.err.MissingNode?
    {
      nodeIt.WantedAll();
      hide nodeIterator.Valid, nodeIterator.Pending, nodeIterator.Wanted, KeyPaths, Entries, FirstGap;
    }

    /** The node iterator has stopped with `due` still to come. */
    lemma StoppedIs(due: seq<Visit>)
      requires nodeIt.Valid() && KeyPaths(due) && nodeIt.Pending() == due
      requires if due == [] then nodeIt.err == Some(End) else due[0].node.HashRef? && nodeIt.err.Some? && nodeIt.err != Some(End)
      ensures Valid() && Entries(due) == Left() == [] && Lost() == FirstGap(due) && (nodeIt.Error() == None <==> Lost() == None)
    {
      hide nodeIterator.Valid, nodeIterator.Pending, nodeIterator.Wanted;
    }

    lemma MovedIs(rest: seq<Visit>)
      requires nodeIt.Valid() && KeyPaths(rest) && nodeIt.Pending() == rest
      ensures Valid() && Left() == Entries(rest) && Lost() == FirstGap(rest)
    {
      hide nodeIterator.Valid, nodeIterator.Pending, nodeIterator.Wanted, KeyPaths, Entries, FirstGap;
    }

    lemma LeafIs(v: Visit)
      requires Valid() && Proper(v) && nodeIt.path == v.path && nodeIt.Leaf()
      ensures v.node.Val? && Hex(v.path) && nodeIt.Valid()
    {
    }

    lemma NotLeafIs(v: Visit)
      requires Proper(v) && nodeIt.path == v.path && !nodeIt.Leaf()
      ensures !v.node.Val?
    {
    }
  }

  lemma ByteKeyOf(path: bytes) returns (x: bytes)
    requires IsByteKey(path)
    ensures path == KeybytesToHex(x)
  {
    x :| path == KeybytesToHex(x);
  }

  lemma KeyPathsTail(vs: seq<Visit>)
    requires KeyPaths(vs) && vs != []
    ensures KeyPaths(vs[1..]) && Proper(vs[0]) && (vs[0].node.Val? ==> IsByteKey(vs[0].path))
  {
  }

  // ---- what the iterator yields is the trie's content ----

  lemma {:induction false} GapIn(vs: seq<Visit>)
    requires FirstGap(vs).Some?
    ensures FirstGap(vs).value in vs
  {
    if !vs[0].node.HashRef? {
      GapIn(vs[1..]);
    }
  }

  /** The entries are the values among the visits, as far as the first missing node. */
  lemma {:induction false} EntriesIn(vs: seq<Visit>, p: bytes, x: bytes)
    requires Ordered(vs)
    ensures (p, x) in Entries(vs) <==> Visit(p, Val(x)) in vs && (FirstGap(vs) == None || Less(p, FirstGap(vs).value.path))
  {
    var v := Visit(p, Val(x));
    if vs == [] {
    } else if vs[0].node.HashRef? {
      if v in vs {
        LessTotal(p, vs[0].path);
      }
    } else {
      EntriesStep(vs);
      EntriesIn(vs[1..], p, x);
      if v == vs[0] && FirstGap(vs).Some? {
        GapIn(vs[1..]);
      }
    }
  }

  /** Entries come in strictly increasing order. */
  lemma {:induction false} EntriesOrdered(vs: seq<Visit>)
    requires Ordered(vs)
    ensures forall i, j :: 0 <= i < j < |Entries(vs)| ==> Less(Entries(vs)[i].0, Entries(vs)[j].0)
  {
    if vs != [] && !vs[0].node.HashRef? {
      EntriesStep(vs);
      EntriesOrdered(vs[1..]);
      var rest := Entries(vs[1..]);
      forall j | 0 <= j < |rest|
        ensures Less(vs[0].path, rest[j].0)
      {
        EntriesIn(vs[1..], rest[j].0, rest[j].1);
        assert rest[j] in rest;
      }
    }
  }

  /** `k` with `x` is an entry if it is held, its path is not less than `from`, and it comes before the first missing node. */
  ghost predicate YieldedIfDue(db: Store, root: Node, from: bytes, vs: seq<Visit>, k: bytes, x: bytes)
    requires ValidStore(db) && Canon(db, root)
  {
    var p := KeybytesToHex(k);
    var due := Held(db, root, k) == Ok(Some(x)) && !Less(p, from) && (FirstGap(vs) == None || Less(p, FirstGap(vs).value.path));
    (p, x) in Entries(vs) <==> due
  }

  /**
    From a start key on, the entries of a trie's walk are, in strictly increasing order, each key that the trie holds with
    its value, provided the key's path is not less than the start's and comes before the first missing node, if there is one.
   */
  lemma IterationIsContent(db: Store, root: Node, tree: Node, start: bytes)
    requires ValidStore(db) && Canon(db, root) && ByteKeys(db, root) && Denotes(db, root, tree)
    ensures KeyPaths(Walk(tree, []))
    ensures var vs := AtLeast(Walk(tree, []), Unpacked(start)); var es := Entries(vs);
            && (forall i, j :: 0 <= i < j < |es| ==> Less(es[i].0, es[j].0))
            && (forall k, x :: YieldedIfDue(db, root, Unpacked(start), vs, k, x))
  {
    hide *;
    var w, from := Walk(tree, []), Unpacked(start);
    var vs := AtLeast(w, from);
    DenotesCanon(db, root, tree);
    WalkOrdered(db, tree, []);
    WalkKeys(db, root, tree);
    AtLeastIs(w, from);
    EntriesOrdered(vs);
    forall k, x
      ensures YieldedIfDue(db, root, from, vs, k, x)
    {
      Yielding(db, root, tree, from, k, x);
    }
  }

  lemma Yielding(db: Store, root: Node, tree: Node, from: bytes, k: bytes, x: bytes)
    requires ValidStore(db) && Canon(db, root) && Denotes(db, root, tree) && Ordered(Walk(tree, []))
    ensures YieldedIfDue(db, root, from, AtLeast(Walk(tree, []), from), k, x)
  {
    var w := Walk(tree, []);
    AtLeastIs(w, from);
    EntriesIn(AtLeast(w, from), KeybytesToHex(k), x);
    Met(db, root, tree, k, x);
    AtLeastHas(w, from, Visit(KeybytesToHex(k), Val(x)));
    hide Walk, AtLeast, Entries, FirstGap, Held, Denotes, Canon, Less;
  }

  lemma AtLeastHas(vs: seq<Visit>, key: bytes, v: Visit)
    ensures v in AtLeast(vs, key) <==> v in vs && !Less(v.path, key)
  {
    AtLeastIs(vs, key);
  }

  /** The walk meets a key's value. */
  lemma Met(db: Store, root: Node, tree: Node, k: bytes, x: bytes)
    requires ValidStore(db) && Canon(db, root) && Denotes(db, root, tree)
    ensures Visit(KeybytesToHex(k), Val(x)) in Walk(tree, []) <==> Held(db, root, k) == Ok(Some(x))
  {
    hide *;
    HeldIs(db, root, k);
    WalkHas(db, root, tree, [], KeybytesToHex(k), x);
    assert [] + KeybytesToHex(k) == KeybytesToHex(k);
  }

  lemma WalkKeys(db: Store, root: Node, tree: Node)
    requires ValidStore(db) && Canon(db, root) && ByteKeys(db, root) && Denotes(db, root, tree)
    ensures KeyPaths(Walk(tree, []))
  {
    var w := Walk(tree, []);
    DenotesCanon(db, root, tree);
    WalkProper(db, tree, []);
    forall v | v in w && v.node.Val?
      ensures IsByteKey(v.path)
    {
      assert Proper(v);
      FullKeyNotEmpty(v.path);
      FitsIs(db, root, v.path);
      WalkHas(db, root, tree, [], v.path, v.node.val);
      assert [] + v.path == v.path;
    }
  }

  /** With nothing missing there is no gap, and the iteration goes through to the end. */
  lemma {:induction false} NoGap(t: Node, path: bytes)
    requires Loaded(t)
    ensures forall v :: v in Walk(t, path) ==> !v.node.HashRef?
    decreases t, 1, 0
  {
    match t
    case Short(k, c) => NoGap(c, path + k);
    case Full(cs) => NoGapBelow(t, path, 0);
    case _ =>
  }

  lemma {:induction false} NoGapBelow(t: Node, path: bytes, i: nat)
    requires Loaded(t) && t.Full?
    ensures forall v :: v in Children(t.children, path, i) ==> !v.node.HashRef?
    decreases t, 0, |t.children| - i
  {
    if i < |t.children| && i <= 16 {
      NoGapBelow(t, path, i + 1);
      NoGap(t.children[i], path + [i as byte]);
    }
  }

  /** Iterates over a trie's keys and values from a start key on. */
  method NewIterator(trie: Trie, start: bytes, ghost tree: Node) returns (it: Iterator)
    requires trie.Valid() && Denotes(trie.db, trie.root, tree)
    ensures fresh(it) && fresh(it.nodeIt) && it.Valid()
    ensures it.nodeIt.err == None || it.nodeIt.err == Some(End) || it.Lost().Some?
    ensures it.nodeIt.err == None || it.nodeIt.err == Some(End) ==>
              it.Left() == Entries(AtLeast(Walk(tree, []), Unpacked(start)))
    ensures Loaded(tree) ==> it.Lost() == None && it.Left() == Entries(AtLeast(Walk(tree, []), Unpacked(start)))
  {
    trie.ValidIs();
    hide *;
    var nodeIt := new nodeIterator(trie.db, trie.root, start, tree);
    WalkKeys(trie.db, trie.root, tree);
    KeyPathsWithin(nodeIt.Pending(), Walk(tree, []));
    it := new Iterator(nodeIt);
    it.LeftIs();
    LostIs(it);
    if Loaded(tree) {
      NoGap(tree, []);
      NothingLost(nodeIt.Pending(), Walk(tree, []));
    }
  }

  lemma KeyPathsWithin(a: seq<Visit>, b: seq<Visit>)
    requires Within(a, b) && KeyPaths(b)
    ensures KeyPaths(a)
  {
  }

  lemma LostIs(it: Iterator)
    requires it.Valid() && it.Lost() == FirstGap(it.nodeIt.Pending())
    requires it.nodeIt.err.Some? && it.nodeIt.err.value.SeekError? ==> it.nodeIt.Pending() != [] && it.nodeIt.Pending()[0].node.HashRef?
    ensures it.nodeIt.err.Some? && it.nodeIt.err.value.SeekError? ==> it.Lost().Some?
  {
    hide nodeIterator.Valid, nodeIterator.Pending;
  }

  lemma {:induction false} NothingLost(a: seq<Visit>, b: seq<Visit>)
    requires Within(a, b) && forall v :: v in b ==> !v.node.HashRef?
    ensures FirstGap(a) == None
  {
    if a != [] {
      assert a[0] in b;
      NothingLost(a[1..], b);
    }
  }
}
