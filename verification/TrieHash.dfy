/** Hashing and serialising trie nodes, and reading them back. */
module TrieHash {
  import opened Bytes
  import opened Rlp
  import opened RlpRaw
  import RlpDecode
  import opened TrieNode
  import opened TrieEncoding
  import opened Wrappers

  type Hasher = bytes -> Word

  datatype Result<+T> = Ok(value: T) | Err

  // ---- reading nodes ----

  /** Parses the encoding of a node; what follows it is ignored. */
  function decodeNode(buf: bytes): Result<Node>
    decreases |buf|, 0
  {
    if buf == [] then Err
    else
      var l := SplitList(buf);
      if l.Err? then Err
      else
        ContentShorter(buf);
        var c := Count(l.value.0);
        if c == RlpDecode.Ok(2) then decodeShort(l.value.0)
        else if c == RlpDecode.Ok(17) then decodeFull(l.value.0)
        else Err
  }

  lemma ContentShorter(b: bytes)
    ensures SplitList(b).Ok? ==> |SplitList(b).value.0| < |b| && |SplitList(b).value.1| < |b|
    ensures SplitString(b).Ok? ==> |SplitString(b).value.0| <= |b| && |SplitString(b).value.1| < |b|
  {
  }

  function decodeShort(elems: bytes): Result<Node>
    decreases |elems|, 2
  {
    ContentShorter(elems);
    var k := SplitString(elems);
    if k.Err? then Err
    else
      var key := CompactToHex(k.value.0);
      if key == None then Err
      else if hasTerm(key.value) then
        var v := SplitString(k.value.1);
        if v.Err? then Err else Ok(Short(key.value, Val(v.value.0)))
      else
        var r := decodeRef(k.value.1);
        if r.Err? then Err else Ok(Short(key.value, r.value.0))
  }

  function decodeFull(elems: bytes): Result<Node>
    decreases |elems|, 3
  {
    var cs := decodeRefs(elems, 16);
    if cs.Err? then Err
    else
      var v := SplitString(cs.value.1);
      if v.Err? then Err
      else Ok(Full(cs.value.0 + [if v.value.0 == [] then Nil else Val(v.value.0)]))
  }

  /** The first `n` references, and what follows them. */
  function decodeRefs(elems: bytes, n: nat): (r: Result<(seq<Node>, bytes)>)
    ensures r.Ok? ==> |r.value.0| == n
    decreases |elems|, 2, n
  {
    if n == 0 then Ok(([], elems))
    else
      var r := decodeRef(elems);
      if r.Err? then Err
      else
        var rest := decodeRefs(r.value.1, n - 1);
        if rest.Err? then Err else Ok(([r.value.0] + rest.value.0, rest.value.1))
  }

  /** A child: nothing, a hash, or an embedded node no larger than a hash. */
  function decodeRef(buf: bytes): (r: Result<(Node, bytes)>)
    ensures r.Ok? ==> |r.value.1| < |buf|
    decreases |buf|, 1
  {
    var p := Split(buf);
    if p.Err? then Err
    else if p.value.kind == List then
      if |buf| - |p.value.rest| > 32 then Err
      else
        var n := decodeNode(buf);
        if n.Err? then Err else Ok((n.value, p.value.rest))
    else if p.value.kind == String && p.value.content == [] then Ok((Nil, p.value.rest))
    else if p.value.kind == String && |p.value.content| == 32 then Ok((HashRef(p.value.content), p.value.rest))
    else Err
  }

  /** Bytes that are no list, or a list of another length than two or seventeen, are no node. */
  lemma NodeRejects(buf: bytes)
    requires SplitList(buf).Err? || (Count(SplitList(buf).value.0) != RlpDecode.Ok(2) && Count(SplitList(buf).value.0) != RlpDecode.Ok(17))
    ensures decodeNode(buf).Err?
  {
  }

  /** A child is rejected if it is a list of more than 32 bytes, or a string that is neither empty nor a hash. */
  lemma RefRejects(buf: bytes)
    requires Split(buf).Err? || (Split(buf).value.kind == List && |buf| - |Split(buf).value.rest| > 32)
             || (Split(buf).value.kind != List && Split(buf).value.content != [] && |Split(buf).value.content| != 32)
    ensures decodeRef(buf).Err?
  {
  }

  // ---- collapsed nodes ----

  /** What can stand in a child slot of a collapsed node. */
  predicate Slot(n: Node)
    decreases n, 1
  {
    match n
    case Nil => true
    case Val(_) => false
    case HashRef(h) => |h| == 32
    case _ => Collapsed(n) && |Serialise(n)| <= 32
  }

  /** A node ready to be serialised: compact keys, hashes or small nodes for children, values behind terminators. */
  predicate Collapsed(n: Node)
    decreases n, 0
  {
    match n
    case Short(k, c) =>
      && CompactToHex(k).Some? && Hex(CompactToHex(k).value) && k == HexToCompact(CompactToHex(k).value)
      && if hasTerm(CompactToHex(k).value) then c.Val? else Slot(c)
    case Full(cs) =>
      && |cs| == 17 && (forall i :: 0 <= i < 16 ==> Slot(cs[i])) && (cs[16].Nil? || (cs[16].Val? && cs[16].val != []))
    case _ => false
  }

  /** The live form of a collapsed node: its keys, and those of nodes inside it, as nibbles. */
  function expandNode(n: Node): Node
  {
    match n
    case Short(k, c) => Short(if CompactToHex(k).Some? then CompactToHex(k).value else [], expandNode(c))
    case Full(cs) => Full(seq(|cs|, i requires 0 <= i < |cs| => expandNode(cs[i])))
    case _ => n
  }

  function expandNodes(cs: seq<Node>): (r: seq<Node>)
    ensures |r| == |cs|
  {
    if cs == [] then [] else [expandNode(cs[0])] + expandNodes(cs[1..])
  }

  lemma {:induction false} ExpandedAre(cs: seq<Node>)
    ensures forall i :: 0 <= i < |cs| ==> expandNodes(cs)[i] == expandNode(cs[i])
  {
    if cs != [] {
      ExpandedAre(cs[1..]);
    }
  }

  lemma ExpandFull(cs: seq<Node>)
    ensures expandNode(Full(cs)) == Full(expandNodes(cs))
  {
    ExpandedAre(cs);
    hide expandNodes;
    assert expandNode(Full(cs)).children == expandNodes(cs);
  }

  // ---- reading what was serialised ----

  lemma Regroup(a: bytes, b: bytes, c: bytes)
    ensures a + b + c == a + (b + c)
  {
  }

  /** The list header split off. */
  lemma ListOff(vs: seq<Value>, rest: bytes)
    requires |Encode(Lst(vs)) + rest| < TWO64
    ensures Encode(Lst(vs)) + rest != []
    ensures SplitList(Encode(Lst(vs)) + rest) == RlpDecode.Ok((EncodeAll(vs), rest))
    ensures Split(Encode(Lst(vs)) + rest) == RlpDecode.Ok(Parts(List, EncodeAll(vs), rest))
    ensures |EncodeAll(vs)| < TWO64 && Count(EncodeAll(vs)) == RlpDecode.Ok(|vs|)
  {
    SplitListOfEncoding(vs, rest);
    EncodeIsFrame(Lst(vs));
    EncodeNonEmpty(Lst(vs));
    ContentFitsIn(Lst(vs));
    SplitComplete(List, EncodeAll(vs), rest);
    hide Encode, EncodeAll, Split, SplitList, Frame;
    CountOfEncodings(vs);
  }

  lemma ContentFitsIn(v: Value)
    ensures |ContentOf(v)| <= |Encode(v)|
  {
  }

  /** A string split off. */
  lemma StringOff(s: bytes, rest: bytes)
    requires |Encode(Str(s)) + rest| < TWO64
    ensures SplitString(Encode(Str(s)) + rest) == RlpDecode.Ok((s, rest))
    ensures Split(Encode(Str(s)) + rest) == RlpDecode.Ok(Parts(KindOf(Str(s)), s, rest))
  {
    SplitStringOfEncoding(s, rest);
    EncodeIsFrame(Str(s));
    SplitComplete(KindOf(Str(s)), s, rest);
    hide Encode, Split, SplitString, Frame;
  }

  lemma TwoEncoded(a: Value, b: Value)
    ensures EncodeAll([a, b]) == Encode(a) + Encode(b)
  {
    assert [a, b] == [a] + [b];
    EncodeAllSnoc([a], b);
    assert EncodeAll([a]) == Encode(a) + EncodeAll([]);
  }

  lemma ShortSerialised(k: bytes, c: Node)
    ensures Serialise(Short(k, c)) == Encode(Lst([Str(k), ToValue(c)]))
    ensures EncodeAll([Str(k), ToValue(c)]) == Encode(Str(k)) + Serialise(c)
  {
    TwoEncoded(Str(k), ToValue(c));
  }

  /** A serialised node is read back as its live form. */
  lemma {:induction false} DecodeBack(n: Node, rest: bytes)
    requires Collapsed(n) && |Serialise(n) + rest| < TWO64
    ensures decodeNode(Serialise(n) + rest) == Ok(expandNode(n))
    decreases n, 0
  {
    hide *;
    CollapsedKind(n);
    if n.Short? {
      var vs := [Str(n.key), ToValue(n.child)];
      ShortSerialised(n.key, n.child);
      ListOff(vs, rest);
      DecodeShortBack(n);
      DecodeTwo(Serialise(n) + rest, EncodeAll(vs), rest);
    } else {
      var vs := ToValues(n.children);
      FullSerialised(n.children);
      ListOff(vs, rest);
      DecodeFullBack(n);
      DecodeSeventeen(Serialise(n) + rest, EncodeAll(vs), rest);
    }
  }

  lemma CollapsedKind(n: Node)
    requires Collapsed(n)
    ensures n.Short? || (n.Full? && |n.children| == 17)
  {
  }

  /** A list of two is a short node, one of seventeen a full node. */
  lemma DecodeTwo(buf: bytes, content: bytes, rest: bytes)
    requires buf != [] && SplitList(buf) == RlpDecode.Ok((content, rest)) && Count(content) == RlpDecode.Ok(2)
    ensures decodeNode(buf) == decodeShort(content)
  {
    ContentShorter(buf);
    hide SplitList, Count, decodeShort, decodeFull;
  }

  lemma DecodeSeventeen(buf: bytes, content: bytes, rest: bytes)
    requires buf != [] && SplitList(buf) == RlpDecode.Ok((content, rest)) && Count(content) == RlpDecode.Ok(17)
    ensures decodeNode(buf) == decodeFull(content)
  {
    ContentShorter(buf);
    hide SplitList, Count, decodeShort, decodeFull;
  }

  lemma {:induction false} DecodeShortBack(n: Node)
    requires n.Short? && Collapsed(n) && |Encode(Str(n.key)) + Serialise(n.child)| < TWO64
    ensures decodeShort(Encode(Str(n.key)) + Serialise(n.child)) == Ok(expandNode(n))
    decreases n, 0, 0
  {
    StringOff(n.key, Serialise(n.child));
    var key := CompactToHex(n.key).value;
    assert Serialise(n.child) + [] == Serialise(n.child);
    if hasTerm(key) {
      StringOff(n.child.val, []);
      hide Encode, SplitString, CompactToHex, Collapsed;
    } else {
      RefBack(n.child, []);
      hide Encode, SplitString, CompactToHex, Collapsed, Serialise;
    }
  }

  lemma {:induction false} RefBack(n: Node, rest: bytes)
    requires Slot(n) && |Serialise(n) + rest| < TWO64
    ensures decodeRef(Serialise(n) + rest) == Ok((expandNode(n), rest))
    decreases n, 1
  {
    match n
    case Nil =>
      StringOff([], rest);
      RefString([], rest);
    case HashRef(h) =>
      StringOff(h, rest);
      RefString(h, rest);
    case Short(k, c) =>
      ShortSerialised(k, c);
      ListOff([Str(k), ToValue(c)], rest);
      DecodeBack(n, rest);
      hide *;
      RefList(Serialise(n) + rest, EncodeAll([Str(k), ToValue(c)]), rest, expandNode(n));
    case Full(cs) =>
      FullSerialised(cs);
      ListOff(ToValues(cs), rest);
      DecodeBack(n, rest);
      hide *;
      RefList(Serialise(n) + rest, EncodeAll(ToValues(cs)), rest, expandNode(n));
  }

  lemma FullSerialised(cs: seq<Node>)
    ensures Serialise(Full(cs)) == Encode(Lst(ToValues(cs)))
  {
  }

  lemma RefList(buf: bytes, content: bytes, rest: bytes, n: Node)
    requires Split(buf) == RlpDecode.Ok(Parts(List, content, rest)) && decodeNode(buf) == Ok(n) && |buf| - |rest| <= 32
    ensures decodeRef(buf) == Ok((n, rest))
  {
  }

  lemma RefString(s: bytes, rest: bytes)
    requires (s == [] || |s| == 32) && |Encode(Str(s)) + rest| < TWO64
    requires Split(Encode(Str(s)) + rest) == RlpDecode.Ok(Parts(KindOf(Str(s)), s, rest))
    ensures decodeRef(Encode(Str(s)) + rest) == Ok((if s == [] then Nil else HashRef(s), rest))
  {
    hide Split, Encode;
  }

  lemma {:induction false} RefsBack(cs: seq<Node>, rest: bytes)
    requires (forall i :: 0 <= i < |cs| ==> Slot(cs[i])) && |EncodeAll(ToValues(cs)) + rest| < TWO64
    ensures decodeRefs(EncodeAll(ToValues(cs)) + rest, |cs|) == Ok((expandNodes(cs), rest))
    decreases cs, 0
  {
    if cs == [] {
      assert EncodeAll(ToValues(cs)) + rest == rest;
    } else {
      var more := EncodeAll(ToValues(cs[1..])) + rest;
      Regroup(Encode(ToValue(cs[0])), EncodeAll(ToValues(cs[1..])), rest);
      assert ToValues(cs)[1..] == ToValues(cs[1..]);
      RefBack(cs[0], more);
      RefsBack(cs[1..], rest);
      hide decodeRef, Encode, expandNode, Slot;
    }
  }

  lemma {:induction false} DecodeFullBack(n: Node)
    requires n.Full? && Collapsed(n) && |EncodeAll(ToValues(n.children))| < TWO64
    ensures decodeFull(EncodeAll(ToValues(n.children))) == Ok(expandNode(n))
    decreases n, 0, 0
  {
    var cs := n.children;
    var kids, last := cs[..16], cs[16];
    LastOff(cs);
    RefsBack(kids, Encode(ToValue(last)));
    assert Encode(ToValue(last)) + [] == Encode(ToValue(last));
    StringOff(if last.Nil? then [] else last.val, []);
    ExpandFull(cs);
    ExpandSplit(cs);
    hide decodeRefs, Encode, EncodeAll, SplitString, Slot, expandNodes;
  }

  lemma LastOff(cs: seq<Node>)
    requires |cs| == 17
    ensures EncodeAll(ToValues(cs)) == EncodeAll(ToValues(cs[..16])) + Encode(ToValue(cs[16]))
  {
    assert ToValues(cs) == ToValues(cs[..16]) + [ToValue(cs[16])];
    EncodeAllSnoc(ToValues(cs[..16]), ToValue(cs[16]));
  }

  lemma ExpandSplit(cs: seq<Node>)
    requires |cs| == 17 && (cs[16].Nil? || cs[16].Val?)
    ensures expandNodes(cs) == expandNodes(cs[..16]) + [cs[16]]
  {
    ExpandedAre(cs);
    ExpandedAre(cs[..16]);
    hide expandNodes;
  }
}
