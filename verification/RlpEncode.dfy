/**
  The encoder. List headers are not written in place: `str` collects everything but them, `lheads`
  remembers where they go, and the output routines splice them in.
 */
module RlpEncode {
  import opened Bytes
  import opened Rlp

  // ---- what the encoder collects, as functions of the value ----

  function StringHeader(n: nat): bytes { Head(0x80, 0xB7, n) }

  function StrPart(v: Value): bytes
    decreases v, 1
  {
    match v
    case Str(s) => if |s| == 1 && s[0] < 128 then s else StringHeader(|s|) + s
    case Lst(vs) => StrParts(vs)
  }

  function StrParts(vs: seq<Value>): bytes
    decreases vs, 0
  {
    if vs == [] then [] else StrPart(vs[0]) + StrParts(vs[1..])
  }

  datatype Entry = Entry(offset: int, size: int)

  /** The list headers of a value whose string data starts at `base`, outermost first. */
  function HeadsOf(v: Value, base: nat): seq<Entry>
    decreases v, 1
  {
    match v
    case Str(_) => []
    case Lst(vs) => [Entry(base, |EncodeAll(vs)|)] + HeadsAll(vs, base)
  }

  function HeadsAll(vs: seq<Value>, base: nat): seq<Entry>
    decreases vs, 0
  {
    if vs == [] then [] else HeadsOf(vs[0], base) + HeadsAll(vs[1..], base + |StrPart(vs[0])|)
  }

  /** How many bytes the list headers of a value take. */
  function HeadSizes(v: Value): nat
    decreases v, 1
  {
    match v
    case Str(_) => 0
    case Lst(vs) => |Head(0xC0, 0xF7, |EncodeAll(vs)|)| + HeadSizesAll(vs)
  }

  function HeadSizesAll(vs: seq<Value>): nat
    decreases vs, 0
  {
    if vs == [] then 0 else HeadSizes(vs[0]) + HeadSizesAll(vs[1..])
  }

  lemma {:induction false} SizesAdd(v: Value)
    ensures |Encode(v)| == |StrPart(v)| + HeadSizes(v)
    decreases v, 1
  {
    if v.Lst? {
      SizesAddAll(v.vs);
    }
  }

  lemma {:induction false} SizesAddAll(vs: seq<Value>)
    ensures |EncodeAll(vs)| == |StrParts(vs)| + HeadSizesAll(vs)
    decreases vs, 0
  {
    if vs != [] {
      SizesAdd(vs[0]);
      SizesAddAll(vs[1..]);
    }
  }

  lemma {:induction false} StrPartsSnoc(vs: seq<Value>, v: Value)
    ensures StrParts(vs + [v]) == StrParts(vs) + StrPart(v)
    ensures HeadSizesAll(vs + [v]) == HeadSizesAll(vs) + HeadSizes(v)
  {
    hide StrPart, HeadSizes;
    if vs == [] {
      assert vs + [v] == [v];
      assert StrParts([v]) == StrPart(v) + [];
    } else {
      StrPartsSnoc(vs[1..], v);
      assert (vs + [v])[1..] == vs[1..] + [v];
    }
  }

  lemma {:induction false} HeadsSnoc(vs: seq<Value>, v: Value, base: nat)
    ensures HeadsAll(vs + [v], base) == HeadsAll(vs, base) + HeadsOf(v, base + |StrParts(vs)|)
  {
    hide StrPart, HeadsOf;
    if vs == [] {
      assert vs + [v] == [v];
      assert HeadsAll([v], base) == HeadsOf(v, base) + [];
    } else {
      var next := base + |StrPart(vs[0])|;
      HeadsSnoc(vs[1..], v, next);
      assert (vs + [v])[1..] == vs[1..] + [v];
      assert next + |StrParts(vs[1..])| == base + |StrParts(vs)|;
    }
  }

  // ---- splicing ----

  function EntryHead(e: Entry): bytes { if e.size < 0 then [0] else Head(0xC0, 0xF7, e.size) }

  /** The output from position `pos` of the string data on, with the headers `hs` spliced in. */
  function Splice(str: bytes, pos: int, hs: seq<Entry>): bytes
    decreases |hs|
  {
    if hs == [] then Between(str, pos, |str|)
    else Between(str, pos, hs[0].offset) + EntryHead(hs[0]) + Splice(str, hs[0].offset, hs[1..])
  }

  function Between(str: bytes, i: int, j: int): bytes {
    if 0 <= i <= j <= |str| then str[i..j] else []
  }

  /** Headers in order of their place in the string data. */
  ghost predicate Placed(str: bytes, pos: int, hs: seq<Entry>)
    decreases |hs|
  {
    if hs == [] then 0 <= pos <= |str|
    else 0 <= pos <= hs[0].offset <= |str| && 0 <= hs[0].size < TWO64 && Placed(str, hs[0].offset, hs[1..])
  }

  /** Splicing a value's headers into its string data yields its encoding, wherever the value stands. */
  lemma {:induction false} SpliceValue(v: Value, str: bytes, pos: nat, hs: seq<Entry>)
    requires pos + |StrPart(v)| <= |str| && str[pos..pos + |StrPart(v)|] == StrPart(v)
    requires Placed(str, pos + |StrPart(v)|, hs) && |Encode(v)| < TWO64
    ensures Placed(str, pos, HeadsOf(v, pos) + hs)
    ensures Splice(str, pos, HeadsOf(v, pos) + hs) == Encode(v) + Splice(str, pos + |StrPart(v)|, hs)
    decreases v, 1
  {
    hide *;
    match v
    case Str(_) =>
      UnfoldStr(v, pos);
      SpliceSkip(str, pos, pos + |StrPart(v)|, hs);
      assert HeadsOf(v, pos) + hs == hs;
    case Lst(vs) =>
      UnfoldList(vs, pos);
      var e := Entry(pos, |EncodeAll(vs)|);
      SpliceValues(vs, str, pos, hs);
      JoinList(str, pos, e, HeadsAll(vs, pos), HeadsOf(v, pos), hs, EncodeAll(vs), Encode(v), Splice(str, pos + |StrPart(v)|, hs));
  }

  /** A header standing at the current position comes out first. */
  lemma JoinList(str: bytes, pos: nat, e: Entry, inner: seq<Entry>, heads: seq<Entry>, hs: seq<Entry>, content: bytes, enc: bytes, tail: bytes)
    requires e.offset == pos && 0 <= e.size < TWO64 && pos <= |str|
    requires Placed(str, pos, inner + hs) && Splice(str, pos, inner + hs) == content + tail
    requires heads == [e] + inner && enc == Head(0xC0, 0xF7, e.size) + content
    ensures Placed(str, pos, heads + hs) && Splice(str, pos, heads + hs) == enc + tail
  {
    hide *;
    assert heads + hs == [e] + (inner + hs);
    SpliceCons(str, pos, e, inner + hs);
    Regroup(Head(0xC0, 0xF7, e.size), content, enc, tail);
  }

  lemma SpliceCons(str: bytes, pos: nat, e: Entry, hs: seq<Entry>)
    requires e.offset == pos <= |str| && 0 <= e.size < TWO64 && Placed(str, pos, hs)
    ensures Placed(str, pos, [e] + hs) && Splice(str, pos, [e] + hs) == Head(0xC0, 0xF7, e.size) + Splice(str, pos, hs)
  {
    assert ([e] + hs)[1..] == hs && ([e] + hs)[0] == e;
    hide Head;
    assert Between(str, pos, pos) + EntryHead(e) == EntryHead(e);
  }

  lemma Regroup(a: bytes, b: bytes, ab: bytes, c: bytes)
    requires ab == a + b
    ensures a + (b + c) == ab + c
  {
  }

  /** A value's output precedes that of the values after it. */
  lemma JoinAll(str: bytes, pos: nat, mid: nat, first: seq<Entry>, rest: seq<Entry>, heads: seq<Entry>, hs: seq<Entry>, a: bytes, b: bytes, enc: bytes, tail: bytes)
    requires Splice(str, pos, first + (rest + hs)) == a + Splice(str, mid, rest + hs) && Splice(str, mid, rest + hs) == b + tail
    requires Placed(str, pos, first + (rest + hs))
    requires heads == first + rest && enc == a + b
    ensures Placed(str, pos, heads + hs) && Splice(str, pos, heads + hs) == enc + tail
  {
    hide *;
    assert heads + hs == first + (rest + hs);
    Regroup(a, b, enc, tail);
  }

  lemma SlicePart(str: bytes, pos: nat, a: bytes, b: bytes, ab: bytes)
    requires ab == a + b && pos + |ab| <= |str| && str[pos..pos + |ab|] == ab
    ensures pos + |a| + |b| == pos + |ab|
    ensures str[pos..pos + |a|] == a && str[pos + |a|..pos + |a| + |b|] == b
  {
    assert ab[..|a|] == a && ab[|a|..] == b;
  }

  lemma UnfoldNone(str: bytes, pos: nat, hs: seq<Entry>)
    ensures StrParts([]) == [] && EncodeAll([]) == [] && HeadsAll([], pos) == []
    ensures HeadsAll([], pos) + hs == hs && EncodeAll([]) + Splice(str, pos, hs) == Splice(str, pos, hs)
  {
  }

  lemma UnfoldStr(v: Value, pos: nat)
    requires v.Str?
    ensures StrPart(v) == Encode(v) && HeadsOf(v, pos) == []
  {
  }

  lemma UnfoldList(vs: seq<Value>, pos: nat)
    ensures StrPart(Lst(vs)) == StrParts(vs)
    ensures Encode(Lst(vs)) == Head(0xC0, 0xF7, |EncodeAll(vs)|) + EncodeAll(vs)
    ensures HeadsOf(Lst(vs), pos) == [Entry(pos, |EncodeAll(vs)|)] + HeadsAll(vs, pos)
  {
  }

  lemma UnfoldAll(vs: seq<Value>, pos: nat)
    requires vs != []
    ensures StrParts(vs) == StrPart(vs[0]) + StrParts(vs[1..])
    ensures EncodeAll(vs) == Encode(vs[0]) + EncodeAll(vs[1..])
    ensures HeadsAll(vs, pos) == HeadsOf(vs[0], pos) + HeadsAll(vs[1..], pos + |StrPart(vs[0])|)
  {
  }

  lemma {:induction false} SpliceValues(vs: seq<Value>, str: bytes, pos: nat, hs: seq<Entry>)
    requires pos + |StrParts(vs)| <= |str| && str[pos..pos + |StrParts(vs)|] == StrParts(vs)
    requires Placed(str, pos + |StrParts(vs)|, hs) && |EncodeAll(vs)| < TWO64
    ensures Placed(str, pos, HeadsAll(vs, pos) + hs)
    ensures Splice(str, pos, HeadsAll(vs, pos) + hs) == EncodeAll(vs) + Splice(str, pos + |StrParts(vs)|, hs)
    decreases vs, 0
  {
    hide *;
    if vs == [] {
      UnfoldNone(str, pos, hs);
    } else {
      UnfoldAll(vs, pos);
      var mid := pos + |StrPart(vs[0])|;
      SlicePart(str, pos, StrPart(vs[0]), StrParts(vs[1..]), StrParts(vs));
      SpliceValues(vs[1..], str, mid, hs);
      SpliceValue(vs[0], str, pos, HeadsAll(vs[1..], mid) + hs);
      JoinAll(str, pos, mid, HeadsOf(vs[0], pos), HeadsAll(vs[1..], mid), HeadsAll(vs, pos), hs,
              Encode(vs[0]), EncodeAll(vs[1..]), EncodeAll(vs), Splice(str, pos + |StrParts(vs)|, hs));
    }
  }

  /** String data before the next header is copied as it is. */
  lemma SpliceSkip(str: bytes, pos: nat, mid: nat, hs: seq<Entry>)
    requires pos <= mid && Placed(str, mid, hs)
    ensures Placed(str, pos, hs)
    ensures mid <= |str| && Splice(str, pos, hs) == str[pos..mid] + Splice(str, mid, hs)
  {
    if hs != [] {
      assert str[pos..hs[0].offset] == str[pos..mid] + str[mid..hs[0].offset];
    }
  }

  /** The encoder's output for one value is the encoding of Appendix B. */
  lemma SpliceIsEncode(v: Value)
    requires |Encode(v)| < TWO64
    ensures Placed(StrPart(v), 0, HeadsOf(v, 0))
    ensures Splice(StrPart(v), 0, HeadsOf(v, 0)) == Encode(v)
  {
    var str := StrPart(v);
    SpliceValue(v, str, 0, []);
    assert HeadsOf(v, 0) + [] == HeadsOf(v, 0);
    assert Splice(str, |str|, []) == [];
  }

  // ---- integers ----

  /** `byte(i >> 8k)`. */
  function ByteAt(i: nat, k: nat): byte { if k == 0 then i % 256 else ByteAt(i / 256, k - 1) }

  /** The minimal bytes of an integer, most significant first; one byte for zero. */
  function PutInt(i: nat): bytes
    requires i < TWO64
  {
    if i < 0x100 then [ByteAt(i, 0)]
    else if i < 0x10000 then [ByteAt(i, 1), ByteAt(i, 0)]
    else if i < 0x1000000 then [ByteAt(i, 2), ByteAt(i, 1), ByteAt(i, 0)]
    else if i < 0x1_0000_0000 then [ByteAt(i, 3), ByteAt(i, 2), ByteAt(i, 1), ByteAt(i, 0)]
    else if i < 0x100_0000_0000 then [ByteAt(i, 4), ByteAt(i, 3), ByteAt(i, 2), ByteAt(i, 1), ByteAt(i, 0)]
    else if i < 0x1_0000_0000_0000 then
      [ByteAt(i, 5), ByteAt(i, 4), ByteAt(i, 3), ByteAt(i, 2), ByteAt(i, 1), ByteAt(i, 0)]
    else if i < 0x100_0000_0000_0000 then
      [ByteAt(i, 6), ByteAt(i, 5), ByteAt(i, 4), ByteAt(i, 3), ByteAt(i, 2), ByteAt(i, 1), ByteAt(i, 0)]
    else
      [ByteAt(i, 7), ByteAt(i, 6), ByteAt(i, 5), ByteAt(i, 4), ByteAt(i, 3), ByteAt(i, 2), ByteAt(i, 1), ByteAt(i, 0)]
  }

  lemma {:induction false} BEBytes(i: nat, j: nat)
    requires j < |BE(i)|
    ensures BE(i)[j] == ByteAt(i, |BE(i)| - 1 - j)
  {
    if j < |BE(i)| - 1 {
      BEBytes(i / 256, j);
    }
  }

  lemma PutIntIsBE(i: nat)
    requires i < TWO64
    ensures PutInt(i) == if i == 0 then [0] else BE(i)
  {
    Pow256Eight();
    if i > 0 {
      PutIntLength(i);
      forall j | 0 <= j < |BE(i)|
        ensures PutInt(i)[j] == BE(i)[j]
      {
        BEBytes(i, j);
      }
    }
  }

  lemma PutIntLength(i: nat)
    requires 0 < i < TWO64
    ensures |PutInt(i)| == |BE(i)|
  {
    Pow256Eight();
    BELength(i, 0); BELength(i, 1); BELength(i, 2); BELength(i, 3); BELength(i, 4);
    BELength(i, 5); BELength(i, 6); BELength(i, 7); BELength(i, 8);
  }
}
