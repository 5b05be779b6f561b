/**
  The serialisation of Appendix B of the Ethereum Yellow Paper, as the recursive definition
  that the encoder and the two decoders of the repository are measured against.
 */
module Rlp {
  import opened Bytes

  /** What the encoder sees: a byte string, or a list of values. */
  datatype Value = Str(s: bytes) | Lst(vs: seq<Value>)

  /** A string or list header. `byte(x)` conversions truncate, as in Go. */
  function Head(small: byte, large: byte, size: nat): (h: bytes)
    ensures h != []
  {
    if size < 56 then [(small + size) % 256]
    else [(large + |BE(size)|) % 256] + BE(size)
  }

  function Encode(v: Value): bytes
    decreases v, 1
  {
    match v
    case Str(s) => if |s| == 1 && s[0] < 128 then s else Head(0x80, 0xB7, |s|) + s
    case Lst(vs) => Head(0xC0, 0xF7, |EncodeAll(vs)|) + EncodeAll(vs)
  }

  /** The concatenated encodings of a list's elements. */
  function EncodeAll(vs: seq<Value>): bytes
    decreases vs, 0
  {
    if vs == [] then [] else Encode(vs[0]) + EncodeAll(vs[1..])
  }

  lemma {:induction false} EncodeAllConcat(vs: seq<Value>, ws: seq<Value>)
    ensures EncodeAll(vs + ws) == EncodeAll(vs) + EncodeAll(ws)
  {
    hide Encode;
    if vs == [] {
      assert vs + ws == ws;
    } else {
      EncodeAllConcat(vs[1..], ws);
      assert (vs + ws)[1..] == vs[1..] + ws;
      assert EncodeAll(vs + ws) == Encode(vs[0]) + (EncodeAll(vs[1..]) + EncodeAll(ws));
    }
  }

  lemma EncodeAllSnoc(vs: seq<Value>, v: Value)
    ensures EncodeAll(vs + [v]) == EncodeAll(vs) + Encode(v)
  {
    EncodeAllConcat(vs, [v]);
    assert EncodeAll([v]) == Encode(v) + EncodeAll([]);
  }

  lemma Pow256Eight()
    ensures Pow256(8) == TWO64
    ensures Pow256(1) == 0x100 && Pow256(2) == 0x10000 && Pow256(3) == 0x1000000 && Pow256(4) == 0x1_0000_0000
    ensures Pow256(5) == 0x100_0000_0000 && Pow256(6) == 0x1_0000_0000_0000 && Pow256(7) == 0x100_0000_0000_0000
  {
    assert Pow256(1) == 256 * Pow256(0);
    assert Pow256(2) == 256 * Pow256(1);
    assert Pow256(3) == 256 * Pow256(2);
    assert Pow256(4) == 256 * Pow256(3);
    assert Pow256(5) == 256 * Pow256(4);
    assert Pow256(6) == 256 * Pow256(5);
    assert Pow256(7) == 256 * Pow256(6);
    assert Pow256(8) == 256 * Pow256(7);
  }

  lemma SizeBytes(n: nat)
    requires n < TWO64
    ensures |BE(n)| <= 8 && (n >= 56 ==> |BE(n)| >= 1)
  {
    Pow256Eight();
    BELength(n, 8);
    BELength(n, 0);
  }

  // ---- headers say what follows them ----

  datatype Kind = Byte | String | List

  /** The three kinds of encodings: a bare byte, or a header in front of the content. */
  function Frame(k: Kind, content: bytes): bytes {
    match k
    case Byte => content
    case String => Head(0x80, 0xB7, |content|) + content
    case List => Head(0xC0, 0xF7, |content|) + content
  }

  /** A frame the encoder could have produced. */
  predicate Canonical(k: Kind, content: bytes) {
    match k
    case Byte => |content| == 1 && content[0] < 128
    case String => !(|content| == 1 && content[0] < 128)
    case List => true
  }

  /** A frame with a minimal header; whether a string should have been a bare byte is left open. */
  predicate Lax(k: Kind, content: bytes) {
    k == Byte ==> |content| == 1 && content[0] < 128
  }

  function KindOf(v: Value): Kind {
    match v
    case Str(s) => if |s| == 1 && s[0] < 128 then Byte else String
    case Lst(_) => List
  }

  function ContentOf(v: Value): bytes {
    match v
    case Str(s) => s
    case Lst(vs) => EncodeAll(vs)
  }

  lemma EncodeIsFrame(v: Value)
    ensures Encode(v) == Frame(KindOf(v), ContentOf(v)) && Canonical(KindOf(v), ContentOf(v))
  {
  }

  /** Header bytes fit: no conversion to a byte truncates. */
  lemma HeadIs(small: byte, large: byte, size: nat)
    requires (small == 0x80 && large == 0xB7) || (small == 0xC0 && large == 0xF7)
    requires size < TWO64
    ensures size < 56 ==> Head(small, large, size) == [small + size]
    ensures size >= 56 ==> 1 <= |BE(size)| <= 8 && Head(small, large, size) == [large + |BE(size)|] + BE(size)
  {
    SizeBytes(size);
    hide BE;
  }

  /** What the first byte of a header says of the size behind it. */
  lemma HeadByte(small: byte, large: byte, content: bytes)
    requires (small == 0x80 && large == 0xB7) || (small == 0xC0 && large == 0xF7)
    requires |content| < TWO64
    ensures var f := Head(small, large, |content|) + content;
            && (|content| < 56 ==> f[0] == small + |content| && f[1..] == content)
            && (|content| >= 56 ==> 1 <= |BE(|content|)| <= 8 && f[0] == large + |BE(|content|)| && f[1..] == BE(|content|) + content)
  {
    HeadIs(small, large, |content|);
    hide Head, BE;
    if |content| >= 56 {
      assert ([large + |BE(|content|)|] + BE(|content|) + content)[1..] == BE(|content|) + content;
    }
  }

  /** The first byte of a frame, and what follows it. */
  lemma FrameHead(k: Kind, content: bytes)
    requires Lax(k, content) && |content| < TWO64
    ensures var f := Frame(k, content);
            && f != []
            && (k == Byte <==> f[0] < 0x80)
            && (k == String && |content| < 56 <==> 0x80 <= f[0] < 0xB8)
            && (k == String && |content| >= 56 <==> 0xB8 <= f[0] < 0xC0)
            && (k == List && |content| < 56 <==> 0xC0 <= f[0] < 0xF8)
            && (k == List && |content| >= 56 <==> 0xF8 <= f[0])
    ensures var f := Frame(k, content);
            && (0x80 <= f[0] < 0xB8 ==> |content| == f[0] - 0x80 && f[1..] == content)
            && (0xC0 <= f[0] < 0xF8 ==> |content| == f[0] - 0xC0 && f[1..] == content)
            && (0xB8 <= f[0] < 0xC0 ==> |BE(|content|)| == f[0] - 0xB7 && f[1..] == BE(|content|) + content)
            && (0xF8 <= f[0] ==> |BE(|content|)| == f[0] - 0xF7 && f[1..] == BE(|content|) + content)
  {
    HeadByte(0x80, 0xB7, content);
    HeadByte(0xC0, 0xF7, content);
    hide Head, BE;
  }

  /** Equal long sizes from equal size bytes. */
  lemma SizePrefix(m: nat, n: nat, b: bytes)
    requires BE(m) <= b && BE(n) <= b && |BE(m)| == |BE(n)|
    ensures m == n
  {
    FromBEOfBE(m);
    FromBEOfBE(n);
  }

  /** Two frames that start alike announce the same kind and size. */
  lemma FrameSize(k: Kind, c: bytes, k': Kind, c': bytes, b: bytes)
    requires Lax(k, c) && Lax(k', c') && |c| < TWO64 && |c'| < TWO64
    requires Frame(k, c) <= b && Frame(k', c') <= b
    ensures k == k' && |c| == |c'|
  {
    FrameHead(k, c);
    FrameHead(k', c');
    var f, f' := Frame(k, c), Frame(k', c');
    assert f[0] == b[0] == f'[0];
    hide Frame, Head, BE;
    if 0xB8 <= f[0] < 0xC0 || 0xF8 <= f[0] {
      assert f[1..] <= b[1..] && f'[1..] <= b[1..];
      assert BE(|c|) <= b[1..] && BE(|c'|) <= b[1..];
      SizePrefix(|c|, |c'|, b[1..]);
    }
  }

  /** No frame is a prefix of another: the first bytes of a string determine the frame it starts with. */
  lemma FramePrefix(k: Kind, c: bytes, k': Kind, c': bytes, b: bytes)
    requires Lax(k, c) && Lax(k', c') && |c| < TWO64 && |c'| < TWO64
    requires Frame(k, c) <= b && Frame(k', c') <= b
    ensures k == k' && c == c'
  {
    FrameSize(k, c, k', c', b);
    var h := match k case Byte => [] case String => Head(0x80, 0xB7, |c|) case List => Head(0xC0, 0xF7, |c|);
    assert Frame(k, c) == h + c && Frame(k, c') == h + c';
    hide Frame, Head;
    assert b[|h|..|h| + |c|] == c;
    assert b[|h|..|h| + |c|] == c';
  }

  // ---- encodings are prefix free ----

  lemma {:induction false} EncodePrefix(v: Value, w: Value, b: bytes)
    requires Encode(v) <= b && Encode(w) <= b && |b| < TWO64
    ensures v == w
    decreases v, 1
  {
    EncodeIsFrame(v);
    EncodeIsFrame(w);
    FramePrefix(KindOf(v), ContentOf(v), KindOf(w), ContentOf(w), b);
    if v.Lst? {
      EncodeAllInjective(v.vs, w.vs, EncodeAll(v.vs));
    }
  }

  lemma {:induction false} EncodeAllInjective(vs: seq<Value>, ws: seq<Value>, b: bytes)
    requires EncodeAll(vs) == EncodeAll(ws) == b && |b| < TWO64
    ensures vs == ws
    decreases vs, 0
  {
    if vs == [] || ws == [] {
      if vs != [] {
        EncodeNonEmpty(vs[0]);
      }
      if ws != [] {
        EncodeNonEmpty(ws[0]);
      }
    } else {
      assert Encode(vs[0]) <= b && Encode(ws[0]) <= b;
      EncodePrefix(vs[0], ws[0], b);
      assert EncodeAll(vs[1..]) == b[|Encode(vs[0])|..] == EncodeAll(ws[1..]);
      EncodeAllInjective(vs[1..], ws[1..], b[|Encode(vs[0])|..]);
      assert vs == [vs[0]] + vs[1..] && ws == [ws[0]] + ws[1..];
    }
  }

  lemma EncodeNonEmpty(v: Value)
    ensures Encode(v) != []
  {
  }

  /** If the encodings of `vs` are followed by more in the encoding of a longer list, that list goes on with a value encoded there. */
  lemma {:induction false} EncodeAllRest(vs: seq<Value>, ws: seq<Value>, rest: bytes)
    requires EncodeAll(ws) == EncodeAll(vs) + rest && rest != [] && |EncodeAll(ws)| < TWO64
    ensures |ws| > |vs| && Encode(ws[|vs|]) <= rest
  {
    if ws == [] {
      assert false;
    } else if vs == [] {
      assert EncodeAll(vs) + rest == rest;
      assert Encode(ws[0]) <= rest;
    } else {
      var b := EncodeAll(ws);
      assert Encode(vs[0]) <= b && Encode(ws[0]) <= b;
      EncodePrefix(vs[0], ws[0], b);
      assert b[|Encode(vs[0])|..] == EncodeAll(vs[1..]) + rest;
      EncodeAllRest(vs[1..], ws[1..], rest);
    }
  }
}
