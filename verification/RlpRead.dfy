/** What a decoder learns from the first bytes of its input. */
module RlpRead {
  import opened Bytes
  import opened Rlp

  /** `w` starts with a well-formed header of `hl` bytes announcing `size` bytes; a bare byte is its own header. */
  ghost predicate HeadOk(w: bytes, k: Kind, size: nat, hl: nat) {
    match k
    case Byte => w != [] && w[0] < 0x80 && hl == 1 && size == 0
    case String => hl <= |w| && size < TWO64 && w[..hl] == Head(0x80, 0xB7, size)
    case List => hl <= |w| && size < TWO64 && w[..hl] == Head(0xC0, 0xF7, size)
  }

  /** Nothing an encoder or a header-copying reader could accept starts `w`. */
  ghost predicate NoFrame(w: bytes) {
    forall k, c :: Lax(k, c) && |c| < TWO64 ==> !(Frame(k, c) <= w)
  }

  ghost predicate NoValue(w: bytes) {
    forall v :: !(Encode(v) <= w)
  }

  ghost predicate NoString(w: bytes) {
    forall s :: !(Encode(Str(s)) <= w)
  }

  ghost predicate NoList(w: bytes) {
    forall vs :: !(Encode(Lst(vs)) <= w)
  }

  lemma NoFrameNoValue(w: bytes)
    requires NoFrame(w) && |w| < TWO64
    ensures NoValue(w) && NoString(w) && NoList(w)
  {
    forall v ensures !(Encode(v) <= w) {
      EncodeIsFrame(v);
      ContentFits(KindOf(v), ContentOf(v));
      hide Frame, Encode, ContentOf, KindOf;
    }
  }

  lemma ContentFits(k: Kind, c: bytes)
    requires Canonical(k, c)
    ensures Lax(k, c) && |c| <= |Frame(k, c)|
  {
  }

  // ---- the first byte ----

  lemma ByteHead(w: bytes)
    requires w != [] && w[0] < 0x80
    ensures HeadOk(w, Byte, 0, 1)
  {
  }

  lemma ShortHead(w: bytes)
    requires w != [] && (0x80 <= w[0] < 0xB8 || 0xC0 <= w[0] < 0xF8)
    ensures w[0] < 0xB8 ==> HeadOk(w, String, w[0] - 0x80, 1)
    ensures w[0] >= 0xC0 ==> HeadOk(w, List, w[0] - 0xC0, 1)
  {
  }

  /** How many size bytes a long header has. */
  function SizeBytesAfter(b: byte): (n: nat)
    requires 0xB8 <= b < 0xC0 || 0xF8 <= b
    ensures 1 <= n <= 8
  {
    if b < 0xC0 then b - 0xB7 else b - 0xF7
  }

  lemma LongHead(w: bytes, n: nat)
    requires w != [] && (0xB8 <= w[0] < 0xC0 || 0xF8 <= w[0]) && n == SizeBytesAfter(w[0])
    requires |w| >= 1 + n && w[1] != 0 && FromBE(w[1..1 + n]) >= 56
    ensures var size := FromBE(w[1..1 + n]);
            HeadOk(w, if w[0] < 0xC0 then String else List, size, 1 + n)
  {
    var b := w[1..1 + n];
    BEOfFromBE(b);
    FromBEBound(b);
    BELength(FromBE(b), 8);
    Pow256Eight();
    hide FromBE;
    var size := FromBE(b);
    assert size < TWO64;
    HeadIs(if w[0] < 0xC0 then 0x80 else 0xC0, if w[0] < 0xC0 then 0xB7 else 0xF7, size);
    hide Head, BE, Pow256;
    assert w[..1 + n] == [w[0]] + b;
  }

  /** Where the size bytes are cut off, start with zero or denote a small size, nothing can be decoded. */
  lemma NoLongHead(w: bytes, n: nat)
    requires w != [] && (0xB8 <= w[0] < 0xC0 || 0xF8 <= w[0]) && n == SizeBytesAfter(w[0])
    requires |w| < 1 + n || w[1] == 0 || FromBE(w[1..1 + n]) < 56
    ensures NoFrame(w)
  {
    forall k, c | Lax(k, c) && |c| < TWO64
      ensures !(Frame(k, c) <= w)
    {
      FrameHead(k, c);
      if Frame(k, c) <= w {
        LongSize(w, n, k, c);
        FromBEOfBE(|c|);
      }
    }
  }

  lemma LongSize(w: bytes, n: nat, k: Kind, c: bytes)
    requires w != [] && (0xB8 <= w[0] < 0xC0 || 0xF8 <= w[0]) && n == SizeBytesAfter(w[0])
    requires Lax(k, c) && |c| < TWO64 && Frame(k, c) <= w
    ensures |c| >= 56 && |w| >= 1 + n && w[1..1 + n] == BE(|c|) && n == |BE(|c|)| && w[1] == BE(|c|)[0]
  {
    FrameHead(k, c);
    hide Frame, BE, Lax;
    var f := Frame(k, c);
    assert f[0] == w[0];
    assert f[1..] == BE(|c|) + c;
    assert f[1..1 + n] == f[1..][..n] == BE(|c|);
  }

  lemma NoFrameAtEnd(w: bytes)
    requires w == []
    ensures NoFrame(w)
  {
    forall k, c | Lax(k, c) && |c| < TWO64
      ensures !(Frame(k, c) <= w)
    {
      FrameHead(k, c);
    }
  }

  // ---- after the header ----

  /** A header fixes kind and content of whatever frame starts there. */
  lemma HeadFixes(w: bytes, k: Kind, size: nat, hl: nat, k': Kind, c: bytes)
    requires HeadOk(w, k, size, hl) && Lax(k', c) && |c| < TWO64 && Frame(k', c) <= w
    ensures k' == k
    ensures k == Byte ==> c == w[..1]
    ensures k != Byte ==> |c| == size && hl + size <= |w| && c == w[hl..hl + size] && Frame(k, c) == w[..hl + size]
  {
    KindFixes(w, k, size, hl, k', c);
    hide *;
    if k == Byte {
      ByteFrame(w, c);
    } else {
      FrameSplit(w, k, size, hl, c);
    }
  }

  lemma KindFixes(w: bytes, k: Kind, size: nat, hl: nat, k': Kind, c: bytes)
    requires HeadOk(w, k, size, hl) && Lax(k', c) && |c| < TWO64 && Frame(k', c) <= w
    ensures k' == k && (k != Byte ==> |c| == size)
  {
    hide *;
    FrameFirst(w, k', c);
    HeadFirst(w, k, size, hl);
    if 0xB8 <= w[0] < 0xC0 || 0xF8 <= w[0] {
      LongFixes(w, k, size, hl, k', c);
    }
  }

  /** What the first byte says of the header. */
  lemma HeadFirst(w: bytes, k: Kind, size: nat, hl: nat)
    requires HeadOk(w, k, size, hl)
    ensures w != []
    ensures k == Byte <==> w[0] < 0x80
    ensures k == String <==> 0x80 <= w[0] < 0xC0
    ensures 0x80 <= w[0] < 0xB8 ==> size == w[0] - 0x80
    ensures 0xC0 <= w[0] < 0xF8 ==> size == w[0] - 0xC0
  {
    HeadBytes(w, k, size, hl);
    hide *;
  }

  lemma LongFixes(w: bytes, k: Kind, size: nat, hl: nat, k': Kind, c: bytes)
    requires HeadOk(w, k, size, hl) && Lax(k', c) && |c| < TWO64 && Frame(k', c) <= w && w != []
    requires 0xB8 <= w[0] < 0xC0 || 0xF8 <= w[0]
    ensures |c| == size
  {
    hide *;
    LongHeadIs(w, k, size, hl);
    LongSizeIs(w, k', c);
    SameBE(|c|, size);
  }

  lemma LongHeadIs(w: bytes, k: Kind, size: nat, hl: nat)
    requires HeadOk(w, k, size, hl) && w != [] && (0xB8 <= w[0] < 0xC0 || 0xF8 <= w[0])
    ensures |w| >= 1 + SizeBytesAfter(w[0]) && BE(size) == w[1..1 + SizeBytesAfter(w[0])]
  {
    HeadBytes(w, k, size, hl);
    HeadLength(w, k, size, hl);
    hide *;
  }

  lemma HeadLength(w: bytes, k: Kind, size: nat, hl: nat)
    requires HeadOk(w, k, size, hl)
    ensures hl <= |w|
  {
  }

  lemma LongSizeIs(w: bytes, k: Kind, c: bytes)
    requires Lax(k, c) && |c| < TWO64 && Frame(k, c) <= w && w != [] && (0xB8 <= w[0] < 0xC0 || 0xF8 <= w[0])
    ensures |w| >= 1 + SizeBytesAfter(w[0]) && BE(|c|) == w[1..1 + SizeBytesAfter(w[0])]
  {
    hide *;
    LongSize(w, SizeBytesAfter(w[0]), k, c);
  }

  lemma SameBE(m: nat, n: nat)
    requires BE(m) == BE(n)
    ensures m == n
  {
    FromBEOfBE(m);
    FromBEOfBE(n);
  }

  /** What the first byte says of the frame that starts there. */
  lemma FrameFirst(w: bytes, k: Kind, c: bytes)
    requires Lax(k, c) && |c| < TWO64 && Frame(k, c) <= w
    ensures w != []
    ensures k == Byte <==> w[0] < 0x80
    ensures k == String <==> 0x80 <= w[0] < 0xC0
    ensures 0x80 <= w[0] < 0xB8 ==> |c| == w[0] - 0x80
    ensures 0xC0 <= w[0] < 0xF8 ==> |c| == w[0] - 0xC0
    ensures k == String && |c| < 56 <==> 0x80 <= w[0] < 0xB8
    ensures k == List && |c| < 56 <==> 0xC0 <= w[0] < 0xF8
  {
    FrameHead(k, c);
    hide Frame, BE;
    assert Frame(k, c)[0] == w[0];
  }

  lemma ByteFrame(w: bytes, c: bytes)
    requires Lax(Byte, c) && Frame(Byte, c) <= w
    ensures w != [] && c == w[..1]
  {
  }

  /** What a header's bytes are. */
  lemma HeadBytes(w: bytes, k: Kind, size: nat, hl: nat)
    requires HeadOk(w, k, size, hl)
    ensures w != [] && 1 <= hl
    ensures k == Byte <==> w[0] < 0x80
    ensures k == Byte ==> hl == 1 && size == 0
    ensures k == String && size < 56 <==> 0x80 <= w[0] < 0xB8
    ensures k == String && size >= 56 <==> 0xB8 <= w[0] < 0xC0
    ensures k == List && size < 56 <==> 0xC0 <= w[0] < 0xF8
    ensures 0x80 <= w[0] < 0xB8 ==> size == w[0] - 0x80
    ensures 0xC0 <= w[0] < 0xF8 ==> size == w[0] - 0xC0
    ensures 0xB8 <= w[0] < 0xC0 || 0xF8 <= w[0] ==> hl == 1 + SizeBytesAfter(w[0]) && w[1..hl] == BE(size)
  {
    if k != Byte {
      HeadIs(if k == String then 0x80 else 0xC0, if k == String then 0xB7 else 0xF7, size);
      hide Head, BE;
      var h := w[..hl];
      assert h[0] == w[0];
      assert h[1..] == w[1..hl];
    }
  }

  lemma FrameSplit(w: bytes, k: Kind, size: nat, hl: nat, c: bytes)
    requires HeadOk(w, k, size, hl) && Frame(k, c) <= w && k != Byte && |c| == size
    ensures hl + size <= |w| && c == w[hl..hl + size] && Frame(k, c) == w[..hl + size]
  {
  }

  /** A header announcing more than there is. */
  lemma TooLarge(w: bytes, k: Kind, size: nat, hl: nat)
    requires HeadOk(w, k, size, hl) && hl + size > |w|
    ensures NoFrame(w)
  {
    forall k', c | Lax(k', c) && |c| < TWO64
      ensures !(Frame(k', c) <= w)
    {
      if Frame(k', c) <= w {
        HeadFixes(w, k, size, hl, k', c);
      }
    }
  }

  /** A header fixes kind and content of whatever value starts there. */
  lemma HeadValue(w: bytes, k: Kind, size: nat, hl: nat, v: Value)
    requires HeadOk(w, k, size, hl) && Encode(v) <= w && |w| < TWO64
    ensures KindOf(v) == k
    ensures k == Byte ==> ContentOf(v) == w[..1]
    ensures k != Byte ==> hl + size <= |w| && ContentOf(v) == w[hl..hl + size] && Encode(v) == w[..hl + size]
  {
    EncodeIsFrame(v);
    ContentFits(KindOf(v), ContentOf(v));
    hide Frame, HeadOk, Encode, KindOf, ContentOf;
    HeadFixes(w, k, size, hl, KindOf(v), ContentOf(v));
  }

  /** No value of another kind than the header's starts there. */
  lemma OtherKind(w: bytes, k: Kind, size: nat, hl: nat)
    requires HeadOk(w, k, size, hl) && |w| < TWO64
    ensures k != List ==> NoList(w)
    ensures k == List ==> NoString(w)
  {
    hide HeadOk;
    forall v | Encode(v) <= w
      ensures KindOf(v) == k
    {
      HeadValue(w, k, size, hl, v);
    }
    hide Encode;
  }

  lemma ByteValue(w: bytes)
    requires w != [] && w[0] < 0x80
    ensures Encode(Str([w[0]])) == w[..1] == [w[0]]
  {
  }

  /** A string that should have been a bare byte. */
  lemma SmallString(w: bytes, hl: nat, size: nat)
    requires HeadOk(w, String, size, hl) && size == 1 && hl + size <= |w| < TWO64 && w[hl..hl + size][0] < 128
    ensures NoString(w)
  {
    forall s ensures !(Encode(Str(s)) <= w) {
      if Encode(Str(s)) <= w {
        HeadValue(w, String, size, hl, Str(s));
      }
    }
  }

  lemma StringValue(w: bytes, hl: nat, size: nat)
    requires HeadOk(w, String, size, hl) && hl + size <= |w| && !(size == 1 && w[hl..hl + size][0] < 128)
    ensures Encode(Str(w[hl..hl + size])) == w[..hl + size]
  {
    hide Head;
    assert w[..hl] + w[hl..hl + size] == w[..hl + size];
  }

  // ---- integers ----

  /** No integer of at most `k` bytes starts `w`. */
  ghost predicate NoUint(w: bytes, k: nat) {
    forall n: nat :: n < Pow256(k) ==> !(Encode(Str(BE(n))) <= w)
  }

  lemma NoStringNoUint(w: bytes, k: nat)
    requires NoString(w)
    ensures NoUint(w, k)
  {
  }

  lemma ZeroByte(w: bytes, hl: nat, k: nat)
    requires w != [] && w[0] == 0 && |w| < TWO64
    ensures NoUint(w, k)
  {
    ByteHead(w);
    forall n: nat | n < Pow256(k)
      ensures !(Encode(Str(BE(n))) <= w)
    {
      if Encode(Str(BE(n))) <= w {
        HeadValue(w, Byte, 0, 1, Str(BE(n)));
      }
    }
  }

  lemma ByteUint(b: byte, k: nat)
    requires 0 < b < 128 && k >= 1
    ensures BE(b) == [b] && b < Pow256(k)
  {
    SmallBE(b);
    assert Pow256(k) >= 256 * 1;
  }

  lemma UintContent(w: bytes, size: nat, hl: nat, k: nat, n: nat)
    requires HeadOk(w, String, size, hl) && |w| < TWO64 && n < Pow256(k) && Encode(Str(BE(n))) <= w
    ensures hl + size <= |w| && BE(n) == w[hl..hl + size] && |BE(n)| == size <= k && !(|BE(n)| == 1 && BE(n)[0] < 128)
    ensures FromBE(w[hl..hl + size]) == n
  {
    hide *;
    HeadValue(w, String, size, hl, Str(BE(n)));
    StringKind(BE(n));
    BELength(n, k);
    FromBEOfBE(n);
  }

  lemma StringKind(s: bytes)
    ensures KindOf(Str(s)) == String <==> !(|s| == 1 && s[0] < 128)
    ensures ContentOf(Str(s)) == s
  {
  }

  lemma WideUint(w: bytes, size: nat, hl: nat, k: nat)
    requires HeadOk(w, String, size, hl) && |w| < TWO64 && size > k
    ensures NoUint(w, k)
  {
    hide HeadOk;
    forall n: nat | n < Pow256(k)
      ensures !(Encode(Str(BE(n))) <= w)
    {
      if Encode(Str(BE(n))) <= w {
        UintContent(w, size, hl, k, n);
      }
    }
  }

  lemma LeadingZero(w: bytes, hl: nat, size: nat, k: nat)
    requires HeadOk(w, String, size, hl) && |w| < TWO64 && size > 0 && hl + size <= |w| && w[hl] == 0
    ensures NoUint(w, k)
  {
    hide HeadOk;
    forall n: nat | n < Pow256(k)
      ensures !(Encode(Str(BE(n))) <= w)
    {
      if Encode(Str(BE(n))) <= w {
        UintContent(w, size, hl, k, n);
      }
    }
  }

  lemma SmallUint(w: bytes, hl: nat, size: nat, k: nat)
    requires HeadOk(w, String, size, hl) && |w| < TWO64 && size > 0 && hl + size <= |w| && FromBE(w[hl..hl + size]) < 128
    ensures NoUint(w, k)
  {
    hide HeadOk;
    forall n: nat | n < Pow256(k)
      ensures !(Encode(Str(BE(n))) <= w)
    {
      if Encode(Str(BE(n))) <= w {
        UintContent(w, size, hl, k, n);
        SmallBE(n);
      }
    }
  }

  lemma UintValue(w: bytes, hl: nat, size: nat, k: nat)
    requires HeadOk(w, String, size, hl) && hl + size <= |w| && size <= k
    requires size > 0 ==> FromBE(w[hl..hl + size]) >= 128
    requires size >= 2 ==> w[hl] != 0
    ensures var n := FromBE(w[hl..hl + size]);
            n < Pow256(k) && Encode(Str(BE(n))) == w[..hl + size]
  {
    var c := w[hl..hl + size];
    if size == 1 {
      assert c == [c[0]];
      FromBEOne(c[0]);
    }
    BEOfFromBE(c);
    FromBEBound(c);
    Pow256Grows(size, k);
    hide FromBE, BE, Pow256, HeadOk, Encode;
    StringValue(w, hl, size);
  }

  /** What reading the content of a string as a number amounts to. */
  lemma UintRead(w: bytes, input: bytes, from: nat, hl: nat, size: nat, k: nat, v: nat)
    requires HeadOk(w, String, size, hl) && |w| < TWO64 && hl + size <= |w| && size <= k
    requires from + |w| <= |input| && w == input[from..from + |w|]
    requires v == FromBE(input[from + hl..from + hl + size]) && (size >= 2 ==> input[from + hl] != 0)
    ensures size > 0 && v < 128 ==> NoUint(w, k)
    ensures !(size > 0 && v < 128) ==> v < Pow256(k) && Encode(Str(BE(v))) == input[from..from + hl + size]
  {
    Content(w, input, from, hl, size);
    ShortContent(w, input, from, hl, size);
    hide *;
    if size > 0 && v < 128 {
      SmallUint(w, hl, size, k);
    } else {
      UintValue(w, hl, size, k);
    }
  }

  lemma {:induction false} Pow256Grows(j: nat, k: nat)
    requires j <= k
    ensures Pow256(j) <= Pow256(k)
  {
    if j < k {
      Pow256Grows(j, k - 1);
    }
  }

  // ---- reading a value without interpreting it ----

  lemma LaxByte(b: byte)
    requires b < 0x80
    ensures Lax(Byte, [b]) && Frame(Byte, [b]) == [b]
  {
  }

  lemma HeadSize(w: bytes, k: Kind, size: nat, hl: nat)
    requires HeadOk(w, k, size, hl) && k != Byte
    ensures k == String ==> hl == |Head(0x80, 0xB7, size)| && Head(0x80, 0xB7, size) == w[..hl]
    ensures k == List ==> hl == |Head(0xC0, 0xF7, size)| && Head(0xC0, 0xF7, size) == w[..hl]
  {
  }

  lemma LaxContent(w: bytes, k: Kind, size: nat, hl: nat)
    requires HeadOk(w, k, size, hl) && k != Byte && hl + size <= |w|
    ensures Lax(k, w[hl..hl + size]) && w[..hl + size] == Frame(k, w[hl..hl + size])
  {
    assert w[..hl + size] == w[..hl] + w[hl..hl + size];
    hide Head;
  }

  /** The first byte of the content, in terms of the whole input. */
  lemma ShortContent(w: bytes, input: bytes, from: nat, hl: nat, size: nat)
    requires from + |w| <= |input| && w == input[from..from + |w|]
    ensures hl < |w| ==> w[hl] == input[from + hl]
  {
  }

  // ---- whole values ----

  /** Booleans are encoded as the integers 0 and 1. */
  function Truth(b: bool): Value { Str(if b then [1] else []) }

  lemma BoolUint(w: bytes)
    ensures NoUint(w, 1) ==> forall b :: !(Encode(Truth(b)) <= w)
    ensures Truth(true) == Str(BE(1)) && Truth(false) == Str(BE(0))
  {
    SmallBE(0);
    SmallBE(1);
    assert 1 < Pow256(1);
    if NoUint(w, 1) {
      forall b ensures !(Encode(Truth(b)) <= w) {
        assert Truth(b) == Str(BE(if b then 1 else 0));
      }
    }
  }

  lemma OnlyLists(w: bytes, size: nat, hl: nat)
    requires HeadOk(w, List, size, hl) && |w| < TWO64 && NoList(w)
    ensures NoValue(w)
  {
    hide HeadOk;
    forall v | Encode(v) <= w
      ensures v.Lst?
    {
      HeadValue(w, List, size, hl, v);
    }
    hide Encode;
  }

  lemma OnlyStrings(w: bytes, k: Kind, size: nat, hl: nat)
    requires HeadOk(w, k, size, hl) && k != List && |w| < TWO64 && NoString(w)
    ensures NoValue(w)
  {
    hide HeadOk;
    forall v | Encode(v) <= w
      ensures v.Str?
    {
      HeadValue(w, k, size, hl, v);
    }
    hide Encode;
  }

  lemma NothingDecoded(input: bytes, at: nat)
    requires at <= |input|
    ensures EncodeAll([]) == input[at..at]
  {
  }

  lemma OneMore(input: bytes, from: nat, mid: nat, to: nat, vs: seq<Value>, v: Value)
    requires from <= mid <= to <= |input| && EncodeAll(vs) == input[from..mid] && Encode(v) == input[mid..to]
    ensures EncodeAll(vs + [v]) == input[from..to]
  {
    EncodeAllSnoc(vs, v);
  }

  /** If a list's content goes on, it goes on with the encoding of an element. */
  lemma NextElement(vs: seq<Value>, ws: seq<Value>, tail: bytes, rest: bytes)
    requires EncodeAll(ws) == EncodeAll(vs) + tail && tail != [] && tail <= rest && |EncodeAll(ws)| < TWO64
    ensures |ws| > |vs| && Encode(ws[|vs|]) <= rest
  {
    hide *;
    EncodeAllRest(vs, ws, tail);
    PrefixTrans(Encode(ws[|vs|]), tail, rest);
  }

  lemma PrefixTrans(a: bytes, b: bytes, c: bytes)
    requires a <= b && b <= c
    ensures a <= c
  {
  }

  /** Where the content of a list ends, and what is left of it behind its first elements. */
  lemma Tail(input: bytes, from: nat, at: nat, end: nat, limit: nat, e: bytes)
    requires from <= at < end && at <= limit <= |input| && e <= input[from..limit] && from + |e| == end
    ensures end <= limit && e == input[from..at] + input[at..end] && input[at..end] != [] && input[at..end] <= input[at..limit]
  {
    PrefixIs(input, from, limit, e);
    InTwo(input, from, at, end);
    Starts(input, at, end, limit);
  }

  /** When no value comes next before the list's end, no list of values fills the list. */
  lemma NoMore(w: bytes, rest: bytes, input: bytes, from: nat, at: nat, limit: nat, vs: seq<Value>, end: nat)
    requires from <= at < end && at <= limit <= |input| < TWO64 && w == input[from..limit] && rest == input[at..limit]
    requires EncodeAll(vs) == input[from..at] && NoValue(rest)
    ensures forall ws :: from + |EncodeAll(ws)| == end ==> !(EncodeAll(ws) <= w)
  {
    hide Encode, EncodeAll;
    forall ws | from + |EncodeAll(ws)| == end
      ensures !(EncodeAll(ws) <= w)
    {
      if EncodeAll(ws) <= w {
        Tail(input, from, at, end, limit, EncodeAll(ws));
        NextElement(vs, ws, input[at..end], rest);
      }
    }
  }

  lemma PrefixIs(input: bytes, from: nat, to: nat, e: bytes)
    requires from <= to <= |input| && e <= input[from..to]
    ensures from + |e| <= to && e == input[from..from + |e|]
  {
    SubSlice(input, from, to, 0, |e|);
    assert input[from..to][..|e|] == input[from..to][0..|e|];
  }

  lemma InTwo(input: bytes, from: nat, mid: nat, to: nat)
    requires from <= mid <= to <= |input|
    ensures input[from..to] == input[from..mid] + input[mid..to]
  {
  }

  lemma ListValue(w: bytes, input: bytes, start: nat, limit: nat, from: nat, size: nat, vs: seq<Value>)
    requires start <= from <= from + size <= |input| && start <= limit <= |input| && w == input[start..limit]
    requires HeadOk(w, List, size, from - start) && EncodeAll(vs) == input[from..from + size]
    ensures Encode(Lst(vs)) == input[start..from + size]
  {
    HeadSize(w, List, size, from - start);
    ListIs(vs);
    hide *;
    Starts(input, start, from, limit);
    SubSlice(input, start, limit, 0, from - start);
    InTwo(input, start, from, from + size);
    assert w[0..from - start] == w[..from - start];
  }

  lemma ListIs(vs: seq<Value>)
    ensures Encode(Lst(vs)) == Head(0xC0, 0xF7, |EncodeAll(vs)|) + EncodeAll(vs)
  {
  }

  /** What the encoding of a list has after its header. */
  lemma ListContent(w: bytes, input: bytes, start: nat, limit: nat, from: nat, to: nat, size: nat, vs: seq<Value>)
    requires start <= limit <= |input| < TWO64 && w == input[start..limit]
    requires start <= from <= to <= |input| && (from + size <= limit ==> from + size <= to)
    requires HeadOk(w, List, size, from - start) && Encode(Lst(vs)) <= w
    ensures |EncodeAll(vs)| == size && EncodeAll(vs) <= input[from..to]
  {
    var hl := from - start;
    HeadValue(w, List, size, hl, Lst(vs));
    assert ContentOf(Lst(vs)) == EncodeAll(vs);
    Cut(w, hl, size, ContentOf(Lst(vs)));
    hide *;
    InnerSlice(w, input, start, limit, from, to, size);
  }

  lemma Cut(w: bytes, hl: nat, size: nat, c: bytes)
    requires hl + size <= |w| && c == w[hl..hl + size]
    ensures |c| == size
  {
  }

  lemma InnerSlice(w: bytes, input: bytes, start: nat, limit: nat, from: nat, to: nat, size: nat)
    requires start <= from <= from + size <= limit <= |input| && w == input[start..limit] && from + size <= to <= |input|
    ensures w[from - start..from - start + size] <= input[from..to]
  {
    SubSlice(input, start, limit, from - start, from - start + size);
    Starts(input, from, from + size, to);
  }

  /** A header whose announced content is no concatenation of encodings starts no list. */
  lemma NoFill(w: bytes, input: bytes, start: nat, limit: nat, from: nat, to: nat, size: nat)
    requires start <= limit <= |input| < TWO64 && w == input[start..limit]
    requires start <= from <= to <= |input| && (from + size <= limit ==> from + size <= to)
    requires HeadOk(w, List, size, from - start)
    requires forall ws :: |EncodeAll(ws)| == size ==> !(EncodeAll(ws) <= input[from..to])
    ensures NoList(w)
  {
    hide HeadOk, Encode, EncodeAll;
    forall vs ensures !(Encode(Lst(vs)) <= w) {
      if Encode(Lst(vs)) <= w {
        ListContent(w, input, start, limit, from, to, size, vs);
      }
    }
  }

  lemma NoPrefix(b: bytes)
    requires NoValue(b)
    ensures forall v :: Encode(v) != b
  {
  }

  /** A value followed by more is not the encoding of any value. */
  lemma Trailing(b: bytes, v: Value, n: nat)
    requires n < |b| < TWO64 && Encode(v) == b[..n]
    ensures forall w :: Encode(w) != b
  {
    forall w ensures Encode(w) != b {
      if Encode(w) == b {
        EncodePrefix(v, w, b);
      }
    }
  }

  lemma NotBool(w: bytes, n: nat)
    requires n > 1 && Encode(Str(BE(n))) <= w && |w| < TWO64
    ensures forall b :: !(Encode(Truth(b)) <= w)
  {
    hide Encode;
    forall b ensures !(Encode(Truth(b)) <= w) {
      if Encode(Truth(b)) <= w {
        BoolUint([]);
        FromBEOfBE(n);
        FromBEOfBE(0);
        FromBEOfBE(1);
        EncodePrefix(Str(BE(n)), Truth(b), w);
      }
    }
  }

  lemma Starts(input: bytes, from: nat, to: nat, limit: nat)
    requires from <= to <= limit <= |input|
    ensures input[from..to] <= input[from..limit]
  {
    SubSlice(input, from, limit, 0, to - from);
    assert input[from..limit][..to - from] == input[from..to];
  }

  // ---- slices ----

/** The content read behind a header, and header and content together. */
  lemma Content(w: bytes, input: bytes, from: nat, hl: nat, size: nat)
    requires hl + size <= |w| && from + |w| <= |input| && w == input[from..from + |w|]
    ensures input[from + hl..from + hl + size] == w[hl..hl + size] && input[from..from + hl + size] == w[..hl + size]
  {
    SubSlice(input, from, from + |w|, hl, hl + size);
    SubSlice(input, from, from + |w|, 0, hl + size);
    assert w[0..hl + size] == w[..hl + size];
  }

  lemma FromBENone()
    ensures FromBE([]) == 0
  {
  }

  lemma FromBEOne(b: byte)
    ensures FromBE([b]) == b
  {
    assert [b][..0] == [];
  }

  lemma SubSlice(s: bytes, from: nat, to: nat, i: nat, j: nat)
    requires from <= to <= |s| && i <= j <= to - from
    ensures s[from..to][i..j] == s[from + i..from + j]
  {
    var a, b := s[from..to][i..j], s[from + i..from + j];
    assert forall k :: 0 <= k < |a| ==> a[k] == b[k];
  }

  lemma LongBytes(w: bytes, input: bytes, p: nat, n: nat)
    requires 1 <= p <= |input| && 1 <= |w| <= |input| - p + 1 && w == input[p - 1..p - 1 + |w|] && 1 <= n
    ensures |w| > 1 ==> w[1] == input[p]
    ensures |w| >= 1 + n ==> w[1..1 + n] == input[p..p + n]
    ensures |w| >= 1 + n && n == 1 ==> FromBE(input[p..p + n]) == w[1]
  {
    if |w| >= 1 + n {
      SubSlice(input, p - 1, p - 1 + |w|, 1, 1 + n);
      if n == 1 {
        FromBEOne(w[1]);
        assert input[p..p + n] == [w[1]];
      }
    }
  }

  lemma SizeBytesIs(b: byte)
    ensures 0xB8 <= b < 0xC0 ==> SizeBytesAfter(b) == b - 0xB7
    ensures 0xF8 <= b ==> SizeBytesAfter(b) == b - 0xF7
  {
  }
}
