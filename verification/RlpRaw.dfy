/** The second, independent parser: splits encodings without decoding them. */
module RlpRaw {
  import opened Bytes
  import opened Rlp
  import opened RlpRead
  import opened RlpDecode

  datatype Header = Header(kind: Kind, tagsize: nat, contentsize: nat)
  datatype Parts = Parts(kind: Kind, content: bytes, rest: bytes)

  /** Big-endian size bytes; sizes that fit a short header and leading zeros are rejected. */
  function readSize(b: bytes, slen: nat): (r: Result<nat>)
    requires 1 <= slen <= 8
    ensures r.Ok? ==> slen <= |b| && b[0] != 0 && r.value >= 56 && BE(r.value) == b[..slen]
    ensures r.Err? ==> forall n: nat :: n >= 56 && |BE(n)| == slen ==> !(BE(n) <= b)
  {
    if slen > |b| then Err(UnexpectedEOF)
    else
      var s := FromBE(b[..slen]);
      SizeRead(b, slen);
      if s < 56 || b[0] == 0 then Err(CanonSize) else Ok(s)
  }

  lemma SizeRead(b: bytes, slen: nat)
    requires 1 <= slen <= |b|
    ensures b[0] != 0 ==> BE(FromBE(b[..slen])) == b[..slen]
    ensures forall n: nat :: |BE(n)| == slen && BE(n) <= b ==> n == FromBE(b[..slen])
  {
    if b[0] != 0 {
      BEOfFromBE(b[..slen]);
    }
    forall n: nat | |BE(n)| == slen && BE(n) <= b
      ensures n == FromBE(b[..slen])
    {
      FromBEOfBE(n);
      assert BE(n) == b[..slen];
    }
  }

  /** Kind, header length and content length of the value at the start of `buf`. */
  function readKind(buf: bytes): (r: Result<Header>)
  {
    if buf == [] then Err(UnexpectedEOF)
    else
      var b := buf[0];
      if b < 0x80 then Fitting(Header(Byte, 0, 1), buf)
      else if b < 0xB8 then
        if b - 0x80 == 1 && |buf| > 1 && buf[1] < 128 then Err(CanonSize)
        else Fitting(Header(String, 1, b - 0x80), buf)
      else if b < 0xC0 then
        var s := readSize(buf[1..], b - 0xB7);
        if s.Err? then Err(s.error) else Fitting(Header(String, b - 0xB7 + 1, s.value), buf)
      else if b < 0xF8 then Fitting(Header(List, 1, b - 0xC0), buf)
      else
        var s := readSize(buf[1..], b - 0xF7);
        if s.Err? then Err(s.error) else Fitting(Header(List, b - 0xF7 + 1, s.value), buf)
  }

  /** Rejects values larger than the input slice. */
  function Fitting(h: Header, buf: bytes): Result<Header> {
    if h.contentsize > |buf| - h.tagsize then Err(ValueTooLarge) else Ok(h)
  }

  /** The content of the first value, and what follows the value. */
  function Split(b: bytes): (r: Result<Parts>)
    ensures r.Ok? ==> |r.value.rest| < |b|
  {
    KindInBounds(b);
    var h := readKind(b);
    if h.Err? then Err(h.error)
    else
      var ts, cs := h.value.tagsize, h.value.contentsize;
      Ok(Parts(h.value.kind, b[ts..ts + cs], b[ts + cs..]))
  }

  lemma KindInBounds(b: bytes)
    ensures var h := readKind(b); h.Ok? ==> 0 < h.value.tagsize + h.value.contentsize <= |b|
  {
  }

  function SplitString(b: bytes): Result<(bytes, bytes)> {
    var p := Split(b);
    if p.Err? then Err(p.error)
    else if p.value.kind == List then Err(ExpectedString)
    else Ok((p.value.content, p.value.rest))
  }

  function SplitList(b: bytes): Result<(bytes, bytes)> {
    var p := Split(b);
    if p.Err? then Err(p.error)
    else if p.value.kind != List then Err(ExpectedList)
    else Ok((p.value.content, p.value.rest))
  }

  // ---- Split inverts framing, and accepts nothing else ----

  /** A header as this parser reports it; here a bare byte has no header. */
  ghost predicate Announces(b: bytes, h: Header) {
    && b != [] && h.tagsize + h.contentsize <= |b|
    && if h.kind == Byte then h.tagsize == 0 && h.contentsize == 1 && b[0] < 0x80
       else HeadOk(b, h.kind, h.contentsize, h.tagsize)
  }

  lemma KindAnnounces(b: bytes)
    requires readKind(b).Ok? && |b| < TWO64
    ensures Announces(b, readKind(b).value)
  {
    var c := b[0];
    if c < 0x80 {
    } else if c < 0xB8 || 0xC0 <= c < 0xF8 {
      ShortHead(b);
    } else {
      var n := SizeBytesAfter(c);
      SubSlice(b, 1, |b|, 0, n);
      assert b[1..][..n] == b[1..1 + n];
      assert b[1..][0] == b[1];
      LongHead(b, n);
    }
  }

  lemma NotSmall(b: bytes)
    requires readKind(b).Ok? && |b| < TWO64
    ensures var h := readKind(b).value;
            h.kind == String && h.contentsize == 1 ==> h.tagsize == 1 && |b| > 1 && b[1] >= 128
  {
    hide FromBE;
  }

  /** What is split off is a canonical frame, and nothing is lost. */
  lemma SplitSound(b: bytes)
    requires Split(b).Ok? && |b| < TWO64
    ensures var p := Split(b).value;
            Canonical(p.kind, p.content) && b == Frame(p.kind, p.content) + p.rest
  {
    KindAnnounces(b);
    NotSmall(b);
    var h := readKind(b).value;
    hide readKind, HeadOk, Head;
    if h.kind == Byte {
    } else {
      LaxContent(b, h.kind, h.contentsize, h.tagsize);
      hide Frame;
      assert b == b[..h.tagsize + h.contentsize] + b[h.tagsize + h.contentsize..];
    }
  }

  /** A frame's header is read for what it is. */
  lemma KindComplete(b: bytes, k: Kind, c: bytes)
    requires Canonical(k, c) && Frame(k, c) <= b && |b| < TWO64
    ensures readKind(b).Ok? && readKind(b).value == Header(k, |Frame(k, c)| - |c|, |c|)
  {
    ContentFits(k, c);
    FrameHead(k, c);
    var f := Frame(k, c);
    assert f[0] == b[0];
    if k == Byte {
    } else if |c| < 56 {
      assert f[1..] == c;
      assert |c| == 1 ==> f[1] == b[1] == c[0];
      hide Frame, FromBE;
    } else {
      LongSize(b, SizeBytesAfter(b[0]), k, c);
      LongKind(b, k, |c|);
      hide Frame, FromBE, BE;
      assert |f| == 1 + |BE(|c|) + c|;
    }
  }

  lemma LongKind(b: bytes, k: Kind, size: nat)
    requires b != [] && (0xB8 <= b[0] < 0xC0 || 0xF8 <= b[0]) && size >= 56
    requires k == (if b[0] < 0xC0 then String else List)
    requires var n := SizeBytesAfter(b[0]);
             n + 1 <= |b| && b[1..1 + n] == BE(size) && n == |BE(size)|
    ensures var n := SizeBytesAfter(b[0]);
            readKind(b) == Fitting(Header(k, n + 1, size), b)
  {
    var n := SizeBytesAfter(b[0]);
    assert b[1..][..n] == b[1..1 + n];
    SizeComplete(b[1..], n, size);
    hide BE, FromBE, readSize;
  }

  lemma SizeComplete(b: bytes, n: nat, size: nat)
    requires 1 <= n <= 8 && n <= |b| && b[..n] == BE(size) && size >= 56
    ensures readSize(b, n) == Ok(size)
  {
    FromBEOfBE(size);
    assert b[0] == b[..n][0] == BE(size)[0];
    hide BE, FromBE;
  }

  /** Splitting undoes framing, whatever follows. */
  lemma SplitComplete(k: Kind, c: bytes, rest: bytes)
    requires Canonical(k, c) && |Frame(k, c) + rest| < TWO64
    ensures Split(Frame(k, c) + rest) == Ok(Parts(k, c, rest))
  {
    var b := Frame(k, c) + rest;
    KindComplete(b, k, c);
    FrameParts(k, c);
    hide readKind, Frame;
    var ts := |Frame(k, c)| - |c|;
    assert b[ts..ts + |c|] == Frame(k, c)[ts..] == c;
    assert b[ts + |c|..] == rest;
  }

  lemma FrameParts(k: Kind, c: bytes)
    ensures |c| <= |Frame(k, c)| && Frame(k, c)[|Frame(k, c)| - |c|..] == c
  {
  }

  /** Input is rejected exactly if no canonical frame starts it. */
  lemma SplitRejects(b: bytes)
    requires |b| < TWO64
    ensures Split(b).Err? <==> forall k, c :: Canonical(k, c) ==> !(Frame(k, c) <= b)
  {
    if Split(b).Err? {
      forall k, c | Canonical(k, c)
        ensures !(Frame(k, c) <= b)
      {
        if Frame(k, c) <= b {
          KindComplete(b, k, c);
        }
      }
    } else {
      SplitSound(b);
      hide Split, Frame, Canonical;
      var p := Split(b).value;
      assert Frame(p.kind, p.content) <= b;
    }
  }

  // ---- agreement with the encoder ----

  /** Splitting the encoding of a list gives the encodings of its elements. */
  lemma SplitListOfEncoding(vs: seq<Value>, rest: bytes)
    requires |Encode(Lst(vs)) + rest| < TWO64
    ensures SplitList(Encode(Lst(vs)) + rest) == Ok((EncodeAll(vs), rest))
    ensures SplitString(Encode(Lst(vs)) + rest) == Err(ExpectedString)
  {
    EncodeIsFrame(Lst(vs));
    SplitComplete(List, EncodeAll(vs), rest);
    hide Encode, EncodeAll, Split;
  }

  lemma SplitStringOfEncoding(s: bytes, rest: bytes)
    requires |Encode(Str(s)) + rest| < TWO64
    ensures SplitString(Encode(Str(s)) + rest) == Ok((s, rest))
    ensures SplitList(Encode(Str(s)) + rest) == Err(ExpectedList)
  {
    EncodeIsFrame(Str(s));
    SplitComplete(KindOf(Str(s)), s, rest);
    hide Encode, Split;
  }

  // ---- counting ----

  /** A row of canonical frames. */
  ghost predicate Frames(fs: seq<(Kind, bytes)>) {
    forall i :: 0 <= i < |fs| ==> Canonical(fs[i].0, fs[i].1)
  }

  function Row(fs: seq<(Kind, bytes)>): bytes {
    if fs == [] then [] else Frame(fs[0].0, fs[0].1) + Row(fs[1..])
  }

  /** How many values `b` is a row of, without looking inside them. */
  function Count(b: bytes): Result<nat>
    decreases |b|
  {
    if b == [] then Ok(0)
    else
      var p := Split(b);
      if p.Err? then Err(p.error)
      else
        var n := Count(p.value.rest);
        if n.Err? then n else Ok(n.value + 1)
  }

  lemma {:induction false} CountSound(b: bytes) returns (fs: seq<(Kind, bytes)>)
    requires Count(b).Ok? && |b| < TWO64
    ensures Frames(fs) && Row(fs) == b && |fs| == Count(b).value
    decreases |b|
  {
    if b == [] {
      return [];
    }
    SplitSound(b);
    var p := Split(b).value;
    var rest := CountSound(p.rest);
    fs := [(p.kind, p.content)] + rest;
    hide Split, Frame, Canonical;
    assert fs[1..] == rest;
  }

  lemma {:induction false} CountComplete(fs: seq<(Kind, bytes)>)
    requires Frames(fs) && |Row(fs)| < TWO64
    ensures Count(Row(fs)) == Ok(|fs|)
  {
    if fs != [] {
      var k, c := fs[0].0, fs[0].1;
      assert Canonical(k, c);
      FrameNonEmpty(k, c);
      SplitComplete(k, c, Row(fs[1..]));
      CountComplete(fs[1..]);
      hide Split, Frame, Canonical;
    }
  }

  lemma FrameNonEmpty(k: Kind, c: bytes)
    requires Canonical(k, c)
    ensures Frame(k, c) != []
  {
  }

  /** The encodings of a list's elements are counted right, without being decoded. */
  lemma {:induction false} CountOfEncodings(vs: seq<Value>)
    requires |EncodeAll(vs)| < TWO64
    ensures Count(EncodeAll(vs)) == Ok(|vs|)
  {
    if vs != [] {
      EncodeIsFrame(vs[0]);
      EncodeNonEmpty(vs[0]);
      SplitComplete(KindOf(vs[0]), ContentOf(vs[0]), EncodeAll(vs[1..]));
      CountOfEncodings(vs[1..]);
      hide Split, Frame, Canonical, Encode;
    }
  }

  method CountValues(input: bytes) returns (r: Result<nat>)
    requires |input| < TWO64
    ensures r == Count(input)
  {
    var b, i := input, 0;
    while |b| > 0
      invariant |b| <= |input|
      invariant Count(input) == var n := Count(b); if n.Err? then n else Ok(n.value + i)
      decreases |b|
    {
      var h := readKind(b);
      if h.Err? {
        return Err(h.error);
      }
      KindInBounds(b);
      b := b[h.value.tagsize + h.value.contentsize..];
      i := i + 1;
    }
    return Ok(i);
  }
}
