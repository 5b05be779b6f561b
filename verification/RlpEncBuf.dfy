/** The encoder's buffer and its three outputs: a byte array, a writer, and a reader. */
module RlpEncBuf {
  import opened Bytes
  import opened Rlp
  import opened RlpEncode

  /** Where a list header goes in the string data, and the size it announces once the list is complete. */
  class ListHead {
    var offset: int
    var size: int

    constructor (offset: int, size: int)
      ensures this.offset == offset && this.size == size
    {
      this.offset, this.size := offset, size;
    }
  }

  ghost function Entries(hs: seq<ListHead>): (r: seq<Entry>)
    reads hs
    ensures |r| == |hs| && forall i :: 0 <= i < |hs| ==> r[i] == Entry(hs[i].offset, hs[i].size)
  {
    if hs == [] then [] else Entries(hs[..|hs| - 1]) + [Entry(hs[|hs| - 1].offset, hs[|hs| - 1].size)]
  }

  predicate Distinct(hs: seq<ListHead>) {
    forall i, j :: 0 <= i < j < |hs| ==> hs[i] != hs[j]
  }

  /** `s` with `d` written over it from `at` on. */
  function Patch(s: bytes, at: nat, d: bytes): (r: bytes)
    requires at + |d| <= |s|
    ensures |r| == |s|
  {
    s[..at] + d + s[at + |d|..]
  }

  lemma PatchTwice(s: bytes, at: nat, x: byte, d: bytes)
    requires at + 1 + |d| <= |s|
    ensures Patch(Patch(s, at + 1, d), at, [x]) == Patch(s, at, [x] + d)
  {
    var t, u := Patch(Patch(s, at + 1, d), at, [x]), Patch(s, at, [x] + d);
    forall i | 0 <= i < |s| ensures t[i] == u[i] {
    }
  }

  lemma PatchedHead(s: bytes, d: bytes, x: byte)
    requires 1 + |d| <= |s|
    ensures Patch(Patch(s, 1, d), 0, [x])[..1 + |d|] == [x] + d
  {
  }

  /** Go's `copy`: as much of `src` as fits into `dst` from `at` on. */
  method Copy(dst: array<byte>, at: nat, src: bytes) returns (n: nat)
    requires at <= dst.Length
    modifies dst
    ensures n == (if |src| <= dst.Length - at then |src| else dst.Length - at) && n <= |src|
    ensures at + n <= |old(dst[..])| && dst[..] == Patch(old(dst[..]), at, src[..n])
  {
    n := if |src| <= dst.Length - at then |src| else dst.Length - at;
    for i := 0 to n
      invariant forall j :: 0 <= j < dst.Length ==> dst[j] == if at <= j < at + i then src[j - at] else old(dst[j])
    {
      dst[at + i] := src[i];
    }
  }

  /** Writes the minimal bytes of `i` into `b` from `at` on. */
  method putint(b: array<byte>, at: nat, i: nat) returns (size: nat)
    requires i < TWO64 && at + |PutInt(i)| <= b.Length
    modifies b
    ensures size == |PutInt(i)|
    ensures b[..] == Patch(old(b[..]), at, PutInt(i))
  {
    hide PutInt;
    size := Copy(b, at, PutInt(i));
    assert PutInt(i)[..size] == PutInt(i);
  }

  method SetByte(buf: array<byte>, at: nat, b: byte)
    requires at < buf.Length
    modifies buf
    ensures buf[..] == Patch(old(buf[..]), at, [b])
  {
    buf[at] := b;
  }

  /** Writes a list or string header into `buf` from `at` on. */
  method puthead(buf: array<byte>, at: nat, smalltag: byte, largetag: byte, size: nat) returns (n: nat)
    requires size < TWO64 && at + |Head(smalltag, largetag, size)| <= buf.Length
    modifies buf
    ensures n == |Head(smalltag, largetag, size)|
    ensures buf[..] == Patch(old(buf[..]), at, Head(smalltag, largetag, size))
  {
    hide Patch, PutInt, BE;
    if size < 56 {
      n := 1;
      SetByte(buf, at, (smalltag + size) % 256);
    } else {
      PutIntIsBE(size);
      n := putint(buf, at + 1, size);
      PatchTwice(old(buf[..]), at, (largetag + n) % 256, BE(size));
      SetByte(buf, at, (largetag + n) % 256);
      n := n + 1;
    }
  }

  /** The number of bytes of the minimal representation of `i`. */
  method intsize(i: nat) returns (size: nat)
    requires i > 0
    ensures size == |BE(i)|
  {
    size := 1;
    var rest: nat := i / 256;
    while rest != 0
      invariant size >= 1 && |BE(i)| == size + |BE(rest)|
      decreases rest
    {
      rest := rest / 256;
      size := size + 1;
    }
  }

  /** The size of a string or list header. */
  method headsize(size: nat) returns (n: nat)
    requires size < TWO64
    ensures n == |Head(0x80, 0xB7, size)| == |Head(0xC0, 0xF7, size)|
  {
    if size < 56 {
      return 1;
    }
    n := intsize(size);
    n := 1 + n;
  }

  /** Where `toWriter` sends its output. A write that fails may have taken only part of the data. */
  class Writer {
    var content: bytes

    method Write(b: bytes) returns (n: nat, ok: bool)
      modifies this
      ensures n <= |b| && content == old(content) + b[..n] && (ok ==> n == |b|)
    {
      n :| 0 <= n <= |b|;
      ok := n == |b|;
      content := content + b[..n];
    }
  }

  class EncBuf {
    var str: bytes
    var lheads: seq<ListHead>
    var lhsize: int

    ghost predicate Valid()
      reads this
    {
      Distinct(lheads)
    }

    constructor ()
      ensures Valid() && str == [] && lheads == [] && lhsize == 0
    {
      str, lheads, lhsize := [], [], 0;
    }

    function Size(): int
      reads this
    {
      |str| + lhsize
    }

    method encodeStringHeader(size: nat)
      requires size < TWO64
      modifies `str
      ensures str == old(str) + StringHeader(size)
    {
      if size < 56 {
        str := str + [(0x80 + size) % 256];
      } else {
        var sizebuf := new byte[9];
        SizeBytes(size);
        PutIntIsBE(size);
        ghost var empty := sizebuf[..];
        var sizesize := putint(sizebuf, 1, size);
        SetByte(sizebuf, 0, (0xB7 + sizesize) % 256);
        PatchedHead(empty, BE(size), (0xB7 + sizesize) % 256);
        str := str + sizebuf[..][..sizesize + 1];
      }
    }

    method encodeString(b: bytes)
      requires |b| < TWO64
      modifies `str
      ensures str == old(str) + StrPart(Str(b))
    {
      if |b| == 1 && b[0] <= 0x7F {
        str := str + [b[0]];
      } else {
        encodeStringHeader(|b|);
        str := str + b;
      }
    }

    lemma UintEncoded(i: nat)
      requires i < TWO64
      ensures i == 0 ==> Encode(Str(BE(i))) == [0x80]
      ensures 0 < i < 128 ==> Encode(Str(BE(i))) == [i]
      ensures i >= 128 ==> |BE(i)| <= 8 && Encode(Str(BE(i))) == [0x80 + |BE(i)|] + BE(i)
    {
      SizeBytes(i);
      SmallBE(i);
      hide BE;
    }

    /** Encodes an unsigned integer as its minimal big-endian bytes. */
    method writeUint(i: nat)
      requires i < TWO64
      modifies `str
      ensures str == old(str) + Encode(Str(BE(i)))
    {
      hide Encode, BE, ByteAt, PutInt, Patch;
      UintEncoded(i);
      if i == 0 {
        str := str + [0x80];
      } else if i < 128 {
        str := str + [i];
      } else {
        PutIntIsBE(i);
        var sizebuf := new byte[9];
        ghost var empty := sizebuf[..];
        var s := putint(sizebuf, 1, i);
        SetByte(sizebuf, 0, (0x80 + s) % 256);
        PatchedHead(empty, BE(i), (0x80 + s) % 256);
        str := str + sizebuf[..][..s + 1];
      }
    }

    /** Opens a list: its header goes here, and remembers how large the headers so far are. */
    method list() returns (lh: ListHead)
      requires Valid()
      modifies `lheads
      ensures fresh(lh) && lh.offset == |str| && lh.size == lhsize
      ensures lheads == old(lheads) + [lh] && Valid()
    {
      lh := new ListHead(|str|, lhsize);
      lheads := lheads + [lh];
    }

    /** Closes a list: the header announces everything since, headers included. */
    method listEnd(lh: ListHead, ghost k: nat)
      requires Valid() && k < |lheads| && lheads[k] == lh
      requires 0 <= Size() - lh.offset - lh.size < TWO64
      modifies `lhsize, lh`size
      ensures Changed(old(Entries(lheads)), Entries(lheads), k, Entry(lh.offset, lh.size))
      ensures lh.size == old(Size() - lh.offset - lh.size) && lh.size >= 0
      ensures lhsize == old(lhsize) + |Head(0xC0, 0xF7, lh.size)|
    {
      lh.size := Size() - lh.offset - lh.size;
      if lh.size < 56 {
        lhsize := lhsize + 1;
      } else {
        var n := intsize(lh.size);
        lhsize := lhsize + 1 + n;
      }
    }

    /** Collects a value: its string data, its headers, and the room they take. */
    method encode(v: Value)
      requires Valid() && |Encode(v)| < TWO64
      modifies this
      decreases v, 1
      ensures Valid() && Grown(old(lheads), lheads) && fresh(set h | h in lheads[|old(lheads)|..])
      ensures str == old(str) + StrPart(v) && lhsize == old(lhsize) + HeadSizes(v)
      ensures Entries(lheads) == old(Entries(lheads)) + HeadsOf(v, |old(str)|)
    {
      match v
      case Str(s) =>
        StringFits(s);
        encodeString(s);
        assert lheads[|old(lheads)|..] == [];
      case Lst(vs) =>
        encodeList(vs);
    }

    /** A list: its header is opened, its elements are encoded, and the header is closed. */
    method encodeList(vs: seq<Value>)
      requires Valid() && |Encode(Lst(vs))| < TWO64
      modifies this
      decreases vs, 1
      ensures Valid() && Grown(old(lheads), lheads) && fresh(set h | h in lheads[|old(lheads)|..])
      ensures str == old(str) + StrPart(Lst(vs)) && lhsize == old(lhsize) + HeadSizes(Lst(vs))
      ensures Entries(lheads) == old(Entries(lheads)) + HeadsOf(Lst(vs), |old(str)|)
    {
      hide Encode, EncodeAll, StrPart, StrParts, HeadSizes, HeadSizesAll, HeadsOf, HeadsAll, Head, Entries, Changed;
      UnfoldList(vs, |str|);
      UnfoldSizes(vs);
      SizesAddAll(vs);
      ghost var k, o, s0, es := |lheads|, |str|, lhsize, Entries(lheads);
      var lh := list();
      EntriesSnoc(old(lheads), lh);
      encodeElements(vs);
      ghost var es1 := Entries(lheads);
      listEnd(lh, k);
      ChangedMiddle(es, Entry(o, s0), HeadsAll(vs, o), es1, Entries(lheads), Entry(o, |EncodeAll(vs)|));
    }

    /** The elements of a list, one after another. */
    method encodeElements(vs: seq<Value>)
      requires Valid() && |EncodeAll(vs)| < TWO64
      modifies this
      decreases vs, 0
      ensures Valid() && Grown(old(lheads), lheads) && fresh(set h | h in lheads[|old(lheads)|..])
      ensures str == old(str) + StrParts(vs) && lhsize == old(lhsize) + HeadSizesAll(vs)
      ensures Entries(lheads) == old(Entries(lheads)) + HeadsAll(vs, |old(str)|)
    {
      hide Encode, EncodeAll, StrPart, StrParts, HeadSizes, HeadSizesAll, HeadsOf, HeadsAll, Entries;
      NoElements(vs, |str|);
      for i := 0 to |vs|
        invariant Valid() && Grown(old(lheads), lheads) && fresh(set h | h in lheads[|old(lheads)|..])
        invariant str == old(str) + StrParts(vs[..i]) && lhsize == old(lhsize) + HeadSizesAll(vs[..i])
        invariant Entries(lheads) == old(Entries(lheads)) + HeadsAll(vs[..i], |old(str)|)
      {
        ElementFits(vs, i);
        StrPartsSnoc(vs[..i], vs[i]);
        HeadsSnoc(vs[..i], vs[i], |old(str)|);
        assert vs[..i + 1] == vs[..i] + [vs[i]];
        encode(vs[i]);
      }
      assert vs[..|vs|] == vs;
    }

    /** What all outputs produce: the string data with the headers spliced in. */
    ghost function Output(): bytes
      reads this, lheads
    {
      Splice(str, 0, Entries(lheads))
    }

    /** The buffer holds complete values only. */
    ghost predicate Complete()
      reads this, lheads
    {
      Valid() && Placed(str, 0, Entries(lheads)) && Size() == |Output()|
    }

    /** After encoding one value into an empty buffer, the output is the value's encoding. */
    lemma Encoded(v: Value)
      requires Valid() && |Encode(v)| < TWO64
      requires str == StrPart(v) && lhsize == HeadSizes(v) && Entries(lheads) == HeadsOf(v, 0)
      ensures Complete() && Output() == Encode(v)
    {
      SpliceIsEncode(v);
      SizesAdd(v);
    }

    /** The output as a byte array of exactly the right size; no header is written out of its bounds. */
    method toBytes() returns (out: array<byte>)
      requires Complete()
      ensures fresh(out) && out[..] == Output()
    {
      hide Splice, Placed, Entries, Patch, Between, Head;
      out := new byte[Size()];
      ghost var es := Entries(lheads);
      var strpos, pos := 0, 0;
      PlacedRange(str, 0, es);
      for i := 0 to |lheads|
        invariant 0 <= strpos <= |str| && 0 <= pos && es == Entries(lheads) && |es| == |lheads|
        invariant Placed(str, strpos, es[i..]) && pos + |Splice(str, strpos, es[i..])| == out.Length
        invariant out[..pos] + Splice(str, strpos, es[i..]) == Splice(str, 0, es)
      {
        var head := lheads[i];
        EntryAt(lheads, i);
        NextHead(str, strpos, es, i);
        ghost var out0, pos0, tail := out[..], pos, Splice(str, es[i].offset, es[i + 1..]);
        ghost var piece := str[strpos..head.offset];
        var n := Copy(out, pos, str[strpos..head.offset]);
        assert piece[..n] == piece;
        pos := pos + n;
        strpos := strpos + n;
        ghost var out1 := out[..];
        n := puthead(out, pos, 0xC0, 0xF7, head.size);
        pos := pos + n;
        TwoPieces(out0, out1, out[..], pos0, piece, Head(0xC0, 0xF7, head.size), tail, Splice(str, 0, es));
      }
      assert es[|lheads|..] == [];
      LastPiece(str, strpos);
      ghost var out0 := out[..];
      var n := Copy(out, pos, str[strpos..]);
      assert str[strpos..][..n] == str[strpos..];
      EndPiece(out0, out[..], pos, str[strpos..], Splice(str, 0, es));
    }

    /** The output through a writer, which may fail and keep only a prefix. */
    method toWriter(w: Writer) returns (ok: bool)
      requires Complete()
      modifies w
      ensures ok ==> w.content == old(w.content) + Output()
      ensures old(w.content) <= w.content <= old(w.content) + Output()
    {
      hide *;
      ghost var es, base := Entries(lheads), w.content;
      ghost var goal := base + Output();
      var sizebuf := new byte[9];
      var strpos := 0;
      OutputIs();
      StartSend(str, es, base, goal);
      for i := 0 to |lheads|
        invariant es == Entries(lheads) && |es| == |lheads|
        invariant 0 <= strpos && Sending(str, strpos, es[i..], base, w.content, goal)
      {
        var head := lheads[i];
        EntryAt(lheads, i);
        NextSend(str, strpos, es, i, base, w.content, goal);
        ghost var header, tail := Head(0xC0, 0xF7, head.size), Splice(str, es[i].offset, es[i + 1..]);
        if head.offset - strpos > 0 {
          ghost var before := w.content;
          var n;
          n, ok := w.Write(str[strpos..head.offset]);
          Sent(base, before, str[strpos..head.offset], n, header + tail, goal);
          strpos := strpos + n;
          if !ok {
            return;
          }
        }
        ghost var buf0, before := sizebuf[..], w.content;
        var m := puthead(sizebuf, 0, 0xC0, 0xF7, head.size);
        PatchFront(buf0, sizebuf[..], m, header);
        var n;
        n, ok := w.Write(sizebuf[..m]);
        Sent(base, before, header, n, tail, goal);
        if !ok {
          return;
        }
        HeadSent(str, es, i, base, w.content, goal);
      }
      LastSend(str, strpos, es, base, w.content, goal);
      ok := true;
      if strpos < |str| {
        ghost var before := w.content;
        var n;
        n, ok := w.Write(str[strpos..]);
        Sent(base, before, str[strpos..], n, [], goal);
      }
    }

    lemma OutputIs()
      requires Complete()
      ensures Output() == Splice(str, 0, Entries(lheads)) && Placed(str, 0, Entries(lheads))
      ensures |Entries(lheads)| == |lheads| && Entries(lheads)[0..] == Entries(lheads)
    {
    }
  }

  /** Encodes a value to bytes. */
  method EncodeToBytes(v: Value) returns (out: array<byte>)
    requires |Encode(v)| < TWO64
    ensures out[..] == Encode(v)
  {
    hide *;
    NothingYet();
    var eb := new EncBuf();
    eb.encode(v);
    FromEmpty(eb.str, StrPart(v), Entries(eb.lheads), HeadsOf(v, 0));
    eb.Encoded(v);
    out := eb.toBytes();
  }

  /** Encodes a value to a writer. */
  method EncodeTo(w: Writer, v: Value) returns (ok: bool)
    requires |Encode(v)| < TWO64
    modifies w
    ensures ok ==> w.content == old(w.content) + Encode(v)
    ensures old(w.content) <= w.content <= old(w.content) + Encode(v)
  {
    hide *;
    NothingYet();
    var eb := new EncBuf();
    eb.encode(v);
    FromEmpty(eb.str, StrPart(v), Entries(eb.lheads), HeadsOf(v, 0));
    eb.Encoded(v);
    ok := eb.toWriter(w);
  }

  /** Encodes a value, to be read in pieces. */
  method EncodeToReader(v: Value) returns (size: int, r: EncReader)
    requires |Encode(v)| < TWO64
    ensures r.Valid() && r.Remaining() == Encode(v) && size == |Encode(v)|
    ensures fresh(r)
  {
    hide *;
    NothingYet();
    var eb := new EncBuf();
    eb.encode(v);
    FromEmpty(eb.str, StrPart(v), Entries(eb.lheads), HeadsOf(v, 0));
    eb.Encoded(v);
    eb.OutputIs();
    size := eb.Size();
    r := new EncReader(eb);
  }

  lemma NothingYet()
    ensures Entries([]) == []
  {
  }

  lemma FromEmpty(a: bytes, b: bytes, c: seq<Entry>, d: seq<Entry>)
    requires a == [] + b && c == [] + d
    ensures a == b && c == d
  {
  }

  /** Reads the encoder's output in chunks. At the end of the output it lets go of the buffer. */
  class EncReader {
    var buf: EncBuf?
    var lhpos: nat
    var strpos: nat
    var piece: bytes

    constructor (eb: EncBuf)
      requires eb.Complete()
      ensures Valid() && Remaining() == eb.Output() && buf == eb
    {
      buf, lhpos, strpos, piece := eb, 0, 0, [];
      new;
      eb.OutputIs();
    }

    ghost predicate Valid()
      reads `buf, `lhpos, `strpos, buf, if buf != null then set h | h in buf.lheads else {}
    {
      buf != null ==> lhpos <= |buf.lheads| && strpos <= |buf.str| && Placed(buf.str, strpos, Entries(buf.lheads)[lhpos..])
    }

    /** The output not yet cut into pieces. */
    ghost function Tail(): bytes
      requires Valid()
      reads `buf, `lhpos, `strpos, buf, if buf != null then set h | h in buf.lheads else {}
    {
      if buf == null then [] else Splice(buf.str, strpos, Entries(buf.lheads)[lhpos..])
    }

    /** The output not yet read. */
    ghost function Remaining(): bytes
      requires Valid()
      reads this, buf, if buf != null then set h | h in buf.lheads else {}
    {
      if buf == null then [] else piece + Tail()
    }

    /** A list header, written to a buffer of its own. */
    static method Header(size: nat) returns (p: bytes)
      requires size < TWO64
      ensures p == Head(0xC0, 0xF7, size)
    {
      hide *;
      HeadFits(size);
      var sizebuf := new byte[9];
      ghost var buf0 := sizebuf[..];
      var m := puthead(sizebuf, 0, 0xC0, 0xF7, size);
      PatchFront(buf0, sizebuf[..], m, Head(0xC0, 0xF7, size));
      p := sizebuf[..m];
    }

    /** The next piece of output; empty exactly at the end. */
    method next() returns (p: bytes)
      requires Valid()
      modifies `lhpos, `strpos
      ensures Valid() && buf == old(buf)
      ensures p + Tail() == old(Remaining()) && (p == [] <==> old(Remaining()) == [])
    {
      hide *;
      RemainingIs();
      if buf == null {
        return [];
      }
      if piece != [] {
        return piece;
      }
      ghost var es := Entries(buf.lheads);
      if lhpos < |buf.lheads| {
        var head := buf.lheads[lhpos];
        EntryAt(buf.lheads, lhpos);
        NextHead(buf.str, strpos, es, lhpos);
        HeadFits(head.size);
        var sizebefore := head.offset - strpos;
        if sizebefore > 0 {
          p := buf.str[strpos..head.offset];
          StepOver(buf.str, strpos, es, lhpos);
          strpos := strpos + sizebefore;
        } else {
          AtHead(buf.str, strpos, es, lhpos);
          lhpos := lhpos + 1;
          p := Header(head.size);
        }
      } else {
        EntriesLength(buf.lheads);
        assert es[lhpos..] == [];
        LastPiece(buf.str, strpos);
        p := buf.str[strpos..];
        strpos := |buf.str|;
        LastPiece(buf.str, strpos);
        PlacedEnd(buf.str);
      }
      RemainingIs();
    }

    lemma RemainingIs()
      ensures buf == null ==> Valid() && Remaining() == [] && Tail() == []
      ensures buf != null && lhpos <= |buf.lheads| ==>
                |Entries(buf.lheads)| == |buf.lheads| &&
                (strpos <= |buf.str| && Placed(buf.str, strpos, Entries(buf.lheads)[lhpos..]) <==> Valid())
      ensures Valid() && buf != null ==> lhpos <= |buf.lheads|
      ensures Valid() && buf != null ==>
                Remaining() == piece + Tail() && Tail() == Splice(buf.str, strpos, Entries(buf.lheads)[lhpos..])
    {
    }

    /** Fills `b` with the next output; reports the end when all of it fits. */
    method Read(b: array<byte>) returns (n: nat, eof: bool)
      requires Valid()
      modifies this, b
      ensures Valid()
      ensures n == if |old(Remaining())| <= b.Length then |old(Remaining())| else b.Length
      ensures b[..n] == old(Remaining())[..n] && b[n..] == old(b[n..])
      ensures Remaining() == old(Remaining())[n..]
      ensures eof <==> |old(Remaining())| <= b.Length
    {
      hide *;
      ghost var all, b0 := Remaining(), b[..];
      n := 0;
      StartFill(b0, all);
      while true
        invariant Valid() && n <= b.Length && |b0| == b.Length && Progress(b0, b[..], n, Remaining(), all)
        decreases |Remaining()|
      {
        ghost var rest, b1 := Remaining(), b[..];
        RemainingIs();
        piece := next();
        RemainingIs();
        if piece == [] {
          buf := null;
          RemainingIs();
          eof := true;
          EndFill(b0, b[..], n, rest, all);
          return;
        }
        ghost var tail := Tail();
        var nn := Copy(b, n, piece);
        assert Tail() == tail;
        Filled(b0, b1, b[..], n, piece, nn, rest, tail, all);
        n := n + nn;
        if nn < |piece| {
          piece := piece[nn..];
          RemainingIs();
          eof := false;
          EndFill(b0, b[..], n, Remaining(), all);
          return;
        }
        piece := [];
        RemainingIs();
      }
    }
  }

  ghost predicate Grown(a: seq<ListHead>, b: seq<ListHead>) {
    |a| <= |b| && b[..|a|] == a
  }

  lemma StringFits(s: bytes)
    requires |Encode(Str(s))| < TWO64
    ensures |s| < TWO64
  {
  }

  lemma {:induction false} ElementFits(vs: seq<Value>, i: nat)
    requires i < |vs|
    ensures |Encode(vs[i])| <= |EncodeAll(vs)|
  {
    if i > 0 {
      ElementFits(vs[1..], i - 1);
    }
  }

  lemma UnfoldSizes(vs: seq<Value>)
    ensures HeadSizes(Lst(vs)) == |Head(0xC0, 0xF7, |EncodeAll(vs)|)| + HeadSizesAll(vs)
    ensures |Encode(Lst(vs))| >= |EncodeAll(vs)|
  {
  }

  lemma NoElements(vs: seq<Value>, base: nat)
    ensures StrParts(vs[..0]) == [] && HeadSizesAll(vs[..0]) == 0 && HeadsAll(vs[..0], base) == []
  {
  }

  lemma EntriesSnoc(hs: seq<ListHead>, h: ListHead)
    ensures Entries(hs + [h]) == Entries(hs) + [Entry(h.offset, h.size)]
  {
    assert (hs + [h])[..|hs|] == hs;
  }

  ghost predicate Changed(a: seq<Entry>, b: seq<Entry>, k: nat, e: Entry) {
    k < |a| && b == a[k := e]
  }

  lemma ChangedMiddle(es: seq<Entry>, e: Entry, rest: seq<Entry>, a: seq<Entry>, b: seq<Entry>, e': Entry)
    requires a == es + [e] + rest && Changed(a, b, |es|, e')
    ensures b == es + ([e'] + rest)
  {
  }

  lemma PlacedRange(str: bytes, pos: int, hs: seq<Entry>)
    requires Placed(str, pos, hs)
    ensures 0 <= pos <= |str| && hs[0..] == hs
  {
  }

  lemma EntryAt(hs: seq<ListHead>, i: nat)
    requires i < |hs|
    ensures |Entries(hs)| == |hs| && Entries(hs)[i] == Entry(hs[i].offset, hs[i].size)
  {
  }

  /** The pieces of the output from the `i`-th header on. */
  lemma NextHead(str: bytes, pos: nat, hs: seq<Entry>, i: nat)
    requires i < |hs| && Placed(str, pos, hs[i..])
    ensures 0 <= pos <= hs[i].offset <= |str| && 0 <= hs[i].size < TWO64 && Placed(str, hs[i].offset, hs[i + 1..])
    ensures Splice(str, pos, hs[i..]) == str[pos..hs[i].offset] + Head(0xC0, 0xF7, hs[i].size) + Splice(str, hs[i].offset, hs[i + 1..])
  {
    assert hs[i..][0] == hs[i] && hs[i..][1..] == hs[i + 1..];
    if i + 1 < |hs| {
      assert Placed(str, hs[i].offset, hs[i + 1..]);
    }
  }

  lemma LastPiece(str: bytes, pos: nat)
    requires pos <= |str|
    ensures Splice(str, pos, []) == str[pos..]
  {
  }

  /** Two writes in a row extend what is written. */
  lemma TwoPieces(a: bytes, b: bytes, c: bytes, pos: nat, d: bytes, h: bytes, tail: bytes, whole: bytes)
    requires pos + |d| + |h| <= |a| == |b| == |c|
    requires b == Patch(a, pos, d) && c == Patch(b, pos + |d|, h)
    requires a[..pos] + (d + h + tail) == whole
    ensures c[..pos + |d| + |h|] + tail == whole
  {
    assert b[..pos + |d|] == a[..pos] + d;
    assert c[..pos + |d|] == b[..pos + |d|];
    assert c[..pos + |d| + |h|] == c[..pos + |d|] + h;
    hide Patch;
    assert a[..pos] + d + h + tail == a[..pos] + (d + h + tail);
  }

  lemma EndPiece(a: bytes, b: bytes, pos: nat, d: bytes, whole: bytes)
    requires pos + |d| == |a| && b == Patch(a, pos, d) && a[..pos] + d == whole
    ensures b == whole
  {
  }

  /** `content` is written so far, the output from `pos` and the headers `hs` on is to come, `goal` in all. */
  ghost predicate Sending(str: bytes, pos: nat, hs: seq<Entry>, base: bytes, content: bytes, goal: bytes) {
    pos <= |str| && Placed(str, pos, hs) && base <= content && content + Splice(str, pos, hs) == goal
  }

  lemma StartSend(str: bytes, hs: seq<Entry>, base: bytes, goal: bytes)
    requires Placed(str, 0, hs) && base + Splice(str, 0, hs) == goal
    ensures Sending(str, 0, hs[0..], base, base, goal)
  {
    assert hs[0..] == hs;
  }

  lemma NextSend(str: bytes, pos: nat, hs: seq<Entry>, i: nat, base: bytes, content: bytes, goal: bytes)
    requires i < |hs| && Sending(str, pos, hs[i..], base, content, goal)
    ensures pos <= hs[i].offset <= |str| && 0 <= hs[i].size < TWO64 && |Head(0xC0, 0xF7, hs[i].size)| <= 9 && base <= content
    ensures Placed(str, hs[i].offset, hs[i + 1..])
    ensures var rest := Head(0xC0, 0xF7, hs[i].size) + Splice(str, hs[i].offset, hs[i + 1..]);
            content + (str[pos..hs[i].offset] + rest) == goal && (pos == hs[i].offset ==> content + rest == goal)
  {
    NextHead(str, pos, hs, i);
    HeadFits(hs[i].size);
    hide Head, Placed, Splice;
    Split(content, str[pos..hs[i].offset], Head(0xC0, 0xF7, hs[i].size), Splice(str, hs[i].offset, hs[i + 1..]), goal);
  }

  lemma HeadSent(str: bytes, hs: seq<Entry>, i: nat, base: bytes, content: bytes, goal: bytes)
    requires i < |hs| && 0 <= hs[i].offset <= |str| && Placed(str, hs[i].offset, hs[i + 1..])
    requires base <= content && content + Splice(str, hs[i].offset, hs[i + 1..]) == goal
    ensures Sending(str, hs[i].offset, hs[i + 1..], base, content, goal)
  {
  }

  lemma LastSend(str: bytes, pos: nat, hs: seq<Entry>, base: bytes, content: bytes, goal: bytes)
    requires Sending(str, pos, hs[|hs|..], base, content, goal)
    ensures pos <= |str| && base <= content && content + (str[pos..] + []) == goal && (pos == |str| ==> content == goal)
  {
    LastPiece(str, pos);
    assert hs[|hs|..] == [];
    assert str[pos..] + [] == str[pos..];
  }

  lemma HeadFits(size: nat)
    requires size < TWO64
    ensures |Head(0xC0, 0xF7, size)| <= 9
  {
    SizeBytes(size);
  }

  lemma Split(content: bytes, piece: bytes, header: bytes, tail: bytes, goal: bytes)
    requires content + (piece + header + tail) == goal
    ensures content + (piece + (header + tail)) == goal
    ensures piece == [] ==> content + (header + tail) == goal
  {
    assert piece + header + tail == piece + (header + tail);
  }

  /** A write of part of the next piece sends a prefix of what is to be sent. */
  lemma Sent(base: bytes, content: bytes, piece: bytes, n: nat, tail: bytes, goal: bytes)
    requires n <= |piece| && base <= content && content + (piece + tail) == goal
    ensures base <= content + piece[..n] <= goal
    ensures n == |piece| ==> content + piece[..n] + tail == goal
  {
    assert piece == piece[..n] + piece[n..];
    assert goal == content + piece[..n] + (piece[n..] + tail);
  }

  lemma PatchFront(a: bytes, b: bytes, m: nat, h: bytes)
    requires m == |h| <= |a| == |b| && b == Patch(a, 0, h)
    ensures b[..m] == h
  {
  }

  lemma EntriesLength(hs: seq<ListHead>)
    ensures |Entries(hs)| == |hs|
  {
  }

  lemma PlacedEnd(str: bytes)
    ensures Placed(str, |str|, [])
  {
  }

  /** A header standing at the current position comes next. */
  lemma AtHead(str: bytes, pos: nat, hs: seq<Entry>, i: nat)
    requires i < |hs| && Placed(str, pos, hs[i..]) && hs[i].offset <= pos
    ensures 0 <= hs[i].size < TWO64 && Placed(str, pos, hs[i + 1..]) && Head(0xC0, 0xF7, hs[i].size) != []
    ensures Splice(str, pos, hs[i..]) == Head(0xC0, 0xF7, hs[i].size) + Splice(str, pos, hs[i + 1..])
  {
    NextHead(str, pos, hs, i);
    assert str[pos..pos] == [];
  }

  /** Taking the string data before a header leaves the header first. */
  lemma StepOver(str: bytes, pos: nat, hs: seq<Entry>, i: nat)
    requires i < |hs| && Placed(str, pos, hs[i..])
    ensures 0 <= pos <= hs[i].offset <= |str| && Placed(str, hs[i].offset, hs[i..])
    ensures Splice(str, pos, hs[i..]) == str[pos..hs[i].offset] + Splice(str, hs[i].offset, hs[i..])
  {
    NextHead(str, pos, hs, i);
    PlacedAt(str, hs, i);
    hide Placed, Splice;
    AtHead(str, hs[i].offset, hs, i);
    hide *;
    assert str[pos..hs[i].offset] + Head(0xC0, 0xF7, hs[i].size) + Splice(str, hs[i].offset, hs[i + 1..])
        == str[pos..hs[i].offset] + (Head(0xC0, 0xF7, hs[i].size) + Splice(str, hs[i].offset, hs[i + 1..]));
  }

  lemma PlacedAt(str: bytes, hs: seq<Entry>, i: nat)
    requires i < |hs| && 0 <= hs[i].offset <= |str| && 0 <= hs[i].size < TWO64 && Placed(str, hs[i].offset, hs[i + 1..])
    ensures Placed(str, hs[i].offset, hs[i..])
  {
    assert hs[i..][0] == hs[i] && hs[i..][1..] == hs[i + 1..];
  }

  /** So far `n` bytes of `all` are in the buffer, `rest` is to come, and the buffer is otherwise untouched. */
  ghost predicate Progress(b0: bytes, b: bytes, n: nat, rest: bytes, all: bytes) {
    n <= |b| == |b0| && b[..n] + rest == all && b[n..] == b0[n..]
  }

  lemma StartFill(b: bytes, all: bytes)
    ensures Progress(b, b, 0, all, all)
  {
  }

  lemma Filled(b0: bytes, a: bytes, b: bytes, n: nat, piece: bytes, nn: nat, rest: bytes, tail: bytes, all: bytes)
    requires Progress(b0, a, n, rest, all) && |a| == |b| && nn <= |piece| && n + nn <= |a| && b == Patch(a, n, piece[..nn])
    requires nn == (if |piece| <= |a| - n then |piece| else |a| - n) && rest == piece + tail
    ensures Progress(b0, b, n + nn, piece[nn..] + tail, all)
    ensures nn == |piece| ==> Progress(b0, b, n + nn, [] + tail, all)
    ensures nn < |piece| ==> n + nn == |b|
    ensures piece != [] ==> |[] + tail| < |rest|
  {
    assert [] + tail == tail;
    SplitRest(piece, tail, nn);
    Patched(a, n, piece[..nn]);
    Dropped(a, b0, n, nn);
    hide Patch;
    assert b[..n + nn] + (piece[nn..] + tail) == a[..n] + rest by {
      Regrouped(a[..n], piece[..nn], piece[nn..] + tail);
    }
  }

  lemma SplitRest(piece: bytes, tail: bytes, nn: nat)
    requires nn <= |piece|
    ensures piece + tail == piece[..nn] + (piece[nn..] + tail)
  {
  }

  lemma Patched(a: bytes, n: nat, d: bytes)
    requires n + |d| <= |a|
    ensures Patch(a, n, d)[..n + |d|] == a[..n] + d && Patch(a, n, d)[n + |d|..] == a[n + |d|..] && |Patch(a, n, d)| == |a|
  {
  }

  lemma Dropped(a: bytes, b: bytes, n: nat, m: nat)
    requires |a| == |b| && n + m <= |a| && a[n..] == b[n..]
    ensures a[n + m..] == b[n + m..]
  {
    assert a[n + m..] == a[n..][m..] && b[n + m..] == b[n..][m..];
  }

  lemma Regrouped(x: bytes, y: bytes, z: bytes)
    ensures x + y + z == x + (y + z)
  {
  }

  lemma EndFill(b0: bytes, b: bytes, n: nat, rest: bytes, all: bytes)
    requires Progress(b0, b, n, rest, all) && (rest == [] || n == |b|)
    ensures n == if |all| <= |b| then |all| else |b|
    ensures b[..n] == all[..n] && b[n..] == b0[n..] && rest == all[n..]
    ensures rest == [] <==> |all| <= |b|
  {
  }
}
