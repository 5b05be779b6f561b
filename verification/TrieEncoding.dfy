/** The three encodings of trie keys: bytes, hex nibbles with an optional terminator, and the compact form on disk. */
module TrieEncoding {
  import opened Bytes
  import opened Wrappers

  /** Marks a hex key that leads to a value. */
  const TERMINATOR: byte := 16

  predicate Nibbles(s: bytes) {
    forall i :: 0 <= i < |s| ==> s[i] < 16
  }

  predicate hasTerm(s: bytes) {
    |s| > 0 && s[|s| - 1] == TERMINATOR
  }

  /** A hex key without its terminator. */
  function Bare(hex: bytes): bytes {
    if hasTerm(hex) then hex[..|hex| - 1] else hex
  }

  /** Nibbles, and perhaps a terminator at the end. */
  predicate Hex(s: bytes) {
    Nibbles(Bare(s))
  }

  /** The full hex key of a value: nibbles and a terminator. */
  predicate FullKey(s: bytes) {
    hasTerm(s) && Nibbles(s[..|s| - 1])
  }

  function Unpacked(b: bytes): (r: bytes)
    ensures |r| == 2 * |b| && Nibbles(r)
  {
    if b == [] then [] else [b[0] / 16, b[0] % 16] + Unpacked(b[1..])
  }

  function Packed(s: bytes): (r: bytes)
    requires Nibbles(s) && |s| % 2 == 0
    ensures |r| == |s| / 2
  {
    if s == [] then [] else [s[0] * 16 + s[1]] + Packed(s[2..])
  }

  lemma {:induction false} UnpackPack(s: bytes)
    requires Nibbles(s) && |s| % 2 == 0
    ensures Unpacked(Packed(s)) == s
  {
    if s != [] {
      UnpackPack(s[2..]);
      var p := Packed(s);
      assert p[1..] == Packed(s[2..]);
      assert s == [s[0], s[1]] + s[2..];
    }
  }

  lemma {:induction false} PackUnpack(b: bytes)
    ensures Packed(Unpacked(b)) == b
  {
    if b != [] {
      PackUnpack(b[1..]);
      assert Unpacked(b)[2..] == Unpacked(b[1..]);
    }
  }

  lemma {:induction false} UnpackSnoc(b: bytes, x: byte)
    ensures Unpacked(b + [x]) == Unpacked(b) + [x / 16, x % 16]
  {
    if b == [] {
      assert b + [x] == [x];
    } else {
      UnpackSnoc(b[1..], x);
      assert (b + [x])[1..] == b[1..] + [x];
    }
  }

  lemma {:induction false} PackSnoc(s: bytes, x: byte, y: byte)
    requires Nibbles(s) && |s| % 2 == 0 && x < 16 && y < 16
    ensures Nibbles(s + [x, y]) && Packed(s + [x, y]) == Packed(s) + [x * 16 + y]
  {
    if s == [] {
      assert s + [x, y] == [x, y];
    } else {
      PackSnoc(s[2..], x, y);
      assert (s + [x, y])[2..] == s[2..] + [x, y];
    }
  }

  function KeybytesToHex(b: bytes): (r: bytes)
    ensures FullKey(r)
  {
    Unpacked(b) + [TERMINATOR]
  }

  /** The compact form: a flag for the terminator, a flag for odd length, and the nibbles packed. */
  function HexToCompact(hex: bytes): (r: bytes)
    requires Hex(hex)
    ensures r != []
  {
    var flag := if hasTerm(hex) then 32 else 0;
    var h := Bare(hex);
    if |h| % 2 == 1 then [flag + 16 + h[0]] + Packed(h[1..]) else [flag] + Packed(h)
  }

  /** The hex form of a compact key; there is none for an empty one, on which the program panics. */
  function CompactToHex(compact: bytes): Option<bytes> {
    if compact == [] then None else Some(Chopped(KeybytesToHex(compact)))
  }

  /** Deletes the terminator or not, and the flag nibbles. */
  function Chopped(base: bytes): bytes
    requires |base| >= 3
  {
    var b := if base[0] < 2 then base[..|base| - 1] else base;
    b[2 - base[0] % 2..]
  }

  /** The parts of a hex key: flags, the nibble beside the flags, and the nibbles in pairs. */
  function Flags(hex: bytes): byte { (if hasTerm(hex) then 2 else 0) + |Bare(hex)| % 2 }

  function Odd(hex: bytes): byte
    requires Hex(hex)
  {
    if |Bare(hex)| % 2 == 1 then Bare(hex)[0] else 0
  }

  function Pairs(hex: bytes): bytes { if |Bare(hex)| % 2 == 1 then Bare(hex)[1..] else Bare(hex) }

  function Joined(f: byte, x: byte, body: bytes): bytes {
    (if f % 2 == 1 then [x] else []) + body + (if f < 2 then [] else [TERMINATOR])
  }

  function Flagged(f: byte, x: byte, body: bytes): bytes
    requires f < 4 && x < 16 && Nibbles(body) && |body| % 2 == 0
  {
    [f * 16 + x] + Packed(body)
  }

  lemma CompactParts(hex: bytes)
    requires Hex(hex)
    ensures Nibbles(Pairs(hex)) && |Pairs(hex)| % 2 == 0 && Flags(hex) < 4 && Odd(hex) < 16
    ensures HexToCompact(hex) == Flagged(Flags(hex), Odd(hex), Pairs(hex))
    ensures hex == Joined(Flags(hex), Odd(hex), Pairs(hex))
  {
    hide Packed;
  }

  function Base(f: byte, x: byte, body: bytes): (r: bytes)
    ensures |r| >= 3
  {
    [f, x] + body + [TERMINATOR]
  }

  lemma UnpackParts(f: byte, x: byte, body: bytes)
    requires f < 4 && x < 16 && Nibbles(body) && |body| % 2 == 0
    ensures CompactToHex(Flagged(f, x, body)) == Some(Joined(f, x, body))
  {
    hide KeybytesToHex, Chopped, Joined, Packed, Unpacked, Base;
    UnpackPack(body);
    HexOf(f, x, Packed(body));
    Chop(f, x, body);
  }

  lemma HexOf(f: byte, x: byte, p: bytes)
    requires f < 16 && x < 16
    ensures KeybytesToHex([f * 16 + x] + p) == Base(f, x, Unpacked(p))
  {
    var c := [f * 16 + x] + p;
    assert c[1..] == p;
    assert c[0] / 16 == f && c[0] % 16 == x;
  }

  lemma Chop(f: byte, x: byte, body: bytes)
    ensures Chopped(Base(f, x, body)) == Joined(f, x, body)
  {
  }

  /** Unpacking a compact key restores the hex key, terminator included. */
  lemma CompactRoundTrip(hex: bytes)
    requires Hex(hex)
    ensures CompactToHex(HexToCompact(hex)) == Some(hex)
  {
    CompactParts(hex);
    hide *;
    UnpackParts(Flags(hex), Odd(hex), Pairs(hex));
  }

  /** Different hex keys have different compact forms. */
  lemma CompactInjective(a: bytes, b: bytes)
    requires Hex(a) && Hex(b) && HexToCompact(a) == HexToCompact(b)
    ensures a == b
  {
    CompactRoundTrip(a);
    CompactRoundTrip(b);
  }

  lemma KeyInjective(a: bytes, b: bytes)
    requires KeybytesToHex(a) == KeybytesToHex(b)
    ensures a == b
  {
    assert Unpacked(a) == KeybytesToHex(a)[..|KeybytesToHex(a)| - 1];
    assert Unpacked(b) == KeybytesToHex(b)[..|KeybytesToHex(b)| - 1];
    PackUnpack(a);
    PackUnpack(b);
  }

  /** No full key is a proper prefix of another, so keys branch before either ends. */
  lemma FullKeysBranch(a: bytes, b: bytes, n: nat)
    requires FullKey(a) && FullKey(b) && n <= |a| && n <= |b| && a[..n] == b[..n]
    ensures n == |a| <==> n == |b|
  {
    if n > 0 {
      assert a[n - 1] == a[..n][n - 1] && b[n - 1] == b[..n][n - 1];
    }
  }

  // ---- the same, byte by byte ----

  method decodeNibbles(nibbles: bytes, dst: array<byte>, at: nat)
    requires Nibbles(nibbles) && |nibbles| % 2 == 0 && dst.Length == at + |nibbles| / 2
    modifies dst
    ensures dst[..] == old(dst[..at]) + Packed(nibbles)
  {
    var bi, ni := 0, 0;
    assert nibbles[..0] == [];
    while ni < |nibbles|
      invariant ni == 2 * bi && 0 <= ni <= |nibbles|
      invariant dst[..at + bi] == old(dst[..at]) + Packed(nibbles[..ni])
    {
      PackSnoc(nibbles[..ni], nibbles[ni], nibbles[ni + 1]);
      assert nibbles[..ni + 2] == nibbles[..ni] + [nibbles[ni], nibbles[ni + 1]];
      dst[at + bi] := nibbles[ni] * 16 + nibbles[ni + 1];
      bi, ni := bi + 1, ni + 2;
    }
    assert nibbles[..ni] == nibbles && dst[..at + bi] == dst[..];
  }

  method hexToCompact(hex: bytes) returns (r: bytes)
    requires Hex(hex)
    ensures r == HexToCompact(hex)
  {
    var terminator: byte, h := 0, hex;
    if hasTerm(hex) {
      terminator := 1;
      h := hex[..|hex| - 1];
    }
    var buf := new byte[|h| / 2 + 1];
    buf[0] := terminator * 32;
    if |h| % 2 == 1 {
      buf[0] := buf[0] + 16 + h[0]; // odd flag, and the first nibble
      h := h[1..];
    }
    assert buf[..1] == [buf[0]];
    decodeNibbles(h, buf, 1);
    r := buf[..];
  }

  method keybytesToHex(str: bytes) returns (r: bytes)
    ensures r == KeybytesToHex(str)
  {
    var l := |str| * 2 + 1;
    var nibbles := new byte[l];
    assert str[..0] == [];
    for i := 0 to |str|
      invariant nibbles[..2 * i] == Unpacked(str[..i])
    {
      UnpackSnoc(str[..i], str[i]);
      assert str[..i + 1] == str[..i] + [str[i]];
      nibbles[i * 2] := str[i] / 16;
      nibbles[i * 2 + 1] := str[i] % 16;
    }
    assert str[..|str|] == str;
    nibbles[l - 1] := TERMINATOR;
    r := nibbles[..];
    assert r == nibbles[..l - 1] + [TERMINATOR];
  }

  /** Turns hex nibbles into key bytes; on an odd number of nibbles, on which the program panics, there are none. */
  method hexToKeybytes(hex: bytes) returns (key: Option<bytes>)
    requires Hex(hex)
    ensures key.Some? <==> |Bare(hex)| % 2 == 0
    ensures key.Some? ==> KeybytesToHex(key.value) == Bare(hex) + [TERMINATOR]
    ensures forall k :: hex == KeybytesToHex(k) ==> key == Some(k)
  {
    var h := Bare(hex);
    if |h| % 2 != 0 {
      return None;
    }
    var buf := new byte[|h| / 2];
    assert buf[..0] == [];
    decodeNibbles(h, buf, 0);
    key := Some(buf[..]);
    UnpackPack(h);
    forall k | hex == KeybytesToHex(k)
      ensures key == Some(k)
    {
      assert h == Unpacked(k);
      PackUnpack(k);
    }
  }

  /** How far two keys agree. */
  method prefixLen(a: bytes, b: bytes) returns (i: nat)
    ensures i == PrefixLen(a, b)
  {
    var length := if |b| < |a| then |b| else |a|;
    i := 0;
    while i < length
      invariant i <= length && a[..i] == b[..i]
    {
      if a[i] != b[i] {
        break;
      }
      i := i + 1;
    }
    PrefixIs(a, b, i);
  }

  function PrefixLen(a: bytes, b: bytes): (n: nat)
    ensures n <= |a| && n <= |b| && a[..n] == b[..n]
    ensures n < |a| && n < |b| ==> a[n] != b[n]
  {
    if a == [] || b == [] || a[0] != b[0] then 0
    else
      var n := PrefixLen(a[1..], b[1..]);
      assert a[..n + 1] == [a[0]] + a[1..][..n] && b[..n + 1] == [b[0]] + b[1..][..n];
      n + 1
  }

  lemma PrefixIs(a: bytes, b: bytes, n: nat)
    requires n <= |a| && n <= |b| && a[..n] == b[..n] && (n < |a| && n < |b| ==> a[n] != b[n])
    ensures n == PrefixLen(a, b)
  {
    var m := PrefixLen(a, b);
    var k := if n < m then n else m;
    assert forall i :: 0 <= i < n ==> a[i] == a[..n][i] && b[i] == b[..n][i];
    assert forall i :: 0 <= i < m ==> a[i] == a[..m][i] && b[i] == b[..m][i];
  }

  lemma PrefixWhole(a: bytes, b: bytes)
    ensures PrefixLen(a, b) == |b| <==> b <= a
  {
    assert b[..|b|] == b;
    if b <= a {
      assert a[..|b|] == b;
      PrefixIs(a, b, |b|);
    }
  }

  /** Whatever is unpacked from a compact form is a hex key. */
  lemma ChoppedHex(c: bytes)
    ensures CompactToHex(c).Some? ==> Hex(CompactToHex(c).value)
  {
    if c != [] {
      var f, x: byte := c[0] / 16, c[0] % 16;
      assert c == [f * 16 + x] + c[1..];
      HexOf(f, x, c[1..]);
      var body := Unpacked(c[1..]);
      assert Nibbles(body);
      hide KeybytesToHex, Chopped, Joined, Unpacked, Base;
      Chop(f, x, body);
      JoinedHex(f, x, body);
    }
  }

  lemma JoinedHex(f: byte, x: byte, body: bytes)
    requires x < 16 && Nibbles(body)
    ensures Hex(Joined(f, x, body))
  {
    var r := (if f % 2 == 1 then [x] else []) + body;
    assert Nibbles(r);
    if f < 2 {
      assert Joined(f, x, body) == r;
    } else {
      assert Bare(Joined(f, x, body)) == r;
    }
  }
}
