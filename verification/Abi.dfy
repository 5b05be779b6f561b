/** The contract ABI for flat argument lists: words, heads and tails, and how they are read back. */
module Abi {
  import opened Bytes
  import opened Wrappers

  // ---- types and values ----

  /** Types that take one word. */
  datatype Elementary =
    | Int(bits: nat)
    | Uint(bits: nat)
    | Boolean
    | Address
    | FixedBytes(size: nat)
    | Function

  datatype Type =
    | Single(elem: Elementary)
    | String
    | DynamicBytes
    | Slice(elem: Elementary)
    | Array(elem: Elementary, size: nat)

  datatype Value =
    | Num(n: int)
    | Truth(b: bool)
    | Raw(data: bytes)
    | Many(values: seq<Value>)

  predicate ValidElementary(e: Elementary) {
    match e
    case Int(bits) => 8 <= bits <= 256 && bits % 8 == 0
    case Uint(bits) => 8 <= bits <= 256 && bits % 8 == 0
    case FixedBytes(n) => 1 <= n <= 32
    case _ => true
  }

  predicate ValidType(t: Type) {
    match t
    case Single(e) => ValidElementary(e)
    case Slice(e) => ValidElementary(e)
    case Array(e, n) => ValidElementary(e) && n >= 1
    case _ => true
  }

  /** Integers of 8, 16, 32 and 64 bits are machine integers; all others are big integers of up to 256 bits. */
  function Width(bits: nat): (k: nat)
    ensures k <= 32
  {
    if bits == 8 || bits == 16 || bits == 32 || bits == 64 then bits / 8 else 32
  }

  /** A value of a type, an integer as far as its machine type, or 256 bits, goes. */
  predicate Fits(e: Elementary, v: Value) {
    match e
    case Int(bits) => v.Num? && -(Pow256(Width(bits)) / 2) <= v.n < Pow256(Width(bits)) / 2
    case Uint(bits) => v.Num? && 0 <= v.n < Pow256(Width(bits))
    case Boolean => v.Truth?
    case Address => v.Raw? && |v.data| == 20
    case FixedBytes(n) => v.Raw? && |v.data| == n
    case Function => v.Raw? && |v.data| == 24
  }

  predicate FitsType(t: Type, v: Value) {
    match t
    case Single(e) => Fits(e, v)
    case String => v.Raw?
    case DynamicBytes => v.Raw?
    case Slice(e) => v.Many? && forall i :: 0 <= i < |v.values| ==> Fits(e, v.values[i])
    case Array(e, n) => v.Many? && |v.values| == n && forall i :: 0 <= i < n ==> Fits(e, v.values[i])
  }

  // ---- words ----

  /** The last `k` bytes of a number, big-endian. */
  function Fixed(n: nat, k: nat): (r: bytes)
    ensures |r| == k
  {
    if k == 0 then [] else Fixed(n / 256, k - 1) + [n % 256]
  }

  /** A number as 256 bits, a negative one in two's complement. */
  function U256(n: int): (r: bytes)
    ensures |r| == 32
  {
    Fixed(n % Pow256(32), 32)
  }

  function RightPad(b: bytes, l: nat): bytes { if l <= |b| then b else b + Zeros(l - |b|) }

  function LeftPad(b: bytes, l: nat): bytes { if l <= |b| then b else Zeros(l - |b|) + b }

  function packElement(e: Elementary, v: Value): bytes
    requires ValidElementary(e) && Fits(e, v)
  {
    match e
    case Int(_) => U256(v.n)
    case Uint(_) => U256(v.n)
    case Boolean => U256(if v.b then 1 else 0)
    case Address => LeftPad(v.data, 32)
    case FixedBytes(_) => RightPad(v.data, 32)
    case Function => RightPad(v.data, 32)
  }

  /** Reads an integer: the low bytes for a machine integer, and a sign. */
  function readInteger(signed: bool, bits: nat, b: bytes): int
    requires |b| == 32
  {
    var k := Width(bits);
    var n := FromBE(b[32 - k..]);
    if signed && n > Pow256(k) / 2 - 1 then n - Pow256(k) else n
  }

  function readBool(word: bytes): Option<bool>
    requires |word| == 32
  {
    if exists i :: 0 <= i < 31 && word[i] != 0 then None
    else if word[31] == 0 then Some(false)
    else if word[31] == 1 then Some(true)
    else None
  }

  function readFunctionType(word: bytes): Option<bytes>
    requires |word| == 32
  {
    if FromBE(word[24..32]) != 0 then None else Some(word[0..24])
  }

  /** Reads a word as a type. */
  function ReadWord(e: Elementary, word: bytes): Option<Value>
    requires ValidElementary(e) && |word| == 32
  {
    match e
    case Int(bits) => Some(Num(readInteger(true, bits, word)))
    case Uint(bits) => Some(Num(readInteger(false, bits, word)))
    case Boolean => var r := readBool(word); if r.None? then None else Some(Truth(r.value))
    case Address => Some(Raw(word[12..]))
    case FixedBytes(n) => Some(Raw(word[..n]))
    case Function => var r := readFunctionType(word); if r.None? then None else Some(Raw(r.value))
  }

  // ---- a word read is the word written ----

  lemma {:induction false} FromFixed(n: nat, k: nat)
    ensures FromBE(Fixed(n, k)) == n % Pow256(k)
  {
    if k > 0 {
      FromFixed(n / 256, k - 1);
      assert Fixed(n, k)[..k - 1] == Fixed(n / 256, k - 1);
      Digits(n, Pow256(k - 1));
    }
  }

  lemma Digits(n: nat, p: nat)
    requires p > 0
    ensures n / 256 % p * 256 + n % 256 == n % (256 * p)
  {
    var q := n / 256;
    var r := q % p * 256 + n % 256;
    assert n == q * 256 + n % 256 && q == q / p * p + q % p;
    assert n == q / p * (256 * p) + r by {
      assert q * 256 == q / p * (256 * p) + q % p * 256;
    }
    assert 0 <= r < 256 * p by {
      assert q % p * 256 <= (p - 1) * 256;
    }
    ModUnique(n, 256 * p, q / p, r);
  }

  lemma Multiple(d: int, m: int)
    requires m >= 0
    ensures d >= 1 ==> d * m >= m
    ensures d <= -1 ==> d * m <= -m
  {
    if d >= 1 {
      assert (d - 1) * m >= 0;
    } else if d <= -1 {
      assert (-d - 1) * m >= 0;
    }
  }

  lemma ModUnique(n: int, m: nat, q: int, r: nat)
    requires m > 0 && n == q * m + r && r < m
    ensures n % m == r
  {
    var d := q - n / m;
    assert d * m == n % m - r;
    Multiple(d, m);
  }

  /** The low bytes of a number are the number of the low bytes. */
  lemma {:induction false} FixedTail(n: nat, k: nat, l: nat)
    requires l <= k
    ensures Fixed(n, k)[k - l..] == Fixed(n, l)
  {
    if l > 0 {
      FixedTail(n / 256, k - 1, l - 1);
      assert Fixed(n, k)[k - l..] == Fixed(n / 256, k - 1)[k - l..] + [n % 256];
    } else {
      assert Fixed(n, k)[k..] == [];
    }
  }

  lemma {:induction false} Pow256Divides(k: nat, l: nat)
    requires l <= k
    ensures Pow256(k) == Pow256(l) * Pow256(k - l)
  {
    if l > 0 {
      Pow256Divides(k - 1, l - 1);
    }
  }

  lemma ModMod(n: int, a: nat, b: nat)
    requires a > 0 && b > 0
    ensures n % (a * b) % a == n % a
  {
    var m := a * b;
    var q, r := n / m, n % m;
    assert n == q * (a * b) + r;
    assert n == (q * b + r / a) * a + r % a by {
      assert q * (a * b) == q * b * a;
    }
    ModUnique(n, a, q * b + r / a, r % a);
  }

  /** The low `k` bytes of a number of 256 bits. */
  lemma LowBytes(n: int, k: nat)
    requires k <= 32
    ensures FromBE(U256(n)[32 - k..]) == n % Pow256(k)
  {
    var m: nat := n % Pow256(32);
    FixedTail(m, 32, k);
    FromFixed(m, k);
    Pow256Divides(32, k);
    ModMod(n, Pow256(k), Pow256(32 - k));
    hide Fixed, Pow256, FromBE;
  }

  lemma Half(k: nat)
    requires k >= 1
    ensures Pow256(k) == 2 * (Pow256(k) / 2)
  {
    assert Pow256(k) == 2 * (128 * Pow256(k - 1));
  }

  lemma ReadInt(signed: bool, bits: nat, n: int)
    requires 8 <= bits <= 256
    requires var p := Pow256(Width(bits)); if signed then -(p / 2) <= n < p / 2 else 0 <= n < p
    ensures readInteger(signed, bits, U256(n)) == n
  {
    var k := Width(bits);
    var p := Pow256(k);
    LowBytes(n, k);
    Half(k);
    hide Pow256, U256, FromBE;
    ModUnique(n, p, if n < 0 then -1 else 0, if n < 0 then n + p else n);
  }

  lemma {:induction false} ZerosAre(b: bytes)
    requires forall i :: 0 <= i < |b| ==> b[i] == 0
    ensures FromBE(b) == 0
  {
    if b != [] {
      ZerosAre(b[..|b| - 1]);
    }
  }

  lemma SmallWord(n: nat)
    requires n < 256
    ensures forall i :: 0 <= i < 31 ==> U256(n)[i] == 0
    ensures U256(n)[31] == n
  {
    SmallMod(n, 31);
    FixedZero(31);
    LastDigit(n, 31);
    hide Pow256, Fixed;
  }

  lemma SmallMod(n: nat, k: nat)
    requires n < 256
    ensures n % Pow256(k + 1) == n
  {
    ModUnique(n, Pow256(k + 1), 0, n);
  }

  lemma LastDigit(n: nat, k: nat)
    requires n < 256
    ensures Fixed(n, k + 1) == Fixed(0, k) + [n]
  {
    FixedNext(n, k);
    hide Fixed;
    assert n / 256 == 0 && n % 256 == n;
  }

  lemma FixedNext(n: nat, k: nat)
    ensures Fixed(n, k + 1) == Fixed(n / 256, k) + [n % 256]
  {
  }

  lemma {:induction false} FixedZero(k: nat)
    ensures forall i :: 0 <= i < k ==> Fixed(0, k)[i] == 0
  {
    if k > 0 {
      FixedZero(k - 1);
    }
  }

  /** Every elementary value takes a word, and is read back from it. */
  lemma WordRoundTrip(e: Elementary, v: Value)
    requires ValidElementary(e) && Fits(e, v)
    ensures |packElement(e, v)| == 32 && ReadWord(e, packElement(e, v)) == Some(v)
  {
    var w := packElement(e, v);
    match e
    case Int(bits) => ReadInt(true, bits, v.n);
    case Uint(bits) => ReadInt(false, bits, v.n);
    case Boolean => SmallWord(if v.b then 1 else 0);
    case Address => assert w == Zeros(12) + v.data;
    case FixedBytes(n) => assert w[..n] == v.data;
    case Function =>
      assert w == v.data + Zeros(8);
      assert w[24..32] == Zeros(8);
      ZerosAre(w[24..32]);
  }

  // ---- packing ----

  predicate requiresLengthPrefix(t: Type) { t.String? || t.DynamicBytes? || t.Slice? }

  /** The elements of a slice or an array, one word each. */
  function packElements(e: Elementary, vs: seq<Value>): (r: bytes)
    requires ValidElementary(e) && forall i :: 0 <= i < |vs| ==> Fits(e, vs[i])
    ensures |r| == 32 * |vs|
  {
    if vs == [] then []
    else
      var last := |vs| - 1;
      WordRoundTrip(e, vs[last]);
      packElements(e, vs[..last]) + packElement(e, vs[last])
  }

  /** A length and what has it, filled up to whole words. */
  function packBytesSlice(data: bytes, l: nat): bytes {
    U256(l) + RightPad(data, (l + 31) / 32 * 32)
  }

  function pack(t: Type, v: Value): bytes
    requires ValidType(t) && FitsType(t, v)
  {
    match t
    case Single(e) => packElement(e, v)
    case String => packBytesSlice(v.data, |v.data|)
    case DynamicBytes => packBytesSlice(v.data, |v.data|)
    case Slice(e) => packBytesSlice(packElements(e, v.values), |v.values|)
    case Array(e, _) => packElements(e, v.values)
  }

  function HeadSize(t: Type): nat { if t.Array? then 32 * t.size else 32 }

  function HeadSizes(ts: seq<Type>): nat {
    if ts == [] then 0 else HeadSizes(ts[..|ts| - 1]) + HeadSize(ts[|ts| - 1])
  }

  predicate FitAll(ts: seq<Type>, vs: seq<Value>) {
    |ts| == |vs| && forall i :: 0 <= i < |ts| ==> ValidType(ts[i]) && FitsType(ts[i], vs[i])
  }

  /** An argument's head: its value, or where its tail is. */
  function HeadPart(t: Type, v: Value, at: nat): bytes
    requires ValidType(t) && FitsType(t, v)
  {
    if requiresLengthPrefix(t) then U256(at) else pack(t, v)
  }

  function TailPart(t: Type, v: Value): bytes
    requires ValidType(t) && FitsType(t, v)
  {
    if requiresLengthPrefix(t) then pack(t, v) else []
  }

  /** What dynamic arguments hold, one after the other. */
  function Tails(ts: seq<Type>, vs: seq<Value>): bytes
    requires FitAll(ts, vs)
  {
    if ts == [] then []
    else
      var last := |ts| - 1;
      Tails(ts[..last], vs[..last]) + TailPart(ts[last], vs[last])
  }

  /** Static arguments themselves, and for dynamic ones where in the output they are. */
  function Heads(ts: seq<Type>, vs: seq<Value>, offset: nat): bytes
    requires FitAll(ts, vs)
  {
    if ts == [] then []
    else
      var last := |ts| - 1;
      Heads(ts[..last], vs[..last], offset) + HeadPart(ts[last], vs[last], offset + |Tails(ts[..last], vs[..last])|)
  }

  /** The encoding of an argument list: heads, then tails. */
  function Packed(ts: seq<Type>, vs: seq<Value>): bytes
    requires FitAll(ts, vs)
  {
    Heads(ts, vs, HeadSizes(ts)) + Tails(ts, vs)
  }

  // ---- unpacking ----

  /** The word at `index` as an offset, and the length found there. */
  function lengthPrefixPointsTo(index: nat, output: bytes): (r: Option<(nat, nat)>)
    requires index + 32 <= |output|
    ensures r.Some? ==> r.value.0 + r.value.1 <= |output|
  {
    var offsetEnd := FromBE(output[index..index + 32]) + 32;
    if offsetEnd > |output| then None
    else
      var length := FromBE(output[offsetEnd - 32..offsetEnd]);
      if offsetEnd + length > |output| then None else Some((offsetEnd, length))
  }

  /** `size` words from `start` on. */
  function ReadElements(e: Elementary, output: bytes, start: nat, size: nat): Option<seq<Value>>
    requires ValidElementary(e) && start + 32 * size <= |output|
  {
    if size == 0 then Some([])
    else
      var front := ReadElements(e, output, start, size - 1);
      var i := start + 32 * (size - 1);
      var v := ReadWord(e, output[i..i + 32]);
      if front.None? || v.None? then None else Some(front.value + [v.value])
  }

  function ReadMany(e: Elementary, output: bytes, start: nat, size: nat): Option<Value>
    requires ValidElementary(e)
  {
    if start + 32 * size > |output| then None
    else
      var r := ReadElements(e, output, start, size);
      if r.None? then None else Some(Many(r.value))
  }

  /** The argument whose head is at `index`. */
  function Unpack(t: Type, index: nat, output: bytes): Option<Value>
    requires ValidType(t)
  {
    if index + 32 > |output| then None
    else if requiresLengthPrefix(t) then
      var r := lengthPrefixPointsTo(index, output);
      if r.None? then None
      else
        var (begin, length) := r.value;
        if t.Slice? then ReadMany(t.elem, output, begin, length) else Some(Raw(output[begin..begin + length]))
    else if t.Array? then ReadMany(t.elem, output, index, t.size)
    else ReadWord(t.elem, output[index..index + 32])
  }

  /** All arguments, each at its place among the heads; nothing if one of them cannot be read. */
  function UnpackAll(ts: seq<Type>, output: bytes): Option<seq<Value>>
    requires AllValid(ts)
  {
    if ts == [] then Some([])
    else
      var last := |ts| - 1;
      var front := UnpackAll(ts[..last], output);
      var v := Unpack(ts[last], HeadSizes(ts[..last]), output);
      if front.None? || v.None? then None else Some(front.value + [v.value])
  }

  // ---- the round trip ----

  /** `x` stands in the output at a place. */
  ghost predicate Holds(output: bytes, at: nat, x: bytes) {
    at + |x| <= |output| && output[at..at + |x|] == x
  }

  lemma HoldsSplit(output: bytes, at: nat, a: bytes, b: bytes)
    requires Holds(output, at, a + b)
    ensures Holds(output, at, a) && Holds(output, at + |a|, b)
  {
    var all := output[at..at + |a + b|];
    assert output[at..at + |a|] == all[..|a|] && output[at + |a|..at + |a| + |b|] == all[|a|..];
  }

  lemma HoldsIs(output: bytes, at: nat, x: bytes)
    requires Holds(output, at, x)
    ensures at + |x| <= |output| && output[at..at + |x|] == x
  {
  }

  lemma PackLast(e: Elementary, vs: seq<Value>)
    requires ValidElementary(e) && vs != [] && forall i :: 0 <= i < |vs| ==> Fits(e, vs[i])
    ensures packElements(e, vs) == packElements(e, vs[..|vs| - 1]) + packElement(e, vs[|vs| - 1])
  {
  }

  lemma ReadLast(e: Elementary, output: bytes, start: nat, size: nat, vs: seq<Value>, v: Value)
    requires ValidElementary(e) && size > 0 && start + 32 * size <= |output|
    requires ReadElements(e, output, start, size - 1) == Some(vs)
    requires ReadWord(e, output[start + 32 * (size - 1)..start + 32 * (size - 1) + 32]) == Some(v)
    ensures ReadElements(e, output, start, size) == Some(vs + [v])
  {
    hide ReadWord;
  }

  lemma ReadNone(e: Elementary, output: bytes, start: nat)
    requires ValidElementary(e) && start <= |output|
    ensures ReadElements(e, output, start, 0) == Some([])
  {
  }

  /** The words of packed elements are read back wherever they stand. */
  lemma {:induction false} ElementsRoundTrip(e: Elementary, vs: seq<Value>, output: bytes, start: nat)
    requires ValidElementary(e) && forall i :: 0 <= i < |vs| ==> Fits(e, vs[i])
    requires start + 32 * |vs| <= |output| && Holds(output, start, packElements(e, vs))
    ensures ReadElements(e, output, start, |vs|) == Some(vs)
    decreases |vs|
  {
    hide *;
    if vs == [] {
      ReadNone(e, output, start);
    } else {
      var front, v := vs[..|vs| - 1], vs[|vs| - 1];
      WordRoundTrip(e, v);
      PackLast(e, vs);
      assert front + [v] == vs;
      HoldsSplit(output, start, packElements(e, front), packElement(e, v));
      HoldsIs(output, start + 32 * |front|, packElement(e, v));
      ElementsRoundTrip(e, front, output, start);
      ReadLast(e, output, start, |vs|, front, v);
    }
  }

  /** A length-prefixed value that stands behind an offset. */
  lemma PrefixRoundTrip(index: nat, output: bytes, at: nat, l: nat)
    requires Holds(output, index, U256(at)) && Holds(output, at, U256(l)) && at + 32 + l <= |output| < Pow256(32)
    ensures index + 32 <= |output| && lengthPrefixPointsTo(index, output) == Some((at + 32, l))
  {
    HoldsIs(output, index, U256(at));
    HoldsIs(output, at, U256(l));
    NumberBack(at);
    NumberBack(l);
    hide U256, FromBE, Pow256;
  }

  lemma NumberBack(n: nat)
    requires n < Pow256(32)
    ensures FromBE(U256(n)) == n
  {
    LowBytes(n, 32);
    assert U256(n)[0..] == U256(n);
    ModUnique(n, Pow256(32), 0, n);
  }

  /** What is packed for a dynamic value: a length, the data, and some filling. */
  lemma PackParts(t: Type, v: Value) returns (l: nat, body: bytes, filling: bytes)
    requires ValidType(t) && FitsType(t, v) && requiresLengthPrefix(t)
    ensures pack(t, v) == U256(l) + (body + filling) && l <= |body|
    ensures t.Slice? <==> v.Many?
    ensures if t.Slice? then l == |v.values| && body == packElements(t.elem, v.values) else l == |v.data| && body == v.data
  {
    l := if t.Slice? then |v.values| else |v.data|;
    body := if t.Slice? then packElements(t.elem, v.values) else v.data;
    var to := (l + 31) / 32 * 32;
    filling := if to <= |body| then [] else Zeros(to - |body|);
    assert RightPad(body, to) == body + filling;
    hide U256, packElements;
  }

  /** What is packed behind an offset is read back. */
  lemma TailRoundTrip(t: Type, v: Value, index: nat, output: bytes, at: nat)
    requires ValidType(t) && FitsType(t, v) && requiresLengthPrefix(t) && |output| < Pow256(32)
    requires Holds(output, index, U256(at)) && Holds(output, at, pack(t, v))
    ensures Unpack(t, index, output) == Some(v)
  {
    hide *;
    var l, body, filling := PackParts(t, v);
    HoldsSplit(output, at, U256(l), body + filling);
    HoldsSplit(output, at + 32, body, filling);
    HoldsIs(output, at + 32, body);
    PrefixRoundTrip(index, output, at, l);
    if t.Slice? {
      SliceValues(t, v);
      ElementsRoundTrip(t.elem, v.values, output, at + 32);
      UnpackSlice(t, v, index, output, at + 32);
    } else {
      UnpackRaw(t, v, index, output, at + 32);
    }
  }

  lemma SliceValues(t: Type, v: Value)
    requires ValidType(t) && FitsType(t, v) && t.Slice?
    ensures v.Many? && ValidElementary(t.elem) && forall i :: 0 <= i < |v.values| ==> Fits(t.elem, v.values[i])
  {
  }

  lemma UnpackSlice(t: Type, v: Value, index: nat, output: bytes, begin: nat)
    requires ValidType(t) && t.Slice? && v.Many? && index + 32 <= |output| && begin + 32 * |v.values| <= |output|
    requires lengthPrefixPointsTo(index, output) == Some((begin, |v.values|))
    requires ReadElements(t.elem, output, begin, |v.values|) == Some(v.values)
    ensures Unpack(t, index, output) == Some(v)
  {
    hide ReadElements, lengthPrefixPointsTo;
  }

  lemma UnpackRaw(t: Type, v: Value, index: nat, output: bytes, begin: nat)
    requires ValidType(t) && FitsType(t, v) && requiresLengthPrefix(t) && !t.Slice? && index + 32 <= |output| && begin + |v.data| <= |output|
    requires lengthPrefixPointsTo(index, output) == Some((begin, |v.data|)) && output[begin..begin + |v.data|] == v.data
    ensures Unpack(t, index, output) == Some(v)
  {
    hide lengthPrefixPointsTo;
  }

  /** What is packed in place is read back. */
  lemma HeadRoundTrip(t: Type, v: Value, index: nat, output: bytes)
    requires ValidType(t) && FitsType(t, v) && !requiresLengthPrefix(t) && Holds(output, index, pack(t, v))
    ensures Unpack(t, index, output) == Some(v)
  {
    HoldsIs(output, index, pack(t, v));
    if t.Array? {
      ElementsRoundTrip(t.elem, v.values, output, index);
      hide packElements, Holds, ReadElements;
    } else {
      WordRoundTrip(t.elem, v);
      hide packElement, Holds, ReadWord;
    }
  }

  // ---- argument lists ----

  lemma FitLast(ts: seq<Type>, vs: seq<Value>)
    requires FitAll(ts, vs) && ts != []
    ensures var last := |ts| - 1; FitAll(ts[..last], vs[..last]) && ValidType(ts[last]) && FitsType(ts[last], vs[last])
  {
    hide ValidType, FitsType;
  }

  /** Heads, tails and sizes of a list, by its last argument. */
  lemma LastPart(ts: seq<Type>, vs: seq<Value>, offset: nat)
    requires FitAll(ts, vs) && ts != []
    ensures var last := |ts| - 1; var f, g, t, v := ts[..last], vs[..last], ts[last], vs[last];
            && FitAll(f, g) && ValidType(t) && FitsType(t, v)
            && Heads(ts, vs, offset) == Heads(f, g, offset) + HeadPart(t, v, offset + |Tails(f, g)|)
            && Tails(ts, vs) == Tails(f, g) + TailPart(t, v) && HeadSizes(ts) == HeadSizes(f) + HeadSize(t)
  {
    FitLast(ts, vs);
    hide ValidType, FitsType, FitAll, pack, HeadPart, TailPart, HeadSize;
  }

  lemma PartSize(t: Type, v: Value, at: nat)
    requires ValidType(t) && FitsType(t, v)
    ensures |HeadPart(t, v, at)| == HeadSize(t)
  {
    if t.Single? {
      WordRoundTrip(t.elem, v);
    }
    hide packElements, U256;
  }

  /** Heads take their sizes, whatever the offset. */
  lemma {:induction false} HeadsSize(ts: seq<Type>, vs: seq<Value>, offset: nat)
    requires FitAll(ts, vs)
    ensures |Heads(ts, vs, offset)| == HeadSizes(ts)
  {
    if ts != [] {
      var last := |ts| - 1;
      LastPart(ts, vs, offset);
      hide *;
      HeadsSize(ts[..last], vs[..last], offset);
      PartSize(ts[last], vs[last], offset + |Tails(ts[..last], vs[..last])|);
    }
  }

  /** A head and a tail where a list's encoding has them are read back. */
  lemma PartRoundTrip(t: Type, v: Value, index: nat, output: bytes, at: nat)
    requires ValidType(t) && FitsType(t, v) && |output| < Pow256(32)
    requires Holds(output, index, HeadPart(t, v, at)) && Holds(output, at, TailPart(t, v))
    ensures Unpack(t, index, output) == Some(v)
  {
    if requiresLengthPrefix(t) {
      TailRoundTrip(t, v, index, output, at);
    } else {
      HeadRoundTrip(t, v, index, output);
    }
    hide Holds, pack, U256, Unpack, Pow256;
  }

  /** Heads at the start of the output and tails at their place: every argument is read back. */
  lemma {:induction false} ListRoundTrip(ts: seq<Type>, vs: seq<Value>, output: bytes, offset: nat)
    requires FitAll(ts, vs) && |output| < Pow256(32)
    requires Holds(output, 0, Heads(ts, vs, offset)) && Holds(output, offset, Tails(ts, vs))
    ensures AllValid(ts) && UnpackAll(ts, output) == Some(vs)
    decreases |ts|
  {
    hide *;
    ValidAll(ts, vs);
    if ts == [] {
      UnpackNone(ts, vs, output);
    } else {
      var last := |ts| - 1;
      var f, g, t, v := ts[..last], vs[..last], ts[last], vs[last];
      LastPart(ts, vs, offset);
      HeadsSize(f, g, offset);
      var at := offset + |Tails(f, g)|;
      HoldsSplit(output, 0, Heads(f, g, offset), HeadPart(t, v, at));
      HoldsSplit(output, offset, Tails(f, g), TailPart(t, v));
      ListRoundTrip(f, g, output, offset);
      PartRoundTrip(t, v, HeadSizes(f), output, at);
      UnpackLast(ts, vs, output);
    }
  }

  predicate AllValid(ts: seq<Type>) { forall i :: 0 <= i < |ts| ==> ValidType(ts[i]) }

  lemma ValidAll(ts: seq<Type>, vs: seq<Value>)
    requires FitAll(ts, vs)
    ensures AllValid(ts) && |ts| == |vs|
  {
    hide ValidType, FitsType;
  }

  lemma UnpackNone(ts: seq<Type>, vs: seq<Value>, output: bytes)
    requires ts == [] && vs == []
    ensures AllValid(ts) && UnpackAll(ts, output) == Some(vs)
  {
  }

  lemma UnpackLast(ts: seq<Type>, vs: seq<Value>, output: bytes)
    requires AllValid(ts) && ts != [] && |vs| == |ts| && AllValid(ts[..|ts| - 1]) && ValidType(ts[|ts| - 1])
    requires UnpackAll(ts[..|ts| - 1], output) == Some(vs[..|vs| - 1])
    requires Unpack(ts[|ts| - 1], HeadSizes(ts[..|ts| - 1]), output) == Some(vs[|vs| - 1])
    ensures UnpackAll(ts, output) == Some(vs)
  {
    assert vs[..|vs| - 1] + [vs[|vs| - 1]] == vs;
    hide Unpack, HeadSizes, ValidType;
  }

  /** What is packed is unpacked again: every offset leads to its own tail. */
  lemma PackRoundTrip(ts: seq<Type>, vs: seq<Value>)
    requires FitAll(ts, vs) && |Packed(ts, vs)| < Pow256(32)
    ensures AllValid(ts) && UnpackAll(ts, Packed(ts, vs)) == Some(vs)
  {
    var heads, tails := Heads(ts, vs, HeadSizes(ts)), Tails(ts, vs);
    HeadsSize(ts, vs, HeadSizes(ts));
    BothHold(heads, tails);
    hide *;
    ListRoundTrip(ts, vs, Packed(ts, vs), HeadSizes(ts));
  }

  lemma BothHold(a: bytes, b: bytes)
    ensures Holds(a + b, 0, a) && Holds(a + b, |a|, b)
  {
    assert (a + b)[0..0 + |a|] == a && (a + b)[|a|..|a| + |b|] == b;
  }
}
