/** What unpacking makes of any data: exactly which values are read, and when there are none. */
module AbiRead {
  import opened Bytes
  import opened Abi
  import opened AbiLayout
  import opened Wrappers

  // ---- what should be read ----

  /**
    The value of a word: a number modulo the size of its type, a boolean that is zero or one, or bytes at the place of the
    type. What is left of the word does not matter, except behind a function.
   */
  ghost predicate WordReads(word: bytes, e: Elementary, v: Value)
    requires |word| == 32
  {
    match e
    case Int(bits) => Fits(e, v) && v.n % Pow256(Width(bits)) == FromBE(word) % Pow256(Width(bits))
    case Uint(bits) => Fits(e, v) && v.n % Pow256(Width(bits)) == FromBE(word) % Pow256(Width(bits))
    case Boolean => v.Truth? && FromBE(word) == if v.b then 1 else 0
    case Address => v == Raw(word[12..])
    case FixedBytes(n) => n <= 32 && v == Raw(word[..n])
    case Function => v == Raw(word[..24]) && forall i :: 24 <= i < 32 ==> word[i] == 0
  }

  ghost predicate ElementReads(output: bytes, at: nat, e: Elementary, v: Value) {
    at + 32 <= |output| && WordReads(output[at..at + 32], e, v)
  }

  ghost predicate ElementsRead(output: bytes, at: nat, e: Elementary, vs: seq<Value>) {
    at + 32 * |vs| <= |output| && forall k :: 0 <= k < |vs| ==> ElementReads(output, at + 32 * k, e, vs[k])
  }

  ghost function NumberIn(output: bytes, at: nat): nat
    requires at + 32 <= |output|
  {
    FromBE(output[at..at + 32])
  }

  /** An argument by its head: in place, or where an offset leads, as much as the length there says, all within the data. */
  ghost predicate ArgumentReads(output: bytes, t: Type, v: Value, index: nat) {
    && index + 32 <= |output|
    && match t
       case Single(e) => ElementReads(output, index, e, v)
       case Array(e, n) => v.Many? && |v.values| == n && ElementsRead(output, index, e, v.values)
       case _ =>
         var at := NumberIn(output, index);
         && at + 32 <= |output|
         && var l := NumberIn(output, at);
            && at + 32 + l <= |output|
            && if t.Slice? then v.Many? && |v.values| == l && ElementsRead(output, at + 32, t.elem, v.values)
               else v == Raw(output[at + 32..at + 32 + l])
  }

  // ---- numbers ----

  lemma {:induction false} JoinedBE(a: bytes, b: bytes)
    ensures FromBE(a + b) == FromBE(a) * Pow256(|b|) + FromBE(b)
    decreases |b|
  {
    if b == [] {
      assert a + b == a;
    } else {
      var c := b[..|b| - 1];
      JoinedBE(a, c);
      assert (a + b)[..|a + b| - 1] == a + c;
      assert FromBE(a) * Pow256(|b|) == FromBE(a) * Pow256(|c|) * 256;
    }
  }

  /** The number of the low bytes. */
  lemma LowNumber(word: bytes, k: nat)
    requires k <= |word|
    ensures FromBE(word[|word| - k..]) == FromBE(word) % Pow256(k)
  {
    var high, low := word[..|word| - k], word[|word| - k..];
    assert word == high + low;
    JoinedBE(high, low);
    FromBEBound(low);
    ModUnique(FromBE(word), Pow256(k), FromBE(high), FromBE(low));
  }

  lemma {:induction false} ZeroNumber(b: bytes)
    ensures FromBE(b) == 0 <==> forall i :: 0 <= i < |b| ==> b[i] == 0
  {
    if b != [] {
      var c := b[..|b| - 1];
      ZeroNumber(c);
      assert forall i :: 0 <= i < |c| ==> c[i] == b[i];
    }
  }

  /** Two numbers of a range that are the same modulo its size. */
  lemma SameInRange(m: int, n: int, low: int, p: int)
    requires p > 0 && low <= m < low + p && low <= n < low + p && m % p == n % p
    ensures m == n
  {
    var d := m / p - n / p;
    assert m - n == d * p;
    Multiple(d, p);
  }

  /** The number as it is read is the one of the type's range. */
  lemma SignedNumber(n: nat, p: int, m: int)
    requires p > 0 && p == 2 * (p / 2) && n < p
    ensures (m == if n > p / 2 - 1 then n - p else n) <==> -(p / 2) <= m < p / 2 && m % p == n
  {
    ModUnique(n, p, 0, n);
    ModUnique(n - p, p, -1, n);
    if -(p / 2) <= m < p / 2 && m % p == n {
      SameInRange(m, if n > p / 2 - 1 then n - p else n, -(p / 2), p);
    }
  }

  lemma UnsignedNumber(n: nat, p: int, m: int)
    requires p > 0 && n < p
    ensures m == n <==> 0 <= m < p && m % p == n
  {
    ModUnique(n, p, 0, n);
    if 0 <= m < p && m % p == n {
      SameInRange(m, n, 0, p);
    }
  }

  // ---- words ----

  lemma IntegerExact(signed: bool, bits: nat, word: bytes, m: int)
    requires 8 <= bits <= 256 && |word| == 32
    ensures var p := Pow256(Width(bits));
            readInteger(signed, bits, word) == m <==>
              (if signed then -(p / 2) <= m < p / 2 else 0 <= m < p) && m % p == FromBE(word) % p
  {
    var k := Width(bits);
    var p := Pow256(k);
    var n := FromBE(word[32 - k..]);
    LowNumber(word, k);
    Half(k);
    hide Pow256, FromBE;
    if signed {
      SignedNumber(n, p, m);
    } else {
      UnsignedNumber(n, p, m);
    }
  }

  lemma BoolExact(word: bytes, b: bool)
    requires |word| == 32
    ensures readBool(word) == Some(b) <==> FromBE(word) == if b then 1 else 0
  {
    var c := word[..31];
    ZeroNumber(c);
    assert word[..|word| - 1] == c && forall i :: 0 <= i < 31 ==> c[i] == word[i];
    assert FromBE(word) == FromBE(c) * 256 + word[31];
  }

  lemma FunctionExact(word: bytes)
    requires |word| == 32
    ensures readFunctionType(word) == if forall i :: 24 <= i < 32 ==> word[i] == 0 then Some(word[..24]) else None
  {
    var c := word[24..32];
    ZeroNumber(c);
    assert forall i :: 24 <= i < 32 ==> word[i] == c[i - 24];
    assert word[0..24] == word[..24];
    hide FromBE;
  }

  lemma WordExact(e: Elementary, word: bytes, v: Value)
    requires ValidElementary(e) && |word| == 32
    ensures ReadWord(e, word) == Some(v) <==> WordReads(word, e, v)
  {
    match e {
      case Int(bits) => if v.Num? { IntegerExact(true, bits, word, v.n); }
      case Uint(bits) => if v.Num? { IntegerExact(false, bits, word, v.n); }
      case Boolean => if v.Truth? { BoolExact(word, v.b); }
      case Function => FunctionExact(word);
      case _ =>
    }
    hide readInteger, readBool, readFunctionType, Pow256, FromBE, Width;
  }

  // ---- elements ----

  lemma {:induction false} ElementsExact(e: Elementary, output: bytes, start: nat, size: nat, vs: seq<Value>)
    requires ValidElementary(e) && start + 32 * size <= |output|
    ensures ReadElements(e, output, start, size) == Some(vs) <==> |vs| == size && ElementsRead(output, start, e, vs)
    decreases size
  {
    hide ReadWord, WordReads, ReadElements, ElementsRead;
    if size > 0 {
      var i := start + 32 * (size - 1);
      if |vs| == size {
        var front, last := vs[..size - 1], vs[size - 1];
        ElementsExact(e, output, start, size - 1, front);
        WordExact(e, output[i..i + 32], last);
        ElementsSplit(output, start, e, vs);
        assert vs == front + [last];
        LastRead(e, output, start, size, vs);
      } else {
        ReadLength(e, output, start, size);
      }
    } else {
      NoElements(e, output, start, vs);
    }
  }

  lemma NoElements(e: Elementary, output: bytes, start: nat, vs: seq<Value>)
    requires ValidElementary(e) && start <= |output|
    ensures ReadElements(e, output, start, 0) == Some(vs) <==> |vs| == 0 && ElementsRead(output, start, e, vs)
  {
  }

  lemma ElementsSplit(output: bytes, at: nat, e: Elementary, vs: seq<Value>)
    requires vs != [] && at + 32 * |vs| <= |output|
    ensures var last := |vs| - 1; var i := at + 32 * last;
            ElementsRead(output, at, e, vs) <==> ElementsRead(output, at, e, vs[..last]) && WordReads(output[i..i + 32], e, vs[last])
  {
    hide WordReads;
    var last := |vs| - 1;
    assert forall k :: 0 <= k < last ==> vs[..last][k] == vs[k];
    if ElementsRead(output, at, e, vs) {
      assert ElementReads(output, at + 32 * last, e, vs[last]);
    }
  }

  lemma LastRead(e: Elementary, output: bytes, start: nat, size: nat, vs: seq<Value>)
    requires ValidElementary(e) && size > 0 && start + 32 * size <= |output| && |vs| == size
    ensures var i := start + 32 * (size - 1);
            ReadElements(e, output, start, size) == Some(vs) <==>
              ReadElements(e, output, start, size - 1) == Some(vs[..size - 1]) && ReadWord(e, output[i..i + 32]) == Some(vs[size - 1])
  {
    var i := start + 32 * (size - 1);
    var front, v := ReadElements(e, output, start, size - 1), ReadWord(e, output[i..i + 32]);
    if front.Some? && v.Some? && front.value + [v.value] == vs {
      assert vs[..size - 1] == front.value && vs[size - 1] == v.value;
    }
    assert vs == vs[..size - 1] + [vs[size - 1]];
    hide ReadWord;
  }

  lemma {:induction false} ReadLength(e: Elementary, output: bytes, start: nat, size: nat)
    requires ValidElementary(e) && start + 32 * size <= |output|
    ensures ReadElements(e, output, start, size).Some? ==> |ReadElements(e, output, start, size).value| == size
    decreases size
  {
    if size > 0 {
      ReadLength(e, output, start, size - 1);
    }
    hide ReadWord;
  }

  lemma ManyExact(e: Elementary, output: bytes, start: nat, size: nat, v: Value)
    requires ValidElementary(e)
    ensures ReadMany(e, output, start, size) == Some(v) <==> v.Many? && |v.values| == size && ElementsRead(output, start, e, v.values)
  {
    if start + 32 * size <= |output| && v.Many? {
      ElementsExact(e, output, start, size, v.values);
    }
    hide ReadElements, ElementReads;
  }

  // ---- arguments ----

  lemma PrefixExact(index: nat, output: bytes)
    requires index + 32 <= |output|
    ensures var at := NumberIn(output, index);
            lengthPrefixPointsTo(index, output) ==
            if at + 32 <= |output| && at + 32 + NumberIn(output, at) <= |output| then Some((at + 32, NumberIn(output, at))) else None
  {
    hide FromBE;
  }

  /** An argument is read exactly if it is there, and as it is there; else nothing is read. */
  lemma UnpackExact(t: Type, index: nat, output: bytes, v: Value)
    requires ValidType(t)
    ensures Unpack(t, index, output) == Some(v) <==> ArgumentReads(output, t, v, index)
  {
    if index + 32 <= |output| {
      if requiresLengthPrefix(t) {
        PrefixExact(index, output);
        var at := NumberIn(output, index);
        if t.Slice? && at + 32 <= |output| {
          ManyExact(t.elem, output, at + 32, NumberIn(output, at), v);
        }
      } else if t.Array? {
        ManyExact(t.elem, output, index, t.size, v);
      } else {
        WordExact(t.elem, output[index..index + 32], v);
      }
    }
    hide NumberIn, lengthPrefixPointsTo, ReadMany, ElementsRead, ReadWord, WordReads;
  }

  ghost predicate AllRead(ts: seq<Type>, vs: seq<Value>, output: bytes) {
    |ts| == |vs| && forall i :: 0 <= i < |ts| ==> ArgumentReads(output, ts[i], vs[i], HeadSizes(ts[..i]))
  }

  /** A list is read exactly if every argument is. */
  lemma {:induction false} UnpackAllExact(ts: seq<Type>, output: bytes, vs: seq<Value>)
    requires AllValid(ts)
    ensures UnpackAll(ts, output) == Some(vs) <==> AllRead(ts, vs, output)
    decreases |ts|
  {
    if ts != [] {
      var last := |ts| - 1;
      assert AllValid(ts[..last]) && ValidType(ts[last]);
      if |vs| == |ts| {
        UnpackAllExact(ts[..last], output, vs[..last]);
        UnpackExact(ts[last], HeadSizes(ts[..last]), output, vs[last]);
        AllSplit(ts, vs, output);
        UnpackSplit(ts, vs, output);
      } else {
        UnpackLength(ts, output);
      }
    }
    hide Unpack, ArgumentReads, UnpackAll, AllRead;
    if ts == [] {
      NoneRead(ts, output, vs);
    }
  }

  lemma NoneRead(ts: seq<Type>, output: bytes, vs: seq<Value>)
    requires ts == []
    ensures AllValid(ts) && (UnpackAll(ts, output) == Some(vs) <==> AllRead(ts, vs, output))
  {
  }

  lemma AllSplit(ts: seq<Type>, vs: seq<Value>, output: bytes)
    requires ts != [] && |ts| == |vs|
    ensures var last := |ts| - 1;
            AllRead(ts, vs, output) <==>
              AllRead(ts[..last], vs[..last], output) && ArgumentReads(output, ts[last], vs[last], HeadSizes(ts[..last]))
  {
    var last := |ts| - 1;
    assert forall i :: 0 <= i < last ==> ts[..last][i] == ts[i] && vs[..last][i] == vs[i] && ts[..last][..i] == ts[..i];
    hide ArgumentReads, HeadSizes;
  }

  lemma UnpackSplit(ts: seq<Type>, vs: seq<Value>, output: bytes)
    requires ts != [] && |ts| == |vs| && AllValid(ts) && AllValid(ts[..|ts| - 1])
    ensures var last := |ts| - 1;
            UnpackAll(ts, output) == Some(vs) <==>
              UnpackAll(ts[..last], output) == Some(vs[..last]) && Unpack(ts[last], HeadSizes(ts[..last]), output) == Some(vs[last])
  {
    var last := |ts| - 1;
    var front, v := UnpackAll(ts[..last], output), Unpack(ts[last], HeadSizes(ts[..last]), output);
    if front.Some? && v.Some? && front.value + [v.value] == vs {
      assert vs[..last] == front.value && vs[last] == v.value;
    }
    assert vs == vs[..last] + [vs[last]];
    hide Unpack, HeadSizes;
  }

  lemma {:induction false} UnpackLength(ts: seq<Type>, output: bytes)
    requires AllValid(ts)
    ensures UnpackAll(ts, output).Some? ==> |UnpackAll(ts, output).value| == |ts|
    decreases |ts|
  {
    if ts != [] {
      assert AllValid(ts[..|ts| - 1]);
      UnpackLength(ts[..|ts| - 1], output);
    }
    hide Unpack, HeadSizes;
  }
}
