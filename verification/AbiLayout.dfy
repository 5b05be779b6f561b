/** Where everything stands in a packed argument list, byte by byte. */
module AbiLayout {
  import opened Bytes
  import opened Abi

  // ---- what should be found ----

  /** A number of 256 bits. */
  ghost predicate NumberAt(output: bytes, at: nat, n: int) {
    at + 32 <= |output| && FromBE(output[at..at + 32]) == n % Pow256(32)
  }

  ghost predicate ZerosAt(output: bytes, at: nat, n: nat) {
    at + n <= |output| && forall i :: at <= i < at + n ==> output[i] == 0
  }

  /** The word of an elementary value: numbers fill it, addresses stand at its end, and other bytes at its start. */
  ghost predicate ElementAt(output: bytes, at: nat, e: Elementary, v: Value) {
    match e
    case Int(_) => v.Num? && NumberAt(output, at, v.n)
    case Uint(_) => v.Num? && NumberAt(output, at, v.n)
    case Boolean => v.Truth? && NumberAt(output, at, if v.b then 1 else 0)
    case Address => v.Raw? && |v.data| == 20 && ZerosAt(output, at, 12) && Holds(output, at + 12, v.data)
    case FixedBytes(n) => v.Raw? && |v.data| == n && n <= 32 && Holds(output, at, v.data) && ZerosAt(output, at + n, 32 - n)
    case Function => v.Raw? && |v.data| == 24 && Holds(output, at, v.data) && ZerosAt(output, at + 24, 8)
  }

  ghost predicate ElementsAt(output: bytes, at: nat, e: Elementary, vs: seq<Value>) {
    forall k :: 0 <= k < |vs| ==> ElementAt(output, at + 32 * k, e, vs[k])
  }

  /** The zero bytes that fill data up to whole words. */
  function Filling(n: nat): nat { (32 - n % 32) % 32 }

  predicate Shaped(t: Type, v: Value) {
    match t
    case Single(_) => true
    case Slice(_) => v.Many?
    case Array(_, n) => v.Many? && |v.values| == n
    case _ => v.Raw?
  }

  /** A value in itself: in place, or as a length and that much data, filled up with zeros. */
  ghost predicate ValueAt(output: bytes, t: Type, v: Value, at: nat)
    requires Shaped(t, v)
  {
    match t
    case Single(e) => ElementAt(output, at, e, v)
    case Array(e, _) => ElementsAt(output, at, e, v.values)
    case Slice(e) => NumberAt(output, at, |v.values|) && ElementsAt(output, at + 32, e, v.values)
    case _ =>
      && NumberAt(output, at, |v.data|) && Holds(output, at + 32, v.data)
      && ZerosAt(output, at + 32 + |v.data|, Filling(|v.data|))
  }

  /** An argument: in place, or an offset in place that leads to the value. */
  ghost predicate ArgumentAt(output: bytes, t: Type, v: Value, head: nat, at: nat)
    requires Shaped(t, v)
  {
    if requiresLengthPrefix(t) then NumberAt(output, head, at) && ValueAt(output, t, v, at) else ValueAt(output, t, v, head)
  }

  /** The room an argument takes behind the heads: a length, and whole words. */
  function TailSize(t: Type, v: Value): nat
    requires Shaped(t, v)
  {
    match t
    case Slice(_) => 32 + 32 * |v.values|
    case Single(_) => 0
    case Array(_, _) => 0
    case _ => 32 + |v.data| + Filling(|v.data|)
  }

  predicate AllShaped(ts: seq<Type>, vs: seq<Value>) {
    |ts| == |vs| && forall i :: 0 <= i < |ts| ==> Shaped(ts[i], vs[i])
  }

  /** Where the tail of argument `i` is: behind all heads, and the tails before. */
  function TailOffset(ts: seq<Type>, vs: seq<Value>, i: nat): nat
    requires AllShaped(ts, vs) && i <= |ts|
  {
    if i == 0 then HeadSizes(ts) else TailOffset(ts, vs, i - 1) + TailSize(ts[i - 1], vs[i - 1])
  }

  /** Every argument at its place in whole words, without gaps, and nothing behind. */
  ghost predicate LaidOut(ts: seq<Type>, vs: seq<Value>, output: bytes) {
    && AllShaped(ts, vs) && |output| == TailOffset(ts, vs, |ts|) && |output| % 32 == 0
    && forall i :: 0 <= i < |ts| ==>
         TailOffset(ts, vs, i) % 32 == 0 && ArgumentAt(output, ts[i], vs[i], HeadSizes(ts[..i]), TailOffset(ts, vs, i))
  }

  // ---- words ----

  lemma U256At(output: bytes, at: nat, n: int)
    requires Holds(output, at, U256(n))
    ensures NumberAt(output, at, n)
  {
    LowBytes(n, 32);
    assert U256(n)[0..] == U256(n);
    hide U256, Pow256;
  }

  lemma ZerosHold(output: bytes, at: nat, n: nat)
    requires Holds(output, at, Zeros(n))
    ensures ZerosAt(output, at, n)
  {
    forall i | at <= i < at + n
      ensures output[i] == 0
    {
      assert output[i] == output[at..at + n][i - at];
    }
  }

  lemma PackedElementAt(output: bytes, at: nat, e: Elementary, v: Value)
    requires ValidElementary(e) && Fits(e, v) && Holds(output, at, packElement(e, v))
    ensures ElementAt(output, at, e, v)
  {
    match e
    case Int(_) => U256At(output, at, v.n);
    case Uint(_) => U256At(output, at, v.n);
    case Boolean => U256At(output, at, if v.b then 1 else 0);
    case Address =>
      HoldsSplit(output, at, Zeros(12), v.data);
      ZerosHold(output, at, 12);
    case FixedBytes(n) =>
      assert packElement(e, v) == v.data + Zeros(32 - n);
      HoldsSplit(output, at, v.data, Zeros(32 - n));
      ZerosHold(output, at + n, 32 - n);
    case Function =>
      HoldsSplit(output, at, v.data, Zeros(8));
      ZerosHold(output, at + 24, 8);
  }

  lemma {:induction false} PackedElementsAt(output: bytes, at: nat, e: Elementary, vs: seq<Value>)
    requires ValidElementary(e) && (forall i :: 0 <= i < |vs| ==> Fits(e, vs[i])) && Holds(output, at, packElements(e, vs))
    ensures ElementsAt(output, at, e, vs)
    decreases |vs|
  {
    hide *;
    if vs == [] {
      ElementsNone(output, at, e);
    } else {
      var last := |vs| - 1;
      WordRoundTrip(e, vs[last]);
      PackLast(e, vs);
      HoldsSplit(output, at, packElements(e, vs[..last]), packElement(e, vs[last]));
      PackedElementsAt(output, at, e, vs[..last]);
      PackedElementAt(output, at + 32 * last, e, vs[last]);
      ElementsNext(output, at, e, vs);
    }
  }

  lemma ElementsNone(output: bytes, at: nat, e: Elementary)
    ensures ElementsAt(output, at, e, [])
  {
  }

  lemma ElementsNext(output: bytes, at: nat, e: Elementary, vs: seq<Value>)
    requires vs != [] && ElementsAt(output, at, e, vs[..|vs| - 1]) && ElementAt(output, at + 32 * (|vs| - 1), e, vs[|vs| - 1])
    ensures ElementsAt(output, at, e, vs)
  {
    assert forall k :: 0 <= k < |vs| - 1 ==> vs[..|vs| - 1][k] == vs[k];
    hide ElementAt;
  }

  // ---- tails ----

  /** Data is filled up to whole words with no more zeros than it takes. */
  lemma Filled(data: bytes)
    ensures RightPad(data, (|data| + 31) / 32 * 32) == data + Zeros(Filling(|data|))
    ensures (32 + |data| + Filling(|data|)) % 32 == 0
  {
    WholeWords(|data|);
    hide Filling;
  }

  lemma WholeWords(n: nat)
    ensures (n + 31) / 32 * 32 == n + Filling(n) && (32 + n + Filling(n)) % 32 == 0
  {
    assert n == n / 32 * 32 + n % 32;
    if n % 32 == 0 {
      assert (n + 31) / 32 * 32 == n;
    }
  }

  lemma WordsEnough(n: nat)
    ensures (n + 31) / 32 * 32 <= 32 * n && (32 * n) % 32 == 0 && (32 + 32 * n) % 32 == 0
  {
  }

  /** Elements take whole words as they are. */
  lemma PackedSlice(t: Type, v: Value)
    requires ValidType(t) && FitsType(t, v) && t.Slice?
    ensures v.Many? && pack(t, v) == U256(|v.values|) + packElements(t.elem, v.values)
    ensures Shaped(t, v) && |pack(t, v)| == TailSize(t, v) && TailSize(t, v) % 32 == 0
  {
    hide U256, packElements, RightPad, Fits, ValidElementary;
    var n := |v.values|;
    WordsEnough(n);
    PaddedEnough(packElements(t.elem, v.values), (n + 31) / 32 * 32);
  }

  lemma PaddedEnough(b: bytes, l: nat)
    requires l <= |b|
    ensures RightPad(b, l) == b
  {
  }

  lemma PackedData(t: Type, v: Value)
    requires ValidType(t) && FitsType(t, v) && requiresLengthPrefix(t) && !t.Slice?
    ensures v.Raw? && pack(t, v) == U256(|v.data|) + (v.data + Zeros(Filling(|v.data|)))
    ensures Shaped(t, v) && |pack(t, v)| == TailSize(t, v) && TailSize(t, v) % 32 == 0
  {
    hide U256, RightPad, Filling;
    Filled(v.data);
  }

  lemma PackedDynamicAt(output: bytes, t: Type, v: Value, at: nat)
    requires ValidType(t) && FitsType(t, v) && requiresLengthPrefix(t) && Holds(output, at, pack(t, v))
    ensures Shaped(t, v) && ValueAt(output, t, v, at)
  {
    hide *;
    if t.Slice? {
      PackedSlice(t, v);
      SliceValues(t, v);
      HoldsSplit(output, at, U256(|v.values|), packElements(t.elem, v.values));
      U256At(output, at, |v.values|);
      PackedElementsAt(output, at + 32, t.elem, v.values);
    } else {
      PackedData(t, v);
      HoldsSplit(output, at, U256(|v.data|), v.data + Zeros(Filling(|v.data|)));
      U256At(output, at, |v.data|);
      HoldsSplit(output, at + 32, v.data, Zeros(Filling(|v.data|)));
      ZerosHold(output, at + 32 + |v.data|, Filling(|v.data|));
    }
    DynamicIs(output, t, v, at);
  }

  lemma DynamicIs(output: bytes, t: Type, v: Value, at: nat)
    requires Shaped(t, v) && requiresLengthPrefix(t)
    requires if t.Slice? then NumberAt(output, at, |v.values|) && ElementsAt(output, at + 32, t.elem, v.values)
             else NumberAt(output, at, |v.data|) && Holds(output, at + 32, v.data) && ZerosAt(output, at + 32 + |v.data|, Filling(|v.data|))
    ensures ValueAt(output, t, v, at)
  {
    hide NumberAt, ElementsAt, Holds, ZerosAt, Filling;
  }

  /** A packed value stands where its packing does, and takes whole words. */
  lemma PackedValueAt(output: bytes, t: Type, v: Value, at: nat)
    requires ValidType(t) && FitsType(t, v) && Holds(output, at, pack(t, v))
    ensures Shaped(t, v) && ValueAt(output, t, v, at) && |pack(t, v)| % 32 == 0
  {
    hide U256, Holds, packElements, packElement, packBytesSlice, ElementAt, ElementsAt, Fits, ValidElementary, NumberAt, ZerosAt, Zeros;
    if requiresLengthPrefix(t) {
      PackedDynamicAt(output, t, v, at);
      TailPartSize(t, v);
    } else if t.Array? {
      PackedElementsAt(output, at, t.elem, v.values);
      WordsEnough(|v.values|);
    } else {
      PackedElementAt(output, at, t.elem, v);
      WordRoundTrip(t.elem, v);
    }
  }

  lemma PackedArgumentAt(output: bytes, t: Type, v: Value, head: nat, at: nat)
    requires ValidType(t) && FitsType(t, v)
    requires Holds(output, head, HeadPart(t, v, at)) && Holds(output, at, TailPart(t, v))
    ensures Shaped(t, v) && ArgumentAt(output, t, v, head, at)
  {
    if requiresLengthPrefix(t) {
      U256At(output, head, at);
      PackedValueAt(output, t, v, at);
    } else {
      PackedValueAt(output, t, v, head);
    }
    hide U256, Holds, pack, ValueAt, NumberAt;
  }

  // ---- lists ----

  lemma HoldsMore(x: bytes, y: bytes, at: nat, p: bytes)
    requires Holds(x, at, p)
    ensures Holds(x + y, at, p)
  {
    assert (x + y)[at..at + |p|] == x[at..at + |p|];
  }

  lemma HoldsBehind(x: bytes, y: bytes, at: nat, p: bytes)
    requires Holds(y, at, p)
    ensures Holds(x + y, |x| + at, p)
  {
    assert (x + y)[|x| + at..|x| + at + |p|] == y[at..at + |p|];
  }

  lemma FitFirst(ts: seq<Type>, vs: seq<Value>, i: nat)
    requires FitAll(ts, vs) && i <= |ts|
    ensures |ts| == |vs| && FitAll(ts[..i], vs[..i])
    ensures i < |ts| ==> ValidType(ts[i]) && FitsType(ts[i], vs[i])
  {
    hide ValidType, FitsType;
  }

  /** The head and the tail of argument `i`, among heads and tails. */
  lemma {:induction false} PartAt(ts: seq<Type>, vs: seq<Value>, offset: nat, i: nat)
    requires FitAll(ts, vs) && i < |ts|
    ensures FitAll(ts[..i], vs[..i]) && ValidType(ts[i]) && FitsType(ts[i], vs[i])
    ensures var at := |Tails(ts[..i], vs[..i])|;
            && Holds(Heads(ts, vs, offset), HeadSizes(ts[..i]), HeadPart(ts[i], vs[i], offset + at))
            && Holds(Tails(ts, vs), at, TailPart(ts[i], vs[i]))
    decreases |ts|
  {
    hide *;
    FitFirst(ts, vs, i);
    LastPart(ts, vs, offset);
    var last := |ts| - 1;
    var f, g := ts[..last], vs[..last];
    var head, tail := HeadPart(ts[last], vs[last], offset + |Tails(f, g)|), TailPart(ts[last], vs[last]);
    if i == last {
      HeadsSize(f, g, offset);
      BothHold(Heads(f, g, offset), head);
      BothHold(Tails(f, g), tail);
    } else {
      assert f[..i] == ts[..i] && g[..i] == vs[..i] && f[i] == ts[i] && g[i] == vs[i] && |f| == last;
      PartAt(f, g, offset, i);
      HoldsMore(Heads(f, g, offset), head, HeadSizes(ts[..i]), HeadPart(ts[i], vs[i], offset + |Tails(ts[..i], vs[..i])|));
      HoldsMore(Tails(f, g), tail, |Tails(ts[..i], vs[..i])|, TailPart(ts[i], vs[i]));
    }
  }

  lemma {:induction false} HeadWords(ts: seq<Type>)
    ensures HeadSizes(ts) % 32 == 0
  {
    if ts != [] {
      HeadWords(ts[..|ts| - 1]);
    }
  }

  lemma TailPartSize(t: Type, v: Value)
    requires ValidType(t) && FitsType(t, v)
    ensures Shaped(t, v) && |TailPart(t, v)| == TailSize(t, v) && TailSize(t, v) % 32 == 0
  {
    if t.Slice? {
      PackedSlice(t, v);
    } else if requiresLengthPrefix(t) {
      PackedData(t, v);
    }
    hide pack;
  }

  lemma FitShaped(ts: seq<Type>, vs: seq<Value>)
    requires FitAll(ts, vs)
    ensures AllShaped(ts, vs)
  {
  }

  /** The tails before an argument take the room that its offset says. */
  lemma {:induction false} TailsTake(ts: seq<Type>, vs: seq<Value>, i: nat)
    requires FitAll(ts, vs) && i <= |ts|
    ensures AllShaped(ts, vs) && FitAll(ts[..i], vs[..i])
    ensures TailOffset(ts, vs, i) == HeadSizes(ts) + |Tails(ts[..i], vs[..i])| && TailOffset(ts, vs, i) % 32 == 0
    decreases i
  {
    hide *;
    FitShaped(ts, vs);
    FitFirst(ts, vs, i);
    OffsetIs(ts, vs, i);
    if i == 0 {
      HeadWords(ts);
      NoTails(ts[..0], vs[..0]);
    } else {
      TailsTake(ts, vs, i - 1);
      FitFirst(ts, vs, i - 1);
      assert ts[..i][..i - 1] == ts[..i - 1] && vs[..i][..i - 1] == vs[..i - 1] && ts[..i][i - 1] == ts[i - 1] && vs[..i][i - 1] == vs[i - 1];
      LastPart(ts[..i], vs[..i], 0);
      TailPartSize(ts[i - 1], vs[i - 1]);
    }
  }

  lemma OffsetIs(ts: seq<Type>, vs: seq<Value>, i: nat)
    requires AllShaped(ts, vs) && i <= |ts|
    ensures i == 0 ==> TailOffset(ts, vs, i) == HeadSizes(ts)
    ensures i > 0 ==>
              && |ts| == |vs| && Shaped(ts[i - 1], vs[i - 1])
              && TailOffset(ts, vs, i) == TailOffset(ts, vs, i - 1) + TailSize(ts[i - 1], vs[i - 1])
  {
    hide HeadSizes, TailSize, Shaped;
  }

  lemma NoTails(ts: seq<Type>, vs: seq<Value>)
    requires FitAll(ts, vs) && ts == []
    ensures Tails(ts, vs) == []
  {
  }

  /** Every argument of a packed list stands where it should. */
  lemma PackedIsLaidOut(ts: seq<Type>, vs: seq<Value>)
    requires FitAll(ts, vs)
    ensures LaidOut(ts, vs, Packed(ts, vs))
  {
    hide *;
    var size := HeadSizes(ts);
    var heads, tails := Heads(ts, vs, size), Tails(ts, vs);
    PackedIs(ts, vs);
    HeadsSize(ts, vs, size);
    TailsTake(ts, vs, |ts|);
    assert ts[..|ts|] == ts && vs[..|vs|] == vs;
    forall i | 0 <= i < |ts|
      ensures Shaped(ts[i], vs[i]) && TailOffset(ts, vs, i) % 32 == 0
      ensures ArgumentAt(heads + tails, ts[i], vs[i], HeadSizes(ts[..i]), TailOffset(ts, vs, i))
    {
      PartAt(ts, vs, size, i);
      TailsTake(ts, vs, i);
      var at := |Tails(ts[..i], vs[..i])|;
      HoldsMore(heads, tails, HeadSizes(ts[..i]), HeadPart(ts[i], vs[i], size + at));
      HoldsBehind(heads, tails, at, TailPart(ts[i], vs[i]));
      PackedArgumentAt(heads + tails, ts[i], vs[i], HeadSizes(ts[..i]), size + at);
    }
    LaidOutIs(ts, vs, heads + tails);
  }

  lemma PackedIs(ts: seq<Type>, vs: seq<Value>)
    requires FitAll(ts, vs)
    ensures |ts| == |vs| && Packed(ts, vs) == Heads(ts, vs, HeadSizes(ts)) + Tails(ts, vs)
  {
    hide Heads, Tails;
  }

  lemma LaidOutIs(ts: seq<Type>, vs: seq<Value>, output: bytes)
    requires AllShaped(ts, vs) && |output| == TailOffset(ts, vs, |ts|) && |output| % 32 == 0
    requires forall i :: 0 <= i < |ts| ==>
               && Shaped(ts[i], vs[i]) && TailOffset(ts, vs, i) % 32 == 0
               && ArgumentAt(output, ts[i], vs[i], HeadSizes(ts[..i]), TailOffset(ts, vs, i))
    ensures LaidOut(ts, vs, output)
  {
    hide TailOffset, ArgumentAt, HeadSizes, Shaped;
  }
}
