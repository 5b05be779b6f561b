/** Packing and unpacking of argument lists, step by step. */
module AbiCodec {
  import opened Bytes
  import opened Abi
  import opened AbiLayout
  import opened AbiRead
  import opened Wrappers

  // ---- what is accepted ----

  /** The check on a value before it is packed: big integers of any size pass. */
  predicate TypeCheck(e: Elementary, v: Value) {
    match e
    case Int(bits) => v.Num? && (Width(bits) == 32 || Fits(e, v))
    case Uint(bits) => v.Num? && (Width(bits) == 32 || Fits(e, v))
    case _ => Fits(e, v)
  }

  predicate TypeChecks(t: Type, v: Value) {
    match t
    case Single(e) => TypeCheck(e, v)
    case String => v.Raw?
    case DynamicBytes => v.Raw?
    case Slice(e) => v.Many? && forall i :: 0 <= i < |v.values| ==> TypeCheck(e, v.values[i])
    case Array(e, n) => v.Many? && |v.values| == n && forall i :: 0 <= i < n ==> TypeCheck(e, v.values[i])
  }

  /** The integer of 256 bits that a big integer becomes. */
  function WrapInt(signed: bool, n: int): (r: int)
    ensures if signed then -(Pow256(32) / 2) <= r < Pow256(32) / 2 else 0 <= r < Pow256(32)
  {
    Half(32);
    var m := n % Pow256(32);
    if signed && m >= Pow256(32) / 2 then m - Pow256(32) else m
  }

  function Wrap(e: Elementary, v: Value): (r: Value)
    requires ValidElementary(e) && TypeCheck(e, v)
    ensures Fits(e, r)
  {
    match e
    case Int(bits) => if Width(bits) == 32 then Num(WrapInt(true, v.n)) else v
    case Uint(bits) => if Width(bits) == 32 then Num(WrapInt(false, v.n)) else v
    case _ => v
  }

  function WrapMany(e: Elementary, vs: seq<Value>): (r: seq<Value>)
    requires ValidElementary(e) && forall i :: 0 <= i < |vs| ==> TypeCheck(e, vs[i])
    ensures |r| == |vs| && forall i :: 0 <= i < |vs| ==> r[i] == Wrap(e, vs[i]) && Fits(e, r[i])
  {
    if vs == [] then [] else WrapMany(e, vs[..|vs| - 1]) + [Wrap(e, vs[|vs| - 1])]
  }

  function WrapType(t: Type, v: Value): (r: Value)
    requires ValidType(t) && TypeChecks(t, v)
    ensures FitsType(t, r)
  {
    match t
    case Single(e) => Wrap(e, v)
    case Slice(e) => Many(WrapMany(e, v.values))
    case Array(e, _) => Many(WrapMany(e, v.values))
    case _ => v
  }

  predicate AllCheck(ts: seq<Type>, vs: seq<Value>) {
    |ts| == |vs| && forall i :: 0 <= i < |ts| ==> ValidType(ts[i]) && TypeChecks(ts[i], vs[i])
  }

  function WrapAll(ts: seq<Type>, vs: seq<Value>): (r: seq<Value>)
    requires AllCheck(ts, vs)
    ensures FitAll(ts, r) && forall i :: 0 <= i < |ts| ==> r[i] == WrapType(ts[i], vs[i])
  {
    if ts == [] then []
    else
      var last := |ts| - 1;
      var r := WrapAll(ts[..last], vs[..last]) + [WrapType(ts[last], vs[last])];
      assert forall i :: 0 <= i < |ts| ==> r[i] == WrapType(ts[i], vs[i]);
      r
  }

  /** A big integer is packed like the integer of 256 bits that it becomes. */
  lemma SameWord(signed: bool, n: int)
    ensures U256(WrapInt(signed, n)) == U256(n)
    ensures WrapInt(signed, n) == n <==> if signed then -(Pow256(32) / 2) <= n < Pow256(32) / 2 else 0 <= n < Pow256(32)
  {
    hide *;
    Half(32);
    WrapMod(signed, n, Pow256(32));
    WrapIs(signed, n);
    SameU256(n, WrapInt(signed, n));
  }

  lemma WrapIs(signed: bool, n: int)
    ensures var m := n % Pow256(32); WrapInt(signed, n) == if signed && m >= Pow256(32) / 2 then m - Pow256(32) else m
  {
    hide Pow256;
  }

  lemma SameU256(m: int, n: int)
    requires m % Pow256(32) == n % Pow256(32)
    ensures U256(m) == U256(n)
  {
    hide Pow256, Fixed;
  }

  lemma WrapMod(signed: bool, n: int, p: int)
    requires p > 0 && p == 2 * (p / 2)
    ensures var m := n % p; var w := if signed && m >= p / 2 then m - p else m;
            w % p == m && (w == n <==> if signed then -(p / 2) <= n < p / 2 else 0 <= n < p)
  {
    var m := n % p;
    ModUnique(m - p, p, -1, m);
    ModUnique(m, p, 0, m);
    if -p <= n < 0 {
      ModUnique(n, p, -1, n + p);
    } else if 0 <= n < p {
      ModUnique(n, p, 0, n);
    }
  }

  /** Wrapping changes nothing if, and only if, the value fits. */
  lemma WrapSame(e: Elementary, v: Value)
    requires ValidElementary(e) && TypeCheck(e, v)
    ensures Wrap(e, v) == v <==> Fits(e, v)
  {
    if v.Num? {
      SameWord(e.Int?, v.n);
    }
    hide Pow256, WrapInt;
  }

  lemma WrapTypeSame(t: Type, v: Value)
    requires ValidType(t) && TypeChecks(t, v)
    ensures WrapType(t, v) == v <==> FitsType(t, v)
  {
    if t.Single? {
      WrapSame(t.elem, v);
    } else if t.Slice? || t.Array? {
      forall i | 0 <= i < |v.values|
        ensures Wrap(t.elem, v.values[i]) == v.values[i] <==> Fits(t.elem, v.values[i])
      {
        WrapSame(t.elem, v.values[i]);
      }
    }
    hide Wrap, Fits, TypeCheck;
  }

  /** What is packed is unpacked again, exactly, if and only if every integer fits in 256 bits. */
  lemma RoundTripExact(ts: seq<Type>, vs: seq<Value>)
    requires AllCheck(ts, vs) && |Packed(ts, WrapAll(ts, vs))| < Pow256(32)
    ensures AllValid(ts)
    ensures UnpackAll(ts, Packed(ts, WrapAll(ts, vs))) == Some(vs) <==> FitAll(ts, vs)
  {
    PackRoundTrip(ts, WrapAll(ts, vs));
    forall i | 0 <= i < |ts|
      ensures WrapType(ts[i], vs[i]) == vs[i] <==> FitsType(ts[i], vs[i])
    {
      WrapTypeSame(ts[i], vs[i]);
    }
    if WrapAll(ts, vs) == vs {
      assert forall i :: 0 <= i < |ts| ==> WrapType(ts[i], vs[i]) == WrapAll(ts, vs)[i];
    }
    hide WrapType, FitsType, TypeChecks, ValidType, Packed, UnpackAll;
  }

  // ---- what stands where ----

  /** A wrapped integer is the same number in a word. */
  lemma WrappedElementAt(output: bytes, at: nat, e: Elementary, v: Value)
    requires ValidElementary(e) && TypeCheck(e, v) && ElementAt(output, at, e, Wrap(e, v))
    ensures ElementAt(output, at, e, v)
  {
    if v.Num? {
      SameModulo(e.Int?, v.n);
    }
    hide Pow256, WrapInt, Holds, ZerosAt, FromBE;
  }

  lemma SameModulo(signed: bool, n: int)
    ensures WrapInt(signed, n) % Pow256(32) == n % Pow256(32)
  {
    hide *;
    Half(32);
    WrapMod(signed, n, Pow256(32));
    WrapIs(signed, n);
  }

  lemma WrappedElementsAt(output: bytes, at: nat, e: Elementary, vs: seq<Value>)
    requires ValidElementary(e) && (forall i :: 0 <= i < |vs| ==> TypeCheck(e, vs[i])) && ElementsAt(output, at, e, WrapMany(e, vs))
    ensures ElementsAt(output, at, e, vs)
  {
    forall k | 0 <= k < |vs|
      ensures ElementAt(output, at + 32 * k, e, vs[k])
    {
      assert ElementAt(output, at + 32 * k, e, WrapMany(e, vs)[k]);
      WrappedElementAt(output, at + 32 * k, e, vs[k]);
    }
    hide ElementAt;
  }

  lemma WrappedValueAt(output: bytes, t: Type, v: Value, at: nat)
    requires ValidType(t) && TypeChecks(t, v) && Shaped(t, WrapType(t, v)) && ValueAt(output, t, WrapType(t, v), at)
    ensures Shaped(t, v) && ValueAt(output, t, v, at) && TailSize(t, v) == TailSize(t, WrapType(t, v))
  {
    match t {
      case Single(e) => WrappedElementAt(output, at, e, v);
      case Slice(e) => WrappedElementsAt(output, at + 32, e, v.values);
      case Array(e, _) => WrappedElementsAt(output, at, e, v.values);
      case _ =>
    }
    hide ElementAt, ElementsAt, NumberAt, Holds, ZerosAt, TypeCheck, Wrap, Filling;
  }

  /** A packed argument in itself. */
  lemma PackedWrapped(t: Type, v: Value)
    requires ValidType(t) && TypeChecks(t, v)
    ensures var p := pack(t, WrapType(t, v)); Shaped(t, v) && ValueAt(p, t, v, 0) && |p| % 32 == 0
  {
    var p := pack(t, WrapType(t, v));
    assert p[0..0 + |p|] == p;
    PackedValueAt(p, t, WrapType(t, v), 0);
    WrappedValueAt(p, t, v, 0);
    hide pack, ValueAt, TypeChecks, WrapType, Shaped;
  }

  lemma CheckedShaped(ts: seq<Type>, vs: seq<Value>)
    requires AllCheck(ts, vs)
    ensures AllShaped(ts, vs)
  {
  }

  lemma WrappedArgumentAt(output: bytes, t: Type, v: Value, head: nat, at: nat)
    requires ValidType(t) && TypeChecks(t, v) && Shaped(t, WrapType(t, v)) && ArgumentAt(output, t, WrapType(t, v), head, at)
    ensures Shaped(t, v) && ArgumentAt(output, t, v, head, at) && TailSize(t, v) == TailSize(t, WrapType(t, v))
  {
    WrappedValueAt(output, t, v, if requiresLengthPrefix(t) then at else head);
    hide ValueAt, NumberAt, TailSize, WrapType, Shaped, TypeChecks;
  }

  lemma {:induction false} SameOffset(ts: seq<Type>, vs: seq<Value>, ws: seq<Value>, i: nat)
    requires AllShaped(ts, vs) && AllShaped(ts, ws) && i <= |ts|
    requires forall j :: 0 <= j < |ts| ==> TailSize(ts[j], vs[j]) == TailSize(ts[j], ws[j])
    ensures TailOffset(ts, vs, i) == TailOffset(ts, ws, i)
    decreases i
  {
    if i > 0 {
      SameOffset(ts, vs, ws, i - 1);
    }
    hide TailSize, HeadSizes;
  }

  /** The packed list has every argument at its place, integers modulo 2^256. */
  lemma PackedArguments(ts: seq<Type>, vs: seq<Value>)
    requires AllCheck(ts, vs)
    ensures LaidOut(ts, vs, Packed(ts, WrapAll(ts, vs)))
  {
    var ws := WrapAll(ts, vs);
    var output := Packed(ts, ws);
    PackedIsLaidOut(ts, ws);
    CheckedShaped(ts, vs);
    hide Packed, ArgumentAt, Shaped, TypeChecks, WrapType, TailSize, TailOffset, HeadSizes, ValidType, FitsType;
    forall i | 0 <= i < |ts|
      ensures TailSize(ts[i], vs[i]) == TailSize(ts[i], ws[i])
      ensures ArgumentAt(output, ts[i], vs[i], HeadSizes(ts[..i]), TailOffset(ts, ws, i))
    {
      WrappedArgumentAt(output, ts[i], vs[i], HeadSizes(ts[..i]), TailOffset(ts, ws, i));
    }
    forall i | 0 <= i <= |ts|
      ensures TailOffset(ts, vs, i) == TailOffset(ts, ws, i)
    {
      SameOffset(ts, vs, ws, i);
    }
    LaidOutIs(ts, vs, output);
  }

  // ---- packing ----

  /** The word of an elementary value. */
  function packElem(e: Elementary, v: Value): bytes
    requires ValidElementary(e) && TypeCheck(e, v)
  {
    if v.Num? then U256(v.n) else packElement(e, v)
  }

  lemma PackElem(e: Elementary, v: Value)
    requires ValidElementary(e) && TypeCheck(e, v)
    ensures packElem(e, v) == packElement(e, Wrap(e, v))
  {
    if v.Num? {
      SameWord(e.Int?, v.n);
    }
    hide U256, Pow256, WrapInt;
  }

  /** Packs one argument; nothing if it does not have the type. */
  method packType(t: Type, v: Value) returns (r: Option<bytes>)
    requires ValidType(t)
    ensures r == if TypeChecks(t, v) then Some(pack(t, WrapType(t, v))) else None
    ensures r.Some? ==> Shaped(t, v) && ValueAt(r.value, t, v, 0) && |r.value| % 32 == 0
  {
    if TypeChecks(t, v) {
      PackedWrapped(t, v);
    }
    hide pack, ValueAt, Shaped;
    r := packChecked(t, v);
  }

  method packChecked(t: Type, v: Value) returns (r: Option<bytes>)
    requires ValidType(t)
    ensures r == if TypeChecks(t, v) then Some(pack(t, WrapType(t, v))) else None
  {
    if t.Slice? || t.Array? {
      if !v.Many? || (t.Array? && |v.values| != t.size) {
        return None;
      }
      var packed: bytes := [];
      for i := 0 to |v.values|
        invariant forall j :: 0 <= j < i ==> TypeCheck(t.elem, v.values[j])
        invariant packed == packElements(t.elem, WrapMany(t.elem, v.values[..i]))
      {
        if !TypeCheck(t.elem, v.values[i]) {
          return None;
        }
        NextElement(t.elem, v.values, i);
        packed := packed + packElem(t.elem, v.values[i]);
      }
      assert v.values[..|v.values|] == v.values;
      if t.Slice? {
        return Some(packBytesSlice(packed, |v.values|));
      }
      return Some(packed);
    }
    if !TypeChecks(t, v) {
      return None;
    }
    if t.Single? {
      PackElem(t.elem, v);
      return Some(packElem(t.elem, v));
    }
    return Some(packBytesSlice(v.data, |v.data|));
  }

  lemma NextElement(e: Elementary, vs: seq<Value>, i: nat)
    requires ValidElementary(e) && i < |vs| && forall j :: 0 <= j <= i ==> TypeCheck(e, vs[j])
    ensures packElements(e, WrapMany(e, vs[..i + 1])) == packElements(e, WrapMany(e, vs[..i])) + packElem(e, vs[i])
  {
    PackElem(e, vs[i]);
    assert vs[..i + 1][..i] == vs[..i];
    var w := WrapMany(e, vs[..i + 1]);
    assert w == WrapMany(e, vs[..i]) + [Wrap(e, vs[i])];
    assert w[..i] == WrapMany(e, vs[..i]);
    PackLast(e, w);
    hide packElem, Wrap, TypeCheck, Fits, packElement;
  }

  /** Packs an argument list; nothing if the numbers differ or an argument does not have its type. */
  method Pack(ts: seq<Type>, args: seq<Value>) returns (r: Option<bytes>)
    requires AllValid(ts)
    ensures r == if AllCheck(ts, args) then Some(Packed(ts, WrapAll(ts, args))) else None
    ensures r.Some? ==> LaidOut(ts, args, r.value)
  {
    hide *;
    if |args| != |ts| {
      NoMatch(ts, args);
      return None;
    }
    var inputOffset := 0;
    SizeNone(ts);
    for i := 0 to |ts|
      invariant inputOffset == HeadSizes(ts[..i])
    {
      SizeNext(ts, i);
      inputOffset := inputOffset + if ts[i].Array? then 32 * ts[i].size else 32;
    }
    assert ts[..|ts|] == ts;
    var ret, variableInput := [], [];
    PackStart(ts, args, inputOffset);
    for i := 0 to |ts|
      invariant Packing(ts, args, i, inputOffset, ret, variableInput)
    {
      ValidAt(ts, i);
      var packed := packType(ts[i], args[i]);
      if packed.None? {
        NotAll(ts, args, i);
        return None;
      }
      PackNext(ts, args, i, inputOffset, ret, variableInput, packed.value);
      var dynamic := NeedsPrefix(ts[i]);
      if dynamic {
        var offset := inputOffset + |variableInput|;
        ret := ret + U256(offset);
        variableInput := variableInput + packed.value;
      } else {
        ret := ret + packed.value;
      }
    }
    PackEnd(ts, args, inputOffset, ret, variableInput);
    PackedArguments(ts, args);
    return Some(ret + variableInput);
  }

  method NeedsPrefix(t: Type) returns (b: bool)
    ensures b == requiresLengthPrefix(t)
  {
    b := requiresLengthPrefix(t);
  }

  lemma NoMatch(ts: seq<Type>, vs: seq<Value>)
    requires |ts| != |vs|
    ensures !AllCheck(ts, vs)
  {
  }

  lemma NotAll(ts: seq<Type>, vs: seq<Value>, i: nat)
    requires i < |ts| == |vs| && !TypeChecks(ts[i], vs[i])
    ensures !AllCheck(ts, vs)
  {
  }

  lemma ValidAt(ts: seq<Type>, i: nat)
    requires AllValid(ts) && i < |ts|
    ensures ValidType(ts[i])
  {
  }

  lemma SizeNone(ts: seq<Type>)
    ensures HeadSizes(ts[..0]) == 0
  {
  }

  lemma SizeNext(ts: seq<Type>, i: nat)
    requires i < |ts|
    ensures HeadSizes(ts[..i + 1]) == HeadSizes(ts[..i]) + if ts[i].Array? then 32 * ts[i].size else 32
  {
    assert ts[..i + 1][..i] == ts[..i];
  }

  /** The first `i` arguments are packed. */
  ghost predicate Packing(ts: seq<Type>, vs: seq<Value>, i: nat, offset: nat, heads: bytes, tails: bytes) {
    && i <= |ts| == |vs| && AllCheck(ts[..i], vs[..i])
    && heads == Heads(ts[..i], WrapAll(ts[..i], vs[..i]), offset)
    && tails == Tails(ts[..i], WrapAll(ts[..i], vs[..i]))
  }

  lemma PackStart(ts: seq<Type>, vs: seq<Value>, offset: nat)
    requires |ts| == |vs|
    ensures Packing(ts, vs, 0, offset, [], [])
  {
  }

  lemma PackNext(ts: seq<Type>, vs: seq<Value>, i: nat, offset: nat, heads: bytes, tails: bytes, packed: bytes)
    requires Packing(ts, vs, i, offset, heads, tails) && i < |ts| == |vs| && ValidType(ts[i]) && TypeChecks(ts[i], vs[i])
    requires packed == pack(ts[i], WrapType(ts[i], vs[i]))
    ensures if requiresLengthPrefix(ts[i]) then Packing(ts, vs, i + 1, offset, heads + U256(offset + |tails|), tails + packed)
            else Packing(ts, vs, i + 1, offset, heads + packed, tails)
  {
    hide *;
    var f, g := ts[..i + 1], vs[..i + 1];
    PackingIs(ts, vs, i, offset, heads, tails);
    assert f[..i] == ts[..i] && g[..i] == vs[..i] && f[i] == ts[i] && g[i] == vs[i];
    AllNext(ts[..i], vs[..i], f, g);
    var w := WrapAll(f, g);
    WrapNext(f, g);
    LastPart(f, w, offset);
    Parts(ts[i], WrapType(ts[i], vs[i]), offset + |tails|, tails);
    IsPacking(ts, vs, i + 1, offset, Heads(f, w, offset), Tails(f, w));
  }

  lemma Parts(t: Type, v: Value, at: nat, tails: bytes)
    requires ValidType(t) && FitsType(t, v)
    ensures if requiresLengthPrefix(t) then HeadPart(t, v, at) == U256(at) && TailPart(t, v) == pack(t, v)
            else HeadPart(t, v, at) == pack(t, v) && tails + TailPart(t, v) == tails
  {
    hide pack, U256;
  }

  lemma PackingIs(ts: seq<Type>, vs: seq<Value>, i: nat, offset: nat, heads: bytes, tails: bytes)
    requires Packing(ts, vs, i, offset, heads, tails)
    ensures i <= |ts| == |vs| && AllCheck(ts[..i], vs[..i])
    ensures heads == Heads(ts[..i], WrapAll(ts[..i], vs[..i]), offset) && tails == Tails(ts[..i], WrapAll(ts[..i], vs[..i]))
  {
  }

  lemma IsPacking(ts: seq<Type>, vs: seq<Value>, i: nat, offset: nat, heads: bytes, tails: bytes)
    requires i <= |ts| == |vs| && AllCheck(ts[..i], vs[..i])
    requires heads == Heads(ts[..i], WrapAll(ts[..i], vs[..i]), offset) && tails == Tails(ts[..i], WrapAll(ts[..i], vs[..i]))
    ensures Packing(ts, vs, i, offset, heads, tails)
  {
  }

  lemma AllNext(f: seq<Type>, g: seq<Value>, f': seq<Type>, g': seq<Value>)
    requires AllCheck(f, g) && |f'| == |g'| == |f| + 1 && f'[..|f|] == f && g'[..|f|] == g
    requires ValidType(f'[|f|]) && TypeChecks(f'[|f|], g'[|f|])
    ensures AllCheck(f', g')
  {
    assert forall i :: 0 <= i < |f| ==> f'[i] == f'[..|f|][i] && g'[i] == g'[..|f|][i];
    hide ValidType, TypeChecks;
  }

  lemma WrapNext(ts: seq<Type>, vs: seq<Value>)
    requires AllCheck(ts, vs) && ts != []
    ensures var last := |ts| - 1;
            && AllCheck(ts[..last], vs[..last]) && WrapAll(ts, vs)[..last] == WrapAll(ts[..last], vs[..last])
            && ValidType(ts[last]) && TypeChecks(ts[last], vs[last]) && WrapAll(ts, vs)[last] == WrapType(ts[last], vs[last])
  {
    hide ValidType, TypeChecks, WrapType;
  }

  lemma PackEnd(ts: seq<Type>, vs: seq<Value>, offset: nat, heads: bytes, tails: bytes)
    requires Packing(ts, vs, |ts|, offset, heads, tails) && offset == HeadSizes(ts)
    ensures AllCheck(ts, vs) && heads + tails == Packed(ts, WrapAll(ts, vs))
  {
    assert ts[..|ts|] == ts && vs[..|vs|] == vs;
    hide WrapAll, AllCheck, Heads, Tails;
  }

  // ---- unpacking ----

  method readBoolWord(word: bytes) returns (r: Option<bool>)
    requires |word| == 32
    ensures r == readBool(word)
  {
    for i := 0 to 31
      invariant forall j :: 0 <= j < i ==> word[j] == 0
    {
      if word[i] != 0 {
        return None;
      }
    }
    if word[31] == 0 {
      return Some(false);
    } else if word[31] == 1 {
      return Some(true);
    }
    return None;
  }

  method readWord(e: Elementary, word: bytes) returns (r: Option<Value>)
    requires ValidElementary(e) && |word| == 32
    ensures r == ReadWord(e, word)
  {
    if e.Boolean? {
      var b := readBoolWord(word);
      if b.None? {
        return None;
      }
      return Some(Truth(b.value));
    }
    return ReadWord(e, word);
  }

  /** Unpacks elements one after the other; slices and arrays of elementary types have a word for each. */
  method forEachUnpack(e: Elementary, output: bytes, start: nat, size: nat) returns (r: Option<Value>)
    requires ValidElementary(e)
    ensures r == ReadMany(e, output, start, size)
  {
    hide *;
    ManyIs(e, output, start, size);
    if start + 32 * size > |output| {
      return None;
    }
    ReadNone(e, output, start);
    var values: seq<Value> := [];
    var i := start;
    for j := 0 to size
      invariant i == start + 32 * j && ReadElements(e, output, start, j) == Some(values)
    {
      var v := readWord(e, output[i..i + 32]);
      if v.None? {
        Unreadable(e, output, start, j, size);
        return None;
      }
      ReadLast(e, output, start, j + 1, values, v.value);
      values := values + [v.value];
      i := i + 32;
    }
    return Some(Many(values));
  }

  lemma ManyIs(e: Elementary, output: bytes, start: nat, size: nat)
    requires ValidElementary(e)
    ensures start + 32 * size > |output| ==> ReadMany(e, output, start, size) == None
    ensures start + 32 * size <= |output| ==>
              var r := ReadElements(e, output, start, size);
              ReadMany(e, output, start, size) == if r.None? then None else Some(Many(r.value))
  {
    hide ReadElements;
  }

  /** An element that cannot be read spoils all that follow. */
  lemma {:induction false} Unreadable(e: Elementary, output: bytes, start: nat, j: nat, size: nat)
    requires ValidElementary(e) && j < size && start + 32 * size <= |output|
    requires ReadWord(e, output[start + 32 * j..start + 32 * j + 32]) == None
    ensures ReadElements(e, output, start, size) == None
    decreases size
  {
    if j < size - 1 {
      Unreadable(e, output, start, j, size - 1);
    }
  }

  /** Unpacks the argument whose head is at `index`. No read is out of bounds, whatever the data. */
  method toGoType(index: nat, t: Type, output: bytes) returns (r: Option<Value>)
    requires ValidType(t)
    ensures r == Unpack(t, index, output)
    ensures forall v :: r == Some(v) <==> ArgumentReads(output, t, v, index)
  {
    forall v
      ensures Unpack(t, index, output) == Some(v) <==> ArgumentReads(output, t, v, index)
    {
      UnpackExact(t, index, output, v);
    }
    hide ArgumentReads;
    r := readArgument(index, t, output);
  }

  method readArgument(index: nat, t: Type, output: bytes) returns (r: Option<Value>)
    requires ValidType(t)
    ensures r == Unpack(t, index, output)
  {
    if index + 32 > |output| {
      return None;
    }
    if requiresLengthPrefix(t) {
      var p := lengthPrefixPointsTo(index, output);
      if p.None? {
        return None;
      }
      var (begin, end) := p.value;
      if t.Slice? {
        r := forEachUnpack(t.elem, output, begin, end);
        return;
      }
      return Some(Raw(output[begin..begin + end]));
    }
    if t.Array? {
      r := forEachUnpack(t.elem, output, index, t.size);
      return;
    }
    r := readWord(t.elem, output[index..index + 32]);
  }

  /** Unpacks all arguments. An array takes as many places among the heads as it has elements. */
  method UnpackValues(ts: seq<Type>, data: bytes) returns (r: Option<seq<Value>>)
    requires AllValid(ts)
    ensures r == UnpackAll(ts, data)
    ensures forall vs :: r == Some(vs) <==> AllRead(ts, vs, data)
  {
    forall vs
      ensures UnpackAll(ts, data) == Some(vs) <==> AllRead(ts, vs, data)
    {
      UnpackAllExact(ts, data, vs);
    }
    hide AllRead;
    var retval: seq<Value> := [];
    var virtualArgs := 0;
    SizeNone(ts);
    for index := 0 to |ts|
      invariant virtualArgs >= 0 && (index + virtualArgs) * 32 == HeadSizes(ts[..index])
      invariant AllValid(ts[..index]) && UnpackAll(ts[..index], data) == Some(retval)
    {
      var t := ts[index];
      SizeNext(ts, index);
      ghost var front := ts[..index];
      assert ts[..index + 1][..index] == front;
      var v := toGoType((index + virtualArgs) * 32, t, data);
      if t.Array? {
        virtualArgs := virtualArgs + t.size - 1;
      }
      if v.None? {
        NotUnpacked(ts, data, index);
        return None;
      }
      retval := retval + [v.value];
    }
    assert ts[..|ts|] == ts;
    return Some(retval);
  }

  /** An argument that cannot be unpacked spoils the list. */
  lemma {:induction false} NotUnpacked(ts: seq<Type>, data: bytes, i: nat)
    requires AllValid(ts) && i < |ts| && Unpack(ts[i], HeadSizes(ts[..i]), data) == None
    ensures UnpackAll(ts, data) == None
    decreases |ts|
  {
    var front := ts[..|ts| - 1];
    if i < |ts| - 1 {
      assert front[..i] == ts[..i] && front[i] == ts[i];
      NotUnpacked(front, data, i);
    }
  }
}
