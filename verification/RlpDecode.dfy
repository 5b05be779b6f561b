/** The streaming decoder: a stack machine over the input with one cached header. */
module RlpDecode {
  import opened Bytes
  import opened Rlp
  import opened RlpRead
  import opened RlpEncBuf
  import opened Wrappers

  datatype Error =
    | EOF | UnexpectedEOF | EOL | ExpectedString | ExpectedList | CanonInt | CanonSize | ElemTooLarge
    | ValueTooLarge | UintOverflow | NotInList | NotAtEOL | MoreThanOneValue | InvalidBool

  datatype Result<+T> = Ok(value: T) | Err(error: Error)

  /** How much of a list has been read. */
  datatype ListPos = ListPos(pos: nat, size: nat)

  /** The open lists end at `ends`, the innermost last, when the input position is `pos`. */
  ghost predicate Nested(stack: seq<ListPos>, ends: seq<nat>, pos: nat) {
    && |stack| == |ends|
    && (forall i :: 0 <= i < |stack| ==> stack[i].pos <= stack[i].size)
    && (stack != [] ==> ends[|ends| - 1] == pos + Left(stack))
    && (forall i :: 0 <= i < |stack| - 1 ==> ends[i] == ends[i + 1] + stack[i].size - stack[i].pos - stack[i + 1].size >= ends[i + 1])
  }

  /** What is left of the innermost list. */
  function Left(stack: seq<ListPos>): int
    requires stack != []
  {
    stack[|stack| - 1].size - stack[|stack| - 1].pos
  }

  function Advance(stack: seq<ListPos>, n: nat): seq<ListPos>
    requires stack != []
  {
    var tos := stack[|stack| - 1];
    stack[|stack| - 1 := tos.(pos := tos.pos + n)]
  }

  lemma Advanced(stack: seq<ListPos>, ends: seq<nat>, pos: nat, n: nat)
    requires Nested(stack, ends, pos)
    ensures stack == [] ==> Nested(stack, ends, pos + n)
    ensures stack != [] && n <= Left(stack) ==> Nested(Advance(stack, n), ends, pos + n)
  {
  }

  lemma NestedTop(stack: seq<ListPos>, ends: seq<nat>, pos: nat)
    requires Nested(stack, ends, pos)
    ensures |stack| == |ends| && (stack != [] ==> Left(stack) >= 0 && Last(ends) == pos + Left(stack))
  {
  }

  lemma Pushed(stack: seq<ListPos>, ends: seq<nat>, pos: nat, size: nat)
    requires Nested(stack, ends, pos) && (stack != [] ==> size <= Left(stack))
    ensures Nested(stack + [ListPos(0, size)], ends + [pos + size], pos)
  {
  }

  /** The list that held the innermost one has moved past it. */
  function Pop(stack: seq<ListPos>): seq<ListPos>
    requires stack != []
  {
    var n := |stack| - 1;
    if n > 0 then Advance(stack[..n], stack[n].size) else []
  }

  lemma Popped(stack: seq<ListPos>, ends: seq<nat>, pos: nat)
    requires Nested(stack, ends, pos) && stack != [] && Left(stack) == 0
    ensures Nested(Pop(stack), ends[..|ends| - 1], pos)
  {
  }

  ghost function Last(ends: seq<nat>): nat
    requires ends != []
  {
    ends[|ends| - 1]
  }

  ghost predicate Under(ends: seq<nat>, cap: nat) {
    forall i :: 0 <= i < |ends| ==> ends[i] <= cap
  }

  lemma Grow(a: bytes, b: bytes, n: nat, input: bytes, from: nat, mid: nat, to: nat, front: bytes)
    requires from <= mid <= to <= |input| && n + (to - mid) <= |a| && b == Patch(a, n, input[mid..to])
    requires a[..n] == front + input[from..mid]
    ensures b[..n + (to - mid)] == front + input[from..to]
  {
    assert input[from..mid] + input[mid..to] == input[from..to];
    assert b[..n + (to - mid)] == a[..n] + input[mid..to];
  }

  /** A header written in front of the content read restores what was read. */
  lemma Reheaded(w: bytes, k: Kind, size: nat, hl: nat, a: bytes, b: bytes)
    requires HeadOk(w, k, size, hl) && k != Byte && hl + size <= |w| && |a| == hl + size && a[hl..] == w[hl..hl + size]
    requires b == Patch(a, 0, w[..hl])
    ensures b == w[..hl + size] && exists k, c :: Lax(k, c) && b == Frame(k, c)
  {
    LaxContent(w, k, size, hl);
    hide *;
    PatchIs(a, w[..hl], b);
    assert w[..hl + size] == w[..hl] + w[hl..hl + size];
  }

  lemma PatchIs(a: bytes, d: bytes, b: bytes)
    requires |d| <= |a| && b == Patch(a, 0, d)
    ensures b == d + a[|d|..]
  {
  }

  lemma LastOf(ends: seq<nat>, e: nat)
    ensures Last(ends + [e]) == e && (ends + [e])[..|ends + [e]| - 1] == ends
  {
  }

  class Stream {
    const input: bytes
    const limited: bool
    const uintbuf: array<byte>
    /** Where a limited stream has to stop. */
    ghost const cap: nat

    var pos: nat
    var remaining: nat
    var kind: Option<Kind>
    var size: nat
    var byteval: byte
    var kinderr: Option<Error>
    var stack: seq<ListPos>

    /** Where the next value starts: at the input position, or before a header already read. */
    ghost var start: nat
    /** Where the open lists end. */
    ghost var ends: seq<nat>

    /** How far the input goes. */
    ghost function Horizon(): nat {
      if limited && cap < |input| then cap else |input|
    }

    /** How far the next value may go. */
    ghost function Limit(): nat
      reads `ends
    {
      if ends != [] && Last(ends) < Horizon() then Last(ends) else Horizon()
    }

    ghost predicate Shape()
      reads `pos, `remaining, `stack, `ends
    {
      && pos <= |input| < TWO64 && uintbuf.Length == 8
      && (limited ==> pos + remaining == cap && Under(ends, cap))
      && Nested(stack, ends, pos)
    }

    /** `n` more bytes are more than the innermost list, or at the top the limit, allows. */
    ghost predicate TooMany(n: nat)
      reads `pos, `ends
    {
      if ends != [] then pos + n > Last(ends) else limited && pos + n > cap
    }

    ghost predicate Valid()
      reads this
    {
      && Shape() && start <= pos
      && (kind == None ==> start == pos)
      && (kind.Some? ==> kinderr == None && Cached())
    }

    /** The bytes the next value can come from. */
    ghost function Ahead(): bytes
      reads `start, `ends
    {
      if start <= Limit() <= |input| then input[start..Limit()] else []
    }

    /** The cached header is what the input has at `start`. */
    ghost predicate Cached()
      requires kind.Some? && start <= pos
      reads this
    {
      && HeadOk(Ahead(), kind.value, size, pos - start)
      && (kind.value == Byte ==> byteval == Ahead()[0])
      && !TooMany(size)
    }

    /** A failed `Kind` is remembered. */
    ghost predicate Stuck()
      reads `kind, `kinderr
    {
      kind.Some? && kinderr.Some?
    }

    lemma ShapeIs()
      ensures Shape() <==>
                && pos <= |input| < TWO64 && uintbuf.Length == 8
                && (limited ==> pos + remaining == cap && Under(ends, cap))
                && Nested(stack, ends, pos)
    {
    }

    lemma ShapeBounds()
      requires Shape()
      ensures pos <= Limit() <= |input| && uintbuf.Length == 8
    {
    }

    /** A stream over a byte slice. Without an explicit limit the slice's length is the limit. */
    constructor (input: bytes, inputLimit: nat)
      requires |input| < TWO64 && inputLimit < TWO64
      ensures Valid() && kind == None && stack == [] && ends == [] && pos == 0 && start == 0 && this.input == input
      ensures Limit() == if 0 < inputLimit < |input| then inputLimit else |input|
      ensures limited && fresh(uintbuf)
    {
      var limit := if inputLimit > 0 then inputLimit else |input|;
      this.input, limited, uintbuf, cap := input, true, new byte[8], limit;
      pos, remaining, kind, size, byteval, kinderr, stack := 0, limit, None, 0, 0, None, [];
      start, ends := 0, [];
    }

    /** A stream over a reader that is not known to end. */
    constructor Unlimited(input: bytes)
      requires |input| < TWO64
      ensures Valid() && kind == None && stack == [] && ends == [] && pos == 0 && this.input == input
      ensures Limit() == |input| && !limited && fresh(uintbuf)
    {
      this.input, limited, uintbuf, cap := input, false, new byte[8], 0;
      pos, remaining, kind, size, byteval, kinderr, stack := 0, 0, None, 0, 0, None, [];
      start, ends := 0, [];
    }

    // ---- reading bytes ----

    /** Accounts for `n` bytes about to be read, unless they are too many. */
    method willRead(n: nat) returns (err: Option<Error>)
      requires Shape()
      modifies `kind, `stack, `remaining
      ensures kind == None && |stack| == |old(stack)|
      ensures err == None <==> !TooMany(n)
      ensures err == None ==> Nested(stack, ends, pos + n) && (limited ==> pos + n + remaining == cap)
      ensures err.Some? ==> err.value == (if ends != [] then ElemTooLarge else ValueTooLarge)
    {
      kind := None;
      Advanced(stack, ends, pos, n);
      NestedTop(stack, ends, pos);
      hide Nested, Advance;
      if |stack| > 0 {
        if n > Left(stack) {
          return Some(ElemTooLarge);
        }
        stack := Advance(stack, n);
      }
      if limited {
        if n > remaining {
          return Some(ValueTooLarge);
        }
        remaining := remaining - n;
      }
      return None;
    }

    method readByte() returns (r: Result<byte>)
      requires Shape()
      modifies `kind, `stack, `remaining, `pos
      ensures kind == None && |stack| == |old(stack)|
      ensures r.Ok? ==> Shape() && pos == old(pos) + 1 <= Limit() && r.value == input[old(pos)]
      ensures r.Err? ==> old(pos) >= Limit()
      ensures r.Err? && ends == [] ==> r.error == UnexpectedEOF || r.error == ValueTooLarge
      ensures r.Err? && ends != [] ==> r.error == UnexpectedEOF || r.error == ElemTooLarge
    {
      ShapeBounds();
      var err := willRead(1);
      if err.Some? {
        return Err(err.value);
      }
      if pos == |input| {
        return Err(UnexpectedEOF);
      }
      r := Ok(input[pos]);
      pos := pos + 1;
    }

    /** The underlying reader: fills some of `buf` from `at` on, or reports the end of the input. */
    method read(buf: array<byte>, at: nat) returns (nn: nat, eof: bool)
      requires at < buf.Length && pos <= |input|
      modifies buf, `pos
      ensures at + nn <= buf.Length && pos == old(pos) + nn <= |input|
      ensures eof <==> nn == 0
      ensures eof <==> old(pos) == |input|
      ensures buf[..] == Patch(old(buf[..]), at, input[old(pos)..pos])
    {
      eof := pos == |input|;
      var most := if buf.Length - at <= |input| - pos then buf.Length - at else |input| - pos;
      nn :| 0 <= nn <= most && (nn == 0 <==> most == 0);
      var copied := Copy(buf, at, input[pos..pos + nn]);
      assert input[pos..pos + nn][..copied] == input[pos..pos + nn];
      pos := pos + nn;
    }

    /** Fills `buf` from `at` on. */
    method readFull(buf: array<byte>, at: nat) returns (err: Option<Error>)
      requires Shape() && at <= buf.Length
      modifies buf, `kind, `stack, `remaining, `pos
      ensures kind == None
      ensures err == None ==> Shape() && pos == old(pos) + (buf.Length - at) <= Limit()
      ensures err == None ==> buf[..] == old(buf[..at]) + input[old(pos)..pos]
      ensures err.Some? ==> old(pos) + (buf.Length - at) > Limit()
      ensures err.Some? ==> err.value == UnexpectedEOF || err.value == ElemTooLarge || err.value == ValueTooLarge
    {
      ShapeBounds();
      err := willRead(buf.Length - at);
      if err.Some? {
        return;
      }
      hide *;
      var eof := fill(buf, at);
      if eof {
        err := Some(UnexpectedEOF);
      } else {
        ShapeIs();
        ShapeBounds();
      }
    }

    method fill(buf: array<byte>, at: nat) returns (eof: bool)
      requires at <= buf.Length && pos <= |input|
      modifies buf, `pos
      ensures old(pos) <= pos <= |input|
      ensures !eof ==> pos == old(pos) + (buf.Length - at) && buf[..] == old(buf[..at]) + input[old(pos)..pos]
      ensures eof ==> pos == |input| && old(pos) + (buf.Length - at) > |input|
    {
      var n := at;
      eof := false;
      assert buf[..n] == old(buf[..at]) + input[old(pos)..pos];
      while n < buf.Length && !eof
        invariant at <= n <= buf.Length && pos == old(pos) + (n - at) <= |input|
        invariant eof ==> pos == |input| && n < buf.Length
        invariant buf[..n] == old(buf[..at]) + input[old(pos)..pos]
        decreases buf.Length - n, !eof
      {
        ghost var buf0, pos0 := buf[..], pos;
        var nn;
        nn, eof := read(buf, n);
        Grow(buf0, buf[..], n, input, old(pos), pos0, pos, old(buf[..at]));
        n := n + nn;
      }
      assert n == buf.Length ==> buf[..n] == buf[..];
    }

    /** Reads a big-endian number of up to 8 bytes. Two or more must not start with a zero. */
    method readUint(sz: nat) returns (r: Result<nat>)
      requires Shape() && sz <= 8
      modifies uintbuf, `kind, `stack, `remaining, `pos
      ensures kind == None
      ensures r.Ok? ==> Shape() && pos == old(pos) + sz <= Limit() && r.value == FromBE(input[old(pos)..pos])
      ensures r.Ok? && sz >= 2 ==> input[old(pos)] != 0
      ensures r.Err? ==> r.error != EOL && r.error != EOF
      ensures r.Err? ==> if r.error == CanonSize then sz >= 2 && old(pos) + sz <= Limit() && input[old(pos)] == 0 else old(pos) + sz > Limit()
    {
      hide Nested, FromBE;
      ShapeBounds();
      if sz == 0 {
        kind := None;
        FromBENone();
        assert input[pos..pos] == [];
        return Ok(0);
      }
      if sz == 1 {
        var b := readByte();
        if b.Ok? {
          ShapeBounds();
          FromBEOne(input[old(pos)]);
          assert input[old(pos)..pos] == [input[old(pos)]];
          return Ok(b.value);
        }
        return Err(b.error);
      }
      var from := 8 - sz;
      for i := 0 to from
        invariant forall j :: 0 <= j < i ==> uintbuf[j] == 0
        modifies uintbuf
      {
        uintbuf[i] := 0;
      }
      var zeros: bytes := seq(from, _ => 0 as byte);
      assert uintbuf[..from] == zeros;
      var err := readFull(uintbuf, from);
      if err.Some? {
        return Err(err.value);
      }
      ShapeBounds();
      ghost var read := input[old(pos)..pos];
      assert uintbuf[from] == uintbuf[..][from] == read[0];
      if uintbuf[from] == 0 {
        return Err(CanonSize);
      }
      LeadingZeros(from, read);
      return Ok(FromBE(uintbuf[..]));
    }

    /** Reads the size bytes of a long header whose tag has been read. */
    method readLong(n: nat, ghost w: bytes) returns (sz: nat, err: Option<Error>)
      requires Shape() && 1 <= pos && w == input[pos - 1..Limit()]
      requires w != [] && (0xB8 <= w[0] < 0xC0 || 0xF8 <= w[0]) && n == SizeBytesAfter(w[0])
      modifies uintbuf, `kind, `stack, `remaining, `pos
      ensures kind == None
      ensures err == None ==> Shape() && pos == old(pos) + n && HeadOk(w, if w[0] < 0xC0 then String else Rlp.Kind.List, sz, 1 + n)
      ensures err.Some? ==> NoFrame(w) && err.value != EOL && err.value != EOF
    {
      hide *;
      ShapeBounds();
      ghost var p := pos;
      var r := readUint(n);
      sz, err := 0, None;
      if r.Err? {
        LongBytes(w, input, p, n);
        NoLongHead(w, n);
        return 0, Some(r.error);
      }
      sz := r.value;
      LongBytes(w, input, p, n);
      if sz < 56 {
        NoLongHead(w, n);
        err := Some(CanonSize);
      } else {
        LongHead(w, n);
      }
    }

    lemma StackEnds()
      requires Shape()
      ensures |stack| == |ends|
    {
    }

    lemma StackTop()
      requires Shape()
      ensures |stack| == |ends| && (stack != [] ==> Left(stack) == Last(ends) - pos >= 0)
      ensures stack == [] && limited ==> remaining == cap - pos
    {
    }

    lemma ValidIs()
      ensures Valid() <==>
                && Shape() && start <= pos && (kind == None ==> start == pos)
                && (kind.Some? ==> kinderr == None && Cached())
      ensures Stuck() <==> kind.Some? && kinderr.Some?
      ensures kind.Some? && start <= pos ==>
                (Cached() <==> && HeadOk(Ahead(), kind.value, size, pos - start)
                               && (kind.value == Byte ==> byteval == Ahead()[0])
                               && !TooMany(size))
    {
    }

    lemma Bounds()
      requires Valid()
      ensures start <= pos <= Limit() <= |input| < TWO64 && Ahead() == input[start..Limit()]
      ensures Limit() <= Horizon() && (ends != [] ==> Limit() <= Last(ends))
    {
    }

    /** A value too large for what is around it cannot be there. */
    lemma Checked()
      requires Shape() && kind.Some? && start <= pos && HeadOk(Ahead(), kind.value, size, pos - start)
      ensures TooMany(size) <==> if |stack| == 0 then limited && size > remaining else size > Left(stack)
      ensures TooMany(size) ==> NoFrame(Ahead())
    {
      StackTop();
      if TooMany(size) {
        TooLarge(Ahead(), kind.value, size, pos - start);
      }
    }

    /** Reads a header. */
    method readKind() returns (k: Kind, sz: nat, err: Option<Error>)
      requires Shape()
      modifies uintbuf, `kind, `stack, `remaining, `pos, `byteval
      ensures old(pos) <= Limit() <= |input|
      ensures err == None ==> Shape() && old(pos) <= pos && HeadOk(input[old(pos)..Limit()], k, sz, pos - old(pos))
      ensures err == None && k == Byte ==> byteval == input[old(pos)..Limit()][0]
      ensures err.Some? ==> NoFrame(input[old(pos)..Limit()]) && err.value != EOL
      ensures err == Some(EOF) <==> ends == [] && old(pos) == Limit()
    {
      hide *;
      ShapeBounds();
      StackEnds();
      ghost var w := input[pos..Limit()];
      k, sz, err := Byte, 0, None;
      var tag := readByte();
      if tag.Err? {
        err := Some(tag.error);
        if |stack| == 0 && (err.value == UnexpectedEOF || err.value == ValueTooLarge) {
          err := Some(EOF);
        }
        NoFrameAtEnd(w);
        return;
      }
      byteval := 0;
      var b := tag.value;
      SizeBytesIs(b);
      if b < 0x80 {
        byteval := b;
        ByteHead(w);
      } else if b < 0xB8 {
        k, sz := String, b - 0x80;
        ShortHead(w);
      } else if b < 0xC0 {
        k := String;
        sz, err := readLong(b - 0xB7, w);
      } else if b < 0xF8 {
        k, sz := Rlp.Kind.List, b - 0xC0;
        ShortHead(w);
      } else {
        k := Rlp.Kind.List;
        sz, err := readLong(b - 0xF7, w);
      }
    }

    /** Kind and size of the next value. Reads its header, or returns what an earlier call found. */
    method Kind() returns (k: Kind, sz: nat, err: Option<Error>)
      requires Valid() || Stuck()
      modifies uintbuf, `kind, `size, `byteval, `kinderr, `stack, `remaining, `pos
      ensures err == None ==> Valid() && kind == Some(k) && size == sz
      ensures err.Some? && err.value != EOL ==> Stuck() && kinderr == err
      ensures old(Valid() && kind.Some?) ==> err == None && Some(k) == old(kind) && sz == old(size) && pos == old(pos)
      ensures old(Stuck()) ==> kind == old(kind) && err == old(kinderr) && pos == old(pos)
      ensures old(Valid()) && err.Some? ==> if err.value == EOL then Valid() && kind == None && pos == old(pos) else NoFrame(Ahead())
      ensures old(Valid()) ==> (err == Some(EOL) <==> old(kind == None && ends != [] && pos == Last(ends)))
      ensures old(Valid() && kind == None) ==> (err == Some(EOF) <==> ends == [] && Ahead() == [])
    {
      hide *;
      if kind == None {
        ValidIs();
        Bounds();
        StackTop();
        kinderr := None;
        if |stack| > 0 && Left(stack) == 0 {
          ValidIs();
          return Byte, 0, Some(EOL);
        }
        k, sz, err := readKind();
        kind, size, kinderr := Some(k), sz, err;
        if kinderr == None {
          StackTop();
          if |stack| == 0 {
            if limited && size > remaining {
              kinderr := Some(ValueTooLarge);
            }
          } else {
            if size > Left(stack) {
              kinderr := Some(ElemTooLarge);
            }
          }
          Checked();
        }
      }
      ValidIs();
      return kind.value, size, kinderr;
    }

    /** Opens a list. */
    method List() returns (r: Result<nat>)
      requires Valid()
      modifies uintbuf, `kind, `size, `byteval, `kinderr, `stack, `remaining, `pos, `start, `ends
      ensures r.Ok? ==>
                && Valid() && kind == None && r.value < TWO64 && old(start) < start && ends == old(ends) + [start + r.value]
                && HeadOk(old(Ahead()), Rlp.Kind.List, r.value, start - old(start))
      ensures r.Ok? && old(kind.Some?) ==> r.value == old(size)
      ensures r.Err? ==> (Valid() || Stuck()) && ends == old(ends) && start == old(start)
      ensures r == Err(EOL) <==> old(kind == None && ends != [] && pos == Last(ends))
      ensures r.Err? && r.error != EOL ==> NoList(old(Ahead()))
    {
      hide *;
      ghost var w := Ahead();
      Bounds();
      ValidIs();
      var k, sz, err := Kind();
      if err.Some? {
        if err.value != EOL {
          NoFrameNoValue(w);
        }
        return Err(err.value);
      }
      Bounds();
      ValidIs();
      if k != Rlp.Kind.List {
        OtherKind(w, k, sz, pos - start);
        return Err(ExpectedList);
      }
      Opened();
      HeadLimits();
      stack := stack + [ListPos(0, size)];
      kind := None;
      size := 0;
      start, ends := pos, ends + [pos + sz];
      ShapeIs();
      ValidIs();
      return Ok(sz);
    }

    /** What opening the list ahead leads to. */
    lemma Opened()
      requires Valid() && kind.Some?
      ensures size < TWO64 && |input| < TWO64 && uintbuf.Length == 8 && (limited ==> pos + remaining == cap && Under(ends + [pos + size], cap))
      ensures Nested(stack + [ListPos(0, size)], ends + [pos + size], pos)
    {
      StackTop();
      Pushed(stack, ends, pos, size);
    }

    /** Closes a list whose end has been reached. */
    method ListEnd() returns (err: Option<Error>)
      requires Valid()
      modifies `kind, `size, `stack, `start, `ends
      ensures err == None <==> old(ends != [] && pos == Last(ends))
      ensures err == None ==> Valid() && kind == None && old(ends) != [] && ends == old(ends[..|ends| - 1]) && start == pos
      ensures err.Some? ==> Valid() && kind == old(kind) && stack == old(stack) && ends == old(ends) && start == old(start)
      ensures err.Some? ==> err.value == if ends == [] then NotInList else NotAtEOL
    {
      hide *;
      ValidIs();
      StackTop();
      if |stack| == 0 {
        return Some(NotInList);
      }
      if Left(stack) != 0 {
        return Some(NotAtEOL);
      }
      Closed();
      stack := Pop(stack);
      kind := None;
      size := 0;
      start, ends := pos, ends[..|ends| - 1];
      ShapeIs();
      ValidIs();
      return None;
    }

    lemma Closed()
      requires Shape() && stack != [] && Left(stack) == 0
      ensures |input| < TWO64 && uintbuf.Length == 8 && (limited ==> pos + remaining == cap && Under(ends[..|ends| - 1], cap))
      ensures pos <= |input| && Nested(Pop(stack), ends[..|ends| - 1], pos)
    {
      Popped(stack, ends, pos);
    }

    /** Reads the content behind a cached header into `buf` from `at` on. */
    method readContent(buf: array<byte>, at: nat) returns (err: Option<Error>)
      requires Valid() && kind.Some? && kind != Some(Byte) && at + size == buf.Length
      modifies buf, `kind, `stack, `remaining, `pos
      ensures kind == None && 0 <= old(pos - start)
      ensures err == None ==> Shape() && start < pos == old(pos) + size && |Ahead()| < TWO64
      ensures err == None ==>
                var w, hl := Ahead(), old(pos - start);
                && hl + size <= |w| && HeadOk(w, old(kind).value, size, hl)
                && input[start..pos] == w[..hl + size] && buf[..] == old(buf[..at]) + w[hl..hl + size]
      ensures err.Some? ==> NoFrame(Ahead()) && |Ahead()| < TWO64 && err.value != EOL
    {
      hide *;
      Bounds();
      ValidIs();
      ghost var w, hl, k := Ahead(), pos - start, kind.value;
      HeadBytes(w, k, size, hl);
      err := readFull(buf, at);
      if err.Some? {
        TooLarge(w, k, size, hl);
        return;
      }
      ShapeBounds();
      Content(w, input, start, hl, size);
    }

    /** Takes the bare byte ahead. */
    method takeByte() returns (b: byte)
      requires Valid() && kind == Some(Byte)
      modifies `kind, `start
      ensures Valid() && kind == None && start == pos == old(start) + 1
      ensures old(Ahead()) != [] && old(Ahead())[0] == b < 0x80
      ensures input[old(start)..start] == [b] && Encode(Str([b])) == [b]
    {
      hide *;
      Bounds();
      ValidIs();
      ghost var w := Ahead();
      HeadBytes(w, Byte, size, pos - start);
      ByteValue(w);
      Content(w, input, start, 1, 0);
      kind := None;
      start := pos;
      ShapeIs();
      ValidIs();
      return byteval;
    }

    /** Reads the string ahead. */
    method takeString() returns (r: Result<bytes>)
      requires Valid() && kind == Some(String)
      modifies `kind, `stack, `remaining, `pos, `start
      ensures r.Ok? ==> Valid() && kind == None && old(start) < start && Encode(Str(r.value)) == input[old(start)..start]
      ensures r.Err? ==> r.error != EOL && NoString(old(Ahead()))
    {
      hide *;
      ghost var w, hl := Ahead(), pos - start;
      var b := new byte[size];
      var err := readContent(b, 0);
      if err.Some? {
        NoFrameNoValue(w);
        return Err(err.value);
      }
      assert b[..] == w[hl..hl + size];
      if size == 1 && b[0] < 128 {
        SmallString(w, hl, size);
        return Err(CanonSize);
      }
      HeadBytes(w, String, size, hl);
      StringValue(w, hl, size);
      start := pos;
      ValidIs();
      return Ok(b[..]);
    }

    /** Reads a string. */
    method Bytes() returns (r: Result<bytes>)
      requires Valid()
      modifies uintbuf, `kind, `size, `byteval, `kinderr, `stack, `remaining, `pos, `start
      ensures r.Ok? ==> Valid() && kind == None && old(start) < start && Encode(Str(r.value)) == input[old(start)..start]
      ensures r == Err(EOL) <==> old(kind == None && ends != [] && pos == Last(ends))
      ensures r == Err(EOL) ==> Valid() && start == old(start)
      ensures r.Err? && r.error != EOL ==> NoString(old(Ahead()))
    {
      hide *;
      ghost var w := Ahead();
      Bounds();
      var k, sz, err := Kind();
      if err.Some? {
        if err.value != EOL {
          NoFrameNoValue(w);
        }
        return Err(err.value);
      }
      match k {
        case Byte =>
          var b := takeByte();
          return Ok([b]);
        case String =>
          r := takeString();
        case List =>
          Bounds();
          ValidIs();
          OtherKind(w, k, sz, pos - start);
          return Err(ExpectedString);
      }
    }

    /**
      Reads a value without interpreting it. The header has been consumed already, so a new one is put in front of the
      content: what is returned is nevertheless what was read.
     */
    method Raw() returns (r: Result<bytes>)
      requires Valid() && limited && cap < TWO64 - 9
      modifies uintbuf, `kind, `size, `byteval, `kinderr, `stack, `remaining, `pos, `start
      ensures r.Ok? ==> Valid() && kind == None && old(start) < start && r.value == input[old(start)..start]
      ensures r.Ok? ==> exists k, c :: Lax(k, c) && r.value == Frame(k, c)
      ensures r == Err(EOL) <==> old(kind == None && ends != [] && pos == Last(ends))
      ensures r == Err(EOL) ==> Valid() && start == old(start)
      ensures r.Err? && r.error != EOL ==> NoFrame(old(Ahead()))
    {
      hide *;
      Bounds();
      var k, sz, err := Kind();
      if err.Some? {
        return Err(err.value);
      }
      if k == Byte {
        var b := takeByte();
        LaxByte(b);
        return Ok([b]);
      }
      r := takeRaw(k);
    }

    /** Puts header and content of the string or list ahead back together. */
    method takeRaw(k: Kind) returns (r: Result<bytes>)
      requires Valid() && kind == Some(k) && k != Byte
      modifies `kind, `stack, `remaining, `pos, `start
      ensures r.Ok? ==> Valid() && kind == None && old(start) < start && r.value == input[old(start)..start]
      ensures r.Ok? ==> exists k, c :: Lax(k, c) && r.value == Frame(k, c)
      ensures r.Err? ==> r.error != EOL && NoFrame(old(Ahead()))
    {
      hide *;
      ghost var w, hl := Ahead(), pos - start;
      HeadLimits();
      var from := headsize(size);
      var buf := new byte[from + size];
      var err := readContent(buf, from);
      if err.Some? {
        return Err(err.value);
      }
      HeadSize(w, k, size, hl);
      ghost var buf0 := buf[..];
      var n := puthead(buf, 0, if k == String then 0x80 else 0xC0, if k == String then 0xB7 else 0xF7, size);
      assert buf0[hl..] == w[hl..hl + size];
      Reheaded(w, k, size, hl, buf0, buf[..]);
      start := pos;
      ValidIs();
      return Ok(buf[..]);
    }

    lemma HeadLimits()
      requires Valid() && kind.Some? && kind != Some(Byte)
      ensures size < TWO64 && |input| < TWO64 && 0 <= pos - start
      ensures HeadOk(Ahead(), kind.value, size, pos - start) && 1 <= pos - start <= |Ahead()|
    {
      HeadBytes(Ahead(), kind.value, size, pos - start);
    }

    /** An open list narrows the limit to its end, if that comes first. */
    lemma LimitIs(outer: seq<nat>, end: nat)
      requires Valid() && ends == outer + [end]
      ensures Limit() == if end < Horizon() then end else Horizon()
      ensures Horizon() <= |input|
    {
    }

    lemma ByteAhead()
      requires Valid() && kind == Some(Byte)
      ensures 0 <= pos - start && HeadOk(Ahead(), Byte, size, pos - start) && Ahead() != [] && Ahead()[0] == byteval
      ensures |input| < TWO64
    {
    }

    /** Reads an unsigned integer of at most `maxbits` bits. */
    method uint(maxbits: nat) returns (r: Result<nat>)
      requires Valid() && 8 <= maxbits <= 64 && maxbits % 8 == 0
      modifies uintbuf, `kind, `size, `byteval, `kinderr, `stack, `remaining, `pos, `start
      ensures r.Ok? ==> Valid() && kind == None && r.value < Pow256(maxbits / 8)
      ensures r.Ok? ==> old(start) < start && Encode(Str(BE(r.value))) == input[old(start)..start]
      ensures r == Err(EOL) <==> old(kind == None && ends != [] && pos == Last(ends))
      ensures r == Err(EOL) ==> Valid() && start == old(start)
      ensures r.Err? && r.error != EOL ==> NoUint(old(Ahead()), maxbits / 8)
    {
      hide *;
      ghost var w := Ahead();
      Bounds();
      var k, sz, err := Kind();
      if err.Some? {
        if err.value != EOL {
          NoFrameNoValue(w);
          NoStringNoUint(w, maxbits / 8);
        }
        return Err(err.value);
      }
      match k {
        case Byte =>
          ByteAhead();
          if byteval == 0 {
            ZeroByte(w, pos - start, maxbits / 8);
            return Err(CanonInt);
          }
          var b := takeByte();
          ByteUint(b, maxbits / 8);
          return Ok(b);
        case String =>
          HeadLimits();
          if sz > maxbits / 8 {
            WideUint(w, sz, pos - start, maxbits / 8);
            return Err(UintOverflow);
          }
          r := takeUint(maxbits / 8);
        case List =>
          HeadLimits();
          OtherKind(w, k, sz, pos - start);
          NoStringNoUint(w, maxbits / 8);
          return Err(ExpectedString);
      }
    }

    /** Reads the string ahead as an integer of at most `k` bytes. */
    method takeUint(k: nat) returns (r: Result<nat>)
      requires Valid() && kind == Some(String) && size <= k <= 8
      modifies uintbuf, `kind, `stack, `remaining, `pos, `start
      ensures r.Ok? ==> Valid() && kind == None && r.value < Pow256(k)
      ensures r.Ok? ==> old(start) < start && Encode(Str(BE(r.value))) == input[old(start)..start]
      ensures r.Err? ==> r.error != EOL && NoUint(old(Ahead()), k)
    {
      hide *;
      Bounds();
      HeadLimits();
      ValidIs();
      ghost var w, hl := Ahead(), pos - start;
      var v := readUint(size);
      if v.Err? {
        if v.error == CanonSize {
          ShortContent(w, input, start, hl, size);
          LeadingZero(w, hl, size, k);
          return Err(CanonInt);
        }
        TooLarge(w, String, size, hl);
        NoFrameNoValue(w);
        NoStringNoUint(w, k);
        return Err(v.error);
      }
      ShapeBounds();
      UintRead(w, input, start, hl, size, k, v.value);
      if size > 0 && v.value < 128 {
        return Err(CanonSize);
      }
      start := pos;
      ValidIs();
      return Ok(v.value);
    }

    /** Reads a boolean: the integer 0 or 1. */
    method Bool() returns (r: Result<bool>)
      requires Valid()
      modifies uintbuf, `kind, `size, `byteval, `kinderr, `stack, `remaining, `pos, `start
      ensures r.Ok? ==> Valid() && kind == None && old(start) < start && input[old(start)..start] == Encode(Truth(r.value))
      ensures r == Err(EOL) <==> old(kind == None && ends != [] && pos == Last(ends))
      ensures r.Err? && r.error != EOL ==> forall b :: !(Encode(Truth(b)) <= old(Ahead()))
    {
      hide *;
      ghost var w, start0 := Ahead(), start;
      Bounds();
      var num := uint(8);
      BoolUint(w);
      if num.Err? {
        return Err(num.error);
      }
      if num.value == 0 {
        return Ok(false);
      }
      if num.value == 1 {
        return Ok(true);
      }
      Bounds();
      Starts(input, start0, start, Limit());
      NotBool(w, num.value);
      return Err(InvalidBool);
    }

    // ---- decoding whole values ----

    /** Decodes whatever value comes next. */
    method decodeInterface() returns (r: Result<Value>)
      requires Valid()
      modifies uintbuf, `kind, `size, `byteval, `kinderr, `stack, `remaining, `pos, `start, `ends
      decreases |input| - start, 1
      ensures r.Ok? ==> Valid() && kind == None && ends == old(ends) && old(start) < start && Encode(r.value) == input[old(start)..start]
      ensures r == Err(EOL) <==> old(kind == None && ends != [] && pos == Last(ends))
      ensures r == Err(EOL) ==> Valid() && kind == None && ends == old(ends) && start == old(start)
      ensures r.Err? && r.error != EOL ==> NoValue(old(Ahead()))
    {
      hide *;
      ghost var w := Ahead();
      Bounds();
      var k, sz, err := Kind();
      if err.Some? {
        if err.value != EOL {
          NoFrameNoValue(w);
        }
        return Err(err.value);
      }
      Bounds();
      ValidIs();
      ghost var hl := pos - start;
      if k == Rlp.Kind.List {
        var vs := decodeListSlice();
        if vs.Err? {
          OnlyLists(w, sz, hl);
          return Err(vs.error);
        }
        return Ok(Lst(vs.value));
      }
      var s := Bytes();
      if s.Err? {
        OnlyStrings(w, k, sz, hl);
        return Err(s.error);
      }
      return Ok(Str(s.value));
    }

    /** Decodes the list ahead. */
    method decodeListSlice() returns (r: Result<seq<Value>>)
      requires Valid() && kind.Some?
      modifies uintbuf, `kind, `size, `byteval, `kinderr, `stack, `remaining, `pos, `start, `ends
      decreases |input| - start, 0
      ensures r.Ok? ==> Valid() && kind == None && ends == old(ends) && old(start) < start && Encode(Lst(r.value)) == input[old(start)..start]
      ensures r.Err? ==> r.error != EOL && NoList(old(Ahead()))
    {
      hide *;
      ghost var w, start0, limit0, ends0 := Ahead(), start, Limit(), ends;
      Bounds();
      var sz := List();
      if sz.Err? {
        return Err(sz.error);
      }
      Bounds();
      ghost var from, limit1 := start, Limit();
      LastOf(ends0, from + sz.value);
      LimitIs(ends0, from + sz.value);
      Bounds();
      r := decodeListBody(sz.value);
      if r.Err? {
        NoFill(w, input, start0, limit0, from, limit1, sz.value);
      } else {
        Bounds();
        ListValue(w, input, start0, limit0, from, sz.value, r.value);
      }
    }

    /** Decodes the elements of the list just opened, of `size` bytes, and closes it. */
    method decodeListBody(sz: nat) returns (r: Result<seq<Value>>)
      requires Valid() && kind == None && ends != [] && Last(ends) == start + sz
      modifies uintbuf, `kind, `size, `byteval, `kinderr, `stack, `remaining, `pos, `start, `ends
      decreases |input| - start, 3
      ensures r.Ok? ==>
                && Valid() && kind == None && old(ends) != [] && ends == old(ends[..|ends| - 1])
                && start == old(start) + sz && EncodeAll(r.value) == input[old(start)..start]
      ensures r.Err? ==> r.error != EOL
      ensures r.Err? ==> forall ws :: |EncodeAll(ws)| == sz ==> !(EncodeAll(ws) <= old(Ahead()))
    {
      hide *;
      Bounds();
      ValidIs();
      r := Ok([]);
      if sz != 0 {
        r := decodeSliceElems();
        if r.Err? {
          return;
        }
      } else {
        NothingDecoded(input, start);
      }
      Bounds();
      ValidIs();
      var err := ListEnd();
      assert err == None;
    }

    /** Decodes values up to the end of the innermost list. */
    method decodeSliceElems() returns (r: Result<seq<Value>>)
      requires Valid() && kind == None && ends != []
      modifies uintbuf, `kind, `size, `byteval, `kinderr, `stack, `remaining, `pos, `start, `ends
      decreases |input| - start, 2
      ensures r.Ok? ==> Valid() && kind == None && ends == old(ends) && old(start) <= start == Last(ends) && EncodeAll(r.value) == input[old(start)..start]
      ensures r.Err? ==> r.error != EOL
      ensures r.Err? ==> forall ws :: old(start) + |EncodeAll(ws)| == old(Last(ends)) ==> !(EncodeAll(ws) <= old(Ahead()))
    {
      hide *;
      ghost var start0, ends0, w := start, ends, Ahead();
      Bounds();
      NothingDecoded(input, start);
      var vs := [];
      while true
        invariant Valid() && kind == None && ends == ends0 && start0 <= start <= |input| && EncodeAll(vs) == input[start0..start]
        decreases |input| - start
      {
        ghost var start1, w1 := start, Ahead();
        Bounds();
        ValidIs();
        var v := decodeInterface();
        if v == Err(EOL) {
          Bounds();
          ValidIs();
          return Ok(vs);
        }
        if v.Err? {
          NoMore(w, w1, input, start0, start1, |w| + start0, vs, Last(ends0));
          return Err(v.error);
        }
        Bounds();
        OneMore(input, start0, start1, start, vs, v.value);
        vs := vs + [v.value];
      }
    }

    /** Decodes exactly one value. */
    static method DecodeBytes(b: bytes) returns (r: Result<Value>)
      requires |b| < TWO64
      ensures r.Ok? ==> Encode(r.value) == b
      ensures r.Err? ==> forall v :: Encode(v) != b
    {
      hide *;
      var s := new Stream(b, |b|);
      s.Bounds();
      r := s.decodeInterface();
      assert b[0..|b|] == b;
      if r.Err? {
        NoPrefix(b);
        return;
      }
      s.Bounds();
      s.ValidIs();
      if s.pos < |b| {
        Trailing(b, r.value, s.start);
        return Err(MoreThanOneValue);
      }
    }
  }
}
