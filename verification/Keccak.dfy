/** The hash state: buffering around the sponge. */
module Keccak {
  import opened Bytes
  import opened Sponge
  import opened Wrappers

  /** `buf` is the stretch of `storage` from `start` on that is `size` bytes long. */
  class State {
    const f: bytes -> bytes
    const rate: nat
    const dsbyte: byte
    const outputLen: nat
    var a: bytes
    const storage: array<byte>
    var start: nat
    var size: nat
    var squeezing: bool

    ghost predicate Valid()
      reads this, storage
    {
      && Permutes(f) && GoodRate(rate) && dsbyte < 128 && |a| == WIDTH && storage.Length == MAX_RATE
      && (if squeezing then start < rate && size == rate - start && storage[..rate] == a[..rate]
          else start == 0 && size < rate)
    }

    /** The bytes buffered while absorbing. */
    ghost function Buffered(): bytes
      requires start + size <= storage.Length
      reads this, storage
    {
      storage[start..start + size]
    }

    /** Where the output is while squeezing. */
    ghost function Position(): Place
      reads this
    {
      Place(a, start)
    }

    constructor (f: bytes -> bytes, rate: nat, outputLen: nat, dsbyte: byte)
      requires Permutes(f) && GoodRate(rate) && dsbyte < 128
      ensures Valid() && fresh(storage) && this.f == f && this.rate == rate && this.outputLen == outputLen && this.dsbyte == dsbyte
      ensures !squeezing && a == Zeros(WIDTH) && Buffered() == [] && Has([])
    {
      this.f, this.rate, this.outputLen, this.dsbyte := f, rate, outputLen, dsbyte;
      a, storage, start, size, squeezing := Zeros(WIDTH), new byte[MAX_RATE], 0, 0, false;
    }

    /** The legacy Keccak with 256 bits of output. */
    constructor NewKeccak256(f: bytes -> bytes)
      requires Permutes(f)
      ensures Valid() && fresh(storage) && this.f == f && rate == 136 && outputLen == 32 && dsbyte == 0x01
      ensures !squeezing && a == Zeros(WIDTH) && Buffered() == [] && Has([])
    {
      this.f, rate, outputLen, dsbyte := f, 136, 32, 0x01;
      a, storage, start, size, squeezing := Zeros(WIDTH), new byte[MAX_RATE], 0, 0, false;
    }

    method Reset()
      requires Valid()
      modifies this
      ensures Valid() && !squeezing && a == Zeros(WIDTH) && Buffered() == [] && Has([])
    {
      a, squeezing, start, size := Zeros(WIDTH), false, 0, 0;
    }

    /** Copies bytes into an array. */
    static method copy(dst: array<byte>, at: nat, p: bytes)
      requires at + |p| <= dst.Length
      modifies dst
      ensures dst[..at] == old(dst[..at]) && dst[at..at + |p|] == p
      ensures dst[at + |p|..] == old(dst[at + |p|..])
    {
      forall i | 0 <= i < |p| {
        dst[at + i] := p[i];
      }
    }

    /** Applies the permutation, with the input mixed in before, or the output copied out after. No other block leads to the same. */
    method permute()
      requires Permutes(f) && GoodRate(rate) && |a| == WIDTH && storage.Length == MAX_RATE
      requires start + size <= MAX_RATE && (!squeezing ==> size == rate)
      modifies this`a, this`start, this`size, storage
      ensures |a| == WIDTH && start == 0
      ensures !squeezing ==> a == f(XorIn(old(a), old(storage[start..start + size]))) && size == 0 && storage[..] == old(storage[..])
      ensures !squeezing ==> forall block {:trigger XorIn(old(a), block)} :: |block| == rate && block != old(storage[start..start + size]) ==>
                XorIn(old(a), block) != XorIn(old(a), old(storage[start..start + size]))
      ensures squeezing ==> a == f(old(a)) && size == rate && storage[..rate] == a[..rate]
    {
      hide XorIn, Permutes;
      PermutesIs(a);
      if !squeezing {
        OthersDiffer(a, storage[start..start + size]);
        a := f(XorIn(a, storage[start..start + size]));
        start, size := 0, 0;
      } else {
        a := f(a);
        start, size := 0, rate;
        copy(storage, 0, a[..rate]);
      }
    }

    lemma PermutesIs(a: bytes)
      requires Permutes(f) && |a| == WIDTH
      ensures |f(a)| == WIDTH && forall block: bytes :: |f(XorIn(a, block))| == WIDTH
    {
    }

    lemma OthersDiffer(a: bytes, block: bytes)
      requires |block| <= |a|
      ensures forall other {:trigger XorIn(a, other)} :: |other| == |block| && other != block ==> XorIn(a, other) != XorIn(a, block)
    {
      forall other: bytes | |other| == |block| && other != block
        ensures XorIn(a, other) != XorIn(a, block)
      {
        MixedDiffer(a, other, block);
      }
    }

    /** Appends the suffix byte and the padding. */
    method pad()
      requires Valid() && !squeezing
      modifies storage
      ensures storage[..rate] == Pad(rate, dsbyte, old(Buffered()))
    {
      ghost var left := Buffered();
      storage[size] := dsbyte;
      for i := size + 1 to rate
        modifies storage
        invariant storage[..size] == left && storage[size] == dsbyte
        invariant forall j :: size < j < i ==> storage[j] == 0
      {
        storage[i] := 0;
      }
      XorTop(storage[rate - 1]);
      storage[rate - 1] := Xor(storage[rate - 1], 0x80);
    }

    /** Pads, applies the permutation, and turns to squeezing. */
    method padAndPermute()
      requires Valid() && !squeezing
      modifies this`a, this`start, this`size, this`squeezing, storage
      ensures Valid() && squeezing && Position() == Place(f(XorIn(old(a), Pad(rate, dsbyte, old(Buffered())))), 0)
    {
      pad();
      start, size := 0, rate;
      assert storage[0..rate] == storage[..rate];
      permute();
      squeezing := true;
      start, size := 0, rate;
      copy(storage, 0, a[..rate]);
      assert storage[0..rate] == storage[..rate];
    }

    /** Buffers some of the input, and applies the permutation if the sponge is full. */
    method buffer(p: bytes) returns (todo: nat)
      requires Valid() && !squeezing && p != []
      modifies this`a, this`start, this`size, storage
      ensures Valid() && !squeezing && 0 < todo <= |p|
      ensures (a, Buffered()) == Absorb(f, rate, old(a), old(Buffered()) + p[..todo])
    {
      ghost var buf := Buffered();
      todo := rate - size;
      if todo > |p| {
        todo := |p|;
      }
      copy(storage, size, p[..todo]);
      size := size + todo;
      assert Buffered() == buf + p[..todo];
      if size == rate {
        FullBlock(a, Buffered());
        permute();
      }
    }

    lemma FullBlock(a: bytes, block: bytes)
      requires rate > 0 && |block| == rate
      ensures Absorb(f, rate, a, block) == (f(XorIn(a, block)), [])
    {
      assert block[..rate] == block && block[rate..] == [];
    }

    /** Absorbs some of the input: a full block at once if nothing is buffered, or into the buffer. */
    method absorbSome(p: bytes) returns (todo: nat)
      requires Valid() && !squeezing && p != []
      modifies this`a, this`start, this`size, storage
      ensures Valid() && !squeezing && 0 < todo <= |p|
      ensures (a, Buffered()) == Absorb(f, rate, old(a), old(Buffered()) + p[..todo])
    {
      if size == 0 && |p| >= rate {
        FullBlock(a, p[..rate]);
        a := f(XorIn(a, p[..rate]));
        todo := rate;
        assert old(Buffered()) + p[..rate] == p[..rate];
      } else {
        todo := buffer(p);
      }
    }

    /** Absorbs more data. */
    method Write(data: bytes)
      requires Valid() && !squeezing
      modifies this`a, this`start, this`size, storage
      ensures Valid() && !squeezing
      ensures (a, Buffered()) == Absorb(f, rate, old(a), old(Buffered()) + data)
      ensures forall m :: old(Has(m)) ==> Has(m + data)
    {
      var p := data;
      ghost var done: bytes := [];
      assert Buffered() + done == Buffered();
      while |p| > 0
        invariant Valid() && !squeezing && done + p == data
        invariant (a, Buffered()) == Absorb(f, rate, old(a), old(Buffered()) + done)
        decreases |p|
      {
        var todo := absorbSome(p);
        AbsorbTwice(f, rate, old(a), old(Buffered()) + done, p[..todo]);
        Associate(old(Buffered()), done, p[..todo]);
        Associate(done, p[..todo], p[todo..]);
        assert p == p[..todo] + p[todo..];
        done := done + p[..todo];
        p := p[todo..];
      }
      assert done == data;
      forall m | old(Has(m))
        ensures Has(m + data)
      {
        AbsorbTwice(f, rate, Zeros(WIDTH), m, data);
      }
    }

    /** Squeezes some bytes out, and applies the permutation if the sponge is dry. */
    method squeezeSome(out: array<byte>, done: nat) returns (n: nat)
      requires Valid() && squeezing && out != storage && done < out.Length
      modifies this`a, this`start, this`size, storage, out
      ensures Valid() && squeezing && 0 < n <= out.Length - done && InPlace(rate, old(Position()))
      ensures out[..done] == old(out[..done]) && out[done..done + n] == Output(f, rate, old(Position()), n)
      ensures Position() == Advance(f, rate, old(Position()), n)
    {
      ghost var p := Position();
      n := if out.Length - done < size then out.Length - done else size;
      assert storage[start..start + n] == storage[start..rate][..n] == p.s[p.at..p.at + n];
      copy(out, done, storage[start..start + n]);
      start, size := start + n, size - n;
      SomeOutput(p, n);
      if size == 0 {
        permute();
        assert storage[0..rate] == storage[..rate];
      }
    }

    lemma NoOutput(p: Place)
      requires Permutes(f) && InPlace(rate, p)
      ensures Output(f, rate, p, 0) == [] && Advance(f, rate, p, 0) == p
    {
    }

    lemma SomeOutput(p: Place, n: nat)
      requires Permutes(f) && InPlace(rate, p) && n <= rate - p.at
      ensures Output(f, rate, p, n) == p.s[p.at..p.at + n]
      ensures Advance(f, rate, p, n) == if n < rate - p.at then Place(p.s, p.at + n) else Place(f(p.s), 0)
    {
      if n == rate - p.at {
        OutputLong(f, rate, p, n);
        assert p.s[p.at..rate] + [] == p.s[p.at..rate];
      }
    }

    /** Squeezes bytes out, as many as `out` has room for. */
    method Read(out: array<byte>)
      requires Valid() && out != storage
      modifies this`a, this`start, this`size, this`squeezing, storage, out
      ensures Valid() && squeezing
      ensures InPlace(rate, old(Beginning())) && out[..] == Output(f, rate, old(Beginning()), out.Length)
      ensures Position() == Advance(f, rate, old(Beginning()), out.Length)
      ensures forall m :: old(Has(m)) ==> out[..] == SpongeOf(f, rate, dsbyte, m, out.Length)
    {
      OutputOfMessages(out.Length);
      hide Output, Advance, SpongeOf, Pad, XorIn, Absorb, Has;
      // Output starts from a padded state.
      if !squeezing {
        padAndPermute();
      }
      squeeze(out);
    }

    /** Squeezes until `out` is full. */
    method squeeze(out: array<byte>)
      requires Valid() && squeezing && out != storage
      modifies this`a, this`start, this`size, storage, out
      ensures Valid() && squeezing && InPlace(rate, old(Position()))
      ensures out[..] == Output(f, rate, old(Position()), out.Length) && Position() == Advance(f, rate, old(Position()), out.Length)
    {
      hide Output, Advance;
      ghost var p := Position();
      NoOutput(p);
      var done := 0;
      while done < out.Length
        invariant Valid() && squeezing && done <= out.Length
        invariant out[..done] == Output(f, rate, p, done) && Position() == Advance(f, rate, p, done)
      {
        var n := squeezeSome(out, done);
        OutputTwice(f, rate, p, done, n);
        assert out[..done + n] == out[..done] + out[done..done + n];
        done := done + n;
      }
      assert out[..] == out[..done];
    }

    /** Where output begins: at the current position, or at the start of the padded state. */
    ghost function Beginning(): Place
      requires Valid()
      reads this, storage
    {
      if squeezing then Position() else Place(f(XorIn(a, Pad(rate, dsbyte, Buffered()))), 0)
    }
 
    // ---- hashing ----

    /** A message has been absorbed, however it was cut into pieces. */
    ghost predicate Has(message: bytes)
      requires Valid()
      reads this, storage
    {
      !squeezing && (a, Buffered()) == Absorb(f, rate, Zeros(WIDTH), message)
    }

    /** The output after a message is the sponge's. */
    lemma OutputOfMessage(message: bytes, n: nat)
      requires Valid() && Has(message)
      ensures InPlace(rate, Beginning()) && Output(f, rate, Beginning(), n) == SpongeOf(f, rate, dsbyte, message, n)
    {
      AbsorbWidth(f, rate, Zeros(WIDTH), message);
      OutputIsSqueeze(f, rate, Beginning().s, n);
      hide Output, Squeeze, Absorb, Pad, XorIn;
    }

    lemma OutputOfMessages(n: nat)
      requires Valid()
      ensures InPlace(rate, Beginning()) && forall m :: Has(m) ==> Output(f, rate, Beginning(), n) == SpongeOf(f, rate, dsbyte, m, n)
    {
      forall m | Has(m)
        ensures Output(f, rate, Beginning(), n) == SpongeOf(f, rate, dsbyte, m, n)
      {
        OutputOfMessage(m, n);
      }
      hide Output, SpongeOf, Absorb, Pad, XorIn;
    }

    /** A copy, but for the place in the output, that goes its own way. */
    constructor Copy(d: State, start: nat, size: nat)
      requires d.Valid()
      ensures fresh(storage) && f == d.f && rate == d.rate && dsbyte == d.dsbyte && outputLen == d.outputLen
      ensures a == d.a && squeezing == d.squeezing && this.start == start && this.size == size && storage[..] == d.storage[..]
    {
      f, rate, dsbyte, outputLen := d.f, d.rate, d.dsbyte, d.outputLen;
      a, squeezing, this.start, this.size := d.a, d.squeezing, start, size;
      storage := new byte[MAX_RATE](i requires 0 <= i < MAX_RATE && d.Valid() reads d, d.storage => d.storage[i]);
    }

    /**
      A copy. While squeezing the program reckons the place in the output from the capacity of its buffer, as if the rate
      were the greatest possible: the copy is that much behind, and if that is before the buffer the program panics.
     */
    method clone() returns (r: Option<State>)
      requires Valid()
      ensures r.None? <==> squeezing && rate + start < MAX_RATE
      ensures r.Some? ==>
                && fresh(r.value) && fresh(r.value.storage) && r.value.Valid() && r.value.f == f && r.value.rate == rate
                && r.value.dsbyte == dsbyte && r.value.outputLen == outputLen && r.value.a == a && r.value.squeezing == squeezing
      ensures r.Some? && !squeezing ==> r.value.Buffered() == Buffered()
      ensures r.Some? && squeezing ==> r.value.Position() == Place(a, rate + start - MAX_RATE)
    {
      if !squeezing {
        var c := new State.Copy(this, 0, size);
        assert c.storage[0..size] == c.storage[..][0..size] == storage[..][0..size] == storage[0..size];
        return Some(c);
      }
      var capacity := MAX_RATE - start;
      if rate < capacity {
        return None;
      }
      var c := new State.Copy(this, rate - capacity, capacity);
      assert c.storage[..rate] == c.storage[..][..rate] == storage[..][..rate] == storage[..rate];
      return Some(c);
    }

    /** The next `n` bytes of output. */
    method readBytes(n: nat) returns (r: bytes)
      requires Valid()
      modifies this, storage
      ensures InPlace(rate, old(Beginning())) && r == Output(f, rate, old(Beginning()), n)
    {
      hide Output, Advance, SpongeOf, Pad, XorIn, Absorb, Has;
      var hash := new byte[n];
      Read(hash);
      r := hash[..];
    }

    lemma HasIs()
      requires Valid()
      ensures squeezing ==> forall m :: !Has(m)
    {
    }

    /** Output from a copy begins where it would here, or while squeezing where the copy thinks it is. */
    lemma SameBeginning(d: State)
      requires Valid() && d.Valid() && d.f == f && d.rate == rate && d.dsbyte == dsbyte && d.a == a && d.squeezing == squeezing
      requires !squeezing ==> d.Buffered() == Buffered()
      ensures !squeezing ==> d.Beginning() == Beginning()
      ensures squeezing ==> d.Beginning() == d.Position() && Beginning() == Position()
    {
    }

    /** Appends the hash of what has been absorbed; the running state stays as it is. */
    method Sum(in_: bytes) returns (r: Option<bytes>)
      requires Valid()
      ensures !squeezing ==> InPlace(rate, Beginning()) && r == Some(in_ + Output(f, rate, Beginning(), outputLen))
      ensures forall m :: Has(m) ==> r == Some(in_ + SpongeOf(f, rate, dsbyte, m, outputLen))
      ensures squeezing ==> (r.None? <==> rate + start < MAX_RATE)
      ensures squeezing && r.Some? ==>
                && InPlace(rate, Place(a, rate + start - MAX_RATE))
                && r.value == in_ + Output(f, rate, Place(a, rate + start - MAX_RATE), outputLen)
    {
      OutputOfMessages(outputLen);
      HasIs();
      hide *;
      // What is squeezed out comes from a copy.
      var dup := clone();
      if dup.None? {
        return None;
      }
      SameBeginning(dup.value);
      var hash := dup.value.readBytes(outputLen);
      r := Some(in_ + hash);
    }
  }
}
