/** The sponge: what is absorbed and squeezed does not depend on how it is cut into pieces. The permutation is left open. */
module Sponge {
  import opened Bytes
  import opened Wrappers

  const MAX_RATE: nat := 168
  const WIDTH: nat := 200

  /** A permutation of the state, as bytes. */
  ghost predicate Permutes(f: bytes -> bytes) {
    forall s :: |s| == WIDTH ==> |f(s)| == WIDTH
  }

  /** The rates for which all of a block is mixed in. */
  predicate GoodRate(rate: nat) {
    rate == 72 || rate == 104 || rate == 136 || rate == 144 || rate == 168
  }

  // ---- exclusive or ----

  function Pow2(k: nat): (r: nat)
    ensures r >= 1
  {
    if k == 0 then 1 else 2 * Pow2(k - 1)
  }

  function XorBits(x: nat, y: nat): nat {
    if x == 0 then y else if y == 0 then x else (x % 2 + y % 2) % 2 + 2 * XorBits(x / 2, y / 2)
  }

  lemma {:induction false} XorBound(x: nat, y: nat, k: nat)
    requires x < Pow2(k) && y < Pow2(k)
    ensures XorBits(x, y) < Pow2(k)
  {
    if x != 0 && y != 0 {
      XorBound(x / 2, y / 2, k - 1);
    }
  }

  lemma ByteBound()
    ensures Pow2(8) == 256 && Pow2(7) == 128
  {
    assert Pow2(3) == 8;
    assert Pow2(5) == 32;
  }

  /** Bit `k` of a number, the lowest first. */
  function Bit(x: nat, k: nat): nat
    decreases k
  {
    if k == 0 then x % 2 else Bit(x / 2, k - 1)
  }

  lemma {:induction false} BitOfZero(k: nat)
    ensures Bit(0, k) == 0
  {
    if k > 0 {
      BitOfZero(k - 1);
    }
  }

  lemma {:induction false} BitOfXor(x: nat, y: nat, k: nat)
    ensures Bit(XorBits(x, y), k) == if Bit(x, k) == Bit(y, k) then 0 else 1
    decreases k
  {
    BitIs(x, k);
    BitIs(y, k);
    BitOfZero(k);
    if x != 0 && y != 0 && k > 0 {
      BitOfXor(x / 2, y / 2, k - 1);
      assert XorBits(x, y) / 2 == XorBits(x / 2, y / 2);
    }
  }

  lemma {:induction false} BitIs(x: nat, k: nat)
    ensures Bit(x, k) == 0 || Bit(x, k) == 1
  {
    if k > 0 {
      BitIs(x / 2, k - 1);
    }
  }

  /** Numbers with the same bits are the same. */
  lemma {:induction false} SameBits(x: nat, y: nat, n: nat)
    requires x < Pow2(n) && y < Pow2(n) && forall k :: 0 <= k < n ==> Bit(x, k) == Bit(y, k)
    ensures x == y
  {
    if n > 0 {
      assert Bit(x, 0) == Bit(y, 0);
      forall k | 0 <= k < n - 1
        ensures Bit(x / 2, k) == Bit(y / 2, k)
      {
        assert Bit(x, k + 1) == Bit(y, k + 1);
      }
      SameBits(x / 2, y / 2, n - 1);
    }
  }

  /** Exclusive or: a bit is set exactly if the two bits differ. */
  function Xor(x: byte, y: byte): (r: byte)
    ensures forall k :: 0 <= k < 8 ==> (Bit(r, k) == 1 <==> Bit(x, k) != Bit(y, k))
  {
    ByteBound();
    XorBound(x, y, 8);
    assert forall k :: 0 <= k < 8 ==> (Bit(XorBits(x, y), k) == 1 <==> Bit(x, k) != Bit(y, k)) by {
      forall k | 0 <= k < 8
        ensures Bit(XorBits(x, y), k) == 1 <==> Bit(x, k) != Bit(y, k)
      {
        BitOfXor(x, y, k);
      }
    }
    XorBits(x, y)
  }

  /** Different bytes stay different when the same byte is mixed in. */
  lemma XorCancels(x: byte, y: byte, z: byte)
    requires Xor(x, y) == Xor(x, z)
    ensures y == z
  {
    ByteBound();
    forall k | 0 <= k < 8
      ensures Bit(y, k) == Bit(z, k)
    {
      BitIs(x, k);
      BitIs(y, k);
      BitIs(z, k);
      assert Bit(Xor(x, y), k) == 1 <==> Bit(x, k) != Bit(y, k);
      assert Bit(Xor(x, z), k) == 1 <==> Bit(x, k) != Bit(z, k);
    }
    SameBits(y, z, 8);
  }

  /** Setting a bit above all others. */
  lemma {:induction false} XorAbove(x: nat, k: nat)
    requires x < Pow2(k)
    ensures XorBits(x, Pow2(k)) == x + Pow2(k)
  {
    if x != 0 {
      XorAbove(x / 2, k - 1);
    }
  }

  lemma XorTop(x: byte)
    requires x < 128
    ensures Xor(x, 0x80) == x + 128
  {
    ByteBound();
    XorAbove(x, 7);
  }

  /** The state with a block mixed into its first bytes, byte by byte; what is past the block stays. */
  function XorIn(a: bytes, block: bytes): (r: bytes)
    ensures |r| == |a|
    ensures forall i :: 0 <= i < |a| && i < |block| ==> r[i] == Xor(a[i], block[i])
    ensures forall i :: |block| <= i < |a| ==> r[i] == a[i]
  {
    if a == [] || block == [] then a else [Xor(a[0], block[0])] + XorIn(a[1..], block[1..])
  }

  /** Different blocks lead to different states. */
  lemma MixedDiffer(a: bytes, x: bytes, y: bytes)
    requires |x| == |y| <= |a| && x != y
    ensures XorIn(a, x) != XorIn(a, y)
  {
    var i :| 0 <= i < |x| && x[i] != y[i];
    if XorIn(a, x)[i] == XorIn(a, y)[i] {
      XorCancels(a[i], x[i], y[i]);
    }
  }

  // ---- absorbing ----

  /** The state after absorbing all full blocks of the data, and what is left over. */
  ghost function Absorb(f: bytes -> bytes, rate: nat, a: bytes, data: bytes): (r: (bytes, bytes))
    requires rate > 0
    ensures |r.1| < rate
    decreases |data|
  {
    if |data| < rate then (a, data) else Absorb(f, rate, f(XorIn(a, data[..rate])), data[rate..])
  }

  /** Absorbing in two steps is absorbing at once. */
  lemma {:induction false} AbsorbTwice(f: bytes -> bytes, rate: nat, a: bytes, x: bytes, y: bytes)
    requires rate > 0
    ensures var r := Absorb(f, rate, a, x); Absorb(f, rate, r.0, r.1 + y) == Absorb(f, rate, a, x + y)
    decreases |x|
  {
    if |x| >= rate {
      AbsorbTwice(f, rate, f(XorIn(a, x[..rate])), x[rate..], y);
      assert (x + y)[..rate] == x[..rate] && (x + y)[rate..] == x[rate..] + y;
    }
  }

  lemma {:induction false} AbsorbWidth(f: bytes -> bytes, rate: nat, a: bytes, data: bytes)
    requires rate > 0 && Permutes(f) && |a| == WIDTH
    ensures |Absorb(f, rate, a, data).0| == WIDTH
    decreases |data|
  {
    if |data| >= rate {
      AbsorbWidth(f, rate, f(XorIn(a, data[..rate])), data[rate..]);
    }
  }

  /** The padding of FIPS 202, section 5.1: a one bit, which the suffix byte has, zeros, and a one bit at the end of the block. */
  function Pad(rate: nat, suffix: byte, left: bytes): (r: bytes)
    requires |left| < rate && suffix < 128
    ensures |r| == rate
  {
    var block := left + [suffix] + Zeros(rate - |left| - 1);
    block[rate - 1 := block[rate - 1] + 128]
  }

  /** The padded block byte by byte: what is left of the message, the suffix, and zeros, with the top bit of the last byte set. */
  lemma PadIs(rate: nat, suffix: byte, left: bytes)
    requires |left| < rate && suffix < 128
    ensures var block := Pad(rate, suffix, left);
            && block[..|left|] == left
            && block[|left|] == suffix + (if |left| == rate - 1 then 128 else 0)
            && forall i :: |left| < i < rate ==> block[i] == if i == rate - 1 then 128 else 0
  {
  }

  /** The padding can be undone: different ends of messages have different blocks. */
  lemma PadInjective(rate: nat, suffix: byte, x: bytes, y: bytes)
    requires |x| < rate && |y| < rate && 0 < suffix < 128 && Pad(rate, suffix, x) == Pad(rate, suffix, y)
    ensures x == y
  {
    PadIs(rate, suffix, x);
    PadIs(rate, suffix, y);
    hide Pad;
  }

  /** The state after absorbing a message and its padding. */
  ghost function Absorbed(f: bytes -> bytes, rate: nat, suffix: byte, a: bytes, message: bytes): bytes
    requires rate > 0 && suffix < 128
  {
    var r := Absorb(f, rate, a, message);
    f(XorIn(r.0, Pad(rate, suffix, r.1)))
  }

  lemma {:induction false} AbsorbBlocks(f: bytes -> bytes, rate: nat, a: bytes, n: nat, p: bytes, x: bytes)
    requires rate > 0 && |p| == n * rate && |x| < rate
    ensures Absorb(f, rate, a, p + x) == (Absorb(f, rate, a, p).0, x)
    decreases n
  {
    if n == 0 {
      assert p + x == x;
    } else {
      assert n * rate == rate + (n - 1) * rate && (n - 1) * rate >= 0;
      assert (p + x)[..rate] == p[..rate] && (p + x)[rate..] == p[rate..] + x;
      AbsorbBlocks(f, rate, f(XorIn(a, p[..rate])), n - 1, p[rate..], x);
    }
  }

  /** Messages that differ after their last full block are told apart: the permutation is applied to different states at the end. */
  lemma EndsDiffer(f: bytes -> bytes, rate: nat, suffix: byte, a: bytes, n: nat, p: bytes, x: bytes, y: bytes) returns (s: bytes, t: bytes)
    requires 0 < rate <= WIDTH && |a| == WIDTH && Permutes(f) && 0 < suffix < 128
    requires |p| == n * rate && |x| < rate && |y| < rate && x != y
    ensures s != t && Absorbed(f, rate, suffix, a, p + x) == f(s) && Absorbed(f, rate, suffix, a, p + y) == f(t)
  {
    AbsorbBlocks(f, rate, a, n, p, x);
    AbsorbBlocks(f, rate, a, n, p, y);
    AbsorbWidth(f, rate, a, p);
    if Pad(rate, suffix, x) == Pad(rate, suffix, y) {
      PadInjective(rate, suffix, x, y);
    }
    var b := Absorb(f, rate, a, p).0;
    MixedDiffer(b, Pad(rate, suffix, x), Pad(rate, suffix, y));
    return XorIn(b, Pad(rate, suffix, x)), XorIn(b, Pad(rate, suffix, y));
  }

  // ---- squeezing ----

  /** The first `n` bytes squeezed from a state. */
  ghost function Squeeze(f: bytes -> bytes, rate: nat, s: bytes, n: nat): (r: bytes)
    requires 0 < rate <= WIDTH && |s| == WIDTH && Permutes(f)
    ensures |r| == n
    decreases n
  {
    if n <= rate then s[..n] else s[..rate] + Squeeze(f, rate, f(s), n - rate)
  }

  /** A position in the output: a state, and how many bytes of it have been given out, not all. */
  datatype Place = Place(s: bytes, at: nat)

  ghost predicate InPlace(rate: nat, p: Place) {
    0 < rate <= WIDTH && |p.s| == WIDTH && p.at < rate
  }

  /** The place after `n` more bytes. */
  ghost function Advance(f: bytes -> bytes, rate: nat, p: Place, n: nat): (q: Place)
    requires InPlace(rate, p) && Permutes(f)
    ensures InPlace(rate, q)
    decreases n
  {
    if n < rate - p.at then Place(p.s, p.at + n) else Advance(f, rate, Place(f(p.s), 0), n - (rate - p.at))
  }

  /** The next `n` bytes from a place. */
  ghost function Output(f: bytes -> bytes, rate: nat, p: Place, n: nat): (r: bytes)
    requires InPlace(rate, p) && Permutes(f)
    ensures |r| == n
    decreases n
  {
    if n < rate - p.at then p.s[p.at..p.at + n] else p.s[p.at..rate] + Output(f, rate, Place(f(p.s), 0), n - (rate - p.at))
  }

  /** The start of the next block of output. */
  ghost function NextPlace(f: bytes -> bytes, rate: nat, p: Place): (q: Place)
    requires InPlace(rate, p) && Permutes(f)
    ensures InPlace(rate, q)
  {
    Place(f(p.s), 0)
  }

  lemma OutputLong(f: bytes -> bytes, rate: nat, p: Place, n: nat)
    requires InPlace(rate, p) && Permutes(f) && n >= rate - p.at
    ensures Output(f, rate, p, n) == p.s[p.at..rate] + Output(f, rate, NextPlace(f, rate, p), n - (rate - p.at))
    ensures Advance(f, rate, p, n) == Advance(f, rate, NextPlace(f, rate, p), n - (rate - p.at))
  {
  }

  lemma OutputShort(f: bytes -> bytes, rate: nat, p: Place, n: nat)
    requires InPlace(rate, p) && Permutes(f) && n < rate - p.at
    ensures Output(f, rate, p, n) == p.s[p.at..p.at + n]
    ensures Advance(f, rate, p, n) == Place(p.s, p.at + n)
  {
  }

  lemma Associate(a: bytes, b: bytes, c: bytes)
    ensures (a + b) + c == a + (b + c)
  {
  }

  lemma Slices(s: bytes, i: nat, j: nat, k: nat)
    requires i <= j <= k <= |s|
    ensures s[i..j] + s[j..k] == s[i..k]
  {
  }

  /** Reading in two steps is reading at once. */
  lemma {:induction false} OutputTwice(f: bytes -> bytes, rate: nat, p: Place, m: nat, n: nat)
    requires InPlace(rate, p) && Permutes(f)
    ensures Output(f, rate, p, m) + Output(f, rate, Advance(f, rate, p, m), n) == Output(f, rate, p, m + n)
    ensures Advance(f, rate, Advance(f, rate, p, m), n) == Advance(f, rate, p, m + n)
    decreases m
  {
    hide Output, Advance, Permutes, NextPlace;
    var left := rate - p.at;
    var q := NextPlace(f, rate, p);
    if m >= left {
      OutputLong(f, rate, p, m);
      OutputLong(f, rate, p, m + n);
      OutputTwice(f, rate, q, m - left, n);
      Associate(p.s[p.at..rate], Output(f, rate, q, m - left), Output(f, rate, Advance(f, rate, p, m), n));
    } else {
      OutputShort(f, rate, p, m);
      var r := Place(p.s, p.at + m);
      if m + n < left {
        OutputShort(f, rate, p, m + n);
        OutputShort(f, rate, r, n);
        Slices(p.s, p.at, p.at + m, p.at + m + n);
      } else {
        OutputLong(f, rate, p, m + n);
        OutputLong(f, rate, r, n);
        NextAt(f, rate, p, r);
        Slices(p.s, p.at, p.at + m, rate);
        Associate(p.s[p.at..p.at + m], p.s[p.at + m..rate], Output(f, rate, q, m + n - left));
      }
    }
  }

  lemma NextAt(f: bytes -> bytes, rate: nat, p: Place, r: Place)
    requires InPlace(rate, p) && InPlace(rate, r) && Permutes(f) && p.s == r.s
    ensures NextPlace(f, rate, p) == NextPlace(f, rate, r)
  {
  }

  /** From the start of a state on, the output is what is squeezed from the state. */
  lemma {:induction false} OutputIsSqueeze(f: bytes -> bytes, rate: nat, s: bytes, n: nat)
    requires 0 < rate <= WIDTH && |s| == WIDTH && Permutes(f)
    ensures Output(f, rate, Place(s, 0), n) == Squeeze(f, rate, s, n)
    decreases n
  {
    if n >= rate {
      OutputIsSqueeze(f, rate, f(s), n - rate);
      if n == rate {
        assert s[0..rate] + Output(f, rate, Place(f(s), 0), 0) == s[..rate];
      }
    }
  }

  /** The sponge of FIPS 202, section 4: absorbs the padded message into the zero state, and squeezes `n` bytes. */
  ghost function SpongeOf(f: bytes -> bytes, rate: nat, suffix: byte, message: bytes, n: nat): bytes
    requires 0 < rate <= WIDTH && suffix < 128 && Permutes(f)
  {
    AbsorbWidth(f, rate, Zeros(WIDTH), message);
    Squeeze(f, rate, Absorbed(f, rate, suffix, Zeros(WIDTH), message), n)
  }
}
