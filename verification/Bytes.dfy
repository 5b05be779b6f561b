/** Byte strings, and the big-endian reading of a byte string as a number. */
module Bytes {

  type byte = b: int | 0 <= b < 256
  type bytes = seq<byte>

  /** Lengths, sizes and block numbers are of 64 bits in the program. */
  const TWO64 := 0x1_0000_0000_0000_0000

  /** The minimal big-endian representation of `n`: no leading zero byte, empty for zero. */
  function BE(n: nat): (r: bytes)
    ensures n > 0 ==> r != [] && r[0] != 0
    ensures n == 0 ==> r == []
  {
    if n == 0 then [] else BE(n / 256) + [n % 256]
  }

  /** The number a byte string denotes, most significant byte first. */
  function FromBE(b: bytes): nat
  {
    if b == [] then 0 else FromBE(b[..|b| - 1]) * 256 + b[|b| - 1]
  }

  function Pow256(k: nat): (r: nat)
    ensures r > 0
  {
    if k == 0 then 1 else 256 * Pow256(k - 1)
  }

  lemma {:induction false} FromBEOfBE(n: nat)
    ensures FromBE(BE(n)) == n
  {
    if n > 0 {
      FromBEOfBE(n / 256);
      assert BE(n)[..|BE(n)| - 1] == BE(n / 256);
    }
  }

  lemma {:induction false} FromBEBound(b: bytes)
    ensures FromBE(b) < Pow256(|b|)
  {
    if b != [] {
      FromBEBound(b[..|b| - 1]);
    }
  }

  lemma {:induction false} FromBEPositive(b: bytes)
    requires b != [] && b[0] != 0
    ensures FromBE(b) > 0
  {
    if |b| > 1 {
      FromBEPositive(b[..|b| - 1]);
    } else {
      assert b[..0] == [];
    }
  }

  /** Byte strings of one length are told apart by their numbers. */
  lemma {:induction false} FromBEInjective(a: bytes, b: bytes)
    requires |a| == |b| && FromBE(a) == FromBE(b)
    ensures a == b
  {
    if a != [] {
      var n := |a| - 1;
      FromBEInjective(a[..n], b[..n]);
      assert a == a[..n] + [a[n]] && b == b[..n] + [b[n]];
    }
  }

  /** A byte string without leading zero is the minimal representation of its own value. */
  lemma {:induction false} BEOfFromBE(b: bytes)
    requires b != [] ==> b[0] != 0
    ensures BE(FromBE(b)) == b
  {
    if b != [] {
      var p := b[..|b| - 1];
      if p != [] {
        BEOfFromBE(p);
        FromBEPositive(b);
      } else {
        assert b == [b[0]];
        FromBEPositive(b);
        assert FromBE(p) == 0;
      }
      assert b == p + [b[|b| - 1]];
    }
  }

  /** `n` fits in `k` bytes exactly when its minimal representation has at most `k` bytes. */
  lemma {:induction false} BELength(n: nat, k: nat)
    ensures |BE(n)| <= k <==> n < Pow256(k)
  {
    if n > 0 && k > 0 {
      BELength(n / 256, k - 1);
    }
  }

  lemma SmallBE(n: nat)
    ensures n == 0 ==> BE(n) == []
    ensures 0 < n < 256 ==> BE(n) == [n]
    ensures n >= 256 ==> |BE(n)| >= 2
  {
    if n >= 256 {
      assert BE(n / 256) != [];
    } else if n > 0 {
      assert BE(n / 256) == [];
    }
  }

  lemma {:induction false} LeadingZeros(k: nat, b: bytes)
    ensures FromBE(seq(k, _ => 0 as byte) + b) == FromBE(b)
    decreases k + |b|
  {
    var z: bytes := seq(k, _ => 0 as byte);
    if b != [] {
      LeadingZeros(k, b[..|b| - 1]);
      assert (z + b)[..k + |b| - 1] == z + b[..|b| - 1];
    } else if k > 0 {
      var y: bytes := seq(k - 1, _ => 0 as byte);
      LeadingZeros(k - 1, []);
      assert z + b == z && z[..k - 1] == y == y + [];
    }
  }

  /** A 32-byte word: hashes, storage keys and storage values. */
  type Word = b: bytes | |b| == 32 witness Zeros(32)

  const ZERO: Word := Zeros(32)

  function Zeros(n: nat): (r: bytes)
    ensures |r| == n && forall i :: 0 <= i < n ==> r[i] == 0
  {
    if n == 0 then [] else [0] + Zeros(n - 1)
  }
}
