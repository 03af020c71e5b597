/** Abstract bit-strings: the unit every codec of the cell layer reads and writes.
    A bit-string is a `seq<bool>`, most significant bit first. */
module Bits {

  /** 2 to the power n. */
  function Pow2(n: nat): (r: nat)
    ensures r >= 1
  {
    if n == 0 then 1 else 2 * Pow2(n - 1)
  }

  lemma {:induction false} Pow2Monotone(a: nat, b: nat)
    requires a <= b
    ensures Pow2(a) <= Pow2(b)
  {
    if a < b {
      Pow2Monotone(a, b - 1);
    }
  }

  lemma {:induction false} Pow2Add(a: nat, b: nat)
    ensures Pow2(a + b) == Pow2(a) * Pow2(b)
  {
    if b > 0 {
      Pow2Add(a, b - 1);
      assert Pow2(a + b) == 2 * Pow2(a + b - 1);
    }
  }

  lemma Pow2Byte()
    ensures Pow2(8) == 0x100
  {
  }

  /** Number of significant bits of v (what `BigInt::bits` and `64 - leading_zeros` compute). */
  function BitLength(v: nat): nat
  {
    if v == 0 then 0 else 1 + BitLength(v / 2)
  }

  /** A value fits in w bits exactly when its bit length is at most w. */
  lemma {:induction false} BitLengthBound(v: nat, w: nat)
    ensures v < Pow2(w) <==> BitLength(v) <= w
  {
    if v != 0 && w != 0 {
      BitLengthBound(v / 2, w - 1);
    }
  }

  lemma {:induction false} BitLengthOfPow2(k: nat)
    ensures BitLength(Pow2(k)) == k + 1
  {
    if k > 0 {
      BitLengthOfPow2(k - 1);
      assert Pow2(k) / 2 == Pow2(k - 1);
    }
  }

  /** The w-bit big-endian image of v; when v does not fit, its low w bits (an `append_bits` of a
      wider value keeps the low bits). */
  function UIntBits(v: nat, w: nat): (r: seq<bool>)
    ensures |r| == w
  {
    if w == 0 then [] else UIntBits(v / 2, w - 1) + [v % 2 == 1]
  }

  /** The unsigned value of a big-endian bit-string. */
  function BitsToNat(s: seq<bool>): (r: nat)
    ensures r < Pow2(|s|)
  {
    if s == [] then 0 else 2 * BitsToNat(s[..|s| - 1]) + (if s[|s| - 1] then 1 else 0)
  }

  lemma {:induction false} MulAtLeast(d: nat, x: nat)
    requires x >= 1
    ensures d * x >= d
  {
    if x > 1 {
      MulAtLeast(d, x - 1);
      assert d * x == d * (x - 1) + d;
    }
  }

  lemma MulBetween(d: int, x: int)
    requires d > 0 && -d < d * x < d
    ensures x == 0
  {
    if x >= 1 {
      MulAtLeast(d, x);
    }
  }

  /** Euclidean division is determined by its defining equation. */
  lemma DivModUnique(v: int, d: int, k: int, rem: int)
    requires d > 0 && 0 <= rem < d && v == d * k + rem
    ensures v / d == k && v % d == rem
  {
    var q, r := v / d, v % d;
    assert v == d * q + r;
    assert d * (q - k) == rem - r;
    MulBetween(d, q - k);
  }

  lemma ModDouble(v: nat, p: nat)
    requires p >= 1
    ensures v % (2 * p) == 2 * ((v / 2) % p) + v % 2
  {
    var q := v / 2;
    var k, m := q / p, q % p;
    assert q == p * k + m;
    assert v == (2 * p) * k + (2 * m + v % 2);
    DivModUnique(v, 2 * p, k, 2 * m + v % 2);
  }

  /** Writing w bits and reading them back yields the value modulo 2^w. */
  lemma {:induction false} UIntBitsRoundTrip(v: nat, w: nat)
    ensures BitsToNat(UIntBits(v, w)) == v % Pow2(w)
  {
    if w > 0 {
      var s := UIntBits(v, w);
      assert s[..|s| - 1] == UIntBits(v / 2, w - 1);
      UIntBitsRoundTrip(v / 2, w - 1);
      ModDouble(v, Pow2(w - 1));
    }
  }

  /** For a value that fits, the round trip is exact. */
  lemma UIntBitsFits(v: nat, w: nat)
    requires v < Pow2(w)
    ensures BitsToNat(UIntBits(v, w)) == v
  {
    UIntBitsRoundTrip(v, w);
    DivModUnique(v, Pow2(w), 0, v);
  }

  /** Reading a bit-string as a number and writing it back in as many bits gives the same string. */
  lemma {:induction false} BitsRoundTrip(s: seq<bool>)
    ensures UIntBits(BitsToNat(s), |s|) == s
  {
    if s != [] {
      var p := s[..|s| - 1];
      BitsRoundTrip(p);
      var x := BitsToNat(s);
      assert x / 2 == BitsToNat(p);
      assert s == p + [s[|s| - 1]];
    }
  }

  /** The all-zero string of length w encodes zero. */
  lemma {:induction false} ZeroBits(w: nat)
    ensures UIntBits(0, w) == seq(w, _ => false)
  {
    if w > 0 {
      ZeroBits(w - 1);
    }
  }

  /** Multiplying by 2^k appends k zero bits. */
  lemma {:induction false} UIntBitsShift(v: nat, w: nat, k: nat)
    ensures UIntBits(v * Pow2(k), w + k) == UIntBits(v, w) + seq(k, _ => false)
  {
    if k > 0 {
      UIntBitsShift(v, w, k - 1);
      var m := v * Pow2(k - 1);
      assert v * Pow2(k) == 2 * m;
      DivModUnique(2 * m, 2, m, 0);
      assert seq(k, _ => false) == seq(k - 1, _ => false) + [false];
    }
  }
}
