/** Bit strings, least significant bit first, and the arithmetic facts about them that
    the bit writer, its test oracle and the canonical code need. */
module Bits {
  import opened HuffmanTypes

  /** The low n bits of x, least significant first. */
  function BitsOf(x: nat, n: nat): (r: seq<bool>)
    ensures |r| == n
  {
    if n == 0 then [] else [x % 2 == 1] + BitsOf(x / 2, n - 1)
  }

  /** x >> k. */
  function Shr(x: nat, k: nat): nat
  {
    Quot(x, Pow2(k))
  }

  /** x / d for a positive divisor. */
  function Quot(x: nat, d: nat): nat
    requires d >= 1
  {
    x / d
  }

  /** hi placed above the k bits of lo: lo | hi << k when lo < 2^k. */
  function Place(lo: nat, hi: nat, k: nat): nat
  {
    lo + hi * Pow2(k)
  }

  /** The number whose bits, least significant first, are `bits`. */
  function BitsToNat(bits: seq<bool>): nat
  {
    if bits == [] then 0 else (if bits[0] then 1 else 0) + 2 * BitsToNat(bits[1..])
  }

  function Zeros(n: nat): (r: seq<bool>)
    ensures |r| == n && forall k :: 0 <= k < n ==> !r[k]
  {
    seq(n, _ => false)
  }

  /** Bytes as a bit string: byte 0 first, each byte least significant bit first. */
  function BytesToBits(bs: seq<byte>): (r: seq<bool>)
    ensures |r| == 8 * |bs|
  {
    if bs == [] then [] else BitsOf(bs[0], 8) + BytesToBits(bs[1..])
  }

  // ---------------------------------------------------------------------------
  // Arithmetic

  lemma Pow2Add(a: nat, b: nat)
    ensures Pow2(a + b) == Pow2(a) * Pow2(b)
  {
    if a > 0 {
      Pow2Add(a - 1, b);
    }
  }

  lemma Pow2Monotone(a: nat, b: nat)
    requires a <= b
    ensures Pow2(a) <= Pow2(b)
  {
    if a < b {
      Pow2Monotone(a, b - 1);
    }
  }

  lemma Pow2Values()
    ensures Pow2(1) == 2 && Pow2(2) == 4 && Pow2(3) == 8 && Pow2(4) == 16
    ensures Pow2(5) == 32 && Pow2(6) == 64 && Pow2(7) == 128 && Pow2(8) == 256
  {
    assert Pow2(1) == 2;
    assert Pow2(2) == 4;
    assert Pow2(3) == 8;
    assert Pow2(4) == 16;
    assert Pow2(5) == 32;
    assert Pow2(6) == 64;
    assert Pow2(7) == 128;
  }

  lemma Pow2Twenty()
    ensures Pow2(20) == 0x10_0000
  {
    assert Pow2(1) == 2;
    assert Pow2(2) == 4;
    assert Pow2(3) == 8;
    assert Pow2(4) == 16;
    assert Pow2(5) == 32;
    assert Pow2(6) == 64;
    assert Pow2(7) == 128;
    assert Pow2(8) == 256;
    assert Pow2(9) == 512;
    assert Pow2(10) == 1024;
    assert Pow2(11) == 2048;
    assert Pow2(12) == 4096;
    assert Pow2(13) == 8192;
    assert Pow2(14) == 16384;
    assert Pow2(15) == 32768;
    assert Pow2(16) == 65536;
    assert Pow2(17) == 131072;
    assert Pow2(18) == 262144;
    assert Pow2(19) == 524288;
  }

  /** Quotient and remainder are determined by any decomposition x == q * d + r. */
  lemma DivModUnique(x: int, d: int, q: int, r: int)
    requires d > 0 && 0 <= r < d && x == q * d + r
    ensures x / d == q && x % d == r
  {
    var q0, r0 := x / d, x % d;
    assert x == q0 * d + r0;
    if q0 < q {
      assert q * d - q0 * d == (q - q0) * d;
      MulAtLeast(q - q0, d);
      assert false;
    } else if q < q0 {
      assert q0 * d - q * d == (q0 - q) * d;
      MulAtLeast(q0 - q, d);
      assert false;
    }
  }

  lemma DivModIdentity(x: int, d: int)
    requires d > 0
    ensures x == x % d + (x / d) * d
  {
  }

  lemma MulAtLeast(a: int, d: int)
    requires a >= 1 && d > 0
    ensures a * d >= d
  {
  }

  lemma DivDiv(x: nat, a: nat, b: nat)
    requires a > 0 && b > 0
    ensures x / a / b == x / (a * b)
  {
    var q, r := x / a, x % a;
    var q2, r2 := q / b, q % b;
    assert x == a * (b * q2 + r2) + r;
    assert a * (b * q2 + r2) == (a * b) * q2 + a * r2;
    assert a * r2 <= a * (b - 1) by { MulMonotone(a, r2, b - 1); }
    assert a * (b - 1) == a * b - a;
    DivModUnique(x, a * b, q2, a * r2 + r);
  }

  lemma MulMonotone(a: nat, x: nat, y: nat)
    requires x <= y
    ensures a * x <= a * y
  {
  }

  /** x < P * Q gives x / P < Q. */
  lemma DivBelow(x: nat, p: nat, q: nat)
    requires p > 0 && x < p * q
    ensures x / p < q
  {
    if x / p >= q {
      assert p * (x / p) >= p * q by { MulMonotone(p, q, x / p); }
      assert false;
    }
  }

  /** x >= P * K gives x / P >= K. */
  lemma DivAtLeast(x: nat, p: nat, k: nat)
    requires p > 0 && x >= p * k
    ensures x / p >= k
  {
    if x / p < k {
      assert p * (k - 1) == p * k - p;
      MulMonotone(p, x / p, k - 1);
      assert false;
    }
  }

  /** A positive factor cancels from both sides of an inequality. */
  lemma MulCancel(p: nat, x: nat, y: nat)
    requires p >= 1 && p * x <= p * y
    ensures x <= y
  {
    if x > y {
      MulMonotone(p, y + 1, x);
      assert false;
    }
  }

  // ---------------------------------------------------------------------------
  // Bit strings

  lemma ConcatAssoc<T>(a: seq<T>, b: seq<T>, c: seq<T>)
    ensures (a + b) + c == a + (b + c)
  {
  }

  /** Placing hi above the k bits of lo concatenates their bit strings. */
  lemma {:induction false} BitsOfAppend(lo: nat, k: nat, hi: nat, n: nat)
    requires lo < Pow2(k)
    ensures BitsOf(Place(lo, hi, k), k + n) == BitsOf(lo, k) + BitsOf(hi, n)
  {
    if k == 0 {
      assert lo == 0;
    } else {
      var x := Place(lo, hi, k);
      PlaceHalf(lo, hi, k);
      BitsOfAppend(lo / 2, k - 1, hi, n);
      assert BitsOf(x, k + n) == [x % 2 == 1] + BitsOf(x / 2, k - 1 + n);
      ConcatAssoc([lo % 2 == 1], BitsOf(lo / 2, k - 1), BitsOf(hi, n));
    }
  }

  /** Halving hi placed above k > 0 bits of lo halves lo and keeps its low bit. */
  lemma PlaceHalf(lo: nat, hi: nat, k: nat)
    requires 0 < k && lo < Pow2(k)
    ensures lo / 2 < Pow2(k - 1)
    ensures Place(lo, hi, k) % 2 == lo % 2 && Place(lo, hi, k) / 2 == Place(lo / 2, hi, k - 1)
  {
    var m := hi * Pow2(k - 1);
    assert hi * Pow2(k) == 2 * m;
    DivModUnique(Place(lo, hi, k), 2, lo / 2 + m, lo % 2);
  }

  /** The bits of x split at any position a. */
  lemma {:induction false} BitsOfSplit(x: nat, a: nat, b: nat)
    ensures BitsOf(x, a + b) == BitsOf(x, a) + BitsOf(Shr(x, a), b)
  {
    DivModIdentity(x, Pow2(a));
    SplitAt(x, x % Pow2(a), Shr(x, a), a, b);
  }

  lemma {:induction false} SplitAt(x: nat, lo: nat, hi: nat, a: nat, b: nat)
    requires lo < Pow2(a) && x == Place(lo, hi, a)
    ensures BitsOf(x, a + b) == BitsOf(x, a) + BitsOf(hi, b)
  {
    BitsOfAppend(lo, a, hi, b);
    BitsOfAppend(lo, a, hi, 0);
    assert a + 0 == a;
  }

  /** Only the low n bits of x matter to BitsOf(x, n). */
  lemma {:induction false} BitsOfMod(x: nat, n: nat)
    ensures BitsOf(x, n) == BitsOf(x % Pow2(n), n)
  {
    DivModIdentity(x, Pow2(n));
    BitsOfAppend(x % Pow2(n), n, Shr(x, n), 0);
    assert n + 0 == n;
  }

  lemma ShrShr(x: nat, a: nat, b: nat)
    ensures Shr(Shr(x, a), b) == Shr(x, a + b)
  {
    DivDiv(x, Pow2(a), Pow2(b));
    Pow2Add(a, b);
  }

  /** A number below 2^(a+b), shifted right by a, is below 2^b. */
  lemma ShrBelow(x: nat, a: nat, b: nat)
    requires x < Pow2(a + b)
    ensures Shr(x, a) < Pow2(b)
  {
    Pow2Add(a, b);
    DivBelow(x, Pow2(a), Pow2(b));
  }

  /** A number below 2^n is recovered from its n bits. */
  lemma {:induction false} BitsToNatOfBits(x: nat, n: nat)
    requires x < Pow2(n)
    ensures BitsToNat(BitsOf(x, n)) == x
  {
    if n > 0 {
      DivBelow(x, 2, Pow2(n - 1));
      BitsToNatOfBits(x / 2, n - 1);
      assert BitsOf(x, n)[1..] == BitsOf(x / 2, n - 1);
    }
  }

  lemma {:induction false} BitsOfZero(n: nat)
    ensures BitsOf(0, n) == Zeros(n)
  {
    if n > 0 {
      BitsOfZero(n - 1);
    }
  }

  /** The bits of x above the highest set bit are zeros. */
  lemma {:induction false} BitsOfPadded(x: nat, n: nat, m: nat)
    requires x < Pow2(n)
    ensures BitsOf(x, n + m) == BitsOf(x, n) + Zeros(m)
  {
    BitsOfSplit(x, n, m);
    assert Shr(x, n) == 0 by { DivModUnique(x, Pow2(n), 0, x); }
    BitsOfZero(m);
  }

  lemma {:induction false} BytesToBitsAppend(a: seq<byte>, b: seq<byte>)
    ensures BytesToBits(a + b) == BytesToBits(a) + BytesToBits(b)
  {
    if a != [] {
      assert (a + b)[0] == a[0];
      assert (a + b)[1..] == a[1..] + b;
      BytesToBitsAppend(a[1..], b);
    } else {
      assert a + b == b;
    }
  }

  /** Distinct byte strings have distinct bit strings. */
  lemma {:induction false} BytesToBitsInjective(a: seq<byte>, b: seq<byte>)
    requires BytesToBits(a) == BytesToBits(b)
    ensures a == b
  {
    if a != [] {
      assert |b| == |a|;
      var p := BytesToBits(a);
      assert p[..8] == BitsOf(a[0], 8) && p[..8] == BitsOf(b[0], 8);
      assert Pow2(8) == 256;
      BitsToNatOfBits(a[0], 8);
      BitsToNatOfBits(b[0], 8);
      assert p[8..] == BytesToBits(a[1..]) && p[8..] == BytesToBits(b[1..]);
      BytesToBitsInjective(a[1..], b[1..]);
    }
  }
}
