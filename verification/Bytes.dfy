// Bytes, and integers in network byte order.

module Bytes {
  import opened Arithmetic

  type Byte = b: int | 0 <= b < 256

  /** Exclusive or of the lowest k bits of two numbers. */
  function XorBits(a: nat, b: nat, k: nat): (r: nat)
    ensures r < Pow2(k)
  {
    if k == 0 then 0 else 2 * XorBits(a / 2, b / 2, k - 1) + (if a % 2 != b % 2 then 1 else 0)
  }

  function Pow2(k: nat): (p: nat)
    ensures p > 0
  {
    if k == 0 then 1 else 2 * Pow2(k - 1)
  }

  /** The operator ^ on bytes. */
  function Xor(a: Byte, b: Byte): Byte {
    assert Pow2(4) == 4 * Pow2(2) && Pow2(8) == 16 * Pow2(4);
    XorBits(a, b, 8)
  }

  lemma {:induction false} XorBitsTwice(a: nat, b: nat, k: nat)
    requires a < Pow2(k)
    ensures XorBits(XorBits(a, b, k), b, k) == a
  {
    if k > 0 {
      var once := XorBits(a, b, k);
      assert once / 2 == XorBits(a / 2, b / 2, k - 1);
      XorBitsTwice(a / 2, b / 2, k - 1);
    }
  }

  lemma XorTwice(a: Byte, b: Byte)
    ensures Xor(Xor(a, b), b) == a
  {
    assert Pow2(4) == 4 * Pow2(2) && Pow2(8) == 16 * Pow2(4);
    XorBitsTwice(a, b, 8);
  }

  /** A bit of the one or of the other, but not of both. */
  lemma {:induction false} XorBitAt(a: nat, b: nat, k: nat, i: nat)
    requires i < k
    ensures XorBits(a, b, k) / Pow2(i) % 2 == if a / Pow2(i) % 2 != b / Pow2(i) % 2 then 1 else 0
    decreases k
  {
    if i > 0 {
      XorBitAt(a / 2, b / 2, k - 1, i - 1);
      assert XorBits(a, b, k) / 2 == XorBits(a / 2, b / 2, k - 1);
      hide XorBits;
      DivideTwice(XorBits(a, b, k), 2, Pow2(i - 1));
      DivideTwice(a, 2, Pow2(i - 1));
      DivideTwice(b, 2, Pow2(i - 1));
    }
  }

  /** Exclusive or, bit by bit. */
  lemma XorMeaning(a: Byte, b: Byte, i: nat)
    requires i < 8
    ensures Xor(a, b) / Pow2(i) % 2 == if a / Pow2(i) % 2 != b / Pow2(i) % 2 then 1 else 0
  {
    XorBitAt(a, b, 8, i);
  }

  function Pow256(k: nat): nat
    ensures Pow256(k) > 0
  {
    if k == 0 then 1 else 256 * Pow256(k - 1)
  }

  /** The last k bytes of n, most significant first. */
  function BigEndian(n: nat, k: nat): (bs: seq<Byte>)
    ensures |bs| == k
  {
    if k == 0 then [] else BigEndian(n / 256, k - 1) + [n % 256]
  }

  function Value(bs: seq<Byte>): nat {
    if bs == [] then 0 else 256 * Value(bs[..|bs| - 1]) + bs[|bs| - 1]
  }

  lemma ValueAppend(bs: seq<Byte>, b: Byte)
    ensures Value(bs + [b]) == 256 * Value(bs) + b
  {
    assert (bs + [b])[..|bs|] == bs;
  }

  lemma {:induction false} ValueBound(bs: seq<Byte>)
    ensures Value(bs) < Pow256(|bs|)
  {
    if bs != [] {
      ValueBound(bs[..|bs| - 1]);
    }
  }

  /** Reading back what was written. */
  lemma {:induction false} ValueOfBigEndian(n: nat, k: nat)
    requires n < Pow256(k)
    ensures Value(BigEndian(n, k)) == n
  {
    if k > 0 {
      var bs, head, last := BigEndian(n, k), BigEndian(n / 256, k - 1), n % 256;
      assert n == 256 * (n / 256) + last;
      ValueOfBigEndian(n / 256, k - 1);
      assert bs == head + [last];
      ValueAppend(head, last);
    }
  }

  /** One byte of the number, as a shift and a mask cut it out. */
  lemma {:induction false} BigEndianAt(n: nat, k: nat, i: nat)
    requires i < k
    ensures BigEndian(n, k)[i] == (n / Pow256(k - 1 - i)) % 256
  {
    if i < k - 1 {
      BigEndianAt(n / 256, k - 1, i);
      DivDiv(n, Pow256(k - 2 - i));
    }
  }

  lemma DivDiv(n: nat, p: nat)
    requires p > 0
    ensures n / 256 / p == n / (256 * p)
  {
    var a, b := n / 256, n % 256;
    var q, r := a / p, a % p;
    assert a == p * q + r;
    assert n == (256 * p) * q + (256 * r + b);
    Quotient(n, 256 * p, q, 256 * r + b);
  }

  lemma Quotient(n: nat, d: nat, q: nat, r: nat)
    requires d > 0 && n == d * q + r && r < d
    ensures n / d == q
  {
    DivModUnique(n, d, q, r);
  }

  // -------------------------------------------------- bits set in both or in one

  function OrBits(a: nat, b: nat, k: nat): (r: nat)
    ensures r < Pow2(k)
  {
    if k == 0 then 0 else 2 * OrBits(a / 2, b / 2, k - 1) + (if a % 2 == 1 || b % 2 == 1 then 1 else 0)
  }

  /** The operator | on bytes. */
  function Or(a: Byte, b: Byte): Byte {
    assert Pow2(4) == 4 * Pow2(2) && Pow2(8) == 16 * Pow2(4);
    OrBits(a, b, 8)
  }

  lemma {:induction false} OrBitsZero(a: nat, k: nat)
    requires a < Pow2(k)
    ensures OrBits(a, 0, k) == a
  {
    if k > 0 {
      OrBitsZero(a / 2, k - 1);
    }
  }

  lemma OrZero(a: Byte)
    ensures Or(a, 0) == a
  {
    assert Pow2(4) == 4 * Pow2(2) && Pow2(8) == 16 * Pow2(4);
    OrBitsZero(a, 8);
  }

  /** A bit of the one, or of the other, or of both. */
  lemma {:induction false} OrBitAt(a: nat, b: nat, k: nat, i: nat)
    requires i < k
    ensures OrBits(a, b, k) / Pow2(i) % 2 == if a / Pow2(i) % 2 == 1 || b / Pow2(i) % 2 == 1 then 1 else 0
    decreases k
  {
    if i > 0 {
      OrBitAt(a / 2, b / 2, k - 1, i - 1);
      assert OrBits(a, b, k) / 2 == OrBits(a / 2, b / 2, k - 1);
      hide OrBits;
      DivideTwice(OrBits(a, b, k), 2, Pow2(i - 1));
      DivideTwice(a, 2, Pow2(i - 1));
      DivideTwice(b, 2, Pow2(i - 1));
    }
  }

  /** Without a bit in common, the bits of two numbers are those of their sum. */
  lemma {:induction false} OrBitsApart(a: nat, b: nat, j: nat, k: nat)
    requires j <= k && a < Pow2(k) && b < Pow2(j) && a % Pow2(j) == 0
    ensures OrBits(a, b, k) == a + b
    decreases k
  {
    if j == 0 {
      OrBitsZero(a, k);
    } else {
      assert a == Pow2(j) * (a / Pow2(j));
      EvenHalf(a, Pow2(j - 1), a / Pow2(j));
      OrBitsApart(a / 2, b / 2, j - 1, k - 1);
    }
  }

  lemma EvenHalf(a: nat, p: nat, q: nat)
    requires p > 0 && a == 2 * p * q
    ensures a % 2 == 0 && a / 2 == p * q && a / 2 % p == 0
  {
    assert a == 2 * (p * q);
    DivModUnique(p * q, p, q, 0);
  }

  /** A byte without low bits, and one with nothing else. */
  lemma OrLow(a: Byte, b: Byte)
    requires a % 16 == 0 && b < 16
    ensures Or(a, b) == a + b
  {
    assert Pow2(4) == 4 * Pow2(2) && Pow2(8) == 16 * Pow2(4);
    OrBitsApart(a, b, 4, 8);
  }
}
