/** Bytes, the bitwise operations on them, and byte strings. */
module Bytes {
  type Byte = b: int | 0 <= b < 256

  /** Bitwise exclusive or of two `n`-bit numbers, from the lowest bit up. */
  function XorBits(n: nat, a: nat, b: nat): nat {
    if n == 0 then 0
    else (if a % 2 == b % 2 then 0 else 1) + 2 * XorBits(n - 1, a / 2, b / 2)
  }

  /** Bitwise or of two `n`-bit numbers, from the lowest bit up. */
  function OrBits(n: nat, a: nat, b: nat): nat {
    if n == 0 then 0
    else (if a % 2 == 0 && b % 2 == 0 then 0 else 1) + 2 * OrBits(n - 1, a / 2, b / 2)
  }

  /** Bitwise and of the low `n` bits of two numbers, from the lowest bit up. */
  function AndBits(n: nat, a: nat, b: nat): nat {
    if n == 0 then 0
    else (if a % 2 == 1 && b % 2 == 1 then 1 else 0) + 2 * AndBits(n - 1, a / 2, b / 2)
  }

  function Power(b: nat, n: nat): nat {
    if n == 0 then 1 else b * Power(b, n - 1)
  }

  lemma {:induction false} BitsBound(n: nat, a: nat, b: nat)
    ensures XorBits(n, a, b) < Power(2, n)
    ensures OrBits(n, a, b) < Power(2, n)
    ensures AndBits(n, a, b) < Power(2, n)
  {
    if n != 0 {
      BitsBound(n - 1, a / 2, b / 2);
    }
  }

  lemma {:induction false} XorBitsTwice(n: nat, a: nat, b: nat)
    requires a < Power(2, n)
    ensures XorBits(n, XorBits(n, a, b), b) == a
  {
    if n != 0 {
      XorBitsTwice(n - 1, a / 2, b / 2);
    }
  }

  lemma {:induction false} OrBitsZero(n: nat, a: nat)
    requires a < Power(2, n)
    ensures OrBits(n, a, 0) == a == OrBits(n, 0, a)
  {
    if n != 0 {
      OrBitsZero(n - 1, a / 2);
    }
  }

  function XorByte(a: Byte, b: Byte): Byte {
    BitsBound(8, a, b);
    assert Power(2, 8) == 256;
    XorBits(8, a, b)
  }

  function OrByte(a: Byte, b: Byte): Byte {
    BitsBound(8, a, b);
    assert Power(2, 8) == 256;
    OrBits(8, a, b)
  }

  function AndByte(a: Byte, b: Byte): Byte {
    BitsBound(8, a, b);
    assert Power(2, 8) == 256;
    AndBits(8, a, b)
  }

  lemma {:induction false} AndBitsZero(n: nat, a: nat)
    ensures AndBits(n, a, 0) == 0
  {
    if n != 0 {
      AndBitsZero(n - 1, a / 2);
    }
  }

  lemma {:induction false} AndBitsOnes(n: nat, a: nat)
    requires a < Power(2, n)
    ensures AndBits(n, a, Power(2, n) - 1) == a
  {
    if n != 0 {
      AndBitsOnes(n - 1, a / 2);
      assert (Power(2, n) - 1) / 2 == Power(2, n - 1) - 1;
    }
  }

  /** What the operations compute, in sums: and keeps the places that carry, xor the others, or both. */
  lemma {:induction false} BitSums(n: nat, a: nat, b: nat)
    requires a < Power(2, n) && b < Power(2, n)
    ensures XorBits(n, a, b) + 2 * AndBits(n, a, b) == a + b
    ensures OrBits(n, a, b) + AndBits(n, a, b) == a + b
  {
    if n != 0 {
      BitSums(n - 1, a / 2, b / 2);
    }
  }

  lemma ByteSums(a: Byte, b: Byte)
    ensures XorByte(a, b) + 2 * AndByte(a, b) == a + b
    ensures OrByte(a, b) + AndByte(a, b) == a + b
  {
    PowerOfByte();
    BitSums(8, a, b);
    hide XorBits, OrBits, AndBits;
  }

  lemma PowerOfByte()
    ensures Power(2, 8) == 256
  {
  }

  /** The binary digit of a number at a place. */
  function Place(x: nat, k: nat): (digit: nat)
    ensures digit < 2
  {
    if k == 0 then x % 2 else Place(x / 2, k - 1)
  }

  /** What the operations compute, place by place. */
  lemma {:induction false} BitsAt(n: nat, a: nat, b: nat, k: nat)
    requires k < n
    ensures Place(XorBits(n, a, b), k) == (if Place(a, k) == Place(b, k) then 0 else 1)
    ensures Place(OrBits(n, a, b), k) == (if Place(a, k) == 0 && Place(b, k) == 0 then 0 else 1)
    ensures Place(AndBits(n, a, b), k) == (if Place(a, k) == 1 && Place(b, k) == 1 then 1 else 0)
  {
    hide XorBits, OrBits, AndBits;
    FirstPlace(n, a, b);
    if k != 0 {
      BitsAt(n - 1, a / 2, b / 2, k - 1);
    }
  }

  lemma FirstPlace(n: nat, a: nat, b: nat)
    requires n > 0
    ensures var x, o, c := XorBits(n, a, b), OrBits(n, a, b), AndBits(n, a, b);
            && x % 2 == (if a % 2 == b % 2 then 0 else 1) && x / 2 == XorBits(n - 1, a / 2, b / 2)
            && o % 2 == (if a % 2 == 0 && b % 2 == 0 then 0 else 1) && o / 2 == OrBits(n - 1, a / 2, b / 2)
            && c % 2 == (if a % 2 == 1 && b % 2 == 1 then 1 else 0) && c / 2 == AndBits(n - 1, a / 2, b / 2)
  {
    HalfAndRest(if a % 2 == b % 2 then 0 else 1, XorBits(n - 1, a / 2, b / 2));
    HalfAndRest(if a % 2 == 0 && b % 2 == 0 then 0 else 1, OrBits(n - 1, a / 2, b / 2));
    HalfAndRest(if a % 2 == 1 && b % 2 == 1 then 1 else 0, AndBits(n - 1, a / 2, b / 2));
  }

  lemma HalfAndRest(digit: nat, half: nat)
    requires digit < 2
    ensures (digit + 2 * half) % 2 == digit && (digit + 2 * half) / 2 == half
  {
  }

  lemma XorTwice(a: Byte, b: Byte)
    ensures XorByte(XorByte(a, b), b) == a
  {
    assert Power(2, 8) == 256;
    XorBitsTwice(8, a, b);
  }

  lemma OrZero(a: Byte)
    ensures OrByte(a, 0) == a == OrByte(0, a)
  {
    assert Power(2, 8) == 256;
    OrBitsZero(8, a);
  }

  function Zeros(n: nat): (z: seq<Byte>)
    ensures |z| == n
    ensures forall i :: 0 <= i < n ==> z[i] == 0
  {
    seq(n, i => 0)
  }

  /** std::copy of a byte string into an array. */
  method CopyInto<T>(a: array<T>, at: nat, s: seq<T>)
    requires at + |s| <= a.Length
    modifies a
    ensures a[..] == old(a[..])[..at] + s + old(a[..])[at + |s|..]
  {
    forall j | 0 <= j < |s| {
      a[at + j] := s[j];
    }
  }
}
