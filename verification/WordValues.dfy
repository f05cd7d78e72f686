/** The operations of MachineWord are those of unsigned machine integers. */
module WordValues {
  import opened Bytes
  import opened MachineWord

  /** The integer whose octets these are. */
  function Value(w: Word): nat {
    if w == [] then 0 else w[0] + 256 * Value(w[1..])
  }

  lemma {:induction false} ValueBound(w: Word)
    ensures Value(w) < Power(256, |w|)
  {
    if w != [] {
      ValueBound(w[1..]);
    }
  }

  lemma {:induction false} ValueIdentifies(v: Word, w: Word)
    requires |v| == |w| && Value(v) == Value(w)
    ensures v == w
  {
    if v != [] {
      assert v[0] == Value(v) % 256 && w[0] == Value(w) % 256;
      ValueIdentifies(v[1..], w[1..]);
      assert v == [v[0]] + v[1..] && w == [w[0]] + w[1..];
    }
  }

  /** Bits below and above place `m` are worked out independently. */
  lemma {:induction false} BitsSplit(m: nat, n: nat, a: nat, ah: nat, b: nat, bh: nat)
    requires a < Power(2, m) && b < Power(2, m)
    ensures XorBits(m + n, a + Power(2, m) * ah, b + Power(2, m) * bh)
            == XorBits(m, a, b) + Power(2, m) * XorBits(n, ah, bh)
    ensures OrBits(m + n, a + Power(2, m) * ah, b + Power(2, m) * bh)
            == OrBits(m, a, b) + Power(2, m) * OrBits(n, ah, bh)
  {
    if m != 0 {
      var half := Power(2, m - 1);
      BitsSplit(m - 1, n, a / 2, ah, b / 2, bh);
      TwiceTimes(half, ah);
      TwiceTimes(half, bh);
      TwiceTimes(half, XorBits(n, ah, bh));
      TwiceTimes(half, OrBits(n, ah, bh));
      assert (a + 2 * (half * ah)) / 2 == a / 2 + half * ah && (a + 2 * (half * ah)) % 2 == a % 2;
      assert (b + 2 * (half * bh)) / 2 == b / 2 + half * bh && (b + 2 * (half * bh)) % 2 == b % 2;
    }
  }

  lemma {:induction false} AndSplit(m: nat, n: nat, a: nat, ah: nat, b: nat, bh: nat)
    requires a < Power(2, m) && b < Power(2, m)
    ensures AndBits(m + n, a + Power(2, m) * ah, b + Power(2, m) * bh)
            == AndBits(m, a, b) + Power(2, m) * AndBits(n, ah, bh)
  {
    if m != 0 {
      var half := Power(2, m - 1);
      AndSplit(m - 1, n, a / 2, ah, b / 2, bh);
      TwiceTimes(half, ah);
      TwiceTimes(half, bh);
      TwiceTimes(half, AndBits(n, ah, bh));
      assert (a + 2 * (half * ah)) / 2 == a / 2 + half * ah && (a + 2 * (half * ah)) % 2 == a % 2;
      assert (b + 2 * (half * bh)) / 2 == b / 2 + half * bh && (b + 2 * (half * bh)) % 2 == b % 2;
    }
  }

  // ----- Fields of a number -----

  /** Or-ing numbers that share no bits, one below place `m` and one above, adds them. */
  lemma OrDisjoint(m: nat, n: nat, low: nat, high: nat)
    requires low < Power(2, m) && high < Power(2, n)
    ensures OrBits(m + n, Power(2, m) * high, low) == Power(2, m) * high + low
  {
    hide XorBits, OrBits, Power;
    assert Power(2, m) * 0 == 0;
    BitsSplit(m, n, 0, high, low, 0);
    OrBitsZero(m, low);
    OrBitsZero(n, high);
  }

  /** Masking with ones below place `m` keeps what is below it. */
  lemma AndLow(m: nat, n: nat, low: nat, high: nat)
    requires low < Power(2, m)
    ensures AndBits(m + n, Power(2, m) * high + low, Power(2, m) - 1) == low
  {
    AndSplit(m, n, low, high, Power(2, m) - 1, 0);
    AndBitsOnes(m, low);
    AndBitsZero(n, high);
  }

  /** Masking with the bit at place `m` keeps that bit. */
  lemma AndBit(m: nat, n: nat, low: nat, high: nat)
    requires low < Power(2, m) && n > 0
    ensures AndBits(m + n, Power(2, m) * high + low, Power(2, m)) == Power(2, m) * (high % 2)
  {
    AndSplit(m, n, low, high, 0, 1);
    AndBitsZero(m, low);
    AndBitsZero(n - 1, high / 2);
    assert AndBits(n, high, 1) == high % 2 + 2 * AndBits(n - 1, high / 2, 0);
  }

  lemma TwiceTimes(x: nat, y: nat)
    ensures 2 * x * y == 2 * (x * y)
  {
  }

  /** Xor and or octet by octet are xor and or of the integers. */
  lemma {:induction false} BitwiseValues(v: Word, w: Word)
    requires |v| == |w|
    ensures Value(Xor(v, w)) == XorBits(8 * |v|, Value(v), Value(w))
    ensures Value(Or(v, w)) == OrBits(8 * |v|, Value(v), Value(w))
  {
    if v == [] {
      return;
    }
    hide XorBits, OrBits, Value, Xor, Or;
    BitwiseValues(v[1..], w[1..]);
    BitwiseTail(v, w);
    LowestOctet(v);
    LowestOctet(w);
    LowestOctet(Xor(v, w));
    LowestOctet(Or(v, w));
    var n := |v| - 1;
    assert |v[1..]| == n && 8 * |v| == 8 + 8 * n;
    FirstOctetSplit(8 * n, v[0], Value(v[1..]), w[0], Value(w[1..]));
  }

  lemma LowestOctet(w: Word)
    requires w != []
    ensures Value(w) == w[0] + 256 * Value(w[1..])
  {
  }

  lemma BitwiseTail(v: Word, w: Word)
    requires |v| == |w| > 0
    ensures Xor(v, w)[1..] == Xor(v[1..], w[1..]) && Or(v, w)[1..] == Or(v[1..], w[1..])
  {
    hide XorByte, OrByte;
    var x, o := Xor(v[1..], w[1..]), Or(v[1..], w[1..]);
    forall i | 0 <= i < |v| - 1 ensures Xor(v, w)[1..][i] == x[i] && Or(v, w)[1..][i] == o[i] {
      assert v[1..][i] == v[i + 1] && w[1..][i] == w[i + 1];
    }
  }

  lemma FirstOctetSplit(n: nat, a: Byte, ah: nat, b: Byte, bh: nat)
    ensures XorBits(8 + n, a + 256 * ah, b + 256 * bh) == XorBits(8, a, b) + 256 * XorBits(n, ah, bh)
    ensures OrBits(8 + n, a + 256 * ah, b + 256 * bh) == OrBits(8, a, b) + 256 * OrBits(n, ah, bh)
  {
    hide XorBits, OrBits;
    assert Power(2, 8) == 256;
    BitsSplit(8, n, a, ah, b, bh);
  }

  lemma {:induction false} ValueConcat(v: Word, w: Word)
    ensures Value(v + w) == Value(v) + Power(256, |v|) * Value(w)
  {
    if v == [] {
      assert v + w == w;
    } else {
      assert (v + w)[1..] == v[1..] + w;
      ValueConcat(v[1..], w);
      var p := Power(256, |v| - 1);
      assert Power(256, |v|) == 256 * p;
      Times256(p, Value(w));
      hide Power;
    }
  }

  lemma Times256(x: nat, y: nat)
    ensures 256 * x * y == 256 * (x * y)
  {
  }

  lemma {:induction false} ValueZeros(n: nat)
    ensures Value(Zeros(n)) == 0
  {
    if n != 0 {
      assert Zeros(n)[1..] == Zeros(n - 1);
      ValueZeros(n - 1);
    }
  }

  /** ShiftRight divides the integer, leaving the remainder `w[..n]` out. */
  lemma ShiftRightValue(w: Word, n: nat)
    requires n <= |w|
    ensures Value(w) == Power(256, n) * Value(ShiftRight(w, n)) + Value(w[..n])
    ensures Value(w[..n]) < Power(256, n)
  {
    assert w[..n] + w[n..] == w;
    ValueConcat(w[..n], w[n..]);
    ValueBound(w[..n]);
    ValueConcat(w[n..], Zeros(n));
    ValueZeros(n);
  }

  lemma {:induction false} PowerSum(b: nat, m: nat, n: nat)
    ensures Power(b, m + n) == Power(b, m) * Power(b, n)
  {
    if m != 0 {
      PowerSum(b, m - 1, n);
      assert b * (Power(b, m - 1) * Power(b, n)) == b * Power(b, m - 1) * Power(b, n);
    }
  }

  lemma Distribute(x: nat, y: nat, z: nat, m: nat)
    ensures m * (x + y * z) == m * x + y * m * z
  {
  }

  /** ShiftLeft multiplies it and drops the part, `w[|w| - n..]`, that does not fit in the word. */
  lemma ShiftLeftValue(w: Word, n: nat)
    requires n <= |w|
    ensures Power(256, n) * Value(w) == Value(ShiftLeft(w, n)) + Power(256, |w|) * Value(w[|w| - n..])
    ensures Value(ShiftLeft(w, n)) < Power(256, |w|)
  {
    hide Value, Power, Zeros;
    var m := |w| - n;
    assert w[..m] + w[m..] == w;
    ValueConcat(w[..m], w[m..]);
    ValueConcat(Zeros(n), w[..m]);
    ValueZeros(n);
    ValueBound(ShiftLeft(w, n));
    PowerSum(256, m, n);
    Distribute(Value(w[..m]), Power(256, m), Value(w[m..]), Power(256, n));
    assert Power(256, |w|) == Power(256, m) * Power(256, n);
  }
}
