/**
  Machine words as the framing code uses them: integers it xors, ors and shifts
  by whole octets, and the same integers as bytes in memory.  A word is the
  sequence of its octets, least significant first; module WordValues ties the
  operations on octets to those on integers.
  */
module MachineWord {
  import opened Bytes

  type Word = seq<Byte>

  datatype Endian = Little | Big

  /** What the code learns at compile or run time about the machine: sizeof(size_t) is 4 or 8. */
  datatype Platform = Platform(endian: Endian, wide: bool) {
    function WordSize(): nat {
      if wide then 8 else 4
    }
  }

  predicate IsWordSize(size: nat) {
    size == 4 || size == 8
  }

  /** Division of a byte count by the size of a word, with the remainder. */
  function WholeWords(size: nat, length: nat): nat
    requires IsWordSize(size)
  {
    if size == 8 then length / 8 else length / 4
  }

  function Wrapped(size: nat, i: nat): (j: nat)
    requires IsWordSize(size)
    ensures j < size
  {
    if size == 8 then i % 8 else i % 4
  }

  /** The size in bytes of `n` words. */
  function Words(size: nat, n: nat): nat
    requires IsWordSize(size)
  {
    if size == 8 then 8 * n else 4 * n
  }

  lemma WrappedAfterWords(size: nat, n: nat, i: nat)
    requires IsWordSize(size)
    ensures Wrapped(size, Words(size, n) + i) == Wrapped(size, i)
    ensures i < size ==> Wrapped(size, i) == i
  {
    if size == 8 {
      assert (8 * n + i) % 8 == i % 8;
    } else {
      assert (4 * n + i) % 4 == i % 4;
    }
  }

  lemma WordsNext(size: nat, length: nat, n: nat)
    requires IsWordSize(size) && n <= WholeWords(size, length)
    ensures Words(size, n) <= length
    ensures n < WholeWords(size, length) ==> Words(size, n) + size == Words(size, n + 1) <= length
    ensures n == WholeWords(size, length) ==> Words(size, n) == length - Wrapped(size, length)
  {
  }

  function Reversed(s: seq<Byte>): (r: seq<Byte>)
    ensures |r| == |s|
    ensures forall i :: 0 <= i < |s| ==> r[i] == s[|s| - 1 - i]
  {
    seq(|s|, i requires 0 <= i < |s| => s[|s| - 1 - i])
  }

  /** The integer read from memory `b`, and, being its own inverse, the memory that holds the integer `b`. */
  function InMemory(e: Endian, b: seq<Byte>): (w: seq<Byte>)
    ensures |w| == |b|
    ensures forall i :: 0 <= i < |b| ==> w[i] == b[if e == Little then i else |b| - 1 - i]
  {
    if e == Little then b else Reversed(b)
  }

  lemma InMemoryTwice(e: Endian, b: seq<Byte>)
    ensures InMemory(e, InMemory(e, b)) == b
  {
  }

  function Xor(v: Word, w: Word): (x: Word)
    requires |v| == |w|
    ensures |x| == |v|
    ensures forall i :: 0 <= i < |x| ==> x[i] == XorByte(v[i], w[i])
  {
    seq(|v|, i requires 0 <= i < |v| => XorByte(v[i], w[i]))
  }

  function Or(v: Word, w: Word): (x: Word)
    requires |v| == |w|
    ensures |x| == |v|
    ensures forall i :: 0 <= i < |x| ==> x[i] == OrByte(v[i], w[i])
  {
    seq(|v|, i requires 0 <= i < |v| => OrByte(v[i], w[i]))
  }

  /** Or-ing a word into the part of another that is zero leaves both halves. */
  lemma OrHalves(low: seq<Byte>, high: seq<Byte>)
    requires |low| == |high|
    ensures Or(Zeros(|low|) + high, low + Zeros(|low|)) == low + high
  {
    forall i | 0 <= i < 2 * |low|
      ensures Or(Zeros(|low|) + high, low + Zeros(|low|))[i] == (low + high)[i]
    {
      OrZero((low + high)[i]);
    }
  }

  /** `w << n*8`, losing what leaves the word */
  function ShiftLeft(w: Word, n: nat): (s: Word)
    requires n <= |w|
    ensures |s| == |w|
  {
    Zeros(n) + w[..|w| - n]
  }

  /** `w >> n*8` */
  function ShiftRight(w: Word, n: nat): (s: Word)
    requires n <= |w|
    ensures |s| == |w|
  {
    w[n..] + Zeros(n)
  }

  /** circshift_prepared_key: two shifts of the integer and an or, in directions that depend on the byte order. */
  function Circshift(e: Endian, w: Word, offset: nat): (r: Word)
    requires offset < |w|
    ensures |r| == |w|
  {
    if offset == 0 then w
    else if e == Little then Or(ShiftRight(w, offset), ShiftLeft(w, |w| - offset))
    else Or(ShiftLeft(w, offset), ShiftRight(w, |w| - offset))
  }

  /** On either byte order the shift rotates the memory image of the word, `offset` addresses down. */
  lemma CircshiftRotatesMemory(e: Endian, w: Word, offset: nat)
    requires offset < |w|
    ensures InMemory(e, Circshift(e, w, offset)) == InMemory(e, w)[offset..] + InMemory(e, w)[..offset]
  {
    var m, r := InMemory(e, w), InMemory(e, Circshift(e, w, offset));
    forall i | 0 <= i < |w|
      ensures r[i] == (m[offset..] + m[..offset])[i]
    {
      OrZero((m[offset..] + m[..offset])[i]);
    }
  }
}
