/**
  Payload masking of WebSocket frames (websocketpp/frame.hpp): the byte-by-byte
  routine, the two routines that work on machine words, and the one that keeps
  its state in a rotated word between calls.
  */
module Masking {
  import opened Bytes
  import opened MachineWord

  /** The four bytes of a masking_key_type, in memory order. */
  type Key = k: seq<Byte> | |k| == 4 witness [0, 0, 0, 0]

  /**
    Section 5.3 of RFC 6455: octet i of the transformed data is octet i of the
    data xor octet i mod 4 of the key.  `phase` is the number of payload bytes
    that came before `data`.
    */
  function Mask(data: seq<Byte>, key: Key, phase: nat): (m: seq<Byte>)
    ensures |m| == |data|
    ensures forall i :: 0 <= i < |data| ==> m[i] == XorByte(data[i], key[(phase + i) % 4])
  {
    seq(|data|, i requires 0 <= i < |data| => XorByte(data[i], key[(phase + i) % 4]))
  }

  lemma MaskTwice(data: seq<Byte>, key: Key, phase: nat)
    ensures Mask(Mask(data, key, phase), key, phase) == data
  {
    forall i | 0 <= i < |data| ensures Mask(Mask(data, key, phase), key, phase)[i] == data[i] {
      XorTwice(data[i], key[(phase + i) % 4]);
    }
  }

  lemma MaskConcat(a: seq<Byte>, b: seq<Byte>, key: Key, phase: nat)
    ensures Mask(a + b, key, phase) == Mask(a, key, phase) + Mask(b, key, phase + |a|)
  {
  }

  // ----- byte_mask -----

  /** byte_mask: `input` and `output` may be the same array. */
  method ByteMask(input: array<Byte>, output: array<Byte>, length: nat, key: Key, keyOffset: nat)
    requires length <= input.Length && length <= output.Length
    modifies output
    ensures output[..length] == Mask(old(input[..length]), key, keyOffset)
    ensures output[length..] == old(output[length..])
  {
    ghost var data := input[..length];
    var keyIndex := keyOffset % 4;
    var first := 0;
    while first != length
      invariant first <= length
      invariant keyIndex == (keyOffset + first) % 4
      invariant forall j :: 0 <= j < first ==> output[j] == XorByte(data[j], key[(keyOffset + j) % 4])
      invariant forall j :: first <= j < length ==> input[j] == data[j]
      invariant forall j :: length <= j < output.Length ==> output[j] == old(output[j])
    {
      ModFour(1, keyOffset + first);
      output[first] := XorByte(input[first], key[keyIndex]);
      keyIndex := (keyIndex + 1) % 4;
      first := first + 1;
    }
    assert output[..length] == Mask(data, key, keyOffset);
  }

  // ----- Prepared keys -----

  /** prepare_masking_key: the key read as a uint32_t and, on 8-byte words, repeated in the upper half. */
  function PrepareMaskingKey(p: Platform, key: Key): (w: Word)
    ensures |w| == p.WordSize()
  {
    var lowBits := InMemory(p.endian, key) + Zeros(p.WordSize() - 4);
    if p.wide then Or(ShiftLeft(lowBits, 4), lowBits) else lowBits
  }

  /** The memory image of `w` is the key, started at byte `phase` and repeated. */
  ghost predicate Prepared(p: Platform, w: Word, key: Key, phase: nat)
    ensures Prepared(p, w, key, phase) ==> |w| == p.WordSize()
  {
    && |w| == p.WordSize()
    && forall i :: 0 <= i < |w| ==> InMemory(p.endian, w)[i] == key[(phase + i) % 4]
  }

  /** Both halves of a prepared 8-byte key hold the key. */
  lemma PreparedHalves(p: Platform, key: Key)
    ensures PrepareMaskingKey(p, key) == InMemory(p.endian, key) + (if p.wide then InMemory(p.endian, key) else [])
  {
    if p.wide {
      var half := InMemory(p.endian, key);
      assert ShiftLeft(half + Zeros(4), 4) == Zeros(4) + half;
      OrHalves(half, half);
    }
  }

  /** The memory image of a prepared key is the key, once or twice. */
  lemma PreparedImage(p: Platform, key: Key)
    ensures InMemory(p.endian, PrepareMaskingKey(p, key)) == key + (if p.wide then key else [])
  {
    var half, w := InMemory(p.endian, key), PrepareMaskingKey(p, key);
    PreparedHalves(p, key);
    hide PrepareMaskingKey;
    if p.endian == Little {
      assert half == key;
    } else if p.wide {
      forall i | 0 <= i < 8 ensures Reversed(w)[i] == (key + key)[i] {
        assert w[7 - i] == half[if i < 4 then 3 - i else 7 - i];
      }
    } else {
      assert w == half;
      InMemoryTwice(p.endian, key);
    }
  }

  lemma PreparedKey(p: Platform, key: Key)
    ensures Prepared(p, PrepareMaskingKey(p, key), key, 0)
  {
    PreparedImage(p, key);
    hide PrepareMaskingKey, InMemory;
  }

  lemma PhaseAfter(size: nat, phase: nat, length: nat, i: nat)
    requires IsWordSize(size) && i < size
    ensures var j := i + Wrapped(size, length);
            (phase + (if j < size then j else j - size)) % 4 == (phase + length + i) % 4
  {
    var j := i + Wrapped(size, length);
    ghost var q := if size == 8 then 2 * (length / 8) else length / 4;
    assert length == 4 * q + Wrapped(size, length);
    assert phase + length + i == phase + j + 4 * q;
  }

  lemma PreparedShift(p: Platform, w: Word, key: Key, phase: nat, length: nat)
    requires Prepared(p, w, key, phase)
    ensures Prepared(p, Circshift(p.endian, w, Wrapped(|w|, length)), key, phase + length)
  {
    var offset := Wrapped(|w|, length);
    var r := Circshift(p.endian, w, offset);
    CircshiftRotatesMemory(p.endian, w, offset);
    forall i | 0 <= i < |w|
      ensures InMemory(p.endian, r)[i] == key[(phase + length + i) % 4]
    {
      var j := i + offset;
      assert InMemory(p.endian, r)[i] == InMemory(p.endian, w)[if j < |w| then j else j - |w|];
      PhaseAfter(|w|, phase, length, i);
    }
  }

  // ----- Masking by words -----

  /** Data xored with a repeated pattern of bytes, such as the memory image of a word. */
  function Repeat(data: seq<Byte>, pattern: seq<Byte>): (m: seq<Byte>)
    requires IsWordSize(|pattern|)
    ensures |m| == |data|
    ensures forall i :: 0 <= i < |data| ==> m[i] == XorByte(data[i], pattern[Wrapped(|pattern|, i)])
  {
    seq(|data|, i requires 0 <= i < |data| => XorByte(data[i], pattern[Wrapped(|pattern|, i)]))
  }

  lemma RepeatTwice(data: seq<Byte>, pattern: seq<Byte>)
    requires IsWordSize(|pattern|)
    ensures Repeat(Repeat(data, pattern), pattern) == data
  {
    forall i | 0 <= i < |data| ensures Repeat(Repeat(data, pattern), pattern)[i] == data[i] {
      XorTwice(data[i], pattern[Wrapped(|pattern|, i)]);
    }
  }

  lemma RepeatPrepared(p: Platform, data: seq<Byte>, w: Word, key: Key, phase: nat)
    requires Prepared(p, w, key, phase)
    ensures Repeat(data, InMemory(p.endian, w)) == Mask(data, key, phase)
  {
    forall i | 0 <= i < |data|
      ensures Repeat(data, InMemory(p.endian, w))[i] == Mask(data, key, phase)[i]
    {
      assert InMemory(p.endian, w)[Wrapped(|w|, i)] == key[(phase + Wrapped(|w|, i)) % 4];
      PhaseAfter(|w|, phase, i, 0);
    }
  }

  /** Loading a word, xoring it and storing it xors each byte with a byte of the operand's memory image. */
  lemma XorInMemory(e: Endian, b: seq<Byte>, w: Word, j: nat)
    requires |b| == |w| && j < |w|
    ensures InMemory(e, Xor(InMemory(e, b), w))[j] == XorByte(b[j], InMemory(e, w)[j])
  {
    hide InMemory, Xor, XorByte;
    var k := if e == Little then j else |w| - 1 - j;
    assert Xor(InMemory(e, b), w)[k] == XorByte(InMemory(e, b)[k], w[k]);
  }

  /** What masking with a repeated pattern leaves from `from` to `to`, counted, as the pattern is, from `base`. */
  ghost predicate Masked(output: seq<Byte>, data: seq<Byte>, pattern: seq<Byte>, base: nat, from: nat, to: nat)
    requires IsWordSize(|pattern|) && base + to <= |data| && base + to <= |output|
  {
    forall j :: base + from <= j < base + to ==> output[j] == XorByte(data[j], pattern[Wrapped(|pattern|, j - base)])
  }

  /** `output_word[i] = input_word[i] ^ w`, for arrays of words that start at `base` */
  method MaskWord(p: Platform, input: array<Byte>, output: array<Byte>, base: nat, i: nat, w: Word)
    requires |w| == p.WordSize()
    requires base + Words(|w|, i) + |w| <= input.Length && base + Words(|w|, i) + |w| <= output.Length
    modifies output
    ensures Masked(output[..], old(input[..]), InMemory(p.endian, w), base, Words(|w|, i), Words(|w|, i) + |w|)
    ensures var at := base + Words(|w|, i);
            forall j :: 0 <= j < at || at + |w| <= j < output.Length ==> output[j] == old(output[j])
  {
    hide Masked, Words, InMemory, Xor;
    ghost var data := input[..];
    var at := base + Words(|w|, i);
    var word := input[at..at + |w|];
    var stored := InMemory(p.endian, Xor(InMemory(p.endian, word), w));
    CopyInto(output, at, stored);
    assert word == data[at..at + |w|] && output[..][at..at + |w|] == stored;
    StoredWord(p.endian, output[..], data, base, w, i);
  }

  /** A word loaded, xored and stored back is masked with the memory image of the operand. */
  lemma StoredWord(e: Endian, output: seq<Byte>, data: seq<Byte>, base: nat, w: Word, i: nat)
    requires IsWordSize(|w|)
    requires base + Words(|w|, i) + |w| <= |data| && base + Words(|w|, i) + |w| <= |output|
    requires var at := base + Words(|w|, i);
             output[at..at + |w|] == InMemory(e, Xor(InMemory(e, data[at..at + |w|]), w))
    ensures Masked(output, data, InMemory(e, w), base, Words(|w|, i), Words(|w|, i) + |w|)
  {
    hide Words, Wrapped, InMemory, Xor;
    var at := base + Words(|w|, i);
    forall j | at <= j < at + |w|
      ensures output[j] == XorByte(data[j], InMemory(e, w)[Wrapped(|w|, j - base)])
    {
      assert output[j] == output[at..at + |w|][j - at] && data[j] == data[at..at + |w|][j - at];
      XorInMemory(e, data[at..at + |w|], w, j - at);
      WrappedAfterWords(|w|, i, j - at);
    }
  }

  /** The word loop of word_mask_exact and word_mask_circ, over the whole words of `length` bytes from `base`. */
  method MaskWords(p: Platform, input: array<Byte>, output: array<Byte>, base: nat, length: nat, w: Word)
      returns (done: nat)
    requires |w| == p.WordSize() && base + length <= input.Length && base + length <= output.Length
    modifies output
    ensures done == length - Wrapped(|w|, length)
    ensures Masked(output[..], old(input[..]), InMemory(p.endian, w), base, 0, done)
    ensures forall j :: 0 <= j < base || base + done <= j < output.Length ==> output[j] == old(output[j])
    ensures forall j :: base + done <= j < input.Length ==> input[j] == old(input[j])
  {
    var n := WholeWords(|w|, length);
    ghost var image := InMemory(p.endian, w);
    assert Words(|w|, 0) == 0;
    hide Words, WholeWords, Wrapped, InMemory;
    var i := 0;
    done := 0;
    while i < n
      invariant 0 <= i <= n && done == Words(|w|, i) <= length
      invariant Masked(output[..], old(input[..]), image, base, 0, done)
      invariant forall j :: 0 <= j < base || base + done <= j < output.Length ==> output[j] == old(output[j])
      invariant forall j :: base + done <= j < input.Length ==> input[j] == old(input[j])
    {
      WordsNext(|w|, length, i);
      MaskWord(p, input, output, base, i, w);
      i, done := i + 1, done + |w|;
    }
    WordsNext(|w|, length, n);
  }

  lemma MaskedPrepared(p: Platform, output: seq<Byte>, data: seq<Byte>, w: Word, key: Key, to: nat)
    requires Prepared(p, w, key, 0) && to <= |data| && to <= |output|
    requires Masked(output, data, InMemory(p.endian, w), 0, 0, to)
    ensures forall j :: 0 <= j < to ==> output[j] == XorByte(data[j], key[j % 4])
  {
    RepeatPrepared(p, data, w, key, 0);
    forall j | 0 <= j < to ensures output[j] == XorByte(data[j], key[j % 4]) {
      assert Repeat(data, InMemory(p.endian, w))[j] == Mask(data, key, 0)[j];
    }
  }

  /** word_mask_exact: whole words first, then the remaining bytes with the unprepared key. */
  method WordMaskExact(p: Platform, input: array<Byte>, output: array<Byte>, length: nat, key: Key)
    requires length <= input.Length && length <= output.Length
    modifies output
    ensures output[..length] == Mask(old(input[..length]), key, 0)
    ensures output[length..] == old(output[length..])
  {
    ghost var data := input[..length];
    var preparedKey := PrepareMaskingKey(p, key);
    PreparedKey(p, key);
    var i := MaskWords(p, input, output, 0, length, preparedKey);
    MaskedPrepared(p, output[..], data, preparedKey, key, i);
    while i < length
      invariant i <= length
      invariant forall j :: 0 <= j < i ==> output[j] == XorByte(data[j], key[j % 4])
      invariant forall j :: i <= j < length ==> input[j] == data[j]
      invariant forall j :: length <= j < output.Length ==> output[j] == old(output[j])
    {
      output[i] := XorByte(input[i], key[i % 4]);
      i := i + 1;
    }
    assert output[..length] == Mask(data, key, 0);
  }

  /**
    word_mask_circ, of `length` bytes from `base`: the remainder is masked with
    the leading bytes of the prepared key, which is then rotated.
    */
  method WordMaskCirc(p: Platform, input: array<Byte>, output: array<Byte>, base: nat, length: nat, preparedKey: Word)
      returns (next: Word)
    requires |preparedKey| == p.WordSize() && base + length <= input.Length && base + length <= output.Length
    modifies output
    ensures output[base..base + length] == Repeat(old(input[base..base + length]), InMemory(p.endian, preparedKey))
    ensures output[..base] == old(output[..base]) && output[base + length..] == old(output[base + length..])
    ensures next == Circshift(p.endian, preparedKey, Wrapped(p.WordSize(), length))
  {
    hide Masked, Wrapped, Repeat, InMemory;
    ghost var data := input[..];
    var start := MaskWords(p, input, output, base, length, preparedKey);
    var l := length - start;
    var byteKey := InMemory(p.endian, preparedKey);
    ghost var words := output[..];
    MaskRemainder(input, output, base + start, l, byteKey);
    MaskedWhole(words, output[..], data, byteKey, base, start, length);
    assert input[base..base + length] == input[..][base..base + length];
    next := Circshift(p.endian, preparedKey, l);
  }

  /** Whole words and a remainder, both masked with the pattern, are the stretch masked with the pattern repeated. */
  lemma MaskedWhole(words: seq<Byte>, output: seq<Byte>, data: seq<Byte>, pattern: seq<Byte>,
                    base: nat, start: nat, length: nat)
    requires IsWordSize(|pattern|) && start == length - Wrapped(|pattern|, length)
    requires base + length <= |data| && base + length <= |output| == |words|
    requires Masked(words, data, pattern, base, 0, start)
    requires forall j :: base <= j < base + start ==> output[j] == words[j]
    requires forall j :: base + start <= j < base + length ==>
               output[j] == XorByte(data[j], pattern[j - (base + start)])
    ensures output[base..base + length] == Repeat(data[base..base + length], pattern)
  {
    var stretch := data[base..base + length];
    forall i | 0 <= i < length ensures output[base..base + length][i] == Repeat(stretch, pattern)[i] {
      assert stretch[i] == data[base + i];
      if i < start {
        assert output[base + i] == words[base + i];
      } else {
        RemainderIndex(|pattern|, length, i - start);
      }
    }
  }

  /** The partial word at the end of word_mask_circ. */
  method MaskRemainder(input: array<Byte>, output: array<Byte>, start: nat, l: nat, byteKey: seq<Byte>)
    requires start + l <= input.Length && start + l <= output.Length && l <= |byteKey|
    modifies output
    ensures forall j :: start <= j < start + l ==> output[j] == XorByte(old(input[j]), byteKey[j - start])
    ensures forall j :: 0 <= j < start || start + l <= j < output.Length ==> output[j] == old(output[j])
  {
    for i := 0 to l
      invariant forall j :: start <= j < start + i ==> output[j] == XorByte(old(input[j]), byteKey[j - start])
      invariant forall j :: 0 <= j < start || start + i <= j < output.Length ==> output[j] == old(output[j])
      invariant forall j :: start + i <= j < start + l ==> input[j] == old(input[j])
    {
      output[start + i] := XorByte(input[start + i], byteKey[i]);
    }
  }

  lemma RemainderIndex(size: nat, length: nat, i: nat)
    requires IsWordSize(size) && i < Wrapped(size, length)
    ensures Wrapped(size, length - Wrapped(size, length) + i) == i
  {
    WordsNext(size, length, WholeWords(size, length));
    WrappedAfterWords(size, WholeWords(size, length), i);
  }

  /** The masking_key_type that byte_mask_circ cuts out of the prepared key: the low 32 bits, in memory. */
  function LowKey(p: Platform, preparedKey: Word): Key
    requires |preparedKey| == p.WordSize()
  {
    InMemory(p.endian, preparedKey[..4])
  }

  /** byte_mask_circ, of `length` bytes from `base` */
  method ByteMaskCirc(p: Platform, input: array<Byte>, output: array<Byte>, base: nat, length: nat, preparedKey: Word)
      returns (next: Word)
    requires |preparedKey| == p.WordSize() && base + length <= input.Length && base + length <= output.Length
    modifies output
    ensures output[base..base + length] == Mask(old(input[base..base + length]), LowKey(p, preparedKey), 0)
    ensures output[..base] == old(output[..base]) && output[base + length..] == old(output[base + length..])
    ensures next == Circshift(p.endian, preparedKey, length % 4)
  {
    ghost var data := input[..];
    var key := LowKey(p, preparedKey);
    var i := 0;
    while i < length
      invariant i <= length
      invariant forall j :: base <= j < base + i ==> output[j] == XorByte(data[j], key[(j - base) % 4])
      invariant forall j :: base + i <= j < base + length ==> input[j] == data[j]
      invariant forall j :: 0 <= j < base || base + length <= j < output.Length ==> output[j] == old(output[j])
    {
      output[base + i] := XorByte(input[base + i], key[i % 4]);
      i := i + 1;
    }
    assert output[base..base + length] == Mask(data[base..base + length], key, 0);
    next := Circshift(p.endian, preparedKey, length % 4);
  }

  // ----- Masking a message chunk by chunk -----

  datatype Routine = ByWords | ByBytes

  /** One chunk of a message and the routine that masks it. */
  datatype Chunk = Chunk(routine: Routine, data: seq<Byte>)

  /** What WordMaskCirc or ByteMaskCirc leaves in the output and returns. */
  function MaskChunk(p: Platform, c: Chunk, w: Word): (r: (seq<Byte>, Word))
    requires |w| == p.WordSize()
    ensures |r.1| == |w|
  {
    match c.routine
    case ByWords =>
      (Repeat(c.data, InMemory(p.endian, w)), Circshift(p.endian, w, Wrapped(|w|, |c.data|)))
    case ByBytes =>
      (Mask(c.data, LowKey(p, w), 0), Circshift(p.endian, w, |c.data| % 4))
  }

  /** Masks the chunks in turn, feeding each call the key the last one returned. */
  function MaskChunks(p: Platform, cs: seq<Chunk>, w: Word): (r: (seq<Byte>, Word))
    requires |w| == p.WordSize()
  {
    if cs == [] then ([], w)
    else
      var (out, w') := MaskChunk(p, cs[0], w);
      var (rest, w'') := MaskChunks(p, cs[1..], w');
      (out + rest, w'')
  }

  function Message(cs: seq<Chunk>): seq<Byte> {
    if cs == [] then [] else cs[0].data + Message(cs[1..])
  }

  lemma LowKeyPrepared(p: Platform, w: Word, key: Key, phase: nat)
    requires Prepared(p, w, key, phase)
    ensures forall i :: 0 <= i < 4 ==> LowKey(p, w)[i] == key[(phase + i) % 4]
  {
    forall i | 0 <= i < 4 ensures LowKey(p, w)[i] == key[(phase + i) % 4] {
      if p.endian == Little {
        assert LowKey(p, w)[i] == InMemory(p.endian, w)[i];
      } else {
        assert LowKey(p, w)[i] == InMemory(p.endian, w)[|w| - 4 + i];
      }
    }
  }

  lemma ModFour(a: nat, b: nat)
    ensures (a + b % 4) % 4 == (a + b) % 4
  {
    assert b == 4 * (b / 4) + b % 4;
  }

  lemma LowKeyMask(p: Platform, data: seq<Byte>, w: Word, key: Key, phase: nat)
    requires Prepared(p, w, key, phase)
    ensures Mask(data, LowKey(p, w), 0) == Mask(data, key, phase)
  {
    LowKeyPrepared(p, w, key, phase);
    hide LowKey;
    forall i | 0 <= i < |data|
      ensures Mask(data, LowKey(p, w), 0)[i] == Mask(data, key, phase)[i]
    {
      assert LowKey(p, w)[i % 4] == key[(phase + i % 4) % 4];
      ModFour(phase, i);
    }
  }

  lemma PreparedPhase(p: Platform, w: Word, key: Key, phase: nat, length: nat)
    requires Prepared(p, w, key, phase + length % 4)
    ensures Prepared(p, w, key, phase + length)
  {
    hide InMemory;
    forall i | 0 <= i < |w| ensures InMemory(p.endian, w)[i] == key[(phase + length + i) % 4] {
      ModFour(phase + i, length);
    }
  }

  lemma WordChunkRefines(p: Platform, data: seq<Byte>, w: Word, key: Key, phase: nat)
    requires Prepared(p, w, key, phase)
    ensures MaskChunk(p, Chunk(ByWords, data), w).0 == Mask(data, key, phase)
    ensures Prepared(p, MaskChunk(p, Chunk(ByWords, data), w).1, key, phase + |data|)
  {
    hide Prepared, Circshift, Mask, Repeat, InMemory, Wrapped;
    RepeatPrepared(p, data, w, key, phase);
    PreparedShift(p, w, key, phase, |data|);
  }

  lemma ByteChunkRefines(p: Platform, data: seq<Byte>, w: Word, key: Key, phase: nat)
    requires Prepared(p, w, key, phase)
    ensures MaskChunk(p, Chunk(ByBytes, data), w).0 == Mask(data, key, phase)
    ensures Prepared(p, MaskChunk(p, Chunk(ByBytes, data), w).1, key, phase + |data|)
  {
    assert Wrapped(|w|, |data| % 4) == |data| % 4;
    hide Prepared, Circshift, Mask, LowKey, InMemory, Wrapped;
    LowKeyMask(p, data, w, key, phase);
    PreparedShift(p, w, key, phase, |data| % 4);
    PreparedPhase(p, Circshift(p.endian, w, |data| % 4), key, phase, |data|);
  }

  lemma MaskChunkRefines(p: Platform, c: Chunk, w: Word, key: Key, phase: nat)
    requires Prepared(p, w, key, phase)
    ensures MaskChunk(p, c, w).0 == Mask(c.data, key, phase)
    ensures Prepared(p, MaskChunk(p, c, w).1, key, phase + |c.data|)
  {
    hide MaskChunk, Prepared, Mask;
    match c.routine {
      case ByWords => WordChunkRefines(p, c.data, w, key, phase);
      case ByBytes => ByteChunkRefines(p, c.data, w, key, phase);
    }
  }

  lemma {:induction false} MaskChunksRefine(p: Platform, cs: seq<Chunk>, w: Word, key: Key, phase: nat)
    requires Prepared(p, w, key, phase)
    ensures MaskChunks(p, cs, w).0 == Mask(Message(cs), key, phase)
    ensures Prepared(p, MaskChunks(p, cs, w).1, key, phase + |Message(cs)|)
  {
    hide MaskChunk, Prepared;
    if cs != [] {
      var (out, w') := MaskChunk(p, cs[0], w);
      MaskChunkRefines(p, cs[0], w, key, phase);
      MaskChunksRefine(p, cs[1..], w', key, phase + |cs[0].data|);
      MaskConcat(cs[0].data, Message(cs[1..]), key, phase);
      assert phase + |cs[0].data| + |Message(cs[1..])| == phase + |Message(cs)|;
      hide Mask, Message;
    }
  }

  /**
    However a message is cut into chunks, whichever routine masks each, on
    either byte order and word size: the output is the whole message masked
    byte by byte.
    */
  lemma StreamingRefinesByteMask(p: Platform, cs: seq<Chunk>, key: Key)
    ensures MaskChunks(p, cs, PrepareMaskingKey(p, key)).0 == Mask(Message(cs), key, 0)
  {
    PreparedKey(p, key);
    MaskChunksRefine(p, cs, PrepareMaskingKey(p, key), key, 0);
  }

  /** A peer on another platform that cuts the masked stream differently recovers the message. */
  lemma UnmaskingRecovers(p: Platform, q: Platform, cs: seq<Chunk>, ds: seq<Chunk>, key: Key)
    requires Message(ds) == MaskChunks(p, cs, PrepareMaskingKey(p, key)).0
    ensures MaskChunks(q, ds, PrepareMaskingKey(q, key)).0 == Message(cs)
  {
    StreamingRefinesByteMask(p, cs, key);
    StreamingRefinesByteMask(q, ds, key);
    MaskTwice(Message(cs), key, 0);
  }

  // ----- Masking an array piece by piece -----

  /** How many bytes come next, and the routine that masks them. */
  datatype Piece = Piece(routine: Routine, length: nat)

  function Total(pieces: seq<Piece>): nat {
    if pieces == [] then 0 else pieces[0].length + Total(pieces[1..])
  }

  /** Masks the next piece of an array in place at its phase, and returns the key prepared for what follows. */
  method MaskPiece(p: Platform, a: array<Byte>, at: nat, piece: Piece, w: Word, ghost key: Key) returns (next: Word)
    requires Prepared(p, w, key, at) && at + piece.length <= a.Length
    modifies a
    ensures a[at..at + piece.length] == Mask(old(a[at..at + piece.length]), key, at)
    ensures a[..at] == old(a[..at]) && a[at + piece.length..] == old(a[at + piece.length..])
    ensures Prepared(p, next, key, at + piece.length)
  {
    ghost var data := a[at..at + piece.length];
    MaskChunkRefines(p, Chunk(piece.routine, data), w, key, at);
    hide Prepared, Mask, Repeat, InMemory, Circshift, LowKey;
    match piece.routine
    case ByWords => next := WordMaskCirc(p, a, a, at, piece.length, w);
    case ByBytes => next := ByteMaskCirc(p, a, a, at, piece.length, w);
  }

  /**
    However an array is cut into pieces, whichever routine masks each in place,
    the whole array ends up masked as a message.
    */
  method MaskInPieces(p: Platform, a: array<Byte>, pieces: seq<Piece>, key: Key)
    requires Total(pieces) == a.Length
    modifies a
    ensures a[..] == Mask(old(a[..]), key, 0)
  {
    ghost var data := a[..];
    var w := PrepareMaskingKey(p, key);
    PreparedKey(p, key);
    hide Prepared, Mask, PrepareMaskingKey;
    var at: nat, i: nat := 0, 0;
    while i < |pieces|
      invariant 0 <= i <= |pieces| && at + Total(pieces[i..]) == a.Length
      invariant Prepared(p, w, key, at)
      invariant a[..at] == Mask(data[..at], key, 0) && a[at..] == data[at..]
    {
      var piece := pieces[i];
      assert pieces[i..][1..] == pieces[i + 1..];
      label before:
      w := MaskPiece(p, a, at, piece, w, key);
      MaskedFurther(data, old@before(a[..]), a[..], at, piece.length, key);
      at, i := at + piece.length, i + 1;
    }
    assert a[..at] == a[..] && data[..at] == data;
  }

  lemma MaskedFurther(data: seq<Byte>, before: seq<Byte>, after: seq<Byte>, at: nat, n: nat, key: Key)
    requires |data| == |before| == |after| && at + n <= |data|
    requires before[..at] == Mask(data[..at], key, 0) && before[at..] == data[at..]
    requires after[at..at + n] == Mask(before[at..at + n], key, at)
    requires after[..at] == before[..at] && after[at + n..] == before[at + n..]
    ensures after[..at + n] == Mask(data[..at + n], key, 0) && after[at + n..] == data[at + n..]
  {
    MaskConcat(data[..at], data[at..at + n], key, 0);
    hide Mask;
    assert data[..at + n] == data[..at] + data[at..at + n];
    assert after[..at + n] == after[..at] + after[at..at + n];
    assert before[at..at + n] == before[at..][..n] && data[at..at + n] == data[at..][..n];
    assert before[at + n..] == before[at..][n..] && data[at + n..] == data[at..][n..];
  }
}
