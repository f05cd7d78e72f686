/**
  Encoding and decoding of WebSocket frame headers (websocketpp/frame.hpp),
  section 5.2 of RFC 6455.
  */
module FrameHeader {
  import opened Bytes
  import opened MachineWord
  import opened Masking
  import opened WordValues
  import opened Options

  const BASIC_HEADER_LENGTH := 2
  const MAX_EXTENDED_HEADER_LENGTH := 12
  const PAYLOAD_SIZE_BASIC := 125
  const PAYLOAD_SIZE_EXTENDED := 0xFFFF
  const PAYLOAD_SIZE_CODE_16BIT := 126
  const PAYLOAD_SIZE_CODE_64BIT := 127

  type UInt64 = n: int | 0 <= n < 0x1_0000_0000_0000_0000

  /** The flags and the opcode of the first byte. */
  datatype Flags = Flags(fin: bool, rsv1: bool, rsv2: bool, rsv3: bool, opcode: nat)

  // ----- Encoding -----

  function Bit(on: bool, weight: Byte): Byte {
    if on then weight else 0
  }

  lemma PowersOfTwo()
    ensures Power(2, 1) == 2 && Power(2, 2) == 4 && Power(2, 3) == 8 && Power(2, 4) == 16
    ensures Power(2, 5) == 32 && Power(2, 6) == 64 && Power(2, 7) == 128
  {
  }

  /** Or-ing a field into a byte that is zero from there down adds it. */
  lemma OrField(m: nat, high: nat, b: Byte, field: Byte)
    requires m <= 8 && b == Power(2, m) * high && high < Power(2, 8 - m) && field < Power(2, m)
    ensures OrByte(b, field) == b + field
  {
    OrDisjoint(m, 8 - m, field, high);
  }

  /** What a mask cuts out of a byte: a single bit, or the bits below it. */
  lemma MaskField(m: nat, b: Byte, above: nat, on: bool, low: nat, bit: Byte, ones: Byte)
    requires m < 8 && b == Power(2, m) * (2 * above + Bit(on, 1)) + low && low < Power(2, m)
    requires bit == Power(2, m) && ones == bit - 1
    ensures (AndByte(b, bit) == bit <==> on) && AndByte(b, ones) == low
  {
    hide AndBits, Power;
    var high := 2 * above + Bit(on, 1);
    AndBit(m, 8 - m, low, high);
    AndLow(m, 8 - m, low, high);
    assert high % 2 == Bit(on, 1);
  }

  /** b0 as the basic_header constructor leaves it: each field or-ed in, and four bits of the opcode. */
  function FirstByte(f: Flags): (b0: Byte)
    ensures b0 == SumOfFields(f)
  {
    hide OrByte;
    FieldsAreDisjoint(f);
    OrByte(OrByte(OrByte(OrByte(Bit(f.fin, 0x80), Bit(f.rsv1, 0x40)), Bit(f.rsv2, 0x20)), Bit(f.rsv3, 0x10)),
           OpcodeBits(f.opcode))
  }

  /** `op & BHB0_OPCODE`, of a 32-bit opcode */
  function OpcodeBits(opcode: nat): (bits: Byte)
    ensures bits == opcode % 0x10
  {
    PowersOfTwo();
    hide Power, AndBits;
    AndLow(4, 28, opcode % 16, opcode / 16);
    AndBits(32, opcode, 0x0F)
  }

  function SumOfFields(f: Flags): Byte {
    Bit(f.fin, 0x80) + Bit(f.rsv1, 0x40) + Bit(f.rsv2, 0x20) + Bit(f.rsv3, 0x10) + f.opcode % 0x10
  }

  /** The fields of the first byte share no bits, so or-ing them in adds them. */
  lemma FieldsAreDisjoint(f: Flags)
    ensures var b1 := OrByte(Bit(f.fin, 0x80), Bit(f.rsv1, 0x40));
            var b2 := OrByte(b1, Bit(f.rsv2, 0x20));
            var b3 := OrByte(b2, Bit(f.rsv3, 0x10));
            OrByte(b3, f.opcode % 0x10) == SumOfFields(f)
  {
    hide OrByte, Power;
    PowersOfTwo();
    var high1 := Bit(f.fin, 1);
    var high2 := 2 * high1 + Bit(f.rsv1, 1);
    var high3 := 2 * high2 + Bit(f.rsv2, 1);
    var high4 := 2 * high3 + Bit(f.rsv3, 1);
    OrField(7, high1, 128 * high1, Bit(f.rsv1, 0x40));
    OrField(6, high2, 64 * high2, Bit(f.rsv2, 0x20));
    OrField(5, high3, 32 * high3, Bit(f.rsv3, 0x10));
    OrField(4, high4, 16 * high4, f.opcode % 0x10);
  }

  function SizeCode(size: UInt64): (code: Byte)
    ensures code < 128
  {
    if size <= PAYLOAD_SIZE_BASIC then size
    else if size <= PAYLOAD_SIZE_EXTENDED then PAYLOAD_SIZE_CODE_16BIT
    else PAYLOAD_SIZE_CODE_64BIT
  }

  /** b1 as the constructor leaves it */
  function SecondByte(mask: bool, size: UInt64): (b1: Byte)
    ensures b1 == Bit(mask, 0x80) + SizeCode(size)
  {
    PowersOfTwo();
    hide Power, OrByte;
    OrField(7, Bit(mask, 1), Bit(mask, 0x80), SizeCode(size));
    OrByte(Bit(mask, 0x80), SizeCode(size))
  }

  /** The octets of an `n`-octet unsigned integer, least significant first. */
  function Octets(n: nat, v: nat): (w: Word)
    ensures |w| == n
  {
    if n == 0 then [] else [v % 256] + Octets(n - 1, v / 256)
  }

  /** _htonll, and ntohs on two octets: the octets change places on a little-endian machine. */
  function SwapToNetwork(e: Endian, w: Word): (s: Word)
    ensures |s| == |w|
  {
    if e == Little then Reversed(w) else w
  }

  /** The bytes extended_header::copy_payload copies: the tail of the 8-byte big-endian size. */
  function SizeField(e: Endian, size: UInt64): (field: seq<Byte>)
    ensures |field| <= 8
  {
    var payloadOffset := if size <= PAYLOAD_SIZE_BASIC then 8 else if size <= PAYLOAD_SIZE_EXTENDED then 6 else 0;
    InMemory(e, SwapToNetwork(e, Octets(8, size)))[payloadOffset..]
  }

  /** extended_header(payload_size, masking_key) */
  function ExtendedBytes(e: Endian, size: UInt64, key: Key): (b: seq<Byte>)
    ensures |b| == MAX_EXTENDED_HEADER_LENGTH
  {
    var field := SizeField(e, size);
    field + key + Zeros(8 - |field|)
  }

  /** struct basic_header */
  class BasicHeader {
    var b0: Byte
    var b1: Byte

    constructor (f: Flags, size: UInt64, mask: bool)
      ensures b0 == FirstByte(f) && b1 == SecondByte(mask, size)
      ensures b1 == (if mask then 128 else 0) + (if size <= 125 then size else if size <= 65535 then 126 else 127)
    {
      b0, b1 := 0, 0;
      new;
      hide OrByte, OpcodeBits;
      OrZero(0x80);
      if f.fin {
        b0 := OrByte(b0, 0x80);
      }
      assert b0 == Bit(f.fin, 0x80);
      OrZero(b0);
      if f.rsv1 {
        b0 := OrByte(b0, 0x40);
      }
      assert b0 == OrByte(Bit(f.fin, 0x80), Bit(f.rsv1, 0x40));
      OrZero(b0);
      if f.rsv2 {
        b0 := OrByte(b0, 0x20);
      }
      OrZero(b0);
      if f.rsv3 {
        b0 := OrByte(b0, 0x10);
      }
      b0 := OrByte(b0, OpcodeBits(f.opcode));
      assert b0 == FirstByte(f);
      hide FirstByte;
      if mask {
        b1 := OrByte(b1, 0x80);
      }
      assert b1 == Bit(mask, 0x80);
      var basicValue: Byte;
      if size <= PAYLOAD_SIZE_BASIC {
        basicValue := size;
      } else if size <= PAYLOAD_SIZE_EXTENDED {
        basicValue := PAYLOAD_SIZE_CODE_16BIT;
      } else {
        basicValue := PAYLOAD_SIZE_CODE_64BIT;
      }
      b1 := OrByte(b1, basicValue);
      FixedBytes(f, mask, size);
    }
  }

  lemma ZerosRest(n: nat, k: nat)
    requires k <= n
    ensures Zeros(n)[k..] == Zeros(n - k)
  {
  }

  /** struct extended_header */
  class ExtendedHeader {
    const bytes: array<Byte>

    constructor (e: Endian, size: UInt64)
      ensures bytes[..] == SizeField(e, size) + Zeros(MAX_EXTENDED_HEADER_LENGTH - |SizeField(e, size)|)
    {
      bytes := new Byte[MAX_EXTENDED_HEADER_LENGTH](i => 0);
      new;
      ghost var zeros := bytes[..];
      assert zeros == Zeros(MAX_EXTENDED_HEADER_LENGTH);
      hide SizeField, Zeros;
      var offset := CopyPayload(e, size);
      ZerosRest(MAX_EXTENDED_HEADER_LENGTH, offset);
      assert bytes[..] == SizeField(e, size) + zeros[offset..];
    }

    constructor WithKey(e: Endian, size: UInt64, key: Key)
      ensures bytes[..] == ExtendedBytes(e, size, key)
    {
      bytes := new Byte[MAX_EXTENDED_HEADER_LENGTH](i => 0);
      new;
      ghost var zeros := bytes[..];
      assert zeros == Zeros(MAX_EXTENDED_HEADER_LENGTH);
      hide SizeField, Zeros;
      var offset := CopyPayload(e, size);
      ghost var field := SizeField(e, size);
      assert bytes[..][..offset] == field && bytes[..][offset + 4..] == zeros[offset + 4..];
      CopyInto(bytes, offset, key);
      ZerosRest(MAX_EXTENDED_HEADER_LENGTH, offset + 4);
      assert bytes[..] == field + key + zeros[offset + 4..];
    }

    /** Returns where the masking key goes. */
    method CopyPayload(e: Endian, size: UInt64) returns (offset: nat)
      requires bytes.Length == MAX_EXTENDED_HEADER_LENGTH
      modifies bytes
      ensures offset == |SizeField(e, size)|
      ensures bytes[..] == SizeField(e, size) + old(bytes[..])[offset..]
    {
      var payloadOffset := 0;
      if size <= PAYLOAD_SIZE_BASIC {
        payloadOffset := 8;
      } else if size <= PAYLOAD_SIZE_EXTENDED {
        payloadOffset := 6;
      }
      CopyInto(bytes, 0, InMemory(e, SwapToNetwork(e, Octets(8, size)))[payloadOffset..]);
      offset := 8 - payloadOffset;
    }
  }

  // ----- Decoding -----

  /** `b & (w - 1)`, for b below 2w and w the weight of a single bit */
  function Below(b: Byte, w: Byte): (r: Byte)
    requires b < 2 * w
    ensures r < w
  {
    if b >= w then b - w else b
  }

  /** The fields by weight: what the bits above a flag leave of the byte is at least the flag's weight. */
  function FieldsByWeight(b0: Byte): Flags {
    var low7 := Below(b0, 0x80);
    var low6 := Below(low7, 0x40);
    var low5 := Below(low6, 0x20);
    var low4 := Below(low5, 0x10);
    Flags(b0 >= 0x80, low7 >= 0x40, low6 >= 0x20, low5 >= 0x10, low4)
  }

  /** get_fin, get_rsv1, get_rsv2, get_rsv3 and get_opcode */
  function GetFlags(b0: Byte): (f: Flags)
    ensures f == FieldsByWeight(b0)
  {
    hide AndByte, FieldsByWeight;
    BitsOfByte(b0);
    Flags(AndByte(b0, 0x80) == 0x80, AndByte(b0, 0x40) == 0x40, AndByte(b0, 0x20) == 0x20, AndByte(b0, 0x10) == 0x10,
          AndByte(b0, 0x0F))
  }

  /** The masks of both bytes cut out a bit, or the bits below one. */
  lemma BitsOfByte(b: Byte)
    ensures var f := FieldsByWeight(b);
            && (AndByte(b, 0x80) == 0x80 <==> f.fin) && (AndByte(b, 0x40) == 0x40 <==> f.rsv1)
            && (AndByte(b, 0x20) == 0x20 <==> f.rsv2) && (AndByte(b, 0x10) == 0x10 <==> f.rsv3)
            && AndByte(b, 0x0F) == f.opcode && AndByte(b, 0x7F) == Below(b, 0x80)
  {
    hide AndByte, Power;
    PowersOfTwo();
    var f := FieldsByWeight(b);
    var low7 := Below(b, 0x80);
    var low6 := Below(low7, 0x40);
    var low5 := Below(low6, 0x20);
    var high6 := Bit(f.fin, 1);
    var high5 := 2 * high6 + Bit(f.rsv1, 1);
    var high4 := 2 * high5 + Bit(f.rsv2, 1);
    MaskField(7, b, 0, f.fin, low7, 0x80, 0x7F);
    MaskField(6, b, high6, f.rsv1, low6, 0x40, 0x3F);
    MaskField(5, b, high5, f.rsv2, low5, 0x20, 0x1F);
    MaskField(4, b, high4, f.rsv3, f.opcode, 0x10, 0x0F);
  }

  predicate GetMasked(b1: Byte): (masked: bool)
    ensures masked <==> b1 >= 0x80
  {
    hide AndByte;
    BitsOfByte(b1);
    AndByte(b1, 0x80) == 0x80
  }

  function GetBasicSize(b1: Byte): (size: Byte)
    ensures size == Below(b1, 0x80)
  {
    hide AndByte, Below;
    BitsOfByte(b1);
    AndByte(b1, 0x7F)
  }

  function GetMaskingKeyOffset(b1: Byte): nat {
    if GetBasicSize(b1) == PAYLOAD_SIZE_CODE_16BIT then 2
    else if GetBasicSize(b1) == PAYLOAD_SIZE_CODE_64BIT then 8
    else 0
  }

  function GetHeaderLen(b1: Byte): nat {
    BASIC_HEADER_LENGTH + GetMaskingKeyOffset(b1) + if GetMasked(b1) then 4 else 0
  }

  /** Reads an unsigned integer stored most significant byte first. */
  function FromNetwork(e: Endian, b: seq<Byte>): (v: UInt64)
    requires |b| == 2 || |b| == 8
    ensures |b| == 2 ==> v <= 0xFFFF
  {
    var w := SwapToNetwork(e, InMemory(e, b));
    ValueBound(w);
    assert Power(256, 2) == 0x1_0000;
    assert Power(256, 8) == 0x1_0000_0000_0000_0000;
    Value(w)
  }

  function GetPayloadSize(e: Endian, b1: Byte, bytes: seq<Byte>): UInt64
    requires |bytes| == MAX_EXTENDED_HEADER_LENGTH
  {
    if GetBasicSize(b1) <= PAYLOAD_SIZE_BASIC then GetBasicSize(b1)
    else if GetBasicSize(b1) == PAYLOAD_SIZE_CODE_16BIT then FromNetwork(e, bytes[..2])
    else FromNetwork(e, bytes[..8])
  }

  function GetMaskingKey(b1: Byte, bytes: seq<Byte>): Key
    requires |bytes| == MAX_EXTENDED_HEADER_LENGTH
  {
    if !GetMasked(b1) then [0, 0, 0, 0]
    else bytes[GetMaskingKeyOffset(b1)..GetMaskingKeyOffset(b1) + 4]
  }

  // ----- Whole headers -----

  /** What a frame header says. */
  datatype Header = Header(flags: Flags, size: UInt64, key: Option<Key>)

  /** prepare_header */
  function PrepareHeader(b0: Byte, b1: Byte, bytes: seq<Byte>): (h: seq<Byte>)
    requires |bytes| == MAX_EXTENDED_HEADER_LENGTH
  {
    [b0, b1] + bytes[..GetHeaderLen(b1) - BASIC_HEADER_LENGTH]
  }

  function Encode(e: Endian, h: Header): seq<Byte> {
    PrepareHeader(FirstByte(h.flags), SecondByte(h.key.Some?, h.size),
                  ExtendedBytes(e, h.size, if h.key.Some? then h.key.value else [0, 0, 0, 0]))
  }

  /** A complete header: two bytes, and as many more as they call for. */
  predicate Complete(b: seq<Byte>) {
    |b| >= BASIC_HEADER_LENGTH && |b| == GetHeaderLen(b[1])
  }

  /** The received bytes after the first two, in the zeroed array of an extended_header. */
  function Received(b: seq<Byte>): (bytes: seq<Byte>)
    requires Complete(b)
    ensures |bytes| == MAX_EXTENDED_HEADER_LENGTH
  {
    b[2..] + Zeros(14 - |b|)
  }

  function Decode(e: Endian, b: seq<Byte>): Header
    requires Complete(b)
  {
    Header(GetFlags(b[0]), GetPayloadSize(e, b[1], Received(b)),
           if GetMasked(b[1]) then Some(GetMaskingKey(b[1], Received(b))) else None)
  }

  // ----- Properties -----

  /** On either byte order the size field is the big-endian tail of the 8-byte size. */
  lemma NetworkOrder(e: Endian, w: Word)
    ensures InMemory(e, SwapToNetwork(e, w)) == Reversed(w)
    ensures SwapToNetwork(e, InMemory(e, w)) == Reversed(w)
  {
  }

  lemma {:induction false} OctetsValue(n: nat, v: nat)
    requires v < Power(256, n)
    ensures Value(Octets(n, v)) == v
  {
    if n != 0 {
      OctetsValue(n - 1, v / 256);
      assert Octets(n, v)[1..] == Octets(n - 1, v / 256);
    }
  }

  lemma {:induction false} OctetsOfValue(w: Word)
    ensures Octets(|w|, Value(w)) == w
  {
    if w != [] {
      OctetsOfValue(w[1..]);
      assert Value(w) % 256 == w[0] && Value(w) / 256 == Value(w[1..]);
      assert w == [w[0]] + w[1..];
    }
  }

  lemma {:induction false} OctetsPrefix(m: nat, n: nat, v: nat)
    requires m <= n
    ensures Octets(n, v)[..m] == Octets(m, v)
  {
    if m != 0 {
      OctetsPrefix(m - 1, n - 1, v / 256);
    }
  }

  /** Section 5.2 of RFC 6455: the number of bytes of the size beyond the seven bits of the second byte. */
  function SizeBytes(code: Byte): nat {
    if code == PAYLOAD_SIZE_CODE_16BIT then 2 else if code == PAYLOAD_SIZE_CODE_64BIT then 8 else 0
  }

  lemma SizeFieldBytes(e: Endian, size: UInt64)
    ensures SizeField(e, size) == Reversed(Octets(SizeBytes(SizeCode(size)), size))
  {
    var n := SizeBytes(SizeCode(size));
    var w := Octets(8, size);
    NetworkOrder(e, w);
    OctetsPrefix(n, 8, size);
    assert Reversed(w)[8 - n..] == Reversed(w[..n]);
  }

  lemma SecondByteParts(mask: bool, size: UInt64)
    ensures var b1 := SecondByte(mask, size);
            && GetBasicSize(b1) == SizeCode(size) && GetMasked(b1) == mask
            && GetMaskingKeyOffset(b1) == SizeBytes(SizeCode(size))
  {
    hide SecondByte, GetBasicSize, GetMasked;
  }

  /** The bytes on the wire: two fixed bytes, the size, and the key if there is one. */
  lemma EncodedBytes(e: Endian, h: Header)
    ensures Encode(e, h) == [FirstByte(h.flags), SecondByte(h.key.Some?, h.size)]
                            + Reversed(Octets(SizeBytes(SizeCode(h.size)), h.size))
                            + (if h.key.Some? then h.key.value else [])
  {
    SecondByteParts(h.key.Some?, h.size);
    SizeFieldBytes(e, h.size);
    hide SecondByte, SizeField, GetMasked, GetMaskingKeyOffset, FirstByte, SizeCode, Octets;
    var n := SizeBytes(SizeCode(h.size));
    var field := Reversed(Octets(n, h.size));
    var key := if h.key.Some? then h.key.value else [0, 0, 0, 0];
    assert ExtendedBytes(e, h.size, key) == field + key + Zeros(8 - n);
    if h.key.Some? {
      assert (field + key + Zeros(8 - n))[..n + 4] == field + key;
    } else {
      assert (field + key + Zeros(8 - n))[..n] == field;
    }
  }

  // ----- The wire format, in the numbers of section 5.2 of RFC 6455 -----

  lemma FixedBytes(f: Flags, mask: bool, size: UInt64)
    ensures FirstByte(f) == (if f.fin then 128 else 0) + (if f.rsv1 then 64 else 0) + (if f.rsv2 then 32 else 0)
                            + (if f.rsv3 then 16 else 0) + f.opcode % 16
    ensures SecondByte(mask, size) == (if mask then 128 else 0)
                                      + (if size <= 125 then size else if size <= 65535 then 126 else 127)
  {
    hide FirstByte, SecondByte;
  }

  lemma HeaderLengths(b1: Byte)
    ensures GetHeaderLen(b1) == 2 + (if b1 % 128 == 126 then 2 else if b1 % 128 == 127 then 8 else 0)
                                + (if b1 >= 128 then 4 else 0)
  {
    hide GetMasked, GetBasicSize;
    assert GetBasicSize(b1) == b1 % 128;
  }

  lemma TwoOctets(v: nat)
    requires v <= 65535
    ensures Reversed(Octets(2, v)) == [v / 256, v % 256]
  {
    assert Octets(2, v) == [v % 256, v / 256 % 256];
  }

  lemma EightOctets(v: UInt64)
    ensures Reversed(Octets(8, v)) ==
            [v / 0x100_0000_0000_0000, v / 0x1_0000_0000_0000 % 256, v / 0x100_0000_0000 % 256, v / 0x1_0000_0000 % 256,
             v / 0x100_0000 % 256, v / 0x1_0000 % 256, v / 0x100 % 256, v % 256]
  {
    var v1 := v / 256;
    var v2 := v1 / 256;
    var v3 := v2 / 256;
    var v4 := v3 / 256;
    var v5 := v4 / 256;
    var v6 := v5 / 256;
    var v7 := v6 / 256;
    assert v2 == v / 0x1_0000 && v3 == v / 0x100_0000;
    assert v4 == v / 0x1_0000_0000 && v5 == v / 0x100_0000_0000;
    assert v6 == v / 0x1_0000_0000_0000 && v7 == v / 0x100_0000_0000_0000 < 256;
    assert Octets(8, v) == [v % 256] + Octets(7, v1) && Octets(7, v1) == [v1 % 256] + Octets(6, v2);
    assert Octets(6, v2) == [v2 % 256] + Octets(5, v3) && Octets(5, v3) == [v3 % 256] + Octets(4, v4);
    assert Octets(4, v4) == [v4 % 256] + Octets(3, v5) && Octets(3, v5) == [v5 % 256] + Octets(2, v6);
    assert Octets(2, v6) == [v6 % 256] + Octets(1, v7) && Octets(1, v7) == [v7 % 256];
  }

  /** The bytes of a header for every size and key, in network order. */
  lemma WireFormat(e: Endian, h: Header)
    ensures var s := h.size;
            Encode(e, h) == [FirstByte(h.flags), SecondByte(h.key.Some?, s)]
              + (if s <= 125 then []
                 else if s <= 65535 then [s / 256, s % 256]
                 else [s / 0x100_0000_0000_0000, s / 0x1_0000_0000_0000 % 256, s / 0x100_0000_0000 % 256,
                       s / 0x1_0000_0000 % 256, s / 0x100_0000 % 256, s / 0x1_0000 % 256, s / 0x100 % 256, s % 256])
              + (if h.key.Some? then h.key.value else [])
  {
    EncodedBytes(e, h);
    if 125 < h.size <= 65535 {
      TwoOctets(h.size);
    } else if h.size > 65535 {
      EightOctets(h.size);
    }
    hide Encode, FirstByte, SecondByte, Reversed;
  }

  /** The integer with these octets, most significant first. */
  function BigEndian(b: seq<Byte>): nat {
    if b == [] then 0 else 256 * BigEndian(b[..|b| - 1]) + b[|b| - 1]
  }

  lemma {:induction false} ReversedValue(b: seq<Byte>)
    ensures Value(Reversed(b)) == BigEndian(b)
  {
    if b != [] {
      ReversedValue(b[..|b| - 1]);
      assert Reversed(b)[1..] == Reversed(b[..|b| - 1]);
    }
  }

  /** An integer in memory starts with its lowest byte on a little-endian machine, else with its highest. */
  lemma MemoryValues(b: seq<Byte>)
    ensures Value(InMemory(Little, b)) == Value(b)
    ensures Value(InMemory(Big, b)) == BigEndian(b)
  {
    ReversedValue(b);
  }

  /** What the getters read from the fixed bytes. */
  lemma ReadFixedBytes(b0: Byte, b1: Byte)
    ensures var f := GetFlags(b0);
            && f.opcode < 16
            && b0 == (if f.fin then 128 else 0) + (if f.rsv1 then 64 else 0) + (if f.rsv2 then 32 else 0)
                     + (if f.rsv3 then 16 else 0) + f.opcode
    ensures (GetMasked(b1) <==> b1 >= 128) && GetBasicSize(b1) == b1 % 128
  {
    hide GetFlags, GetMasked, GetBasicSize;
  }

  /** What they read as the size, from the second byte and the extended ones. */
  lemma ReadSize(e: Endian, b1: Byte, x: seq<Byte>)
    requires |x| == 12
    ensures GetPayloadSize(e, b1, x) ==
            if b1 % 128 <= 125 then b1 % 128
            else if b1 % 128 == 126 then BigEndian(x[..2])
            else BigEndian(x[..8])
  {
    ReadFixedBytes(0, b1);
    NetworkOrder(e, x[..2]);
    NetworkOrder(e, x[..8]);
    ReversedValue(x[..2]);
    ReversedValue(x[..8]);
    hide GetBasicSize, Value, Reversed, BigEndian, SwapToNetwork, InMemory;
  }

  /** What they read as the key: the four bytes behind the size, or zeros. */
  lemma ReadKey(b1: Byte, x: seq<Byte>)
    requires |x| == 12
    ensures GetMaskingKey(b1, x) ==
            if b1 < 128 then [0, 0, 0, 0]
            else if b1 == 254 then x[2..6] else if b1 == 255 then x[8..12] else x[..4]
  {
    ReadFixedBytes(0, b1);
    hide GetMasked, GetBasicSize;
  }

  lemma FlagsRoundTrip(f: Flags)
    ensures GetFlags(FirstByte(f)) == f.(opcode := f.opcode % 16)
  {
    hide FirstByte, GetFlags;
  }

  /** The five fields of the first byte use all of its bits. */
  lemma FirstByteOfFlags(b0: Byte)
    ensures FirstByte(GetFlags(b0)) == b0
  {
    hide FirstByte, GetFlags;
  }

  lemma {:induction false} SizeRoundTrip(e: Endian, size: UInt64)
    ensures var n := SizeBytes(SizeCode(size));
            n != 0 ==> FromNetwork(e, Reversed(Octets(n, size))) == size
  {
    var n := SizeBytes(SizeCode(size));
    NetworkOrder(e, Reversed(Octets(n, size)));
    assert Reversed(Reversed(Octets(n, size))) == Octets(n, size);
    assert Power(256, 2) == 0x1_0000;
    assert Power(256, 8) == 0x1_0000_0000_0000_0000;
    if n != 0 {
      OctetsValue(n, size);
    }
  }

  lemma SizeDecoded(e: Endian, mask: bool, size: UInt64, bytes: seq<Byte>)
    requires |bytes| == MAX_EXTENDED_HEADER_LENGTH
    requires Reversed(Octets(SizeBytes(SizeCode(size)), size)) <= bytes
    ensures GetPayloadSize(e, SecondByte(mask, size), bytes) == size
  {
    SecondByteParts(mask, size);
    SizeRoundTrip(e, size);
    hide SecondByte, FromNetwork;
    assert bytes[..SizeBytes(SizeCode(size))] == Reversed(Octets(SizeBytes(SizeCode(size)), size));
  }

  /**
    What one machine encodes another decodes, whatever their byte orders.  The
    opcode keeps its low four bits, which is all of it for a valid opcode.
    */
  lemma HeaderRoundTrip(sender: Endian, receiver: Endian, h: Header)
    ensures Complete(Encode(sender, h))
    ensures Decode(receiver, Encode(sender, h)) == h.(flags := h.flags.(opcode := h.flags.opcode % 16))
  {
    hide FirstByte, SecondByte, GetFlags, GetMasked, GetBasicSize;
    var b, b1 := Encode(sender, h), SecondByte(h.key.Some?, h.size);
    var field := Reversed(Octets(SizeBytes(SizeCode(h.size)), h.size));
    EncodedBytes(sender, h);
    SecondByteParts(h.key.Some?, h.size);
    FlagsRoundTrip(h.flags);
    hide Encode, SecondByte, FirstByte, GetFlags, SizeCode, Octets, GetPayloadSize, GetMasked, GetBasicSize;
    assert Complete(b);
    assert field <= Received(b);
    SizeDecoded(receiver, h.key.Some?, h.size, Received(b));
    if h.key.Some? {
      assert Received(b)[|field|..|field| + 4] == h.key.value;
    }
  }

  /** The first two bytes fix the length, so no header is a proper prefix of another. */
  lemma HeadersPrefixFree(e: Endian, g: Header, f: Endian, h: Header)
    requires Encode(e, g) <= Encode(f, h)
    ensures Encode(e, g) == Encode(f, h)
    ensures g.size == h.size && g.key == h.key
    ensures g.flags.opcode % 16 == h.flags.opcode % 16
  {
    HeaderRoundTrip(e, Little, g);
    HeaderRoundTrip(f, Little, h);
    assert Encode(e, g)[1] == Encode(f, h)[1];
  }

  /** The size is in the shortest form section 5.2 of RFC 6455 has for it. */
  predicate Minimal(e: Endian, b: seq<Byte>)
    requires Complete(b)
  {
    var size := Decode(e, b).size;
    && (GetBasicSize(b[1]) == PAYLOAD_SIZE_CODE_16BIT ==> size > PAYLOAD_SIZE_BASIC)
    && (GetBasicSize(b[1]) == PAYLOAD_SIZE_CODE_64BIT ==> size > PAYLOAD_SIZE_EXTENDED)
  }

  lemma SizeIsShortest(e: Endian, b: seq<Byte>)
    requires Complete(b)
    ensures var code := SizeCode(Decode(e, b).size);
            && SizeBytes(code) <= SizeBytes(GetBasicSize(b[1]))
            && (SizeBytes(code) == SizeBytes(GetBasicSize(b[1])) <==> Minimal(e, b))
  {
    hide GetFlags, GetMasked, GetBasicSize, GetMaskingKey, Received, FromNetwork, Complete;
  }

  /** No complete header that decodes to the same contents is shorter than the encoded one. */
  lemma EncodingIsShortest(e: Endian, b: seq<Byte>)
    requires Complete(b)
    ensures |Encode(e, Decode(e, b))| <= |b|
    ensures |Encode(e, Decode(e, b))| == |b| <==> Minimal(e, b)
  {
    hide FirstByte, SecondByte, GetFlags, GetMasked, GetBasicSize, GetPayloadSize, SizeCode, Encode, Octets, Minimal;
    EncodedBytes(e, Decode(e, b));
    SizeIsShortest(e, b);
  }

  /** Decoding and encoding again gives the same bytes exactly for the headers in shortest form. */
  lemma ReencodeIffMinimal(e: Endian, b: seq<Byte>)
    requires Complete(b)
    ensures Encode(e, Decode(e, b)) == b <==> Minimal(e, b)
  {
    EncodingIsShortest(e, b);
    if Minimal(e, b) {
      ReencodeMinimal(e, b);
    }
  }

  /** A complete header is its first two bytes, its size field and its key. */
  lemma CompleteParts(e: Endian, b: seq<Byte>)
    requires Complete(b)
    ensures var n, h := SizeBytes(GetBasicSize(b[1])), Decode(e, b);
            2 + n <= |b| && b == [b[0], b[1]] + Received(b)[..n] + (if h.key.Some? then h.key.value else [])
  {
    var n := SizeBytes(GetBasicSize(b[1]));
    hide GetFlags, GetBasicSize, GetPayloadSize;
    var rest, zeros := b[2..], Zeros(14 - |b|);
    assert n <= |rest| && Received(b) == rest + zeros;
    assert Received(b)[..n] == rest[..n] == b[2..2 + n];
    if GetMasked(b[1]) {
      assert Received(b)[n..n + 4] == rest[n..] == b[2 + n..];
    }
    assert b == [b[0], b[1]] + b[2..2 + n] + b[2 + n..];
  }

  lemma ReencodeMinimal(e: Endian, b: seq<Byte>)
    requires Complete(b) && Minimal(e, b)
    ensures Encode(e, Decode(e, b)) == b
  {
    var h := Decode(e, b);
    assert SizeCode(h.size) == GetBasicSize(b[1]);
    FirstByteOfFlags(b[0]);
    SecondByteOfParts(b[1], h.size);
    hide FirstByte, SecondByte, GetFlags, SizeCode, SizeBytes, Octets, GetPayloadSize, Received, Encode;
    SizeOctets(e, b);
    CompleteParts(e, b);
    EncodedBytes(e, h);
  }

  /** The size of a header, written out again, is the bytes it was read from. */
  lemma SizeOctets(e: Endian, b: seq<Byte>)
    requires Complete(b)
    ensures var n := SizeBytes(GetBasicSize(b[1]));
            Reversed(Octets(n, Decode(e, b).size)) == Received(b)[..n]
  {
    var n := SizeBytes(GetBasicSize(b[1]));
    if n != 0 {
      var field := Received(b)[..n];
      NetworkOrder(e, field);
      OctetsOfValue(SwapToNetwork(e, InMemory(e, field)));
      assert Reversed(Reversed(field)) == field;
    }
  }

  lemma SecondByteOfParts(b1: Byte, size: UInt64)
    requires SizeCode(size) == GetBasicSize(b1)
    ensures SecondByte(GetMasked(b1), size) == b1
  {
    hide SecondByte, GetMasked, GetBasicSize, SizeCode;
  }
}
