/** Section 4 of RFC 3629: which byte strings are UTF-8, and which characters they encode. */
module Rfc3629 {
  import opened Bytes

  predicate IsTail(b: Byte) {
    0x80 <= b <= 0xBF
  }

  /** UTF8-char */
  predicate IsChar(c: seq<Byte>) {
    || (|c| == 1 && c[0] <= 0x7F)
    || (|c| == 2 && 0xC2 <= c[0] <= 0xDF && IsTail(c[1]))
    || (|c| == 3 && c[0] == 0xE0 && 0xA0 <= c[1] <= 0xBF && IsTail(c[2]))
    || (|c| == 3 && 0xE1 <= c[0] <= 0xEC && IsTail(c[1]) && IsTail(c[2]))
    || (|c| == 3 && c[0] == 0xED && 0x80 <= c[1] <= 0x9F && IsTail(c[2]))
    || (|c| == 3 && 0xEE <= c[0] <= 0xEF && IsTail(c[1]) && IsTail(c[2]))
    || (|c| == 4 && c[0] == 0xF0 && 0x90 <= c[1] <= 0xBF && IsTail(c[2]) && IsTail(c[3]))
    || (|c| == 4 && 0xF1 <= c[0] <= 0xF3 && IsTail(c[1]) && IsTail(c[2]) && IsTail(c[3]))
    || (|c| == 4 && c[0] == 0xF4 && 0x80 <= c[1] <= 0x8F && IsTail(c[2]) && IsTail(c[3]))
  }

  function Flatten(parts: seq<seq<Byte>>): seq<Byte> {
    if parts == [] then [] else parts[0] + Flatten(parts[1..])
  }

  predicate AllChars(chars: seq<seq<Byte>>) {
    forall i :: 0 <= i < |chars| ==> IsChar(chars[i])
  }

  /** UTF8-octets */
  ghost predicate WellFormed(s: seq<Byte>) {
    exists chars :: AllChars(chars) && Flatten(chars) == s
  }

  /** A Unicode scalar value: no surrogates, nothing above U+10FFFF. */
  type Scalar = v: nat | v < 0xD800 || 0xE000 <= v <= 0x10FFFF

  /** The low six bits of `x`, marked as a tail. */
  function Tail(x: nat): (b: Byte)
    ensures IsTail(b)
  {
    0x80 + x % 64
  }

  function TailBits(b: Byte): (x: nat)
    requires IsTail(b)
    ensures x < 64
  {
    b - 0x80
  }

  /** Section 3 of RFC 3629 */
  function Encode(v: Scalar): seq<Byte> {
    var v6 := v / 64;
    var v12 := v6 / 64;
    var v18 := v12 / 64;
    assert v6 <= 0x43FF && v12 <= 0x10F && v18 <= 4;
    if v < 0x80 then [v as Byte]
    else if v < 0x800 then [(0xC0 + v6) as Byte, Tail(v)]
    else if v < 0x1_0000 then [(0xE0 + v12) as Byte, Tail(v6), Tail(v)]
    else [(0xF0 + v18) as Byte, Tail(v12), Tail(v6), Tail(v)]
  }

  function EncodeAll(vs: seq<Scalar>): seq<Byte> {
    if vs == [] then [] else Encode(vs[0]) + EncodeAll(vs[1..])
  }

  /** The scalar value of a character. */
  function ScalarOf(c: seq<Byte>): (v: Scalar)
    requires IsChar(c)
  {
    var lead: int := c[0];
    if |c| == 1 then lead
    else if |c| == 2 then (lead - 0xC0) * 64 + TailBits(c[1])
    else if |c| == 3 then ((lead - 0xE0) * 64 + TailBits(c[1])) * 64 + TailBits(c[2])
    else (((lead - 0xF0) * 64 + TailBits(c[1])) * 64 + TailBits(c[2])) * 64 + TailBits(c[3])
  }

  lemma EncodeScalarOf(c: seq<Byte>)
    requires IsChar(c)
    ensures Encode(ScalarOf(c)) == c
  {
    var v := ScalarOf(c);
    if |c| == 3 {
      assert v / 64 == (c[0] - 0xE0) * 64 + TailBits(c[1]);
    } else if |c| == 4 {
      assert v / 64 == ((c[0] - 0xF0) * 64 + TailBits(c[1])) * 64 + TailBits(c[2]);
      assert v / 64 / 64 == (c[0] - 0xF0) * 64 + TailBits(c[1]);
    }
  }

  lemma EncodeIsChar(v: Scalar)
    ensures IsChar(Encode(v))
  {
    var v6 := v / 64;
    var v12 := v6 / 64;
    assert v == 64 * v6 + v % 64 && v6 == 64 * v12 + v6 % 64 && v12 == 64 * (v12 / 64) + v12 % 64;
  }

  /** A well-formed string is the encoding of some scalar values. */
  lemma {:induction false} CharsEncode(chars: seq<seq<Byte>>) returns (vs: seq<Scalar>)
    requires AllChars(chars)
    ensures EncodeAll(vs) == Flatten(chars)
  {
    if chars == [] {
      vs := [];
    } else {
      var rest := CharsEncode(chars[1..]);
      EncodeScalarOf(chars[0]);
      vs := [ScalarOf(chars[0])] + rest;
    }
  }

  lemma {:induction false} EncodedChars(vs: seq<Scalar>) returns (chars: seq<seq<Byte>>)
    ensures AllChars(chars) && Flatten(chars) == EncodeAll(vs)
  {
    if vs == [] {
      chars := [];
    } else {
      var rest := EncodedChars(vs[1..]);
      EncodeIsChar(vs[0]);
      chars := [Encode(vs[0])] + rest;
    }
  }

  /** The grammar of section 4 describes exactly what the encoding of section 3 produces from scalar values. */
  lemma WellFormedIffEncoded(s: seq<Byte>)
    ensures WellFormed(s) <==> exists vs: seq<Scalar> :: EncodeAll(vs) == s
  {
    if WellFormed(s) {
      var chars :| AllChars(chars) && Flatten(chars) == s;
      var vs := CharsEncode(chars);
    }
    forall vs: seq<Scalar> | EncodeAll(vs) == s ensures WellFormed(s) {
      var chars := EncodedChars(vs);
    }
  }
}

/** The streaming decoder and validator of websocketpp/utf8_validator.hpp. */
module Utf8 {
  import opened Bytes
  import opened Rfc3629
  import opened Utf8Table
  import opened WordValues

  // ----- decode -----

  /** One more than `0xff >> type`, so that `(0xff >> type) & byte` is the remainder of dividing by it. */
  function LeadModulus(c: nat): (m: nat)
    ensures m > 0
  {
    if c == 0 then 256 else if c == 1 then 128 else if c == 2 then 64 else if c == 3 then 32
    else if c == 4 then 16 else if c == 5 then 8 else if c == 6 then 4 else if c == 7 then 2 else 1
  }

  /** The new code point, a uint32_t, so that the shift drops its high bits. */
  function NextCode(s: State, codep: nat, byte: Byte): nat {
    if s != UTF8_ACCEPT then byte % 64 + codep * 64 % 0x1_0000_0000 else byte % LeadModulus(Class(byte))
  }

  /** The code point in the bit operations of the source, on 32-bit integers, with shifts as quotient and product. */
  lemma NextCodeBits(s: State, codep: nat, byte: Byte)
    requires codep < 0x1_0000_0000
    ensures s != UTF8_ACCEPT ==>
              NextCode(s, codep, byte) == OrBits(32, codep * 64 % 0x1_0000_0000, AndByte(byte, 0x3F))
    ensures s == UTF8_ACCEPT ==>
              NextCode(s, codep, byte) == AndByte(byte, OnesShifted(Class(byte)))
    ensures NextCode(s, codep, byte) < 0x1_0000_0000
  {
    hide AndByte, OrBits, OnesShifted, LeadModulus, Class;
    if s != UTF8_ACCEPT {
      ShiftedIn(codep * 64 % 0x1_0000_0000, byte);
    } else {
      LeadBits(byte, Class(byte));
    }
  }

  lemma ShiftedIn(shifted: nat, byte: Byte)
    requires shifted < 0x1_0000_0000 && shifted % 64 == 0
    ensures AndByte(byte, 0x3F) == byte % 64
    ensures OrBits(32, shifted, byte % 64) == byte % 64 + shifted
  {
    SmallPowers();
    hide Power, OrBits, AndBits;
    AndLow(6, 2, byte % 64, byte / 64);
    OrDisjoint(6, 26, byte % 64, shifted / 64);
  }

  lemma SmallPowers()
    ensures Power(2, 6) == 64 && Power(2, 26) == 0x400_0000
  {
    assert Power(2, 13) == 8192;
    PowerSum(2, 13, 13);
  }

  /** `0xff >> type` */
  function OnesShifted(c: nat): (m: Byte)
  {
    if c == 0 then 0xFF else OnesShifted(c - 1) / 2
  }

  lemma {:induction false} OnesAreOnes(c: nat)
    requires c <= 8
    ensures OnesShifted(c) == Power(2, 8 - c) - 1
  {
    if c == 0 {
      PowerOfByte();
    } else {
      OnesAreOnes(c - 1);
      assert Power(2, 8 - (c - 1)) == 2 * Power(2, 8 - c);
    }
  }

  lemma {:induction false} NoOnesLeft(c: nat)
    requires c >= 8
    ensures OnesShifted(c) == 0
  {
    if c == 8 {
      OnesAreOnes(8);
    } else {
      NoOnesLeft(c - 1);
    }
  }

  lemma AndRemainder(b: Byte, m: nat)
    requires m <= 8 && Power(2, m) > 0
    ensures 0 <= Power(2, m) - 1 < 256 && AndByte(b, Power(2, m) - 1) == b % Power(2, m)
  {
    hide Power, AndBits;
    PowerOfByte();
    PowerSum(2, m, 8 - m);
    var p, q := Power(2, m), Power(2, 8 - m);
    assert p * q == 256;
    ProductBound(p, q);
    Division(b, p);
    AndLow(m, 8 - m, b % p, b / p);
  }

  lemma Division(b: nat, p: nat)
    requires p > 0
    ensures b == p * (b / p) + b % p && b % p < p
  {
  }

  lemma ProductBound(p: nat, q: nat)
    requires p * q > 0
    ensures p <= p * q
  {
  }

  /** `(0xff >> type) & byte` is a remainder. */
  lemma LeadBits(byte: Byte, c: nat)
    requires c < 12
    ensures AndByte(byte, OnesShifted(c)) == byte % LeadModulus(c)
  {
    if c <= 8 {
      OnesAreOnes(c);
      LeadPower(c);
      AndRemainder(byte, 8 - c);
    } else {
      NoOnesLeft(c);
      AndBitsZero(8, byte);
    }
    hide AndBits, OnesShifted;
  }

  lemma LeadPower(c: nat)
    requires c <= 8
    ensures LeadModulus(c) == Power(2, 8 - c)
  {
    assert Power(2, 0) == 1 && Power(2, 1) == 2 && Power(2, 2) == 4 && Power(2, 3) == 8 && Power(2, 4) == 16;
    assert Power(2, 5) == 32 && Power(2, 6) == 64 && Power(2, 7) == 128 && Power(2, 8) == 256;
  }

  /** decode, which writes through its two pointers */
  method Decode(state: State, codep: nat, byte: Byte) returns (state': State, codep': nat)
    ensures state' == Delta(state, byte)
    ensures codep' == NextCode(state, codep, byte)
  {
    TableIsDelta(state, byte);
    var c := Utf8d(byte);
    codep' := if state != UTF8_ACCEPT then byte % 64 + codep * 64 % 0x1_0000_0000 else byte % LeadModulus(c);
    state' := Utf8d(256 + state * 16 + c);
  }

  /** The state after some bytes. */
  function Run(s: State, bytes: seq<Byte>): State
    decreases |bytes|
  {
    if bytes == [] then s else Run(Delta(s, bytes[0]), bytes[1..])
  }

  /** The code point after some bytes. */
  function RunCode(s: State, codep: nat, bytes: seq<Byte>): nat
    decreases |bytes|
  {
    if bytes == [] then codep else RunCode(Delta(s, bytes[0]), NextCode(s, codep, bytes[0]), bytes[1..])
  }

  /** The code points the decoder holds each time it comes back to the accept state. */
  function Decoded(s: State, codep: nat, bytes: seq<Byte>): seq<nat>
    decreases |bytes|
  {
    if bytes == [] then []
    else
      var s', codep' := Delta(s, bytes[0]), NextCode(s, codep, bytes[0]);
      (if s' == UTF8_ACCEPT then [codep'] else []) + Decoded(s', codep', bytes[1..])
  }

  lemma {:induction false} RunConcat(s: State, a: seq<Byte>, b: seq<Byte>)
    ensures Run(s, a + b) == Run(Run(s, a), b)
    decreases |a|
  {
    if a == [] {
      assert a + b == b;
    } else {
      assert (a + b)[1..] == a[1..] + b;
      RunConcat(Delta(s, a[0]), a[1..], b);
    }
  }

  lemma {:induction false} RejectAbsorbs(bytes: seq<Byte>)
    ensures Run(UTF8_REJECT, bytes) == UTF8_REJECT
  {
    if bytes != [] {
      RejectAbsorbs(bytes[1..]);
    }
  }

  // ----- The language the automaton accepts -----

  lemma Run4(s: State, bytes: seq<Byte>)
    ensures |bytes| >= 1 ==> Run(s, bytes) == Run(Delta(s, bytes[0]), bytes[1..])
    ensures |bytes| >= 2 ==> Run(s, bytes) == Run(Delta(Delta(s, bytes[0]), bytes[1]), bytes[2..])
    ensures |bytes| >= 3 ==> Run(s, bytes) == Run(Delta(Delta(Delta(s, bytes[0]), bytes[1]), bytes[2]), bytes[3..])
    ensures |bytes| >= 4 ==>
              Run(s, bytes) == Run(Delta(Delta(Delta(Delta(s, bytes[0]), bytes[1]), bytes[2]), bytes[3]), bytes[4..])
  {
    if |bytes| >= 2 {
      assert bytes[1..][1..] == bytes[2..];
    }
    if |bytes| >= 3 {
      assert bytes[2..][1..] == bytes[3..];
    }
    if |bytes| >= 4 {
      assert bytes[3..][1..] == bytes[4..];
    }
  }

  lemma RunChar(c: seq<Byte>)
    requires IsChar(c)
    ensures Run(UTF8_ACCEPT, c) == UTF8_ACCEPT
    ensures forall n :: 0 < n < |c| ==> Run(UTF8_ACCEPT, c[..n]) != UTF8_ACCEPT
    ensures forall n :: 0 < n < |c| ==> Run(UTF8_ACCEPT, c[..n]) != UTF8_REJECT
  {
    Run4(UTF8_ACCEPT, c);
    forall n | 0 < n < |c|
      ensures Run(UTF8_ACCEPT, c[..n]) != UTF8_ACCEPT && Run(UTF8_ACCEPT, c[..n]) != UTF8_REJECT
    {
      Run4(UTF8_ACCEPT, c[..n]);
    }
  }

  /** An accepted string begins with a character, and what follows it is accepted. */
  lemma FirstChar(s: seq<Byte>) returns (n: nat)
    requires s != [] && Run(UTF8_ACCEPT, s) == UTF8_ACCEPT
    ensures 0 < n <= |s| && IsChar(s[..n]) && Run(UTF8_ACCEPT, s[n..]) == UTF8_ACCEPT
  {
    Run4(UTF8_ACCEPT, s);
    n := if s[0] < 0x80 then 1 else if s[0] < 0xE0 then 2 else if s[0] < 0xF0 then 3 else 4;
    forall k | 0 <= k <= |s| {
      RejectAbsorbs(s[k..]);
    }
  }

  lemma {:induction false} RunChars(chars: seq<seq<Byte>>)
    requires AllChars(chars)
    ensures Run(UTF8_ACCEPT, Flatten(chars)) == UTF8_ACCEPT
  {
    if chars != [] {
      RunChar(chars[0]);
      RunChars(chars[1..]);
      RunConcat(UTF8_ACCEPT, chars[0], Flatten(chars[1..]));
    }
  }

  lemma {:induction false} AcceptedChars(s: seq<Byte>) returns (chars: seq<seq<Byte>>)
    requires Run(UTF8_ACCEPT, s) == UTF8_ACCEPT
    ensures AllChars(chars) && Flatten(chars) == s
    decreases |s|
  {
    if s == [] {
      chars := [];
    } else {
      var n := FirstChar(s);
      var rest := AcceptedChars(s[n..]);
      chars := [s[..n]] + rest;
    }
  }

  /** The table accepts exactly the grammar of section 4 of RFC 3629. */
  lemma AcceptedIffWellFormed(s: seq<Byte>)
    ensures Run(UTF8_ACCEPT, s) == UTF8_ACCEPT <==> WellFormed(s)
  {
    if Run(UTF8_ACCEPT, s) == UTF8_ACCEPT {
      var chars := AcceptedChars(s);
    }
    if WellFormed(s) {
      var chars :| AllChars(chars) && Flatten(chars) == s;
      RunChars(chars);
    }
  }

  // ----- Code points -----

  lemma RunCode4(s: State, codep: nat, bytes: seq<Byte>)
    ensures |bytes| == 1 ==> RunCode(s, codep, bytes) == NextCode(s, codep, bytes[0])
    ensures |bytes| > 1 ==>
              RunCode(s, codep, bytes) == RunCode(Delta(s, bytes[0]), NextCode(s, codep, bytes[0]), bytes[1..])
  {
    if |bytes| == 1 {
      assert bytes[1..] == [];
    }
  }

  /** The bits a lead byte carries: those of the scalar value above its tails. */
  lemma LeadCode(v: Scalar, codep: nat)
    ensures NextCode(UTF8_ACCEPT, codep, Encode(v)[0])
            == if v < 0x80 then v else if v < 0x800 then v / 64
               else if v < 0x1_0000 then v / 64 / 64 else v / 64 / 64 / 64
  {
  }

  lemma TailCode(s: State, codep: nat, x: nat)
    requires s != UTF8_ACCEPT && codep <= 0x10FFFF
    ensures NextCode(s, codep, Tail(x)) == codep * 64 + x % 64
  {
  }

  /** From the accept state the bytes of a scalar value leave exactly that value. */
  lemma CodeOfScalar(v: Scalar, codep: nat)
    ensures RunCode(UTF8_ACCEPT, codep, Encode(v)) == v
  {
    var c := Encode(v);
    EncodeIsChar(v);
    LeadCode(v, codep);
    hide NextCode, Tail, Class;
    var c1 := NextCode(UTF8_ACCEPT, codep, c[0]);
    var s1 := Delta(UTF8_ACCEPT, c[0]);
    var v6, v12 := v / 64, v / 64 / 64;
    assert v == v6 * 64 + v % 64 && v6 == v12 * 64 + v6 % 64 && v12 == v12 / 64 * 64 + v12 % 64;
    RunCode4(UTF8_ACCEPT, codep, c);
    if |c| == 2 {
      TailCode(s1, c1, v);
      RunCode4(s1, c1, [Tail(v)]);
      assert c[1..] == [Tail(v)];
    } else if |c| == 3 {
      var s2 := Delta(s1, Tail(v6));
      TailCode(s1, c1, v6);
      TailCode(s2, v6, v);
      RunCode4(s1, c1, [Tail(v6), Tail(v)]);
      RunCode4(s2, v6, [Tail(v)]);
      assert c[1..] == [Tail(v6), Tail(v)] && c[1..][1..] == [Tail(v)];
    } else if |c| == 4 {
      var s2 := Delta(s1, Tail(v12));
      var s3 := Delta(s2, Tail(v6));
      TailCode(s1, c1, v12);
      TailCode(s2, v12, v6);
      TailCode(s3, v6, v);
      RunCode4(s1, c1, [Tail(v12), Tail(v6), Tail(v)]);
      RunCode4(s2, v12, [Tail(v6), Tail(v)]);
      RunCode4(s3, v6, [Tail(v)]);
      assert c[1..] == [Tail(v12), Tail(v6), Tail(v)];
      assert c[1..][1..] == [Tail(v6), Tail(v)] && c[1..][1..][1..] == [Tail(v)];
    }
  }

  /** A character is reported once, at its last byte. */
  lemma {:induction false} DecodedOnce(s: State, codep: nat, bytes: seq<Byte>, rest: seq<Byte>)
    requires bytes != [] && Run(s, bytes) == UTF8_ACCEPT
    requires forall n :: 0 < n < |bytes| ==> Run(s, bytes[..n]) != UTF8_ACCEPT
    ensures Decoded(s, codep, bytes + rest)
            == [RunCode(s, codep, bytes)] + Decoded(UTF8_ACCEPT, RunCode(s, codep, bytes), rest)
    decreases |bytes|
  {
    var s', codep' := Delta(s, bytes[0]), NextCode(s, codep, bytes[0]);
    assert (bytes + rest)[1..] == bytes[1..] + rest;
    if |bytes| == 1 {
      assert bytes[1..] + rest == rest;
    } else {
      assert Run(s, bytes[..1]) == s' by {
        assert bytes[..1][1..] == [];
      }
      forall n | 0 < n < |bytes[1..]|
        ensures Run(s', bytes[1..][..n]) != UTF8_ACCEPT
      {
        assert bytes[..n + 1][1..] == bytes[1..][..n];
        assert Run(s, bytes[..n + 1]) == Run(s', bytes[1..][..n]);
      }
      DecodedOnce(s', codep', bytes[1..], rest);
    }
  }

  /** Decoding the encoding of a list of scalar values gives back the list. */
  lemma {:induction false} DecodeEncode(vs: seq<Scalar>, codep: nat)
    ensures Run(UTF8_ACCEPT, EncodeAll(vs)) == UTF8_ACCEPT
    ensures Decoded(UTF8_ACCEPT, codep, EncodeAll(vs)) == vs
    decreases |vs|
  {
    if vs == [] {
      return;
    }
    var c, rest := Encode(vs[0]), EncodeAll(vs[1..]);
    assert EncodeAll(vs) == c + rest;
    EncodeIsChar(vs[0]);
    RunChar(c);
    assert c != [];
    hide Encode, EncodeAll, IsChar, Delta, NextCode, Run, RunCode, Decoded;
    CodeOfScalar(vs[0], codep);
    DecodedOnce(UTF8_ACCEPT, codep, c, rest);
    DecodeEncode(vs[1..], vs[0]);
    RunConcat(UTF8_ACCEPT, c, rest);
    assert vs == [vs[0]] + vs[1..];
  }

  /** Encoding what was decoded from an accepted string gives back the string. */
  lemma EncodeDecode(bytes: seq<Byte>, codep: nat) returns (vs: seq<Scalar>)
    requires Run(UTF8_ACCEPT, bytes) == UTF8_ACCEPT
    ensures Decoded(UTF8_ACCEPT, codep, bytes) == vs && EncodeAll(vs) == bytes
  {
    var chars := AcceptedChars(bytes);
    vs := CharsEncode(chars);
    DecodeEncode(vs, codep);
  }

  // ----- validator -----

  class Validator {
    var mState: State
    var mCodepoint: nat

    constructor ()
      ensures mState == UTF8_ACCEPT && mCodepoint == 0
    {
      mState, mCodepoint := UTF8_ACCEPT, 0;
    }

    method Consume(byte: Byte) returns (ok: bool)
      modifies this
      ensures mState == Delta(old(mState), byte)
      ensures mCodepoint == NextCode(old(mState), old(mCodepoint), byte)
      ensures ok <==> mState != UTF8_REJECT
    {
      mState, mCodepoint := Decode(mState, mCodepoint, byte);
      ok := mState != UTF8_REJECT;
    }

    /**
      validator::decode.  It stops at the first byte that leads to the reject
      state, where the rest of the bytes would have kept it.  After a rejection
      it still returns true on an empty range.
      */
    method DecodeRange(bytes: seq<Byte>) returns (ok: bool)
      modifies this
      ensures mState == Run(old(mState), bytes)
      ensures ok <==> bytes == [] || mState != UTF8_REJECT
      ensures ok ==> mCodepoint == RunCode(old(mState), old(mCodepoint), bytes)
    {
      var it := 0;
      assert bytes[0..] == bytes;
      while it != |bytes|
        invariant 0 <= it <= |bytes|
        invariant it > 0 ==> mState != UTF8_REJECT
        invariant Run(mState, bytes[it..]) == Run(old(mState), bytes)
        invariant RunCode(mState, mCodepoint, bytes[it..]) == RunCode(old(mState), old(mCodepoint), bytes)
      {
        assert bytes[it..][1..] == bytes[it + 1..];
        mState, mCodepoint := Decode(mState, mCodepoint, bytes[it]);
        if mState == UTF8_REJECT {
          RejectAbsorbs(bytes[it + 1..]);
          return false;
        }
        it := it + 1;
      }
      return true;
    }

    method IsComplete() returns (ok: bool)
      ensures ok <==> mState == UTF8_ACCEPT
    {
      ok := mState == UTF8_ACCEPT;
    }

    method Reset()
      modifies this
      ensures mState == UTF8_ACCEPT && mCodepoint == 0
    {
      mState, mCodepoint := UTF8_ACCEPT, 0;
    }
  }

  /** validate */
  method Validate(s: seq<Byte>) returns (ok: bool)
    ensures ok <==> WellFormed(s)
  {
    AcceptedIffWellFormed(s);
    var v := new Validator();
    var decoded := v.DecodeRange(s);
    if !decoded {
      return false;
    }
    ok := v.IsComplete();
  }

  // ----- Validation chunk by chunk -----

  /** The state after feeding the chunks in turn, and whether every call returned true. */
  function Feed(s: State, chunks: seq<seq<Byte>>): (r: (State, bool))
    decreases |chunks|
  {
    if chunks == [] then (s, true)
    else
      var s' := Run(s, chunks[0]);
      var (end, ok) := Feed(s', chunks[1..]);
      (end, (chunks[0] == [] || s' != UTF8_REJECT) && ok)
  }

  lemma {:induction false} FeedRuns(s: State, chunks: seq<seq<Byte>>)
    ensures Feed(s, chunks).0 == Run(s, Flatten(chunks))
    ensures s != UTF8_REJECT ==> (Feed(s, chunks).1 <==> Run(s, Flatten(chunks)) != UTF8_REJECT)
    decreases |chunks|
  {
    if chunks != [] {
      var rest := Flatten(chunks[1..]);
      RunConcat(s, chunks[0], rest);
      FeedRuns(Run(s, chunks[0]), chunks[1..]);
      RejectAbsorbs(rest);
    }
  }

  /** Validating a message chunk by chunk gives the verdict of validating it whole, wherever it is cut. */
  lemma ChunkedVerdict(chunks: seq<seq<Byte>>)
    ensures Feed(UTF8_ACCEPT, chunks).1 && Feed(UTF8_ACCEPT, chunks).0 == UTF8_ACCEPT <==> WellFormed(Flatten(chunks))
  {
    FeedRuns(UTF8_ACCEPT, chunks);
    AcceptedIffWellFormed(Flatten(chunks));
  }
}
