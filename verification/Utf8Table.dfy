/** The 400-entry table of websocketpp/utf8_validator.hpp, and what it says. */
module Utf8Table {
  import opened Bytes

  const UTF8_ACCEPT := 0
  const UTF8_REJECT := 1

  function Same(v: nat): (row: seq<nat>)
    ensures |row| == 16
    ensures forall k :: 0 <= k < 16 ==> row[k] == v
  {
    seq(16, k => v)
  }

  /** utf8d, sixteen entries to a row: the classes of the 256 bytes, then the transitions of the nine states. */
  function Row(r: nat): (row: seq<nat>)
    requires r < 25
    ensures |row| == 16
  {
    if r < 0x8 then Same(0)
    else if r == 0x8 then Same(1)
    else if r == 0x9 then Same(9)
    else if r < 0xC then Same(7)
    else if r == 0xC then [8, 8, 2, 2, 2, 2, 2, 2, 2, 2, 2, 2, 2, 2, 2, 2]
    else if r == 0xD then Same(2)
    else if r == 0xE then [0xA, 0x3, 0x3, 0x3, 0x3, 0x3, 0x3, 0x3, 0x3, 0x3, 0x3, 0x3, 0x3, 0x4, 0x3, 0x3]
    else if r == 0xF then [0xB, 0x6, 0x6, 0x6, 0x5, 0x8, 0x8, 0x8, 0x8, 0x8, 0x8, 0x8, 0x8, 0x8, 0x8, 0x8]
    else if r == 16 then [0x0, 0x1, 0x2, 0x3, 0x5, 0x8, 0x7, 0x1, 0x1, 0x1, 0x4, 0x6, 0x1, 0x1, 0x1, 0x1]
    else if r == 17 then Same(1)
    else if r == 18 then [1, 0, 1, 1, 1, 1, 1, 0, 1, 0, 1, 1, 1, 1, 1, 1]
    else if r == 19 then [1, 2, 1, 1, 1, 1, 1, 2, 1, 2, 1, 1, 1, 1, 1, 1]
    else if r == 20 then [1, 1, 1, 1, 1, 1, 1, 2, 1, 1, 1, 1, 1, 1, 1, 1]
    else if r == 21 then [1, 2, 1, 1, 1, 1, 1, 1, 1, 2, 1, 1, 1, 1, 1, 1]
    else if r == 22 then [1, 1, 1, 1, 1, 1, 1, 3, 1, 3, 1, 1, 1, 1, 1, 1]
    else if r == 23 then [1, 3, 1, 1, 1, 1, 1, 3, 1, 3, 1, 1, 1, 1, 1, 1]
    else [1, 3, 1, 1, 1, 1, 1, 1, 1, 1, 1, 1, 1, 1, 1, 1]
  }

  function Utf8d(i: nat): nat
    requires i < 400
  {
    Row(i / 16)[i % 16]
  }

  /** The states the automaton can be in. */
  type State = s: nat | s < 9

  /** The character class of a byte. */
  function Class(byte: Byte): (c: nat)
    ensures c < 12
  {
    if byte < 0x80 then 0 else if byte < 0x90 then 1 else if byte < 0xA0 then 9 else if byte < 0xC0 then 7
    else if byte < 0xC2 then 8 else if byte < 0xE0 then 2
    else if byte == 0xE0 then 10 else if byte == 0xED then 4 else if byte < 0xF0 then 3
    else if byte == 0xF0 then 11 else if byte < 0xF4 then 6 else if byte == 0xF4 then 5 else 8
  }

  lemma ClassRows(byte: Byte)
    ensures Utf8d(byte) == Class(byte)
  {
    var k := byte % 16;
    if byte / 16 == 0xC {
      assert Row(0xC)[k] == if k < 2 then 8 else 2;
    } else if byte / 16 == 0xE {
      assert Row(0xE)[k] == if k == 0 then 10 else if k == 13 then 4 else 3;
    } else if byte / 16 == 0xF {
      assert Row(0xF)[k] == if k == 0 then 11 else if k < 4 then 6 else if k == 4 then 5 else 8;
    }
  }

  predicate Between(low: nat, byte: Byte, high: nat) {
    low <= byte <= high
  }

  /** The next state, in terms of the byte. */
  function Delta(s: State, byte: Byte): State {
    match s
    case 0 =>
      if byte < 0x80 then 0
      else if Between(0xC2, byte, 0xDF) then 2
      else if byte == 0xE0 then 4
      else if byte == 0xED then 5
      else if Between(0xE1, byte, 0xEF) then 3
      else if byte == 0xF0 then 6
      else if Between(0xF1, byte, 0xF3) then 7
      else if byte == 0xF4 then 8
      else 1
    case 1 => 1
    case 2 => if Between(0x80, byte, 0xBF) then 0 else 1
    case 3 => if Between(0x80, byte, 0xBF) then 2 else 1
    case 4 => if Between(0xA0, byte, 0xBF) then 2 else 1
    case 5 => if Between(0x80, byte, 0x9F) then 2 else 1
    case 6 => if Between(0x90, byte, 0xBF) then 3 else 1
    case 7 => if Between(0x80, byte, 0xBF) then 3 else 1
    case 8 => if Between(0x80, byte, 0x8F) then 3 else 1
  }

  lemma StateRows(s: State, byte: Byte)
    ensures Row(16 + s)[Class(byte)] == Delta(s, byte)
  {
    var row, c := Row(16 + s), Class(byte);
    match s
    case 0 => assert row == [0, 1, 2, 3, 5, 8, 7, 1, 1, 1, 4, 6, 1, 1, 1, 1];
    case 1 =>
    case 2 => assert row[c] == if c == 1 || c == 7 || c == 9 then 0 else 1;
    case 3 => assert row[c] == if c == 1 || c == 7 || c == 9 then 2 else 1;
    case 4 => assert row[c] == if c == 7 then 2 else 1;
    case 5 => assert row[c] == if c == 1 || c == 9 then 2 else 1;
    case 6 => assert row[c] == if c == 7 || c == 9 then 3 else 1;
    case 7 => assert row[c] == if c == 1 || c == 7 || c == 9 then 3 else 1;
    case 8 => assert row[c] == if c == 1 then 3 else 1;
  }

  /** The table moves from state to state as Delta says. */
  lemma TableIsDelta(s: State, byte: Byte)
    ensures Utf8d(byte) == Class(byte)
    ensures Utf8d(256 + s * 16 + Class(byte)) == Delta(s, byte)
  {
    ClassRows(byte);
    StateRows(s, byte);
    hide Class, Delta, Row;
  }
}
