/**
 The opcode byte classification the disassembler relies on.

 An EVM opcode is a single byte. The only opcodes the disassembler treats
 specially are the push class PUSH1 .. PUSH32 (0x60 .. 0x7F, Appendix H of the
 Ethereum Yellow Paper): each is followed by an immediate operand whose length
 is the opcode's 1-based position in that class. Every other byte value,
 defined opcode or not, is a single-byte instruction.
 */
module Opcodes {

  type byte = bv8

  /** The first and last opcode of the push class. */
  const PUSH1: byte := 0x60
  const PUSH32: byte := 0x7F

  /** The largest immediate operand a push opcode declares. */
  const MaxImmediate: nat := 32

  /** True when `op` is one of PUSH1 .. PUSH32: read as an integer, the
      opcode lies in 0x60 .. 0x7F. */
  predicate IsPush(op: byte): (b: bool)
    ensures b <==> 0x60 <= op as int <= 0x7F
  {
    PUSH1 <= op <= PUSH32
  }

  /** The number of immediate bytes a push opcode declares. */
  function ImmediateLength(op: byte): (l: nat)
    requires IsPush(op)
    ensures 1 <= l <= MaxImmediate
    ensures op as int == PUSH1 as int + l - 1
  {
    (op - PUSH1) as nat + 1
  }

  /** The push opcode that declares `l` immediate bytes: the inverse of
      `ImmediateLength` on the push class. */
  function PushOpcode(l: nat): (op: byte)
    requires 1 <= l <= MaxImmediate
    ensures IsPush(op)
    ensures ImmediateLength(op) == l
  {
    var d := (l - 1) as byte;
    assert d as int == l - 1;
    var op := PUSH1 + d;
    assert op - PUSH1 == d;
    op
  }

  /** The declared operand length determines the push opcode: going from a
      push opcode to its length and back gives the same opcode. */
  lemma PushOpcodeOfLength(op: byte)
    requires IsPush(op)
    ensures PushOpcode(ImmediateLength(op)) == op
  {
  }

  /** The number of bytes one instruction occupies in the code: the opcode
      byte itself plus, for a push, its declared immediate length. */
  function Width(op: byte): (w: nat)
    ensures 1 <= w <= 1 + MaxImmediate
    ensures w > 1 <==> IsPush(op)
  {
    if IsPush(op) then 1 + ImmediateLength(op) else 1
  }
}
