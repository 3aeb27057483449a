/**
 The disassembly loop written the way the command runs it: a cursor that
 advances by one per iteration and by the declared operand length inside the
 body for pushes, and an operand built by allocating a zeroed buffer of the
 declared length and copying the available bytes into it. Both are proved to
 compute exactly the functional definitions of `Disassembler`.
 */
module DisasmLoop {
  import opened Opcodes
  import opened Options
  import opened Disassembler

  /** Allocates a zeroed buffer of `l` bytes and copies into it the bytes of
      `code` from `off` up to `off + l`, clipped at the end of the code. */
  method CopyOperand(code: seq<byte>, off: nat, l: nat) returns (data: seq<byte>)
    requires 0 < off <= |code|
    ensures |data| == l
    ensures forall j :: 0 <= j < l && off + j < |code| ==> data[j] == code[off + j]
    ensures forall j :: 0 <= j < l && off + j >= |code| ==> data[j] == 0
    ensures data == Operand(code, off - 1, l)
  {
    var end := if |code| < off + l then |code| else off + l;
    data := Zeros(l);
    var i := 0;
    while i < end - off
      invariant 0 <= i <= end - off
      invariant |data| == l
      invariant forall j :: 0 <= j < i ==> data[j] == code[off + j]
      invariant forall j :: i <= j < l ==> data[j] == 0
    {
      data := data[i := code[off + i]];
      i := i + 1;
    }
    ghost var spec := Operand(code, off - 1, l);
    assert forall j :: 0 <= j < l ==> data[j] == spec[j];
  }

  /** One iteration of the loop body: reads the opcode at the cursor, builds
      the operand of a push, and returns the record together with the cursor
      of the next iteration. */
  method Step(code: seq<byte>, pc: nat) returns (ins: Instruction, next: nat)
    requires pc < |code|
    ensures ins == Decode(code, pc)
    ensures next == ins.End()
    ensures pc < next <= pc + 1 + MaxImmediate
  {
    var op := code[pc];
    var e := op as int;
    next := pc;
    if 0x60 <= e <= 0x7F {
      var l := e - PUSH1 as int + 1;
      var off := pc + 1;
      var data := CopyOperand(code, off, l);
      ins := Instruction(pc, op, Some(data));
      next := next + l;
    } else {
      ins := Instruction(pc, op, None);
    }
    next := next + 1;
  }

  /** Disassembles `code`, returning the listing and the final cursor. */
  method Disassemble(code: seq<byte>) returns (listing: seq<Instruction>, cursor: nat)
    ensures listing == Disasm(code)
    ensures |code| <= cursor <= |code| + MaxImmediate
    ensures cursor == 0 <==> code == []
    ensures cursor > |code| ==> listing != [] && IsPush(listing[|listing| - 1].op)
  {
    listing := [];
    var pc: nat := 0;
    while pc < |code|
      invariant listing + DisasmFrom(code, pc) == Disasm(code)
      invariant listing == [] ==> pc == 0
      invariant listing != [] ==> pc == listing[|listing| - 1].End() && listing[|listing| - 1].pc < |code|
      decreases |code| - pc
    {
      var ins, next := Step(code, pc);
      listing := listing + [ins];
      pc := next;
    }
    cursor := pc;
  }
}
