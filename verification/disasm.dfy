/**
 The disassembler: a single forward pass over a bytecode sequence that emits
 one instruction record per opcode.

 The cursor starts at 0. At each step the byte under the cursor is the opcode;
 a push opcode owns the next `ImmediateLength(op)` bytes as its operand, and
 the cursor moves past the opcode and the whole declared operand, even when
 the operand runs past the end of the code. A truncated operand is not an
 error: its missing bytes read as zero.
 */
module Disassembler {
  import opened Opcodes
  import opened Options

  /** One line of the listing: the program counter of the opcode, the opcode
      byte, and the immediate operand when the opcode is a push. */
  datatype Instruction = Instruction(pc: nat, op: byte, operand: Option<seq<byte>>) {

    /** One past the last byte the instruction declares: where the next
        instruction starts. */
    function End(): (e: nat)
      ensures pc < e <= pc + 1 + MaxImmediate
      ensures e > pc + 1 <==> IsPush(op)
      ensures IsPush(op) ==> e - (pc + 1) == ImmediateLength(op)
    {
      pc + Width(op)
    }
  }

  /** A freshly allocated, zero-filled byte buffer of length `n`. */
  function Zeros(n: nat): (z: seq<byte>)
    ensures |z| == n
    ensures forall i :: 0 <= i < n ==> z[i] == 0
  {
    seq(n, _ => 0)
  }

  /** The operand of a push at `pc` declaring `l` bytes: a buffer of exactly
      `l` bytes into which the available bytes after the opcode are copied. */
  function Operand(code: seq<byte>, pc: nat, l: nat): (data: seq<byte>)
    requires pc < |code|
    ensures |data| == l
    ensures forall i :: 0 <= i < l ==>
              data[i] == (if pc + 1 + i < |code| then code[pc + 1 + i] else 0)
  {
    var off := pc + 1;
    var end := if |code| < off + l then |code| else off + l;
    code[off..end] + Zeros(l - (end - off))
  }

  /** The record for the opcode at `pc`. */
  function Decode(code: seq<byte>, pc: nat): (ins: Instruction)
    requires pc < |code|
    ensures ins.pc == pc && ins.op == code[pc]
    ensures ins.operand.Some? <==> IsPush(code[pc])
    ensures ins.operand.Some? ==> |ins.operand.value| == ImmediateLength(code[pc])
    ensures ins.operand.Some? ==>
              forall i :: 0 <= i < |ins.operand.value| ==>
                ins.operand.value[i] == (if pc + 1 + i < |code| then code[pc + 1 + i] else 0)
  {
    var op := code[pc];
    if IsPush(op) then Instruction(pc, op, Some(Operand(code, pc, ImmediateLength(op))))
    else Instruction(pc, op, None)
  }

  /** The records of the listing from cursor `pc` on. */
  function DisasmFrom(code: seq<byte>, pc: nat): (r: seq<Instruction>)
    decreases |code| - pc
    ensures r == [] <==> pc >= |code|
    ensures r != [] ==> pc + |r| <= |code|
    ensures r != [] ==> r[0].pc == pc
  {
    if pc >= |code| then []
    else
      var ins := Decode(code, pc);
      [ins] + DisasmFrom(code, ins.End())
  }

  /** `r` is framed over `code` from cursor `pc`: each record is the decoding
      of the byte at its own program counter, which lies in the code at or
      after `pc`; each record starts where the previous one ends; and the last
      one reaches the end of the code. */
  ghost predicate Framed(code: seq<byte>, pc: nat, r: seq<Instruction>) {
    && (forall k :: 0 <= k < |r| ==> pc <= r[k].pc < |code| && r[k] == Decode(code, r[k].pc))
    && (forall k :: 0 <= k < |r| - 1 ==> r[k + 1].pc == r[k].End())
    && (r != [] ==> r[|r| - 1].End() >= |code|)
  }

  /** The listing from any cursor is framed. */
  lemma {:induction false} Framing(code: seq<byte>, pc: nat)
    ensures Framed(code, pc, DisasmFrom(code, pc))
    decreases |code| - pc
  {
    if pc < |code| {
      var ins := Decode(code, pc);
      var rest := DisasmFrom(code, ins.End());
      Framing(code, ins.End());
      var r := DisasmFrom(code, pc);
      assert r == [ins] + rest;
      forall k | 0 <= k < |r|
        ensures pc <= r[k].pc < |code| && r[k] == Decode(code, r[k].pc)
      {
        if k > 0 { assert r[k] == rest[k - 1]; }
      }
      forall k | 0 <= k < |r| - 1
        ensures r[k + 1].pc == r[k].End()
      {
        if k > 0 { assert r[k] == rest[k - 1] && r[k + 1] == rest[k]; }
      }
    }
  }

  /** The whole listing of `code`. */
  function Disasm(code: seq<byte>): (r: seq<Instruction>)
    ensures r == [] <==> code == []
    ensures |r| <= |code|
    ensures r != [] ==> r[0].pc == 0
  {
    DisasmFrom(code, 0)
  }

  /** The listing of `code` is framed from cursor 0: every record is the
      decoding of the byte at its program counter, records follow one another
      without gap, and the last one reaches the end of the code. */
  lemma Listing(code: seq<byte>)
    ensures var r := Disasm(code);
            && (forall k :: 0 <= k < |r| ==> r[k].pc < |code| && r[k] == Decode(code, r[k].pc))
            && (forall k :: 0 <= k < |r| - 1 ==> r[k + 1].pc == r[k].End())
            && (r != [] ==> r[|r| - 1].End() >= |code|)
  {
    Framing(code, 0);
  }

  // ---------------------------------------------------------------------------
  // Shape of each record
  // ---------------------------------------------------------------------------

  /** Every byte value, defined opcode or not, yields a record; only push
      records carry an operand, and that operand has exactly the declared
      length. */
  lemma RecordShape(code: seq<byte>, k: nat)
    requires k < |Disasm(code)|
    ensures var ins := Disasm(code)[k];
            && ins.pc < |code|
            && ins.op == code[ins.pc]
            && (ins.operand.Some? <==> IsPush(ins.op))
            && (ins.operand.Some? ==> |ins.operand.value| == ImmediateLength(ins.op))
  {
    Listing(code);
  }

  /** A push whose declared operand fits in the code carries exactly the bytes
      that follow its opcode. */
  lemma OperandInBounds(code: seq<byte>, k: nat)
    requires k < |Disasm(code)|
    requires IsPush(Disasm(code)[k].op)
    requires Disasm(code)[k].End() <= |code|
    ensures var ins := Disasm(code)[k];
            ins.operand == Some(code[ins.pc + 1 .. ins.End()])
  {
    Listing(code);
    var ins := Disasm(code)[k];
    assert ins.operand.value == code[ins.pc + 1 .. ins.End()];
  }

  /** A push whose declared operand runs past the end of the code carries
      the remaining bytes followed by zeros up to the declared length. The
      result is never shorter than declared. */
  lemma OperandTruncated(code: seq<byte>, k: nat)
    requires k < |Disasm(code)|
    requires IsPush(Disasm(code)[k].op)
    requires Disasm(code)[k].End() > |code|
    ensures var ins := Disasm(code)[k];
            && ins.pc < |code|
            && ins.operand == Some(code[ins.pc + 1 ..] + Zeros(ins.End() - |code|))
            && |ins.operand.value| == ImmediateLength(ins.op)
  {
    Listing(code);
    var ins := Disasm(code)[k];
    assert ins.operand.value == code[ins.pc + 1 ..] + Zeros(ins.End() - |code|);
  }

  // ---------------------------------------------------------------------------
  // Framing: records are ordered, disjoint and cover the code
  // ---------------------------------------------------------------------------

  /** A record ends no later than any later record starts. */
  lemma {:induction false} NoOverlapPair(code: seq<byte>, j: nat, k: nat)
    requires j < k < |Disasm(code)|
    ensures Disasm(code)[j].End() <= Disasm(code)[k].pc
    decreases k - j
  {
    Listing(code);
    var r := Disasm(code);
    if j + 1 < k {
      NoOverlapPair(code, j + 1, k);
      assert r[j].End() == r[j + 1].pc < r[j + 1].End();
    }
  }

  /** Records never overlap, so program counters strictly increase. */
  lemma NoOverlap(code: seq<byte>)
    ensures var r := Disasm(code);
            forall j, k :: 0 <= j < k < |r| ==> r[j].End() <= r[k].pc && r[j].pc < r[k].pc
  {
    var r := Disasm(code);
    forall j, k | 0 <= j < k < |r|
      ensures r[j].End() <= r[k].pc && r[j].pc < r[k].pc
    {
      NoOverlapPair(code, j, k);
    }
  }

  /** Only the last record may declare bytes past the end of the code; every
      earlier record ends inside it. */
  lemma OnlyLastOverruns(code: seq<byte>, k: nat)
    requires k < |Disasm(code)|
    requires Disasm(code)[k].End() > |code|
    ensures k == |Disasm(code)| - 1
    ensures IsPush(Disasm(code)[k].op)
  {
    var r := Disasm(code);
    if k + 1 < |r| {
      InnerRecordEndsInside(code, k);
      assert false;
    } else {
      Listing(code);
    }
  }

  /** A record that is followed by another ends inside the code. */
  lemma InnerRecordEndsInside(code: seq<byte>, k: nat)
    requires k + 1 < |Disasm(code)|
    ensures Disasm(code)[k].End() < |code|
  {
    Listing(code);
    var r := Disasm(code);
    assert r[k + 1].pc == r[k].End();
  }

  /** Index `i` of the code lies inside record `k` (its opcode or operand). */
  ghost predicate Owns(r: seq<Instruction>, k: nat, i: nat) {
    k < |r| && r[k].pc <= i < r[k].End()
  }

  /** Every index of the code belongs to some record: the records leave no gap. */
  lemma {:induction false} NoGap(code: seq<byte>, i: nat)
    requires i < |code|
    ensures exists k: nat :: Owns(Disasm(code), k, i)
  {
    Listing(code);
    var r := Disasm(code);
    var k := 0;
    while r[k].End() <= i
      invariant k < |r|
      invariant r[k].pc <= i
      decreases i - r[k].pc
    {
      assert k + 1 < |r|;
      k := k + 1;
    }
    assert Owns(r, k, i);
  }

  /** Every index of the code belongs to exactly one record. */
  lemma UniqueOwner(code: seq<byte>, i: nat)
    requires i < |code|
    ensures exists k: nat :: Owns(Disasm(code), k, i)
    ensures forall j: nat, k: nat :: Owns(Disasm(code), j, i) && Owns(Disasm(code), k, i) ==> j == k
  {
    var r := Disasm(code);
    NoGap(code, i);
    forall j, k | Owns(r, j, i) && Owns(r, k, i)
      ensures j == k
    {
      if j < k { NoOverlapPair(code, j, k); }
      if k < j { NoOverlapPair(code, k, j); }
    }
  }

  /** An index of the code is the program counter of a record exactly when it
      does not fall inside the immediate operand of some record. */
  lemma StartIffNotOperand(code: seq<byte>, i: nat)
    requires i < |code|
    ensures var r := Disasm(code);
            (exists k :: 0 <= k < |r| && r[k].pc == i)
            <==> !(exists k :: 0 <= k < |r| && r[k].pc < i < r[k].End())
  {
    var r := Disasm(code);
    UniqueOwner(code, i);
    var k: nat :| Owns(r, k, i);
    if r[k].pc == i {
      forall k' | 0 <= k' < |r| && r[k'].pc < i < r[k'].End()
        ensures false
      {
        assert Owns(r, k', i);
      }
    } else {
      forall k' | 0 <= k' < |r| && r[k'].pc == i
        ensures false
      {
        assert Owns(r, k', i);
      }
    }
  }

  /** The cursor at the end of the pass: one past the last record's declared
      bytes. It reaches the end of the code, and passes it only when the last
      record is a push whose operand is truncated. */
  lemma FinalCursor(code: seq<byte>)
    requires code != []
    ensures var last := Disasm(code)[|Disasm(code)| - 1];
            && |code| <= last.End() <= |code| + MaxImmediate
            && (last.End() > |code| ==> IsPush(last.op))
  {
    Listing(code);
  }

  // ---------------------------------------------------------------------------
  // Examples
  // ---------------------------------------------------------------------------

  /** PUSH1 0x01, PUSH1 0x02, ADD, STOP. */
  lemma ExampleAddition()
    ensures Disasm([0x60, 0x01, 0x60, 0x02, 0x01, 0x00])
         == [ Instruction(0, 0x60, Some([0x01])),
              Instruction(2, 0x60, Some([0x02])),
              Instruction(4, 0x01, None),
              Instruction(5, 0x00, None) ]
  {
    var code: seq<byte> := [0x60, 0x01, 0x60, 0x02, 0x01, 0x00];
    assert Operand(code, 0, 1) == [0x01];
    assert Operand(code, 2, 1) == [0x02];
    assert DisasmFrom(code, 6) == [];
    assert DisasmFrom(code, 5) == [Instruction(5, 0x00, None)];
    assert DisasmFrom(code, 4) == [Instruction(4, 0x01, None)] + DisasmFrom(code, 5);
    assert DisasmFrom(code, 2) == [Instruction(2, 0x60, Some([0x02]))] + DisasmFrom(code, 4);
    assert DisasmFrom(code, 0) == [Instruction(0, 0x60, Some([0x01]))] + DisasmFrom(code, 2);
  }

  /** A lone PUSH2 at the end of the code still carries a two-byte operand,
      with the byte that is present followed by a zero. */
  lemma ExampleTruncatedPush()
    ensures Disasm([0x00, 0x61, 0xAB])
         == [ Instruction(0, 0x00, None),
              Instruction(1, 0x61, Some([0xAB, 0x00])) ]
  {
    var code: seq<byte> := [0x00, 0x61, 0xAB];
    assert Zeros(1) == [0x00];
    assert code[2..3] == [0xAB];
    assert Operand(code, 1, 2) == [0xAB] + [0x00] == [0xAB, 0x00];
    assert ImmediateLength(0x61) == 2;
    assert Decode(code, 1) == Instruction(1, 0x61, Some([0xAB, 0x00]));
    assert Decode(code, 1).End() == 4;
    assert DisasmFrom(code, 4) == [];
    assert DisasmFrom(code, 1) == [Instruction(1, 0x61, Some([0xAB, 0x00]))];
    assert Decode(code, 0) == Instruction(0, 0x00, None);
    assert Decode(code, 0).End() == 1;
    assert DisasmFrom(code, 0) == [Instruction(0, 0x00, None)] + DisasmFrom(code, 1);
  }
}
