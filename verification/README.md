# EVM bytecode disassembler — a Dafny model

This project models the disassembler of the `evm` command-line tool
(`evm disasm <hex-bytecode>`). The tool walks a byte sequence and prints one
line per opcode. Each line holds the program counter, the opcode and, for a
push opcode, its immediate operand.

The push class is PUSH1 .. PUSH32, bytes `0x60` .. `0x7F`, as in Appendix H of
the Ethereum Yellow Paper. A push opcode declares `L = op - 0x60 + 1` operand
bytes. The cursor skips the opcode byte and all `L` declared bytes, even when
they run past the end of the code. The operand of such a truncated push is
still exactly `L` bytes long. The command allocates a zeroed buffer of `L`
bytes and copies in only the bytes that exist, so the missing bytes read as
zero.

Files:

- `options.dfy` — module `Options`: the `Option` datatype used for operands.
- `opcodes.dfy` — module `Opcodes`: bytes as `bv8`, the push class, the declared
  operand length and its inverse, and the width of one instruction.
- `disasm.dfy` — module `Disassembler`: the `Instruction` record, the operand
  construction, the recursive listing `Disasm`, and the framing lemmas. The
  lemmas say that records are disjoint, leave no gap and start exactly where
  no operand covers the byte. They also cover operand contents for in-bounds
  and truncated pushes, and two worked examples.
- `loop.dfy` — module `DisasmLoop`: the command's `for pc` loop, with its
  in-body `pc += l`, and the make-then-copy operand buffer, written as methods.
  Both are proved equal to the functional definitions.

A truncated push's operand is not clipped to the `k < L` bytes that remain.
The code (`cmd/evm/main.go:47-48`) allocates `L` zeroed bytes and copies in
the `k` available ones. `Disassembler.OperandTruncated` states exactly that.

## Model

| member | source | states |
|---|---|---|
| Opcodes.IsPush | cmd/evm/main.go:37-38 | a byte is push-class exactly when its integer value lies in 0x60..0x7F |
| Opcodes.ImmediateLength | cmd/evm/main.go:39 | a push opcode declares between 1 and 32 operand bytes, and the opcode is 0x60 + L - 1 |
| Opcodes.PushOpcode | cmd/evm/main.go:38-39 | every length 1..32 is declared by a push-class opcode, whose length is that length again (length to opcode to length round trip) |
| Opcodes.PushOpcodeOfLength | cmd/evm/main.go:38-39 | a push opcode is recovered from its declared length (opcode to length to opcode round trip) |
| Opcodes.Width | cmd/evm/main.go:34-50 | one instruction occupies 1..33 bytes, and more than one exactly when it is a push |
| Disassembler.Instruction.End | cmd/evm/main.go:34-50 | the next cursor lies 1..33 bytes after the record's pc, more than one byte after exactly for a push, and then exactly 1 + L bytes after |
| Disassembler.Zeros | cmd/evm/main.go:47 | the freshly allocated operand buffer has the requested length and every byte is zero |
| Disassembler.Decode | cmd/evm/main.go:35-48 | the record at pc carries pc and code[pc], has an operand exactly when code[pc] is push-class, of exactly the declared length, whose byte i is code[pc+1+i] when present and zero otherwise |
| Disassembler.Operand | cmd/evm/main.go:40-48 | the operand has exactly the declared length; byte i is the code byte at pc+1+i when it exists and zero otherwise |
| Disassembler.DisasmFrom | cmd/evm/main.go:34-53 | the listing from a cursor is empty exactly when the cursor is at or past the end, its first record is at the cursor, and it has at most one record per remaining byte |
| Disassembler.Framing | cmd/evm/main.go:34-53 | every record decodes the byte at its own pc, which lies in the code; each record starts where the previous ends; the last reaches the end of the code |
| Disassembler.Disasm | cmd/evm/main.go:34-53 | empty code gives no records and non-empty code some; there are at most as many records as bytes; the first record is at pc 0 |
| Disassembler.Listing | cmd/evm/main.go:34-53 | the whole listing is framed: records decode their own bytes, follow one another with pc+1 or pc+1+L, and the last one reaches the end |
| Disassembler.RecordShape | cmd/evm/main.go:35-49 | every byte value, undefined opcodes included, yields a record; it has an operand exactly when push-class, of exactly the declared length |
| Disassembler.OperandInBounds | cmd/evm/main.go:40-48 | when the declared operand fits, it is exactly the code bytes after the opcode |
| Disassembler.OperandTruncated | cmd/evm/main.go:41-48 | when the declared operand overruns, it is the remaining bytes followed by zeros up to the declared length; this is not an error |
| Disassembler.NoOverlapPair | cmd/evm/main.go:34-50 | any record ends no later than any later record starts |
| Disassembler.NoOverlap | cmd/evm/main.go:34-50 | records never overlap and program counters are strictly increasing |
| Disassembler.InnerRecordEndsInside | cmd/evm/main.go:34-50 | a record followed by another ends strictly inside the code |
| Disassembler.OnlyLastOverruns | cmd/evm/main.go:41-50 | only the last record may declare bytes past the end of the code, and it is then a push |
| Disassembler.NoGap | cmd/evm/main.go:34-53 | every byte of the code lies inside some record's opcode or operand |
| Disassembler.UniqueOwner | cmd/evm/main.go:34-53 | every byte of the code lies inside exactly one record |
| Disassembler.StartIffNotOperand | cmd/evm/main.go:34-53 | a byte index is the pc of a record if and only if it lies inside no record's operand range |
| Disassembler.FinalCursor | cmd/evm/main.go:34-50 | the final cursor reaches the end of the code, passes it by at most 32, and passes it only after a push |
| Disassembler.ExampleAddition | cmd/evm/main.go:34-53 | 0x600160020100 lists PUSH1 0x01 at 0, PUSH1 0x02 at 2, ADD at 4 and STOP at 5 |
| Disassembler.ExampleTruncatedPush | cmd/evm/main.go:41-50 | STOP then a PUSH2 with one byte left lists the PUSH2 with operand 0xAB00 |
| DisasmLoop.CopyOperand | cmd/evm/main.go:47-48 | a zeroed buffer of length L with the available bytes copied in equals the functional operand |
| DisasmLoop.Step | cmd/evm/main.go:35-50 | one loop body yields the record at the cursor and advances the cursor by 1 to 33 to where that record ends |
| DisasmLoop.Disassemble | cmd/evm/main.go:34-53 | the loop terminates, emits exactly the functional listing, and its final cursor is at least the code length, at most 32 past it, and past it only after a push |

## Left out

- Hex decoding of the argument (`common.FromHex`, `strings.TrimSpace`, `cmd/evm/main.go:31-33`): a library call whose source is not part of this model. The model starts from the decoded byte sequence.
- Mnemonics and output formatting (`vm.OpCode`'s `%v`, `%04d`, `%#x`, `cmd/evm/main.go:36, 49, 52`): records keep the opcode byte and operand bytes, not the printed text.
- `exExec` (`cmd/evm/main.go:56-91`): it only fills a configuration and calls an external EVM engine and trace writer, which are not part of this model.
- `main` and `printHelpAndExit` (`cmd/evm/main.go:24-27, 93-107`): argument dispatch, printing and process exit; process I/O with no logic to model.
- Go's `int` is 64-bit; cursors and lengths here are unbounded naturals. No code fits in memory with a length near 2^63, so overflow cannot occur in the source either.
