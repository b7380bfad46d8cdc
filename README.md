# LC-3 virtual machine and toy assembler, modelled in Dafny

This project models the working core of a small LC-3 emulator and the toy
assembler that ships with it.

- **The machine (`lc3vm.c`).** It has 65536 sixteen-bit memory cells and a
  register file R0..R7, RPC and RCND. `mem_read` and `mem_write` are modelled
  too. So are the condition flags FP = 1, FZ = 2 and FN = 4, and the flag
  update `update_flag`. Then comes the widening `sign_extend`, and `OP_ADD`,
  the one instruction handler the C code implements, in its register form and
  its immediate form. The scenario in `main` is included: ADD R2, R0, R1 with
  R0 = -2 and R1 = 3. The machine is the class `Machine.Lc3`, whose arrays
  `memory` and `reg` are updated in place. C's `uint16_t` arithmetic is
  reduced modulo 2^16 explicitly.
- **The opcode numbering (`lc3vm.h`).** `OPC(i)` takes the top four bits of a
  word. The table numbers the sixteen operations BR = 0x0 … TRAP = 0xF.
  Module `Opcodes`.
- **The assembler (`assembler/assembler.py`).**
  - It strips each line's comment and splits the line into tokens.
  - It encodes the tokens as a string of `0`/`1` characters built from the
    register, instruction and trap tables.
  - It reads that string back as a number (`int(…, 2)`) and keeps it as four
    hex digits.
  - Finally it writes every word as two little-endian bytes.

  Python's `int(s, 16)` and `format(n, '0Wb')` are modelled in module
  `Numerals`, including the sign and the `0x`/`0b` prefix. A `KeyError`,
  `IndexError` or `ValueError` becomes `None`. The encoder is written once and
  takes a `Dialect` parameter:
  - `AsWritten` follows the code as it stands.
  - `Corrected` fixes the three defects listed under "Findings".

  Every other branch is shared by the two dialects. Module `Assembler` holds
  the tables, tokenising, the encoder and the two loops of `main`. Module
  `Encoding` proves, for every instruction form, which 16-bit word comes out.
  For ADD, it also proves that the machine's field extraction recovers the
  fields the assembler put in.

Files:
- `arith.dfy`: powers.
- `numerals.dfy`: `Option` and the Python numeral functions.
- `opcodes.dfy`, `machine.dfy`, `assembler.dfy` and `encoding.dfy`: the four
  parts above.

## Model

| member | source | states |
|---|---|---|
| Machine.Lc3.constructor | lc3vm.c:9-22 | memory has UINT16_MAX + 1 cells and reg has RCNT cells, all zero, as the C globals are initialised |
| Machine.Lc3.MemWrite | lc3vm.c:10-14 | after mem_write(a, v), mem_read(a) is v; every other address keeps its old value, the registers are untouched, and both operations are total over all 16-bit addresses |
| Machine.Flag | lc3vm.c:30-36 | the flag is always one of FP, FZ, FN; it is FZ exactly when the value is 0, FN exactly when it is negative as a signed 16-bit value (bit 15 set), and FP exactly when it is positive |
| Machine.Lc3.UpdateFlag | lc3vm.c:31-36 | RCND becomes the flag of reg[r]; no other register and no memory cell changes |
| Machine.Or | lc3vm.c:71 | the bitwise OR of a and b is at least each of them and at most their sum |
| Machine.SignExtend | lc3vm.c:67-74 | for 1 ≤ n ≤ 16: a clear bit n-1 leaves x unchanged; a set one keeps bits 0..n-1 of x and sets every bit from n to 15, giving x mod 2^n + 2^16 − 2^n |
| Machine.SignExtendValue | lc3vm.c:67-74 | for an n-bit field x with 1 ≤ n ≤ 15: the result is x when the sign bit is clear and x + 2^16 − 2^n when it is set |
| Machine.SignExtendIsTwosComplement | lc3vm.c:64-74 | read as a signed 16-bit number, the widened field equals the field's n-bit two's-complement value |
| Machine.SignExtendRoundTrip | lc3vm.c:64-74 | every signed value that fits in n bits, truncated to n bits and then widened, comes back unchanged |
| Machine.Imm5Value | lc3vm.c:64-66 | the 5-bit immediate, widened and read as signed, is f for f < 16 and f − 32 otherwise, so it covers −16..15 |
| Machine.Lc3.OpAdd | lc3vm.c:77-93 | the new register file is AddRegs(old registers, instruction) and memory is unchanged |
| Machine.AddRegisterForm | lc3vm.c:79-81 | with bit 5 clear, DR (bits 11..9) receives (SR1 + SR2) mod 2^16, with both sources read before DR is written, so DR may be a source; read as signed, the result is the wrapped signed sum |
| Machine.AddImmediateForm | lc3vm.c:83-86 | with bit 5 set, DR receives (SR1 + sign_extend(instr & 0x1F, 5)) mod 2^16; read as signed, this is SR1 plus the immediate's two's-complement value, wrapped |
| Machine.AddRegs | lc3vm.c:77-93 | after OP_ADD, RCND holds the flag of DR's new value, RPC is never written, and every register other than DR and RCND keeps its value |
| Machine.WrapSum | lc3vm.c:85-89 | the signed reading of a 16-bit wrapped sum is the two's-complement wrap of the sum of the signed readings |
| Machine.AddSignedExact | lc3vm.c:87-89 | when the true signed sum fits in 16 bits, ADD's register form stores exactly that sum |
| Machine.ScenarioStep | lc3vm.c:100-108 | ADD R2, R0, R1 (0b0001010000000001) with R0 = 0xFFFE and R1 = 3 leaves R2 = 1, RCND = FP and R0, R1 unchanged |
| Machine.AddScenario | lc3vm.c:98-108 | the scenario in main, run on a fresh machine: afterwards R0 = 0xFFFE (−2), R1 = 3, R2 = 1 and RCND = FP |
| Opcodes.Opc | lc3vm.h:7 | OPC(i) = i >> 12 is in 0..15, and i lies in the 4096-word block of that number |
| Opcodes.OpcOfComposedWord | lc3vm.h:7 | a word built from a 4-bit code and twelve operand bits has that code as its OPC |
| Opcodes.OpcIgnoresLowBits | lc3vm.h:7 | two words that agree above bit 11 have the same OPC, so bits 11..0 never change it |
| Opcodes.Decode | lc3vm.h:7-26 | the decoded operation's table code is OPC(i), so decoding is total over all 16-bit words |
| Opcodes.Code | lc3vm.h:11-26 | every operation's number in the table is a 4-bit value, 0..15 |
| Opcodes.CodeInjective | lc3vm.h:11-26 | two operations have the same code only when they are the same operation |
| Opcodes.DecodeCode | lc3vm.h:11-26 | a word whose top nibble is op's code decodes to op, whatever its low twelve bits are |
| Opcodes.DecodeRange | lc3vm.h:11-26 | a word decodes to op exactly when it lies in [code(op)·0x1000, (code(op)+1)·0x1000); together with DecodeCode, decoding and the code table are inverse bijections |
| Opcodes.DecodeAdd | lc3vm.h:7-12 | a word decodes to ADD, the operation that has a handler, exactly when its top nibble is 0001 |
| Opcodes.NameInjective | lc3vm.h:11-26 | the sixteen operation names are pairwise distinct |
| Assembler.StripComment | assembler/assembler.py:7 | the kept code is a prefix of the line and contains no ';'; when anything was dropped, the dropped part starts at a ';', which is partition(";")[0] |
| Assembler.Split | assembler/assembler.py:9 | the tokens are non-empty, contain no white space, and together are exactly the line's non-space characters in order; with SplitSpaces, SplitToken and SplitSeparated this pins Split down to str.split() on every string |
| Assembler.SplitSpaces | assembler/assembler.py:9 | a string of white space alone has no tokens |
| Assembler.SplitLeadingSpace | assembler/assembler.py:9 | white space in front of a line is skipped |
| Assembler.SplitSeparated | assembler/assembler.py:9 | any non-empty run of white space, of any length and any white-space characters, separates: split(a + ws + b) is split(a) followed by split(b), so a token is never cut inside and never merged across white space |
| Assembler.SplitSpaced | assembler/assembler.py:3-9 | words laid out with any white space around and between them (the trailing '\n' readlines keeps included) split back into exactly those words |
| Assembler.SpacedNoComment | assembler/assembler.py:7 | such a line holds no ';' when its words hold none, so partition(";") keeps it whole |
| Assembler.SplitJoinWords | assembler/assembler.py:9 | round trip: splitting words joined by single spaces gives back the words |
| Assembler.SplitToken | assembler/assembler.py:9 | a token followed by nothing or by white space is split off whole as the first token |
| Assembler.AssembleLines | assembler/assembler.py:5-52 | the first loop of main succeeds exactly when every line assembles; then the program has one hex word per line, each the line's own encoding |
| Assembler.WriteProgram | assembler/assembler.py:55-57 | the second loop writes exactly the bytes Emit describes, and reports whether it reached the end without raising |
| Assembler.RegisterTable | assembler/assembler.py:62-71 | register name Rk maps to the 3-bit binary of k, a 3-digit string whose value is k, for k = 0..7 |
| Assembler.RegisterKeys | assembler/assembler.py:62-71 | the register table has no keys besides R0..R7 |
| Assembler.NumbersAreNotRegisters | assembler/assembler.py:17-20 | a token that parses as hex is never a register name, so the immediate branch of ADD/AND is reachable |
| Assembler.InstructionNames | assembler/assembler.py:73-88 | the instruction table has an entry for every operation of the header except NOT, RTI and RES |
| Assembler.InstructionPrefixes | assembler/assembler.py:73-88 | each 4-bit prefix in the instruction table is the 4-bit binary of the code lc3vm.h gives that mnemonic |
| Assembler.PrefixValue | assembler/assembler.py:73-88 | each 4-bit prefix, read by int(…, 2), is the operation's code from lc3vm.h |
| Assembler.HaltHalves | assembler/assembler.py:76-77 | HALT's entry is TRAP's prefix followed by the 8-bit vector 0x25 |
| Assembler.RegisterWidth | assembler/assembler.py:62-71 | every register entry is exactly three bits |
| Assembler.TrapWidth | assembler/assembler.py:90-98 | every trap entry is exactly eight bits |
| Assembler.InstructionWidth | assembler/assembler.py:73-88 | TRAP's entry is eight bits, HALT's sixteen, every other mnemonic's four, and each starts with a binary digit |
| Assembler.Join | assembler/assembler.py:16-49 | concatenating two pieces succeeds exactly when both lookups did, and its length is the sum of theirs |
| Assembler.RegisterField | assembler/assembler.py:16 | registers[parts[k]], when it exists, is a 3-bit field |
| Assembler.NumberField | assembler/assembler.py:20-49 | format(int(parts[k], 16), '0Wb'), when it exists, is at least W characters long |
| Assembler.TrapOperand | assembler/assembler.py:12-13 | the TRAP operand, when the name is known, is the 8-bit vector |
| Assembler.ArithOperands | assembler/assembler.py:15-20 | the ADD/AND operands, when present, take at least twelve bits |
| Assembler.OffsetOperands | assembler/assembler.py:22-23 | a register and an offset at width W take at least 3 + W bits |
| Assembler.BaseOperands | assembler/assembler.py:25-32 | two registers and an offset at width W take at least 6 + W bits |
| Assembler.JmpOperands | assembler/assembler.py:34-35 | the JMP operands are exactly twelve bits |
| Assembler.JsrOperands | assembler/assembler.py:37-41 | either JSR form takes at least twelve bits |
| Assembler.BrOperands | assembler/assembler.py:43-49 | the BR condition and offset take at least twelve bits |
| Assembler.Operands | assembler/assembler.py:12-49 | per mnemonic: eight bits for TRAP, at least twelve for every other operand form (LD, LDI, LEA, LDR only in the corrected dialect), and nothing for a mnemonic with no operand branch, such as HALT |
| Assembler.Encode | assembler/assembler.py:10-49 | the bit string starts with the mnemonic's table entry (an unknown mnemonic raises) and is at least sixteen characters long, except for LD, LDI, LEA and LDR as written |
| Assembler.EncodeValue | assembler/assembler.py:51-52 | int(…, 2) of the bit string, when it succeeds, is never negative, since the string starts with a table prefix and not with a sign |
| Assembler.LineValue | assembler/assembler.py:7-52 | the number a source line assembles to is never negative |
| Assembler.LineHex | assembler/assembler.py:52 | the stored hex string exists exactly when the line assembles, has at least four digits, and reads back by int(…, 16) as the line's value |
| Assembler.WordBytes | assembler/assembler.py:57 | the write succeeds exactly when the hex string parses to a value in 0..0xFFFF, and then writes that value's low byte and high byte; the '016b' detour changes nothing |
| Assembler.Emit | assembler/assembler.py:56-57 | the loop writes two bytes per word, never more than 2·len(program), and completes exactly when every word can be written, and then writes all 2·len(program) bytes |
| Encoding.HaltWord | assembler/assembler.py:77 | HALT's entry, read as binary, is 0xF025 |
| Encoding.HaltOpcode | assembler/assembler.py:77 | the word 0xF025 decodes to TRAP under the header's numbering |
| Encoding.HaltLine | assembler/assembler.py:10-52 | a line whose mnemonic is HALT assembles to 0xF025, whatever follows it |
| Encoding.TrapPrefix | assembler/assembler.py:76 | TRAP's 8-bit prefix, read as binary, is TRAP's code followed by four zero bits |
| Encoding.UnsupportedOperations | assembler/assembler.py:10 | NOT, RTI and RES have no entry in the table, so a line using them raises |
| Encoding.AddRegisterWord | assembler/assembler.py:15-18 | ADD/AND DR SR1 SR2 encodes to opcode<<12 \| DR<<9 \| SR1<<6 \| SR2, with bits 5..3 zero, as a 16-digit binary string |
| Encoding.AddImmediateWord | assembler/assembler.py:20 | ADD/AND DR SR1 imm, for 0 ≤ imm < 32, encodes to opcode<<12 \| DR<<9 \| SR1<<6 \| 1<<5 \| imm |
| Encoding.NegativeImmediateRejected | assembler/assembler.py:20 | a negative immediate produces a bit string that contains '-', and int(…, 2) rejects it, so the line raises |
| Encoding.LoadWordCorrected | assembler/assembler.py:22-23 | intended layout: LD/LDI/LEA DR off, for off < 512, encodes to opcode<<12 \| DR<<9 \| off |
| Encoding.LoadValueCorrected | assembler/assembler.py:22-23 | intended layout: the line's value is opcode<<12 \| DR<<9 \| off |
| Encoding.LoadWordAsWritten | assembler/assembler.py:22-23 | as written, with off < 32: the 12-digit string reads as opcode<<8 \| DR<<5 \| off, so every field sits four bits too low |
| Encoding.LoadDecodeAsWritten | assembler/assembler.py:22-23 | the as-written LD/LDI/LEA word, for off < 32, is below 0x1000 and decodes to BR |
| Encoding.LoadWidthAsWritten | assembler/assembler.py:22-23 | as written, for a 9-bit offset, the bit string is 16 long exactly when off ≥ 256 |
| Encoding.StoreWord | assembler/assembler.py:28-29 | in both dialects, ST/STI SR off, for off < 512, encodes to opcode<<12 \| SR<<9 \| off |
| Encoding.LdrWordCorrected | assembler/assembler.py:25-26 | intended layout: LDR DR BaseR off, for off < 64, encodes to 0x6000 \| DR<<9 \| BaseR<<6 \| off |
| Encoding.LdrValueCorrected | assembler/assembler.py:25-26 | intended layout: the LDR line's value is 0x6000 \| DR<<9 \| BaseR<<6 \| off |
| Encoding.LdrWordAsWritten | assembler/assembler.py:25-26 | as written, with off < 32: the 15-digit string reads as 0x3000 \| DR<<8 \| BaseR<<5 \| off |
| Encoding.LdrDecodeAsWritten | assembler/assembler.py:25-26 | the as-written LDR word decodes to ST |
| Encoding.LdrWidthAsWritten | assembler/assembler.py:25-26 | as written, for a 6-bit offset, the bit string is 16 long exactly when off ≥ 32 |
| Encoding.StrWord | assembler/assembler.py:31-32 | in both dialects, STR SR BaseR off, for off < 64, encodes to 0x7000 \| SR<<9 \| BaseR<<6 \| off |
| Encoding.JmpWord | assembler/assembler.py:34-35 | JMP Rk encodes to 0xC000 \| k<<6 |
| Encoding.JsrRegisterWord | assembler/assembler.py:37-39 | JSR Rk encodes to 0x4000 \| k<<6, with bit 11 clear |
| Encoding.JsrOffsetWordCorrected | assembler/assembler.py:40-41 | intended layout: JSR off, for off < 2048, encodes to 0x4800 \| off, from the operand itself |
| Encoding.JsrOffsetAsWritten | assembler/assembler.py:40-41 | as written, JSR off raises (IndexError), and JSR x off encodes the third token's offset |
| Encoding.JsrExample | assembler/assembler.py:40-41 | "JSR 5" raises as written and assembles to 0x4805 once corrected |
| Encoding.BranchTests | assembler/assembler.py:43-49 | the condition bits BR encodes equal the flag lc3vm.c's update_flag (lc3vm.c:31-36) stores for a value v exactly when v is positive for "P", zero for "Z", and negative for any other token |
| Encoding.ConditionBits | assembler/assembler.py:44-49 | the literals "001", "010" and "100" are the 3-bit binary of that flag |
| Encoding.BrWord | assembler/assembler.py:43-49 | BR flag off, for off < 512, encodes to nzp<<9 \| off |
| Encoding.TrapVector | assembler/assembler.py:90-98 | each trap vector lies in 0x20..0x27 and is never 0x25, which HALT uses |
| Encoding.TrapTable | assembler/assembler.py:90-98 | each trap's entry is the 8-bit binary of its vector: GETC 0x20, OUT 0x21, PUTS 0x22, IN 0x23, PUTSP 0x24, IN_U16 0x26, OUT_U16 0x27 |
| Encoding.TrapWord | assembler/assembler.py:12-13 | TRAP name encodes to 0xF000 \| vector for a known name, and raises for every other name |
| Encoding.CommentIgnored | assembler/assembler.py:7 | text after ';' never changes what a line assembles to |
| Encoding.StripCommentOf | assembler/assembler.py:7 | code followed by ';' and any comment is stripped back to exactly the code |
| Encoding.EncodedLine | assembler/assembler.py:51-52 | a line whose tokens encode to the 16-digit binary of w has value w and is stored as w's four hex digits |
| Encoding.WordBytesOfWord | assembler/assembler.py:57 | a 16-bit word's hex form is written as the bytes [w mod 256, w div 256], low byte first |
| Encoding.WideWordNotWritten | assembler/assembler.py:57 | a value of 0x10000 or more makes to_bytes(2) raise |
| Encoding.WideImmediateWritten | assembler/assembler.py:20 | an immediate wider than five bits is not rejected: "ADD R0 R0 20" assembles to 0x2060, which is written as the bytes 0x60, 0x20 and decodes as LD |
| Encoding.ReadWordsWord | assembler/assembler.py:57 | the two bytes of w, read back as low + 256·high, give w |
| Encoding.EmitRoundTrip | assembler/assembler.py:55-57 | for a program of 16-bit words, the file is written in full, is two bytes per word, and reads back as the words in order |
| Encoding.AddRegisterFields | assembler/assembler.py:15-18 | the ADD register word the assembler builds decodes to ADD, and OP_ADD's field extraction (lc3vm.c:79-81, 88) recovers DR, SR1, SR2 and a clear bit 5 |
| Encoding.AddImmediateFields | assembler/assembler.py:20 | the ADD immediate word decodes to ADD, and OP_ADD's field extraction (lc3vm.c:79-84) recovers DR, SR1, the set bit 5 and the 5-bit immediate |
| Encoding.AddRegisterValue | assembler/assembler.py:15-18 | ADD/AND DR SR1 SR2 reads back, by int(…, 2), as opcode<<12 \| DR<<9 \| SR1<<6 \| SR2 |
| Encoding.AssembledAddExecutes | assembler/assembler.py:15-18 | whatever word the assembler makes of ADD Rd, Rs1, Rs2, executing it with OP_ADD (lc3vm.c:87-89) puts (Rs1 + Rs2) mod 2^16 into Rd |
| Encoding.AddLineTokens | assembler/assembler.py:3-9 | the line "ADD Rd Rs1 Rs2", with any white space before, between and after the tokens, is split into exactly those four tokens |
| Encoding.AddLine | assembler/assembler.py:3-52 | the line "ADD Rd Rs1 Rs2" (or AND), however it is spaced and with or without a ';' comment after it, assembles to opcode<<12 \| Rd<<9 \| Rs1<<6 \| Rs2 |
| Encoding.AddLineExample | assembler/assembler.py:3-52 | the line "ADD R2 R0 R1\n", as readlines returns it, assembles to 0x1401, the word lc3vm.c's scenario executes |
| Numerals.ParseInt | assembler/assembler.py:20-52 | int(s, base) on a string of digits only is never negative, and a negative result comes only from a leading '-' |
| Numerals.Format | assembler/assembler.py:20-52 | format(n, '0Wb') and format(n, '04x') are at least W characters long |
| Numerals.ParseFormat | assembler/assembler.py:20-52 | round trip: int(format(n, '0Wb'), 2) == n for every n ≥ 0, and likewise in base 16 |
| Numerals.ParseFormatSigned | assembler/assembler.py:20-52 | the round trip holds for every integer, a negative one coming back through its '-' sign |
| Numerals.FormatNegative | assembler/assembler.py:20-52 | a negative number is formatted with a leading '-', which is not a digit |
| Numerals.FormatLength | assembler/assembler.py:20-52 | format(n, '0Wb') for n ≥ 0 is at least W long, and exactly W long precisely when n < base^W |
| Numerals.BinaryUnique | assembler/assembler.py:20-52 | two binary strings of the same length with the same value are the same string |
| Encoding.LdExample | assembler/assembler.py:22-23 | concrete input: "LD R1 3" assembles to 0x0223 as written, a word that decodes to BR |
| Encoding.LdExampleCorrected | assembler/assembler.py:22-23 | "LD R1 3" assembles to 0x2203 once corrected |
| Encoding.LdrExample | assembler/assembler.py:25-26 | concrete input: "LDR R1 R2 3" assembles to 0x3143 as written, a word that decodes to ST |
| Encoding.LdrExampleCorrected | assembler/assembler.py:25-26 | "LDR R1 R2 3" assembles to 0x6283 once corrected |
| Encoding.ExampleOpcodes | lc3vm.h:11-26 | 0x0223 decodes to BR and 0x3143 to ST; 0x2203 decodes to LD and 0x6283 to LDR |

## Left out

- File reading and writing and the `print` calls of the assembler (assembler/assembler.py:2-4, 51, 54, 55, 58). The model takes the lines as a sequence of strings and returns the bytes instead of writing `program.bin`.
- The `printf` calls of `main` in lc3vm.c (lines 104-106, 110-112). The scenario's register values are stated as a method's postcondition instead.
- `main.c` and `vm/`. This is loader plumbing (file handling, `malloc`, `fread`) that calls functions whose source is not part of this model.
- The other fifteen instruction handlers, the trap routines, the fetch–decode–execute loop and the keyboard registers. They are only declared or commented out (lc3vm.h:11-26, lc3vm.c:41-42), so there is no behaviour to model.
- `PC_START` (lc3vm.c:9) is modelled as the constant `Machine.PcStart`. lc3vm.c never copies it into RPC, so the model does not either.
- The ADD-immediate example in the comment at lc3vm.c:58-61 shows a 4-bit immediate and a wrong register label. The model follows the code at lc3vm.c:79-89.
- `text[i].replace('\n', '')` at assembler/assembler.py:8 discards its result. The model drops it too; the trailing newline is white space that `split()` removes anyway (`Assembler.SplitSpaced`).
- Machine words are the integer subtype `Opcodes.Word` (0 ≤ w < 2^16), not `bv16`. Every `uint16_t` store is reduced modulo 2^16 explicitly, and `|` is the bit-by-bit function `Machine.Or`.
- Python exceptions (`KeyError`, `IndexError`, `ValueError`, `OverflowError`) are modelled as `None`. The assembler stops at the first line that raises, and so does the model, without saying which exception it was.
- `Numerals.ParseInt`: Python's `int()` also accepts surrounding white space, `_` digit separators, and decimal digits from other scripts (fullwidth `５`, Arabic-Indic `٥` and the rest of Unicode's decimal digits). The model accepts the ASCII digits and letters only. Tokens from `split()` never carry white space.
- Range checks on operands: the assembler checks none, and neither does the model. An immediate or offset wider than its field lengthens the bit string, and the line is then written as some other word. For example, "ADD R0 R0 20" becomes 0x2060, an LD (`Encoding.WideImmediateWritten`). Only a field wide enough to push the opcode past bit 15 makes the write loop raise (`Encoding.WideWordNotWritten`).
- `Assembler.ReadWords` is a reader of the output file that exists only to state the round trip. It ignores an odd trailing byte, which the writer never produces.

## Findings

| source | as written | input that shows it | evidently intended | confidence | as-written member | corrected member |
|---|---|---|---|---|---|---|
| assembler/assembler.py:23 | LD, LDI and LEA format their 9-bit PC offset with `'05b'`, so the word is 12 bits long (16 only for offsets ≥ 256) and every field lands four bits too low | `LD R1 3` gives 0x0223, which decodes as BR | `'09b'`, giving opcode<<12 \| DR<<9 \| off9: `LD R1 3` gives 0x2203 | not executed | Encoding.LoadWordAsWritten | Encoding.LoadWordCorrected |
| assembler/assembler.py:26 | LDR formats its 6-bit offset with `'05b'`, so the word is 15 bits long and reads as an ST instruction | `LDR R1 R2 3` gives 0x3143, which decodes as ST | `'06b'`, giving 0x6000 \| DR<<9 \| BaseR<<6 \| off6: `LDR R1 R2 3` gives 0x6283 | not executed | Encoding.LdrWordAsWritten | Encoding.LdrWordCorrected |
| assembler/assembler.py:41 | JSR's offset form reads `parts[2]`, a token that the one-operand form does not have | `JSR 5` raises IndexError | `parts[1]`: `JSR 5` gives 0x4805 | not executed | Encoding.JsrOffsetAsWritten | Encoding.JsrOffsetWordCorrected |
