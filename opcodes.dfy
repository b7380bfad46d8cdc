/**
 * The instruction word and the opcode numbering of the LC-3 emulator's header
 * (lc3vm.h): the OPC macro, which takes the top four bits of a word, and the
 * table of the sixteen operations it selects between.
 */
module Opcodes {

  /** An unsigned 16-bit value (uint16_t): an instruction, a register or a memory cell. */
  type Word = w: int | 0 <= w < 0x1_0000

  /** The sixteen LC-3 operations, in the order of their 4-bit codes. */
  datatype Opcode =
    | BR | ADD | LD | ST | JSR | AND | LDR | STR
    | RTI | NOT | LDI | STI | JMP | RES | LEA | TRAP

  /** OPC(i): the top four bits of an instruction word (i >> 12). */
  function Opc(i: Word): (r: nat)
    ensures r < 16
    ensures r * 0x1000 <= i < (r + 1) * 0x1000
  {
    i / 0x1000
  }

  /** The 4-bit code the header assigns to each operation (0x0 … 0xF). */
  function Code(op: Opcode): (c: nat)
    ensures c < 16
  {
    match op
    case BR => 0x0
    case ADD => 0x1
    case LD => 0x2
    case ST => 0x3
    case JSR => 0x4
    case AND => 0x5
    case LDR => 0x6
    case STR => 0x7
    case RTI => 0x8
    case NOT => 0x9
    case LDI => 0xA
    case STI => 0xB
    case JMP => 0xC
    case RES => 0xD
    case LEA => 0xE
    case TRAP => 0xF
  }

  /** The operation an instruction word selects: total, every word selects one. */
  function Decode(i: Word): (op: Opcode)
    ensures Code(op) == Opc(i)
  {
    [BR, ADD, LD, ST, JSR, AND, LDR, STR, RTI, NOT, LDI, STI, JMP, RES, LEA, TRAP][Opc(i)]
  }

  /** The operation's name, as in the handler names OP_BR … OP_TRAP of the header. */
  function Name(op: Opcode): string {
    match op
    case BR => "BR"
    case ADD => "ADD"
    case LD => "LD"
    case ST => "ST"
    case JSR => "JSR"
    case AND => "AND"
    case LDR => "LDR"
    case STR => "STR"
    case RTI => "RTI"
    case NOT => "NOT"
    case LDI => "LDI"
    case STI => "STI"
    case JMP => "JMP"
    case RES => "RES"
    case LEA => "LEA"
    case TRAP => "TRAP"
  }

  // ---------------------------------------------------------------------------
  // Properties

  /** A word built from a 4-bit code and twelve operand bits has that code as its opcode. */
  lemma OpcOfComposedWord(code: nat, operands: nat)
    requires code < 16 && operands < 0x1000
    ensures code * 0x1000 + operands < 0x1_0000
    ensures Opc(code * 0x1000 + operands) == code
  {
  }

  /** OPC looks only at the top four bits: bits 11..0 never change it. */
  lemma OpcIgnoresLowBits(i: Word, j: Word)
    requires i - i % 0x1000 == j - j % 0x1000
    ensures Opc(i) == Opc(j)
  {
  }

  /** Different operations have different codes, so the code table is a bijection onto 0x0..0xF. */
  lemma CodeInjective(a: Opcode, b: Opcode)
    ensures Code(a) == Code(b) <==> a == b
  {
  }

  /** Every 4-bit value is the code of exactly the operation Decode gives for it. */
  lemma DecodeCode(op: Opcode, operands: nat)
    requires operands < 0x1000
    ensures Decode(Code(op) * 0x1000 + operands) == op
  {
    OpcOfComposedWord(Code(op), operands);
    CodeInjective(Decode(Code(op) * 0x1000 + operands), op);
  }

  /** A word decodes to op exactly when its top nibble is op's code. */
  lemma DecodeRange(i: Word, op: Opcode)
    ensures Decode(i) == op <==> Code(op) * 0x1000 <= i < (Code(op) + 1) * 0x1000
  {
    CodeInjective(Decode(i), op);
  }

  /** A word decodes to ADD, the one operation with a handler, exactly when its top nibble is 0001. */
  lemma DecodeAdd(i: Word)
    ensures Decode(i) == ADD <==> 0x1000 <= i < 0x2000
  {
    CodeInjective(Decode(i), ADD);
  }

  /** The sixteen names are pairwise different. */
  lemma NameInjective(a: Opcode, b: Opcode)
    ensures Name(a) == Name(b) <==> a == b
  {
  }
}
