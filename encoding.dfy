/**
 * What the assembler's encoder produces: for each instruction form, the
 * 16-bit word it builds from its operands, the three places where the code
 * as written differs from that layout, comments, and the two-byte output
 * format; and, for ADD, that the fields the machine decodes are the ones the
 * assembler put there.
 */
module Encoding {
  import opened Wrappers
  import opened Arith
  import opened Numerals
  import opened Assembler
  import Opcodes
  import Machine

  // ---------------------------------------------------------------------------
  // Building words bit field by bit field

  /** Appending the w-bit binary of v shifts what is there left by w bits and adds v. */
  lemma Append(acc: string, accv: nat, v: nat, w: nat, scale: nat)
    requires AllDigits(acc, 2) && Value(acc, 2) == accv
    requires w >= 1 && scale == Pow(2, w) && v < scale
    ensures AllDigits(acc + Format(v, 2, w), 2)
    ensures Value(acc + Format(v, 2, w), 2) == accv * scale + v
    ensures |acc + Format(v, 2, w)| == |acc| + w
  {
    FormatValue(v, 2, w);
    FormatLength(v, 2, w);
    ValueConcat(acc, Format(v, 2, w), 2);
  }

  /** The opcode prefix as the first field of a word. */
  lemma Prefix(op: Opcodes.Opcode)
    requires op !in {Opcodes.NOT, Opcodes.RTI, Opcodes.RES, Opcodes.TRAP}
    ensures Opcodes.Name(op) in Instructions
    ensures AllDigits(Instructions[Opcodes.Name(op)], 2)
    ensures Value(Instructions[Opcodes.Name(op)], 2) == Opcodes.Code(op)
    ensures |Instructions[Opcodes.Name(op)]| == 4
  {
    InstructionPrefixes(op);
    FormatDigits(Opcodes.Code(op), 2, 4);
    FormatLength(Opcodes.Code(op), 2, 4);
    assert Pow(2, 4) == 16;
  }

  lemma SmallPowers()
    ensures Pow(2, 1) == 2 && Pow(2, 3) == 8 && Pow(2, 5) == 32 && Pow(2, 6) == 64
    ensures Pow(2, 9) == 512 && Pow(2, 11) == 2048
  {
    assert Pow(2, 3) == 8;
    assert Pow(2, 6) == 64;
    assert Pow(2, 9) == 512;
  }

  lemma ZeroFields()
    ensures "000" == Format(0, 2, 3) && "000000" == Format(0, 2, 6) && "1" == Format(1, 2, 1)
  {
  }

  // Regrouping the concatenations Join builds
  lemma Concat3(p: string, a: string, b: string)
    ensures p + (a + b) == p + a + b
  {
  }

  lemma Concat4(p: string, a: string, b: string, c: string)
    ensures p + ((a + b) + c) == p + a + b + c
  {
  }

  lemma Concat4b(p: string, a: string, b: string, c: string)
    ensures p + (a + b + c) == p + a + b + c
  {
  }

  lemma Concat5(p: string, a: string, b: string, k: string, c: string)
    ensures p + ((a + b) + (k + c)) == p + a + b + k + c
  {
  }

  /** The bits of a register field are the register table's entry. */
  lemma RegisterFieldOf(parts: seq<string>, k: nat, r: nat)
    requires r < 8 && k < |parts| && parts[k] == RegName(r)
    ensures RegisterField(parts, k) == Some(Format(r, 2, 3))
  {
    RegisterTable(r);
  }

  /** The bits of a number field are the operand formatted at the given width. */
  lemma NumberFieldOf(parts: seq<string>, k: nat, width: nat, v: int)
    requires k < |parts| && ParseInt(parts[k], 16) == Some(v)
    ensures NumberField(parts, k, width) == Some(Format(v, 2, width))
  {
  }

  /** A bit string read back: the word it was built as, and its hex form for main's program list. */
  lemma EncodedValue(parts: seq<string>, d: Dialect, w: nat, width: nat)
    requires Encode(parts, d) == Some(Format(w, 2, width))
    ensures EncodeValue(parts, d) == Some(w)
  {
    ParseFormat(w, 2, width);
  }

  /** The value of a line is the value of its bit string, whatever that string is. */
  lemma ReadBack(parts: seq<string>, d: Dialect, bits: string, v: int)
    requires Encode(parts, d) == Some(bits) && ParseInt(bits, 2) == Some(v)
    ensures EncodeValue(parts, d) == Some(v)
  {
  }

  /** A line whose tokens encode to the 16-bit binary of w is stored as w's four hex digits. */
  lemma EncodedLine(line: string, d: Dialect, w: nat)
    requires Encode(Split(StripComment(line)), d) == Some(Format(w, 2, 16))
    ensures LineValue(line, d) == Some(w)
    ensures LineHex(line, d) == Some(Format(w, 16, 4))
  {
    EncodedValue(Split(StripComment(line)), d, w, 16);
  }

  // ---------------------------------------------------------------------------
  // Which branch of the mnemonic if-chain each instruction takes

  lemma ArithDispatch(op: Opcodes.Opcode, parts: seq<string>, d: Dialect)
    requires op == Opcodes.ADD || op == Opcodes.AND
    requires |parts| > 0 && parts[0] == Opcodes.Name(op)
    ensures Operands(parts, d) == ArithOperands(parts)
  {
  }

  lemma OffsetDispatch(op: Opcodes.Opcode, parts: seq<string>, d: Dialect)
    requires op in {Opcodes.LD, Opcodes.LDI, Opcodes.LEA, Opcodes.ST, Opcodes.STI}
    requires |parts| > 0 && parts[0] == Opcodes.Name(op)
    ensures Operands(parts, d) == OffsetOperands(parts, OffsetWidth(op, d))
  {
  }

  lemma BaseDispatch(op: Opcodes.Opcode, parts: seq<string>, d: Dialect)
    requires op == Opcodes.STR || op == Opcodes.LDR
    requires |parts| > 0 && parts[0] == Opcodes.Name(op)
    ensures Operands(parts, d) == BaseOperands(parts, BaseOffsetWidth(op, d))
  {
  }

  lemma JmpDispatch(parts: seq<string>, d: Dialect)
    requires |parts| > 0 && parts[0] == "JMP"
    ensures Operands(parts, d) == JmpOperands(parts)
  {
  }

  lemma JsrDispatch(parts: seq<string>, d: Dialect)
    requires |parts| > 0 && parts[0] == "JSR"
    ensures Operands(parts, d) == JsrOperands(parts, d)
  {
  }

  lemma BrDispatch(parts: seq<string>, d: Dialect)
    requires |parts| > 0 && parts[0] == "BR"
    ensures Operands(parts, d) == BrOperands(parts)
  {
  }

  lemma TrapDispatch(parts: seq<string>, d: Dialect)
    requires |parts| > 0 && parts[0] == "TRAP"
    ensures Operands(parts, d) == TrapOperand(parts)
  {
  }

  // ---------------------------------------------------------------------------
  // The layouts: a prefix followed by fixed-width fields is the 16-bit binary of the word

  lemma WordPowers()
    ensures Pow(2, 8) == 256 && Pow(2, 12) == 0x1000 && Pow(2, 15) == 0x8000 && Pow(2, 16) == 0x1_0000
  {
    SmallPowers();
    PowAdd(2, 6, 6);
    PowAdd(2, 6, 9);
    Machine.Pow16();
  }

  /** The first three fields, opcode | r1 | r2, as a 10-bit prefix. */
  lemma HeadLayout(p: string, c: nat, x: nat, y: nat)
    requires AllDigits(p, 2) && Value(p, 2) == c && |p| == 4 && c < 16
    requires x < 8 && y < 8
    ensures AllDigits(p + Format(x, 2, 3) + Format(y, 2, 3), 2)
    ensures Value(p + Format(x, 2, 3) + Format(y, 2, 3), 2) == c * 64 + x * 8 + y
    ensures |p + Format(x, 2, 3) + Format(y, 2, 3)| == 10
  {
    assert Pow(2, 3) == 8;
    Append(p, c, x, 3, 8);
    Append(p + Format(x, 2, 3), c * 8 + x, y, 3, 8);
  }

  /** opcode | DR | SR1 | 000 | SR2 */
  lemma RegisterLayout(p: string, c: nat, dr: nat, sr1: nat, sr2: nat)
    requires AllDigits(p, 2) && Value(p, 2) == c && |p| == 4 && c < 16
    requires dr < 8 && sr1 < 8 && sr2 < 8
    ensures p + Format(dr, 2, 3) + Format(sr1, 2, 3) + Format(0, 2, 3) + Format(sr2, 2, 3)
      == Format(c * 0x1000 + dr * 0x200 + sr1 * 0x40 + sr2, 2, 16)
  {
    var a := p + Format(dr, 2, 3) + Format(sr1, 2, 3);
    HeadLayout(p, c, dr, sr1);
    assert Pow(2, 3) == 8;
    Append(a, c * 64 + dr * 8 + sr1, 0, 3, 8);
    Append(a + Format(0, 2, 3), (c * 64 + dr * 8 + sr1) * 8, sr2, 3, 8);
    assert Pow(2, 16) == 0x1_0000 by { WordPowers(); }
    Canonical(a + Format(0, 2, 3) + Format(sr2, 2, 3), c * 0x1000 + dr * 0x200 + sr1 * 0x40 + sr2, 16, 0x1_0000);
  }

  /** opcode | DR | SR1 | 1 | imm5 */
  lemma ImmediateLayout(p: string, c: nat, dr: nat, sr1: nat, imm: nat)
    requires AllDigits(p, 2) && Value(p, 2) == c && |p| == 4 && c < 16
    requires dr < 8 && sr1 < 8 && imm < 32
    ensures p + Format(dr, 2, 3) + Format(sr1, 2, 3) + Format(1, 2, 1) + Format(imm, 2, 5)
      == Format(c * 0x1000 + dr * 0x200 + sr1 * 0x40 + 0x20 + imm, 2, 16)
  {
    var a := p + Format(dr, 2, 3) + Format(sr1, 2, 3);
    HeadLayout(p, c, dr, sr1);
    assert Pow(2, 1) == 2 && Pow(2, 5) == 32 by { SmallPowers(); }
    Append(a, c * 64 + dr * 8 + sr1, 1, 1, 2);
    Append(a + Format(1, 2, 1), (c * 64 + dr * 8 + sr1) * 2 + 1, imm, 5, 32);
    assert Pow(2, 16) == 0x1_0000 by { WordPowers(); }
    Canonical(a + Format(1, 2, 1) + Format(imm, 2, 5), c * 0x1000 + dr * 0x200 + sr1 * 0x40 + 0x20 + imm, 16, 0x1_0000);
  }

  /** opcode | register (or n/z/p) | PCoffset9 */
  lemma OffsetLayout(p: string, c: nat, r: nat, off: nat)
    requires AllDigits(p, 2) && Value(p, 2) == c && |p| == 4 && c < 16
    requires r < 8 && off < 512
    ensures p + Format(r, 2, 3) + Format(off, 2, 9) == Format(c * 0x1000 + r * 0x200 + off, 2, 16)
  {
    SmallPowers();
    Append(p, c, r, 3, 8);
    Append(p + Format(r, 2, 3), c * 8 + r, off, 9, 512);
    WordPowers();
    Canonical(p + Format(r, 2, 3) + Format(off, 2, 9), c * 0x1000 + r * 0x200 + off, 16, 0x10000);
  }

  /** opcode | register | BaseR | offset6 */
  lemma BaseOffsetLayout(p: string, c: nat, r: nat, b: nat, off: nat)
    requires AllDigits(p, 2) && Value(p, 2) == c && |p| == 4 && c < 16
    requires r < 8 && b < 8 && off < 64
    ensures p + Format(r, 2, 3) + Format(b, 2, 3) + Format(off, 2, 6)
      == Format(c * 0x1000 + r * 0x200 + b * 0x40 + off, 2, 16)
  {
    var a := p + Format(r, 2, 3) + Format(b, 2, 3);
    HeadLayout(p, c, r, b);
    assert Pow(2, 6) == 64 by { SmallPowers(); }
    Append(a, c * 64 + r * 8 + b, off, 6, 64);
    assert Pow(2, 16) == 0x1_0000 by { WordPowers(); }
    Canonical(a + Format(off, 2, 6), c * 0x1000 + r * 0x200 + b * 0x40 + off, 16, 0x1_0000);
  }

  /** opcode | 000 | BaseR | 000000 */
  lemma BaseLayout(p: string, c: nat, b: nat)
    requires AllDigits(p, 2) && Value(p, 2) == c && |p| == 4 && c < 16 && b < 8
    ensures p + Format(0, 2, 3) + Format(b, 2, 3) + Format(0, 2, 6) == Format(c * 0x1000 + b * 0x40, 2, 16)
  {
    var a := p + Format(0, 2, 3) + Format(b, 2, 3);
    HeadLayout(p, c, 0, b);
    assert Pow(2, 6) == 64 by { SmallPowers(); }
    Append(a, c * 64 + b, 0, 6, 64);
    assert Pow(2, 16) == 0x1_0000 by { WordPowers(); }
    Canonical(a + Format(0, 2, 6), c * 0x1000 + b * 0x40, 16, 0x1_0000);
  }

  /** opcode | 1 | PCoffset11 */
  lemma LongOffsetLayout(p: string, c: nat, off: nat)
    requires AllDigits(p, 2) && Value(p, 2) == c && |p| == 4 && c < 16 && off < 2048
    ensures p + Format(1, 2, 1) + Format(off, 2, 11) == Format(c * 0x1000 + 0x800 + off, 2, 16)
  {
    SmallPowers();
    Append(p, c, 1, 1, 2);
    Append(p + Format(1, 2, 1), c * 2 + 1, off, 11, 2048);
    WordPowers();
    Canonical(p + Format(1, 2, 1) + Format(off, 2, 11), c * 0x1000 + 0x800 + off, 16, 0x10000);
  }

  /** 1111 0000 | trapvect8 */
  lemma TrapLayout(t: string, v: nat)
    requires AllDigits(t, 2) && Value(t, 2) == 0xF0 && |t| == 8 && v < 256
    ensures t + Format(v, 2, 8) == Format(0xF000 + v, 2, 16)
  {
    WordPowers();
    Append(t, 0xF0, v, 8, 256);
    Canonical(t + Format(v, 2, 8), 0xF000 + v, 16, 0x10000);
  }

  // ---------------------------------------------------------------------------
  // ADD and AND

  /** ADD/AND DR SR1 SR2: opcode, DR in bits 11..9, SR1 in 8..6, bits 5..3 zero, SR2 in 2..0. */
  lemma AddRegisterWord(op: Opcodes.Opcode, dr: nat, sr1: nat, sr2: nat, d: Dialect)
    requires op == Opcodes.ADD || op == Opcodes.AND
    requires dr < 8 && sr1 < 8 && sr2 < 8
    ensures Encode([Opcodes.Name(op), RegName(dr), RegName(sr1), RegName(sr2)], d)
      == Some(Format(Opcodes.Code(op) * 0x1000 + dr * 0x200 + sr1 * 0x40 + sr2, 2, 16))
  {
    AddRegisterBits(op, dr, sr1, sr2, d);
    RegisterWordLayout(op, dr, sr1, sr2);
  }

  lemma RegisterWordLayout(op: Opcodes.Opcode, dr: nat, sr1: nat, sr2: nat)
    requires op == Opcodes.ADD || op == Opcodes.AND
    requires dr < 8 && sr1 < 8 && sr2 < 8
    ensures Instructions[Opcodes.Name(op)] + Format(dr, 2, 3) + Format(sr1, 2, 3) + Format(0, 2, 3) + Format(sr2, 2, 3)
      == Format(Opcodes.Code(op) * 0x1000 + dr * 0x200 + sr1 * 0x40 + sr2, 2, 16)
  {
    var p, c := Instructions[Opcodes.Name(op)], Opcodes.Code(op);
    assert AllDigits(p, 2) && Value(p, 2) == c && |p| == 4 by { Prefix(op); }
    RegisterLayout(p, c, dr, sr1, sr2);
  }

  lemma AddRegisterBits(op: Opcodes.Opcode, dr: nat, sr1: nat, sr2: nat, d: Dialect)
    requires op == Opcodes.ADD || op == Opcodes.AND
    requires dr < 8 && sr1 < 8 && sr2 < 8
    ensures Encode([Opcodes.Name(op), RegName(dr), RegName(sr1), RegName(sr2)], d) ==
      Some(Instructions[Opcodes.Name(op)] + Format(dr, 2, 3) + Format(sr1, 2, 3) + Format(0, 2, 3) + Format(sr2, 2, 3))
  {
    var parts := [Opcodes.Name(op), RegName(dr), RegName(sr1), RegName(sr2)];
    var p, a, b, c := Instructions[Opcodes.Name(op)], Format(dr, 2, 3), Format(sr1, 2, 3), Format(sr2, 2, 3);
    ArithDispatch(op, parts, d);
    assert ArithOperands(parts) == Some((a + b) + ("000" + c)) by {
      RegisterFieldOf(parts, 1, dr);
      RegisterFieldOf(parts, 2, sr1);
      RegisterTable(sr2);
    }
    assert Encode(parts, d) == Some(p + ((a + b) + ("000" + c))) by {
      Prefix(op);
    }
    assert Format(0, 2, 3) == "000" by {
      ZeroFields();
    }
    Concat5(p, a, b, "000", c);
  }

  /** ADD/AND DR SR1 imm: bit 5 set and the operand, read as hex, in bits 4..0. */
  lemma AddImmediateWord(op: Opcodes.Opcode, dr: nat, sr1: nat, tok: string, imm: nat, d: Dialect)
    requires op == Opcodes.ADD || op == Opcodes.AND
    requires dr < 8 && sr1 < 8 && ParseInt(tok, 16) == Some(imm) && imm < 32
    ensures Encode([Opcodes.Name(op), RegName(dr), RegName(sr1), tok], d)
      == Some(Format(Opcodes.Code(op) * 0x1000 + dr * 0x200 + sr1 * 0x40 + 0x20 + imm, 2, 16))
  {
    AddImmediateBits(op, dr, sr1, tok, imm, d);
    ImmediateWordLayout(op, dr, sr1, imm);
  }

  lemma ImmediateWordLayout(op: Opcodes.Opcode, dr: nat, sr1: nat, imm: nat)
    requires op == Opcodes.ADD || op == Opcodes.AND
    requires dr < 8 && sr1 < 8 && imm < 32
    ensures Instructions[Opcodes.Name(op)] + Format(dr, 2, 3) + Format(sr1, 2, 3) + Format(1, 2, 1) + Format(imm, 2, 5)
      == Format(Opcodes.Code(op) * 0x1000 + dr * 0x200 + sr1 * 0x40 + 0x20 + imm, 2, 16)
  {
    Prefix(op);
    ImmediateLayout(Instructions[Opcodes.Name(op)], Opcodes.Code(op), dr, sr1, imm);
  }

  lemma AddImmediateBits(op: Opcodes.Opcode, dr: nat, sr1: nat, tok: string, imm: int, d: Dialect)
    requires op == Opcodes.ADD || op == Opcodes.AND
    requires dr < 8 && sr1 < 8 && ParseInt(tok, 16) == Some(imm)
    ensures Encode([Opcodes.Name(op), RegName(dr), RegName(sr1), tok], d) ==
      Some(Instructions[Opcodes.Name(op)] + Format(dr, 2, 3) + Format(sr1, 2, 3) + Format(1, 2, 1) + Format(imm, 2, 5))
  {
    var parts := [Opcodes.Name(op), RegName(dr), RegName(sr1), tok];
    var p, a, b, c := Instructions[Opcodes.Name(op)], Format(dr, 2, 3), Format(sr1, 2, 3), Format(imm, 2, 5);
    ArithDispatch(op, parts, d);
    assert ArithOperands(parts) == Some((a + b) + ("1" + c)) by {
      RegisterFieldOf(parts, 1, dr);
      RegisterFieldOf(parts, 2, sr1);
      NumbersAreNotRegisters(tok);
      NumberFieldOf(parts, 3, 5, imm);
    }
    assert Encode(parts, d) == Some(p + ((a + b) + ("1" + c))) by {
      Prefix(op);
    }
    assert Format(1, 2, 1) == "1" by {
      ZeroFields();
    }
    Concat5(p, a, b, "1", c);
  }

  /**
   * A negative immediate ("-1") is formatted with a '-' in the middle of the
   * bit string, so int(…, 2) rejects the line: the encoder has no way to
   * write a negative imm5 except as its two's-complement hex digits.
   */
  lemma NegativeImmediateRejected(op: Opcodes.Opcode, dr: nat, sr1: nat, tok: string, imm: int, d: Dialect)
    requires op == Opcodes.ADD || op == Opcodes.AND
    requires dr < 8 && sr1 < 8 && ParseInt(tok, 16) == Some(imm) && imm < 0
    ensures Encode([Opcodes.Name(op), RegName(dr), RegName(sr1), tok], d).Some?
    ensures EncodeValue([Opcodes.Name(op), RegName(dr), RegName(sr1), tok], d) == None
  {
    var parts := [Opcodes.Name(op), RegName(dr), RegName(sr1), tok];
    var a := Instructions[Opcodes.Name(op)] + Format(dr, 2, 3) + Format(sr1, 2, 3) + Format(1, 2, 1);
    AddImmediateBits(op, dr, sr1, tok, imm, d);
    ArithHead(op, dr, sr1);
    FormatNegative(imm, 2, 5);
    NotBinary(a, Format(imm, 2, 5));
    RejectedBits(parts, d, a + Format(imm, 2, 5));
  }

  /** The bits before ADD's or AND's immediate start with two binary digits. */
  lemma ArithHead(op: Opcodes.Opcode, dr: nat, sr1: nat)
    requires op == Opcodes.ADD || op == Opcodes.AND
    ensures var a := Instructions[Opcodes.Name(op)] + Format(dr, 2, 3) + Format(sr1, 2, 3) + Format(1, 2, 1);
      |a| >= 2 && IsDigit(a[0], 2) && IsDigit(a[1], 2)
  {
    var p := Instructions[Opcodes.Name(op)];
    var rest := Format(dr, 2, 3) + Format(sr1, 2, 3) + Format(1, 2, 1);
    Prefix(op);
    DigitsHead(p, rest);
    Concat4(p, Format(dr, 2, 3), Format(sr1, 2, 3), Format(1, 2, 1));
  }

  lemma DigitsHead(p: string, rest: string)
    requires |p| >= 2 && AllDigits(p, 2)
    ensures |p + rest| >= 2 && IsDigit((p + rest)[0], 2) && IsDigit((p + rest)[1], 2)
  {
    assert (p + rest)[0] == p[0] && (p + rest)[1] == p[1];
  }

  /** Digits followed by a '-' do not form a binary numeral. */
  lemma NotBinary(a: string, f: string)
    requires |a| >= 2 && IsDigit(a[0], 2) && IsDigit(a[1], 2) && f != [] && f[0] == '-'
    ensures ParseInt(a + f, 2) == None
  {
    var s := a + f;
    assert s[0] == a[0] && s[1] == a[1] && s[|a|] == '-';
    assert s[1] !in PrefixLetters(2);
    assert !IsDigit(s[|a|], 2);
  }

  lemma RejectedBits(parts: seq<string>, d: Dialect, bits: string)
    requires Encode(parts, d) == Some(bits) && ParseInt(bits, 2) == None
    ensures EncodeValue(parts, d) == None
  {
  }

  // ---------------------------------------------------------------------------
  // Loads and stores

  /** LD/LDI/LEA DR offset, intended layout: DR in bits 11..9 and a 9-bit offset. */
  lemma LoadWordCorrected(op: Opcodes.Opcode, dr: nat, tok: string, off: nat)
    requires op == Opcodes.LD || op == Opcodes.LDI || op == Opcodes.LEA
    requires dr < 8 && ParseInt(tok, 16) == Some(off) && off < 512
    ensures Encode([Opcodes.Name(op), RegName(dr), tok], Corrected)
      == Some(Format(Opcodes.Code(op) * 0x1000 + dr * 0x200 + off, 2, 16))
  {
    OffsetBits(op, dr, tok, off, Corrected);
    OffsetWordLayout(op, dr, off, Corrected);
  }

  /** ST/STI SR offset (both dialects): SR in bits 11..9 and a 9-bit offset. */
  lemma StoreWord(op: Opcodes.Opcode, sr: nat, tok: string, off: nat, d: Dialect)
    requires op == Opcodes.ST || op == Opcodes.STI
    requires sr < 8 && ParseInt(tok, 16) == Some(off) && off < 512
    ensures Encode([Opcodes.Name(op), RegName(sr), tok], d)
      == Some(Format(Opcodes.Code(op) * 0x1000 + sr * 0x200 + off, 2, 16))
  {
    OffsetBits(op, sr, tok, off, d);
    OffsetWordLayout(op, sr, off, d);
  }

  /** The offset width each register-plus-offset form uses in a dialect. */
  function OffsetWidth(op: Opcodes.Opcode, d: Dialect): nat {
    if op == Opcodes.ST || op == Opcodes.STI then 9 else LdOffsetWidth(d)
  }

  lemma OffsetWordLayout(op: Opcodes.Opcode, r: nat, off: nat, d: Dialect)
    requires op in {Opcodes.LD, Opcodes.LDI, Opcodes.LEA, Opcodes.ST, Opcodes.STI}
    requires OffsetWidth(op, d) == 9 && r < 8 && off < 512
    ensures Instructions[Opcodes.Name(op)] + Format(r, 2, 3) + Format(off, 2, OffsetWidth(op, d))
      == Format(Opcodes.Code(op) * 0x1000 + r * 0x200 + off, 2, 16)
  {
    Prefix(op);
    OffsetLayout(Instructions[Opcodes.Name(op)], Opcodes.Code(op), r, off);
  }

  lemma OffsetBits(op: Opcodes.Opcode, r: nat, tok: string, off: int, d: Dialect)
    requires op in {Opcodes.LD, Opcodes.LDI, Opcodes.LEA, Opcodes.ST, Opcodes.STI}
    requires r < 8 && ParseInt(tok, 16) == Some(off)
    ensures Encode([Opcodes.Name(op), RegName(r), tok], d) ==
      Some(Instructions[Opcodes.Name(op)] + Format(r, 2, 3) + Format(off, 2, OffsetWidth(op, d)))
  {
    var parts := [Opcodes.Name(op), RegName(r), tok];
    var w := OffsetWidth(op, d);
    var p, a, b := Instructions[Opcodes.Name(op)], Format(r, 2, 3), Format(off, 2, w);
    OffsetDispatch(op, parts, d);
    assert OffsetOperands(parts, w) == Some(a + b) by {
      RegisterFieldOf(parts, 1, r);
      NumberFieldOf(parts, 2, w, off);
    }
    assert Encode(parts, d) == Some(p + (a + b)) by {
      InstructionNames(op);
    }
    Concat3(p, a, b);
  }

  /** LDR DR BaseR offset, intended layout: DR, BaseR and a 6-bit offset. */
  lemma LdrWordCorrected(dr: nat, b: nat, tok: string, off: nat)
    requires dr < 8 && b < 8 && ParseInt(tok, 16) == Some(off) && off < 64
    ensures Encode(["LDR", RegName(dr), RegName(b), tok], Corrected)
      == Some(Format(0x6000 + dr * 0x200 + b * 0x40 + off, 2, 16))
  {
    BaseOffsetWord(Opcodes.LDR, dr, b, tok, off, Corrected);
  }

  /** STR SR BaseR offset (both dialects): SR, BaseR and a 6-bit offset. */
  lemma StrWord(sr: nat, b: nat, tok: string, off: nat, d: Dialect)
    requires sr < 8 && b < 8 && ParseInt(tok, 16) == Some(off) && off < 64
    ensures Encode(["STR", RegName(sr), RegName(b), tok], d)
      == Some(Format(0x7000 + sr * 0x200 + b * 0x40 + off, 2, 16))
  {
    BaseOffsetWord(Opcodes.STR, sr, b, tok, off, d);
  }

  /** The offset width LDR and STR use in a dialect. */
  function BaseOffsetWidth(op: Opcodes.Opcode, d: Dialect): nat {
    if op == Opcodes.STR then 6 else LdrOffsetWidth(d)
  }

  lemma BaseOffsetWord(op: Opcodes.Opcode, r: nat, b: nat, tok: string, off: nat, d: Dialect)
    requires op == Opcodes.STR || (op == Opcodes.LDR && d == Corrected)
    requires r < 8 && b < 8 && ParseInt(tok, 16) == Some(off) && off < 64
    ensures Encode([Opcodes.Name(op), RegName(r), RegName(b), tok], d)
      == Some(Format(Opcodes.Code(op) * 0x1000 + r * 0x200 + b * 0x40 + off, 2, 16))
  {
    BaseOffsetBits(op, r, b, tok, off, d);
    BaseOffsetWordLayout(op, r, b, off, d);
  }

  lemma BaseOffsetWordLayout(op: Opcodes.Opcode, r: nat, b: nat, off: nat, d: Dialect)
    requires op == Opcodes.STR || op == Opcodes.LDR
    requires BaseOffsetWidth(op, d) == 6 && r < 8 && b < 8 && off < 64
    ensures Instructions[Opcodes.Name(op)] + Format(r, 2, 3) + Format(b, 2, 3) + Format(off, 2, BaseOffsetWidth(op, d))
      == Format(Opcodes.Code(op) * 0x1000 + r * 0x200 + b * 0x40 + off, 2, 16)
  {
    Prefix(op);
    BaseOffsetLayout(Instructions[Opcodes.Name(op)], Opcodes.Code(op), r, b, off);
  }

  lemma BaseOffsetBits(op: Opcodes.Opcode, r: nat, b: nat, tok: string, off: int, d: Dialect)
    requires op == Opcodes.STR || op == Opcodes.LDR
    requires r < 8 && b < 8 && ParseInt(tok, 16) == Some(off)
    ensures Encode([Opcodes.Name(op), RegName(r), RegName(b), tok], d) ==
      Some(Instructions[Opcodes.Name(op)] + Format(r, 2, 3) + Format(b, 2, 3) + Format(off, 2, BaseOffsetWidth(op, d)))
  {
    var parts := [Opcodes.Name(op), RegName(r), RegName(b), tok];
    var w := BaseOffsetWidth(op, d);
    var p, x, y, z := Instructions[Opcodes.Name(op)], Format(r, 2, 3), Format(b, 2, 3), Format(off, 2, w);
    BaseDispatch(op, parts, d);
    assert RegisterField(parts, 1) == Some(x) by {
      RegisterFieldOf(parts, 1, r);
    }
    assert RegisterField(parts, 2) == Some(y) by {
      RegisterFieldOf(parts, 2, b);
    }
    assert NumberField(parts, 3, w) == Some(z) by {
      NumberFieldOf(parts, 3, w, off);
    }
    assert BaseOperands(parts, w) == Some((x + y) + z);
    assert Encode(parts, d) == Some(p + ((x + y) + z)) by {
      InstructionNames(op);
    }
    Concat4(p, x, y, z);
  }

  // ---------------------------------------------------------------------------
  // Control flow

  /** JMP BaseR: BaseR in bits 8..6, everything else zero below the opcode. */
  lemma JmpWord(b: nat, d: Dialect)
    requires b < 8
    ensures Encode(["JMP", RegName(b)], d) == Some(Format(0xC000 + b * 0x40, 2, 16))
  {
    JmpBits(b, d);
    JmpLayout(b);
  }

  lemma JmpLayout(b: nat)
    requires b < 8
    ensures Instructions["JMP"] + Format(0, 2, 3) + Format(b, 2, 3) + Format(0, 2, 6) == Format(0xC000 + b * 0x40, 2, 16)
  {
    Prefix(Opcodes.JMP);
    BaseLayout(Instructions["JMP"], 0xC, b);
  }

  lemma JmpBits(b: nat, d: Dialect)
    requires b < 8
    ensures Encode(["JMP", RegName(b)], d) ==
      Some(Instructions["JMP"] + Format(0, 2, 3) + Format(b, 2, 3) + Format(0, 2, 6))
  {
    var parts := ["JMP", RegName(b)];
    var p, r := Instructions["JMP"], Format(b, 2, 3);
    JmpDispatch(parts, d);
    assert JmpOperands(parts) == Some(("000" + r) + "000000") by {
      RegisterFieldOf(parts, 1, b);
    }
    assert Encode(parts, d) == Some(p + (("000" + r) + "000000"));
    assert Format(0, 2, 3) == "000" && Format(0, 2, 6) == "000000" by {
      ZeroFields();
    }
    Concat4(p, "000", r, "000000");
  }

  /** JSR with a register operand (JSRR in the LC-3 manual): bit 11 clear, BaseR in bits 8..6. */
  lemma JsrRegisterWord(b: nat, d: Dialect)
    requires b < 8
    ensures Encode(["JSR", RegName(b)], d) == Some(Format(0x4000 + b * 0x40, 2, 16))
  {
    JsrRegisterBits(b, d);
    JsrRegisterLayout(b);
  }

  lemma JsrRegisterLayout(b: nat)
    requires b < 8
    ensures Instructions["JSR"] + Format(0, 2, 3) + Format(b, 2, 3) + Format(0, 2, 6) == Format(0x4000 + b * 0x40, 2, 16)
  {
    Prefix(Opcodes.JSR);
    BaseLayout(Instructions["JSR"], 0x4, b);
  }

  lemma JsrRegisterBits(b: nat, d: Dialect)
    requires b < 8
    ensures Encode(["JSR", RegName(b)], d) ==
      Some(Instructions["JSR"] + Format(0, 2, 3) + Format(b, 2, 3) + Format(0, 2, 6))
  {
    var parts := ["JSR", RegName(b)];
    var p, r := Instructions["JSR"], Format(b, 2, 3);
    JsrDispatch(parts, d);
    assert JsrOperands(parts, d) == Some("000" + r + "000000") by {
      RegisterTable(b);
    }
    assert Encode(parts, d) == Some(p + ("000" + r + "000000"));
    assert Format(0, 2, 3) == "000" && Format(0, 2, 6) == "000000" by {
      ZeroFields();
    }
    Concat4b(p, "000", r, "000000");
  }

  /** JSR offset, intended: bit 11 set and an 11-bit offset taken from the operand. */
  lemma JsrOffsetWordCorrected(tok: string, off: nat)
    requires ParseInt(tok, 16) == Some(off) && off < 2048
    ensures Encode(["JSR", tok], Corrected) == Some(Format(0x4800 + off, 2, 16))
  {
    JsrOffsetWord(["JSR", tok], Corrected, off);
  }

  /**
   * JSR offset as written: the offset is read from the token after the
   * operand, so "JSR 5" raises (None) and "JSR 5 7" encodes 7.
   */
  lemma JsrOffsetAsWritten(tok: string, extra: string, off: nat)
    requires ParseInt(tok, 16).Some? && ParseInt(extra, 16) == Some(off) && off < 2048
    ensures Encode(["JSR", tok], AsWritten) == None
    ensures Encode(["JSR", tok, extra], AsWritten) == Some(Format(0x4800 + off, 2, 16))
  {
    assert Encode(["JSR", tok], AsWritten) == None by {
      NumbersAreNotRegisters(tok);
      JsrDispatch(["JSR", tok], AsWritten);
    }
    assert Encode(["JSR", tok, extra], AsWritten) == Some(Format(0x4800 + off, 2, 16)) by {
      JsrOffsetWord(["JSR", tok, extra], AsWritten, off);
    }
  }

  lemma JsrOffsetWord(parts: seq<string>, d: Dialect, off: nat)
    requires 2 <= |parts| <= 3 && parts[0] == "JSR" && ParseInt(parts[1], 16).Some?
    requires JsrOffsetIndex(d) < |parts| && ParseInt(parts[JsrOffsetIndex(d)], 16) == Some(off) && off < 2048
    ensures Encode(parts, d) == Some(Format(0x4800 + off, 2, 16))
  {
    JsrOffsetBits(parts, d, off);
    JsrOffsetLayout(off);
  }

  lemma JsrOffsetLayout(off: nat)
    requires off < 2048
    ensures Instructions["JSR"] + Format(1, 2, 1) + Format(off, 2, 11) == Format(0x4800 + off, 2, 16)
  {
    Prefix(Opcodes.JSR);
    LongOffsetLayout(Instructions["JSR"], 0x4, off);
  }

  lemma JsrOffsetBits(parts: seq<string>, d: Dialect, off: nat)
    requires 2 <= |parts| <= 3 && parts[0] == "JSR" && ParseInt(parts[1], 16).Some?
    requires JsrOffsetIndex(d) < |parts| && ParseInt(parts[JsrOffsetIndex(d)], 16) == Some(off)
    ensures Encode(parts, d) == Some(Instructions["JSR"] + Format(1, 2, 1) + Format(off, 2, 11))
  {
    var p, f := Instructions["JSR"], Format(off, 2, 11);
    JsrDispatch(parts, d);
    assert JsrOperands(parts, d) == Some("1" + f) by {
      NumbersAreNotRegisters(parts[1]);
      NumberFieldOf(parts, JsrOffsetIndex(d), 11, off);
    }
    assert Encode(parts, d) == Some(p + ("1" + f));
    assert Format(1, 2, 1) == "1" by {
      ZeroFields();
    }
    Concat3(p, "1", f);
  }

  /** The n, z, p bits BR sets for its condition token: P, Z, and anything else meaning N. */
  function BranchCondition(flag: string): (nzp: nat)
    ensures nzp in {Machine.FP, Machine.FZ, Machine.FN}
    ensures nzp == Machine.FP <==> flag == "P"
    ensures nzp == Machine.FZ <==> flag == "Z"
  {
    if flag == "P" then 1 else if flag == "Z" then 2 else 4
  }

  /**
   * The condition bits BR encodes, against the flag update_flag stores for a
   * register holding v: they coincide exactly when v is positive for P, zero
   * for Z, and negative (read as signed) for every other token.
   */
  lemma BranchTests(flag: string, v: Opcodes.Word)
    ensures BranchCondition(flag) == Machine.Flag(v) <==>
      (flag == "P" && Machine.ToSigned(v) > 0) || (flag == "Z" && v == 0) ||
      (flag != "P" && flag != "Z" && Machine.ToSigned(v) < 0)
  {
  }

  /** BR cond offset: one of n/z/p in bits 11..9 and a 9-bit offset, opcode 0000. */
  lemma BrWord(flag: string, tok: string, off: nat, d: Dialect)
    requires ParseInt(tok, 16) == Some(off) && off < 512
    ensures Encode(["BR", flag, tok], d) == Some(Format(BranchCondition(flag) * 0x200 + off, 2, 16))
  {
    BrBits(flag, tok, off, d);
    BrLayout(BranchCondition(flag), off);
  }

  lemma BrLayout(nzp: nat, off: nat)
    requires nzp < 8 && off < 512
    ensures Instructions["BR"] + Format(nzp, 2, 3) + Format(off, 2, 9) == Format(nzp * 0x200 + off, 2, 16)
  {
    Prefix(Opcodes.BR);
    OffsetLayout(Instructions["BR"], 0, nzp, off);
  }

  lemma BrBits(flag: string, tok: string, off: nat, d: Dialect)
    requires ParseInt(tok, 16) == Some(off)
    ensures Encode(["BR", flag, tok], d) ==
      Some(Instructions["BR"] + Format(BranchCondition(flag), 2, 3) + Format(off, 2, 9))
  {
    var parts := ["BR", flag, tok];
    var p, a, b := Instructions["BR"], Format(BranchCondition(flag), 2, 3), Format(off, 2, 9);
    BrDispatch(parts, d);
    assert NumberField(parts, 2, 9) == Some(b) by {
      NumberFieldOf(parts, 2, 9, off);
    }
    assert BrOperands(parts) == Some(a + b) by {
      ConditionBits(flag);
    }
    assert Encode(parts, d) == Some(p + (a + b));
    Concat3(p, a, b);
  }

  /** BR's condition field is the 3-bit binary of the n, z, p mask it stands for. */
  lemma ConditionBits(flag: string)
    ensures (if flag == "P" then "001" else if flag == "Z" then "010" else "100")
      == Format(BranchCondition(flag), 2, 3)
  {
    assert Format(1, 2, 3) == "001" && Format(2, 2, 3) == "010" && Format(4, 2, 3) == "100";
  }

  // ---------------------------------------------------------------------------
  // TRAP and HALT

  /** The trap table's vectors: GETC x20, OUT x21, PUTS x22, IN x23, PUTSP x24, IN_U16 x26, OUT_U16 x27. */
  function TrapVector(name: string): (v: nat)
    ensures 0x20 <= v <= 0x27 && v != 0x25
  {
    if name == "GETC" then 0x20 else if name == "OUT" then 0x21 else if name == "PUTS" then 0x22
    else if name == "IN" then 0x23 else if name == "PUTSP" then 0x24
    else if name == "IN_U16" then 0x26 else 0x27
  }

  /** The trap vectors all lie in x20..x27, so each entry is 00100 followed by three bits. */
  lemma TrapEntryBits(k: nat)
    requires k < 8
    ensures "00100" + Format(k, 2, 3) == Format(0x20 + k, 2, 8)
  {
    assert Format(4, 2, 5) == "00100";
    FormatDigits(4, 2, 5);
    SmallPowers();
    WordPowers();
    Append("00100", 4, k, 3, 8);
    Canonical("00100" + Format(k, 2, 3), 0x20 + k, 8, 0x100);
  }

  /** Each entry of the trap table is the 8-bit binary of its vector. */
  lemma TrapTable(name: string)
    requires name in Traps
    ensures Traps[name] == Format(TrapVector(name), 2, 8)
  {
    var k: nat := TrapVector(name) - 0x20;
    assert k < 8 && Traps[name] == "00100" + Format(k, 2, 3) by {
      if name == "GETC" {
        assert Format(0, 2, 3) == "000";
      } else if name == "OUT" {
        assert Format(1, 2, 3) == "001";
      } else if name == "PUTS" {
        assert Format(2, 2, 3) == "010";
      } else if name == "IN" {
        assert Format(3, 2, 3) == "011";
      } else if name == "PUTSP" {
        assert Format(4, 2, 3) == "100";
      } else if name == "IN_U16" {
        assert Format(6, 2, 3) == "110";
      } else {
        assert name == "OUT_U16";
        assert Format(7, 2, 3) == "111";
      }
    }
    TrapEntryBits(k);
  }

  /** TRAP name: 1111 0000 and the trap's 8-bit vector; an unknown name raises. */
  lemma TrapWord(name: string, d: Dialect)
    ensures name in Traps ==> Encode(["TRAP", name], d) == Some(Format(0xF000 + TrapVector(name), 2, 16))
    ensures name !in Traps ==> Encode(["TRAP", name], d) == None
  {
    var parts := ["TRAP", name];
    TrapDispatch(parts, d);
    if name in Traps {
      var t, v := Instructions["TRAP"], TrapVector(name);
      assert Encode(parts, d) == Some(t + Format(v, 2, 8)) by {
        TrapTable(name);
      }
      TrapWordLayout(v);
    }
  }

  lemma TrapWordLayout(v: nat)
    requires v < 256
    ensures Instructions["TRAP"] + Format(v, 2, 8) == Format(0xF000 + v, 2, 16)
  {
    TrapPrefixDigits();
    TrapLayout(Instructions["TRAP"], v);
  }

  /** TRAP's prefix and a vector, read as binary, is the word 0xF000 + vector. */
  lemma TrapValue(v: nat)
    requires v < 256
    ensures ParseInt(Instructions["TRAP"] + Format(v, 2, 8), 2) == Some(0xF000 + v)
  {
    TrapWordLayout(v);
    ParseFormat(0xF000 + v, 2, 16);
  }

  /** HALT is the whole word 0xF025: TRAP with vector x25. */
  lemma HaltWord()
    ensures ParseInt(Instructions["HALT"], 2) == Some(0xF025)
  {
    HaltHalves();
    TrapValue(0x25);
  }

  /** The machine reads 0xF025 as a TRAP. */
  lemma HaltOpcode()
    ensures Opcodes.Decode(0xF025) == Opcodes.TRAP
  {
    Opcodes.DecodeRange(0xF025, Opcodes.TRAP);
  }

  lemma TrapPrefixDigits()
    ensures AllDigits(Instructions["TRAP"], 2) && Value(Instructions["TRAP"], 2) == 0xF0
    ensures |Instructions["TRAP"]| == 8
  {
    assert Instructions["TRAP"] == "11110000";
    TrapBits();
  }

  /** TRAP's prefix is the TRAP code followed by four zero bits. */
  lemma TrapPrefix()
    ensures ParseInt(Instructions["TRAP"], 2) == Some(Opcodes.Code(Opcodes.TRAP) * 16)
  {
    TrapPrefixDigits();
    ParseDigits(Instructions["TRAP"], 2);
  }

  /** The bit string 11110000 denotes 0xF0. */
  lemma TrapBits()
    ensures AllDigits("11110000", 2) && Value("11110000", 2) == 0xF0
  {
    var ones := Format(15, 2, 4);
    assert ToDigits(15, 2) == "1111";
    FormatValue(15, 2, 4);
    assert Pow(2, 4) == 16;
    Append(ones, 15, 0, 4, 16);
    ZerosSmall();
    assert ones + Format(0, 2, 4) == "11110000";
  }

  /** HALT takes no operands; whatever follows it on the line is ignored, and the word is TRAP x25. */
  lemma HaltLine(rest: seq<string>, d: Dialect)
    ensures EncodeValue(["HALT"] + rest, d) == Some(0xF025)
  {
    var parts := ["HALT"] + rest;
    assert parts[0] == "HALT";
    assert Encode(parts, d) == Some(Instructions["HALT"] + "");
    assert Instructions["HALT"] + "" == Instructions["HALT"];
    HaltWord();
  }

  /** NOT, RTI and RES (and any other unknown mnemonic) make the line raise. */
  lemma UnsupportedOperations(op: Opcodes.Opcode, rest: seq<string>, d: Dialect)
    requires op in {Opcodes.NOT, Opcodes.RTI, Opcodes.RES}
    ensures Encode([Opcodes.Name(op)] + rest, d) == None
  {
    InstructionNames(op);
    assert ([Opcodes.Name(op)] + rest)[0] == Opcodes.Name(op);
  }

  // ---------------------------------------------------------------------------
  // The as-written offset widths

  /** opcode | register | 5-bit offset: twelve bits, the opcode landing in bits 11..8. */
  lemma ShortOffsetLayout(p: string, c: nat, r: nat, off: nat)
    requires AllDigits(p, 2) && Value(p, 2) == c && |p| == 4 && c < 16
    requires r < 8 && off < 32
    ensures p + Format(r, 2, 3) + Format(off, 2, 5) == Format(c * 0x100 + r * 0x20 + off, 2, 12)
  {
    SmallPowers();
    Append(p, c, r, 3, 8);
    Append(p + Format(r, 2, 3), c * 8 + r, off, 5, 32);
    WordPowers();
    Canonical(p + Format(r, 2, 3) + Format(off, 2, 5), c * 0x100 + r * 0x20 + off, 12, 0x1000);
  }

  /** opcode | register | BaseR | 5-bit offset: fifteen bits, the opcode landing in bits 14..11. */
  lemma ShortBaseOffsetLayout(p: string, c: nat, r: nat, b: nat, off: nat)
    requires AllDigits(p, 2) && Value(p, 2) == c && |p| == 4 && c < 16
    requires r < 8 && b < 8 && off < 32
    ensures p + Format(r, 2, 3) + Format(b, 2, 3) + Format(off, 2, 5)
      == Format(c * 0x800 + r * 0x100 + b * 0x20 + off, 2, 15)
  {
    SmallPowers();
    Append(p, c, r, 3, 8);
    Append(p + Format(r, 2, 3), c * 8 + r, b, 3, 8);
    var a := p + Format(r, 2, 3) + Format(b, 2, 3);
    Append(a, (c * 8 + r) * 8 + b, off, 5, 32);
    WordPowers();
    Canonical(a + Format(off, 2, 5), c * 0x800 + r * 0x100 + b * 0x20 + off, 15, 0x8000);
  }

  /**
   * LD/LDI/LEA as written, for an offset below 32: '05b' leaves a 12-bit
   * string, so int(…, 2) puts the opcode in bits 11..8 and the top nibble,
   * which the machine decodes, is 0000 (BR).
   */
  lemma LoadWordAsWritten(op: Opcodes.Opcode, dr: nat, tok: string, off: nat)
    requires op == Opcodes.LD || op == Opcodes.LDI || op == Opcodes.LEA
    requires dr < 8 && ParseInt(tok, 16) == Some(off) && off < 32
    ensures EncodeValue([Opcodes.Name(op), RegName(dr), tok], AsWritten)
      == Some(Opcodes.Code(op) * 0x100 + dr * 0x20 + off)
  {
    var parts, v := [Opcodes.Name(op), RegName(dr), tok], Opcodes.Code(op) * 0x100 + dr * 0x20 + off;
    var bits := Format(v, 2, 12);
    assert Encode(parts, AsWritten) == Some(bits) by {
      LoadBitsAsWritten(op, dr, tok, off);
    }
    assert ParseInt(bits, 2) == Some(v) by {
      ParseFormat(v, 2, 12);
    }
    ReadBack(parts, AsWritten, bits, v);
  }

  /** The as-written LD/LDI/LEA word is below 0x1000, so the machine decodes it as BR. */
  lemma LoadDecodeAsWritten(op: Opcodes.Opcode, dr: nat, off: nat)
    requires dr < 8 && off < 32
    ensures Opcodes.Code(op) * 0x100 + dr * 0x20 + off < 0x1000
    ensures Opcodes.Decode(Opcodes.Code(op) * 0x100 + dr * 0x20 + off) == Opcodes.BR
  {
    Opcodes.DecodeRange(Opcodes.Code(op) * 0x100 + dr * 0x20 + off, Opcodes.BR);
  }

  lemma LoadBitsAsWritten(op: Opcodes.Opcode, dr: nat, tok: string, off: nat)
    requires op == Opcodes.LD || op == Opcodes.LDI || op == Opcodes.LEA
    requires dr < 8 && ParseInt(tok, 16) == Some(off) && off < 32
    ensures Encode([Opcodes.Name(op), RegName(dr), tok], AsWritten)
      == Some(Format(Opcodes.Code(op) * 0x100 + dr * 0x20 + off, 2, 12))
  {
    OffsetBits(op, dr, tok, off, AsWritten);
    ShortOffsetWordLayout(op, dr, off, AsWritten);
  }

  lemma ShortOffsetWordLayout(op: Opcodes.Opcode, r: nat, off: nat, d: Dialect)
    requires op == Opcodes.LD || op == Opcodes.LDI || op == Opcodes.LEA
    requires OffsetWidth(op, d) == 5 && r < 8 && off < 32
    ensures Instructions[Opcodes.Name(op)] + Format(r, 2, 3) + Format(off, 2, OffsetWidth(op, d))
      == Format(Opcodes.Code(op) * 0x100 + r * 0x20 + off, 2, 12)
  {
    Prefix(op);
    ShortOffsetLayout(Instructions[Opcodes.Name(op)], Opcodes.Code(op), r, off);
  }

  /**
   * LDR as written, for an offset below 32: '05b' leaves a 15-bit string, the
   * opcode lands in bits 14..11, and the top nibble is the opcode halved
   * (0110 becomes 0011, ST).
   */
  lemma LdrWordAsWritten(dr: nat, b: nat, tok: string, off: nat)
    requires dr < 8 && b < 8 && ParseInt(tok, 16) == Some(off) && off < 32
    ensures EncodeValue(["LDR", RegName(dr), RegName(b), tok], AsWritten)
      == Some(0x3000 + dr * 0x100 + b * 0x20 + off)
  {
    var parts, v := ["LDR", RegName(dr), RegName(b), tok], 0x3000 + dr * 0x100 + b * 0x20 + off;
    var bits := Format(v, 2, 15);
    assert Encode(parts, AsWritten) == Some(bits) by {
      LdrBitsAsWritten(dr, b, tok, off);
    }
    assert ParseInt(bits, 2) == Some(v) by {
      ParseFormat(v, 2, 15);
    }
    ReadBack(parts, AsWritten, bits, v);
  }

  /** The as-written LDR word has top nibble 0011, so the machine decodes it as ST. */
  lemma LdrDecodeAsWritten(dr: nat, b: nat, off: nat)
    requires dr < 8 && b < 8 && off < 32
    ensures 0x3000 <= 0x3000 + dr * 0x100 + b * 0x20 + off < 0x4000
    ensures Opcodes.Decode(0x3000 + dr * 0x100 + b * 0x20 + off) == Opcodes.ST
  {
    Opcodes.DecodeRange(0x3000 + dr * 0x100 + b * 0x20 + off, Opcodes.ST);
  }

  lemma LdrBitsAsWritten(dr: nat, b: nat, tok: string, off: nat)
    requires dr < 8 && b < 8 && ParseInt(tok, 16) == Some(off) && off < 32
    ensures Encode(["LDR", RegName(dr), RegName(b), tok], AsWritten)
      == Some(Format(0x3000 + dr * 0x100 + b * 0x20 + off, 2, 15))
  {
    BaseOffsetBits(Opcodes.LDR, dr, b, tok, off, AsWritten);
    ShortLdrLayout(dr, b, off, AsWritten);
  }

  lemma ShortLdrLayout(r: nat, b: nat, off: nat, d: Dialect)
    requires BaseOffsetWidth(Opcodes.LDR, d) == 5 && r < 8 && b < 8 && off < 32
    ensures Instructions["LDR"] + Format(r, 2, 3) + Format(b, 2, 3) + Format(off, 2, BaseOffsetWidth(Opcodes.LDR, d))
      == Format(0x3000 + r * 0x100 + b * 0x20 + off, 2, 15)
  {
    Prefix(Opcodes.LDR);
    ShortBaseOffsetLayout(Instructions["LDR"], 6, r, b, off);
  }

  /**
   * LD/LDI/LEA as written, any offset below 512: the bit string is 16 long
   * (opcode in place) only when the offset happens to need all 9 bits.
   */
  lemma LoadWidthAsWritten(op: Opcodes.Opcode, dr: nat, tok: string, off: nat)
    requires op == Opcodes.LD || op == Opcodes.LDI || op == Opcodes.LEA
    requires dr < 8 && ParseInt(tok, 16) == Some(off) && off < 512
    ensures Encode([Opcodes.Name(op), RegName(dr), tok], AsWritten).Some?
    ensures |Encode([Opcodes.Name(op), RegName(dr), tok], AsWritten).value| == 16 <==> off >= 256
  {
    OffsetBits(op, dr, tok, off, AsWritten);
    ShortOffsetLength(op, dr, off, AsWritten);
  }

  lemma ShortOffsetLength(op: Opcodes.Opcode, r: nat, off: nat, d: Dialect)
    requires op == Opcodes.LD || op == Opcodes.LDI || op == Opcodes.LEA
    requires OffsetWidth(op, d) == 5 && r < 8 && off < 512
    ensures |Instructions[Opcodes.Name(op)] + Format(r, 2, 3) + Format(off, 2, OffsetWidth(op, d))| == 16
      <==> off >= 256
  {
    Prefix(op);
    FormatLength(r, 2, 3);
    SmallPowers();
    OffsetLength(off, 5, 9);
  }

  /** LDR as written, any offset below 64: the string is 16 long only for offsets of 32 and more. */
  lemma LdrWidthAsWritten(dr: nat, b: nat, tok: string, off: nat)
    requires dr < 8 && b < 8 && ParseInt(tok, 16) == Some(off) && off < 64
    ensures Encode(["LDR", RegName(dr), RegName(b), tok], AsWritten).Some?
    ensures |Encode(["LDR", RegName(dr), RegName(b), tok], AsWritten).value| == 16 <==> off >= 32
  {
    BaseOffsetBits(Opcodes.LDR, dr, b, tok, off, AsWritten);
    ShortLdrLength(dr, b, off, AsWritten);
  }

  lemma ShortLdrLength(r: nat, b: nat, off: nat, d: Dialect)
    requires BaseOffsetWidth(Opcodes.LDR, d) == 5 && r < 8 && b < 8 && off < 64
    ensures |Instructions["LDR"] + Format(r, 2, 3) + Format(b, 2, 3) + Format(off, 2, BaseOffsetWidth(Opcodes.LDR, d))| == 16
      <==> off >= 32
  {
    Prefix(Opcodes.LDR);
    FormatLength(r, 2, 3);
    FormatLength(b, 2, 3);
    SmallPowers();
    OffsetLength(off, 5, 6);
  }

  /** An offset below 2^full formatted at width w <= full is full wide exactly when it needs all of them. */
  lemma OffsetLength(off: nat, w: nat, full: nat)
    requires 1 <= w < full && off < Pow(2, full)
    ensures |Format(off, 2, w)| == full <==> off >= Pow(2, full - 1)
  {
    FormatLength(off, 2, w);
    ToDigitsLength(off, 2, full - 1);
    ToDigitsLength(off, 2, full);
    if w < full - 1 {
      PowStrictlyIncreasing(2, w, full - 1);
    }
  }

  /**
   * "LD R1 3" (3 or any other token that reads as hex 3), as written: 0x0223,
   * which the machine decodes as BR (ExampleOpcodes).
   */
  lemma LdExample(tok: string)
    requires ParseInt(tok, 16) == Some(3)
    ensures EncodeValue([Opcodes.Name(Opcodes.LD), RegName(1), tok], AsWritten) == Some(0x0223)
  {
    LoadWordAsWritten(Opcodes.LD, 1, tok, 3);
  }

  /** "LD R1 3" as intended: 0x2203, an LD of R1 from PC + 3. */
  lemma LdExampleCorrected(tok: string)
    requires ParseInt(tok, 16) == Some(3)
    ensures EncodeValue([Opcodes.Name(Opcodes.LD), RegName(1), tok], Corrected) == Some(0x2203)
  {
    LoadValueCorrected(Opcodes.LD, 1, tok, 3);
  }

  /** "LDR R1 R2 3", as written: 0x3143, which the machine decodes as ST (ExampleOpcodes). */
  lemma LdrExample(tok: string)
    requires ParseInt(tok, 16) == Some(3)
    ensures EncodeValue(["LDR", RegName(1), RegName(2), tok], AsWritten) == Some(0x3143)
  {
    assert EncodeValue(["LDR", RegName(1), RegName(2), tok], AsWritten) == Some(0x3143) by {
      LdrWordAsWritten(1, 2, tok, 3);
    }
  }

  /** "LDR R1 R2 3" as intended: 0x6283, an LDR of R1 from R2 + 3. */
  lemma LdrExampleCorrected(tok: string)
    requires ParseInt(tok, 16) == Some(3)
    ensures EncodeValue(["LDR", RegName(1), RegName(2), tok], Corrected) == Some(0x6283)
  {
    assert EncodeValue(["LDR", RegName(1), RegName(2), tok], Corrected) == Some(0x6283) by {
      LdrValueCorrected(1, 2, tok, 3);
    }
  }

  /** What the machine makes of the four example words: BR and ST as written, LD and LDR intended. */
  lemma ExampleOpcodes()
    ensures Opcodes.Decode(0x0223) == Opcodes.BR && Opcodes.Decode(0x3143) == Opcodes.ST
    ensures Opcodes.Decode(0x2203) == Opcodes.LD && Opcodes.Decode(0x6283) == Opcodes.LDR
  {
    Opcodes.DecodeRange(0x0223, Opcodes.BR);
    Opcodes.DecodeRange(0x3143, Opcodes.ST);
    Opcodes.DecodeRange(0x2203, Opcodes.LD);
    Opcodes.DecodeRange(0x6283, Opcodes.LDR);
  }

  /** The value an LD/LDI/LEA line stores once the offset width is corrected. */
  lemma LoadValueCorrected(op: Opcodes.Opcode, dr: nat, tok: string, off: nat)
    requires op == Opcodes.LD || op == Opcodes.LDI || op == Opcodes.LEA
    requires dr < 8 && ParseInt(tok, 16) == Some(off) && off < 512
    ensures EncodeValue([Opcodes.Name(op), RegName(dr), tok], Corrected)
      == Some(Opcodes.Code(op) * 0x1000 + dr * 0x200 + off)
  {
    var parts, v := [Opcodes.Name(op), RegName(dr), tok], Opcodes.Code(op) * 0x1000 + dr * 0x200 + off;
    var bits := Format(v, 2, 16);
    assert Encode(parts, Corrected) == Some(bits) by {
      LoadWordCorrected(op, dr, tok, off);
    }
    assert ParseInt(bits, 2) == Some(v) by {
      ParseFormat(v, 2, 16);
    }
    ReadBack(parts, Corrected, bits, v);
  }

  /** The value an LDR line stores once the offset width is corrected. */
  lemma LdrValueCorrected(dr: nat, b: nat, tok: string, off: nat)
    requires dr < 8 && b < 8 && ParseInt(tok, 16) == Some(off) && off < 64
    ensures EncodeValue(["LDR", RegName(dr), RegName(b), tok], Corrected)
      == Some(0x6000 + dr * 0x200 + b * 0x40 + off)
  {
    var parts, v := ["LDR", RegName(dr), RegName(b), tok], 0x6000 + dr * 0x200 + b * 0x40 + off;
    var bits := Format(v, 2, 16);
    assert Encode(parts, Corrected) == Some(bits) by {
      LdrWordCorrected(dr, b, tok, off);
    }
    assert ParseInt(bits, 2) == Some(v) by {
      ParseFormat(v, 2, 16);
    }
    ReadBack(parts, Corrected, bits, v);
  }

  /** "JSR 5": as written the line raises; intended 0x4805. */
  lemma JsrExample()
    ensures Encode(["JSR", "5"], AsWritten) == None
    ensures EncodeValue(["JSR", "5"], Corrected) == Some(0x4805)
  {
    assert ParseInt("5", 16) == Some(5) by {
      ParseDigits("5", 16);
    }
    JsrOffsetAsWritten("5", "5", 5);
    JsrOffsetWordCorrected("5", 5);
    EncodedValue(["JSR", "5"], Corrected, 0x4805, 16);
  }

  // ---------------------------------------------------------------------------
  // Comments

  /** Whatever follows the first ';' is dropped before the line is split. */
  lemma StripCommentOf(code: string, comment: string)
    requires ';' !in code
    ensures StripComment(code + ";" + comment) == code
  {
    var line := code + ";" + comment;
    assert line[|code|] == ';';
    assert line[..|code|] == code;
  }

  /** A line without ';' is kept whole. */
  lemma NoComment(line: string)
    requires ';' !in line
    ensures StripComment(line) == line
  {
  }

  /** Text after ';' cannot change how a line assembles. */
  lemma CommentIgnored(code: string, comment: string, d: Dialect)
    requires ';' !in code
    ensures LineHex(code + ";" + comment, d) == LineHex(code, d)
  {
    StripCommentOf(code, comment);
    NoComment(code);
  }

  // ---------------------------------------------------------------------------
  // The output file

  /** A word that fits in 16 bits, kept as hex, is written as its low byte then its high byte. */
  lemma WordBytesOfWord(w: nat)
    requires w < 0x1_0000
    ensures WordBytes(Format(w, 16, 4)) == Some([w % 256, w / 256])
    ensures w % 256 + 256 * (w / 256) == w
  {
    ParseFormat(w, 16, 4);
    ParseFormat(w, 2, 16);
  }

  /**
   * A value of 0x10000 or more makes the write loop stop. A line reaches such
   * a value only when an operand overflows its field by enough bits to push
   * the opcode's leading 1 past bit 15; a smaller overflow is written
   * silently as another word (WideImmediateWritten).
   */
  lemma WideWordNotWritten(w: nat)
    requires w >= 0x1_0000
    ensures WordBytes(Format(w, 16, 4)) == None
  {
    ParseFormat(w, 16, 4);
    ParseFormat(w, 2, 16);
  }

  /** Every entry of the program is hex text for a value in 0 .. 0xFFFF. */
  predicate AllWords(program: seq<string>) {
    forall i :: 0 <= i < |program| ==> ParseInt(program[i], 16).Some? && 0 <= ParseInt(program[i], 16).value < 0x1_0000
  }

  /** The values int(program[i], 16) of such a program. */
  function Words(program: seq<string>): (ws: seq<nat>)
    requires AllWords(program)
    ensures |ws| == |program|
  {
    if program == [] then []
    else
      assert AllWords(program[1..]) by {
        forall i | 0 <= i < |program[1..]|
          ensures ParseInt(program[1..][i], 16).Some? && 0 <= ParseInt(program[1..][i], 16).value < 0x1_0000
        {
          assert program[1..][i] == program[i + 1];
        }
      }
      [ParseInt(program[0], 16).value] + Words(program[1..])
  }

  lemma AllWordsTail(program: seq<string>)
    requires AllWords(program) && program != []
    ensures AllWords(program[1..])
  {
    forall i | 0 <= i < |program[1..]|
      ensures ParseInt(program[1..][i], 16).Some? && 0 <= ParseInt(program[1..][i], 16).value < 0x1_0000
    {
      assert program[1..][i] == program[i + 1];
    }
  }

  /** Reading back a pair of bytes in front of the rest. */
  lemma ReadWordsCons(lo: Byte, hi: Byte, rest: seq<Byte>)
    ensures ReadWords([lo, hi] + rest) == [lo + 256 * hi] + ReadWords(rest)
  {
    var bytes := [lo, hi] + rest;
    assert bytes[2..] == rest;
  }

  /** The two bytes of a word, low first, read back as the word. */
  lemma ReadWordsWord(w: nat, rest: seq<Byte>)
    requires w < 0x1_0000
    ensures ReadWords([w % 256, w / 256] + rest) == [w] + ReadWords(rest)
  {
    ReadWordsCons(w % 256, w / 256, rest);
  }

  /**
   * Round trip: when every word fits, the whole program is written, two bytes
   * a word, and reading the bytes back little-endian gives the words.
   */
  lemma {:induction false} EmitRoundTrip(program: seq<string>)
    requires AllWords(program)
    ensures Emit(program).1
    ensures |Emit(program).0| == 2 * |program|
    ensures ReadWords(Emit(program).0) == Words(program)
  {
    if program != [] {
      var w := ParseInt(program[0], 16).value;
      var rest := Emit(program[1..]).0;
      assert Emit(program) == ([w % 256, w / 256] + rest, Emit(program[1..]).1);
      AllWordsTail(program);
      EmitRoundTrip(program[1..]);
      assert ReadWords([w % 256, w / 256] + rest) == [w] + ReadWords(rest) by {
        ReadWordsWord(w, rest);
      }
      assert Words(program) == [w] + Words(program[1..]);
    }
  }

  // ---------------------------------------------------------------------------
  // The assembler and the machine agree on ADD

  /** The word for ADD DR SR1 SR2 is decoded as ADD with those three registers and bit 5 clear. */
  lemma AddRegisterFields(dr: nat, sr1: nat, sr2: nat)
    requires dr < 8 && sr1 < 8 && sr2 < 8
    ensures 0x1000 + dr * 0x200 + sr1 * 0x40 + sr2 < 0x1_0000
    ensures var i := 0x1000 + dr * 0x200 + sr1 * 0x40 + sr2;
      Opcodes.Decode(i) == Opcodes.ADD && Machine.Dr(i) == dr && Machine.Sr1(i) == sr1 &&
      Machine.ImmFlag(i) == 0 && Machine.Sr2(i) == sr2
  {
    var i := 0x1000 + dr * 0x200 + sr1 * 0x40 + sr2;
    Opcodes.DecodeAdd(i);
    Machine.DivModUnique(i, 0x200, 8 + dr, sr1 * 0x40 + sr2);
    Machine.DivModUnique(i, 0x40, 0x40 + dr * 8 + sr1, sr2);
    Machine.DivModUnique(i, 0x20, 0x80 + dr * 16 + sr1 * 2, sr2);
    Machine.DivModUnique(i, 8, 0x200 + dr * 0x40 + sr1 * 8, sr2);
  }

  /** The word for ADD DR SR1 imm is decoded as ADD with bit 5 set and imm in bits 4..0. */
  lemma AddImmediateFields(dr: nat, sr1: nat, imm: nat)
    requires dr < 8 && sr1 < 8 && imm < 32
    ensures 0x1000 + dr * 0x200 + sr1 * 0x40 + 0x20 + imm < 0x1_0000
    ensures var i := 0x1000 + dr * 0x200 + sr1 * 0x40 + 0x20 + imm;
      Opcodes.Decode(i) == Opcodes.ADD && Machine.Dr(i) == dr && Machine.Sr1(i) == sr1 &&
      Machine.ImmFlag(i) == 1 && Machine.Imm5(i) == imm
  {
    var i := 0x1000 + dr * 0x200 + sr1 * 0x40 + 0x20 + imm;
    Opcodes.DecodeAdd(i);
    Machine.DivModUnique(i, 0x200, 8 + dr, sr1 * 0x40 + 0x20 + imm);
    Machine.DivModUnique(i, 0x40, 0x40 + dr * 8 + sr1, 0x20 + imm);
    Machine.DivModUnique(i, 0x20, 0x80 + dr * 16 + sr1 * 2 + 1, imm);
  }

  /** The number the assembler stores for ADD/AND DR SR1 SR2: code, DR, SR1, 000, SR2. */
  lemma AddRegisterValue(op: Opcodes.Opcode, dr: nat, sr1: nat, sr2: nat, d: Dialect)
    requires op == Opcodes.ADD || op == Opcodes.AND
    requires dr < 8 && sr1 < 8 && sr2 < 8
    ensures EncodeValue([Opcodes.Name(op), RegName(dr), RegName(sr1), RegName(sr2)], d)
      == Some(Opcodes.Code(op) * 0x1000 + dr * 0x200 + sr1 * 0x40 + sr2)
  {
    var parts := [Opcodes.Name(op), RegName(dr), RegName(sr1), RegName(sr2)];
    var v := Opcodes.Code(op) * 0x1000 + dr * 0x200 + sr1 * 0x40 + sr2;
    var bits := Format(v, 2, 16);
    assert Encode(parts, d) == Some(bits) by {
      AddRegisterWord(op, dr, sr1, sr2, d);
    }
    assert ParseInt(bits, 2) == Some(v) by {
      ParseFormat(v, 2, 16);
    }
    ReadBack(parts, d, bits, v);
  }

  /** OP_ADD on the word 0001 DR SR1 000 SR2 leaves SR1 + SR2 (mod 2^16) in DR. */
  lemma AddRegisterExecutes(regs: seq<Opcodes.Word>, dr: nat, sr1: nat, sr2: nat, i: Opcodes.Word)
    requires |regs| == Machine.RCNT && dr < 8 && sr1 < 8 && sr2 < 8
    requires i == 0x1000 + dr * 0x200 + sr1 * 0x40 + sr2
    ensures Machine.AddRegs(regs, i)[dr] == (regs[sr1] as int + regs[sr2]) % 0x1_0000
  {
    AddRegisterFields(dr, sr1, sr2);
    Machine.AddRegisterForm(regs, i);
  }

  /**
   * End to end: whatever word the assembler makes of "ADD DR SR1 SR2", run by
   * the machine's OP_ADD, leaves SR1 + SR2 (mod 2^16) in DR.
   */
  lemma AssembledAddExecutes(regs: seq<Opcodes.Word>, dr: nat, sr1: nat, sr2: nat, d: Dialect, i: Opcodes.Word)
    requires |regs| == Machine.RCNT && dr < 8 && sr1 < 8 && sr2 < 8
    requires EncodeValue([Opcodes.Name(Opcodes.ADD), RegName(dr), RegName(sr1), RegName(sr2)], d) == Some(i)
    ensures Machine.AddRegs(regs, i)[dr] == (regs[sr1] as int + regs[sr2]) % 0x1_0000
  {
    assert i == Opcodes.Code(Opcodes.ADD) * 0x1000 + dr * 0x200 + sr1 * 0x40 + sr2 by {
      AddRegisterValue(Opcodes.ADD, dr, sr1, sr2, d);
    }
    AddRegisterExecutes(regs, dr, sr1, sr2, i);
  }

  /** The four tokens of ADD DR SR1 SR2 (or AND …): words without white space or ';'. */
  function AddWords(op: Opcodes.Opcode, dr: nat, sr1: nat, sr2: nat): (words: seq<string>)
    requires dr < 8 && sr1 < 8 && sr2 < 8
    ensures |words| == 4 && words[0] == Opcodes.Name(op)
    ensures forall k :: 0 <= k < |words| ==> words[k] != [] && NoSpace(words[k]) && ';' !in words[k]
  {
    RegNameToken(dr);
    RegNameToken(sr1);
    RegNameToken(sr2);
    [Opcodes.Name(op), RegName(dr), RegName(sr1), RegName(sr2)]
  }

  /** A register name is one token and holds no comment marker. */
  lemma RegNameToken(k: nat)
    requires k < 8
    ensures RegName(k) != [] && NoSpace(RegName(k)) && ';' !in RegName(k)
  {
  }

  /**
   * Reading the line made of those four tokens, with any white space before,
   * between (at least one character) and after them, gives back the four
   * tokens; the trailing gap may hold the '\n' that readlines keeps.
   */
  lemma AddLineTokens(op: Opcodes.Opcode, dr: nat, sr1: nat, sr2: nat, gaps: seq<string>)
    requires dr < 8 && sr1 < 8 && sr2 < 8
    requires Gaps(AddWords(op, dr, sr1, sr2), gaps)
    ensures Split(StripComment(Spaced(AddWords(op, dr, sr1, sr2), gaps))) == AddWords(op, dr, sr1, sr2)
  {
    var words := AddWords(op, dr, sr1, sr2);
    var line := Spaced(words, gaps);
    assert StripComment(line) == line by {
      SpacedNoComment(words, gaps);
      NoComment(line);
    }
    SplitSpaced(words, gaps);
  }

  /**
   * From the source line to the number: "ADD DR SR1 SR2" (AND: "AND …"),
   * however it is spaced and whether or not a ';' comment follows, assembles
   * to 0001 DR SR1 000 SR2 (AND: 0101 …).
   */
  lemma AddLine(op: Opcodes.Opcode, dr: nat, sr1: nat, sr2: nat, gaps: seq<string>, comment: string, d: Dialect)
    requires op == Opcodes.ADD || op == Opcodes.AND
    requires dr < 8 && sr1 < 8 && sr2 < 8
    requires Gaps(AddWords(op, dr, sr1, sr2), gaps)
    ensures LineValue(Spaced(AddWords(op, dr, sr1, sr2), gaps), d) ==
      Some(Opcodes.Code(op) * 0x1000 + dr * 0x200 + sr1 * 0x40 + sr2)
    ensures LineValue(Spaced(AddWords(op, dr, sr1, sr2), gaps) + ";" + comment, d) ==
      Some(Opcodes.Code(op) * 0x1000 + dr * 0x200 + sr1 * 0x40 + sr2)
  {
    var words := AddWords(op, dr, sr1, sr2);
    var line := Spaced(words, gaps);
    assert EncodeValue(words, d) == Some(Opcodes.Code(op) * 0x1000 + dr * 0x200 + sr1 * 0x40 + sr2) by {
      AddRegisterValue(op, dr, sr1, sr2, d);
    }
    AddLineTokens(op, dr, sr1, sr2, gaps);
    assert StripComment(line + ";" + comment) == StripComment(line) by {
      SpacedNoComment(words, gaps);
      StripCommentOf(line, comment);
      NoComment(line);
    }
  }

  /** The line of the machine's scenario, as readlines returns it: "ADD R2 R0 R1\n" assembles to 0x1401. */
  lemma AddLineExample(line: string, d: Dialect)
    requires line == "ADD R2 R0 R1\n"
    ensures LineValue(line, d) == Some(0x1401)
  {
    var gaps := ["", " ", " ", " ", "\n"];
    ExampleGaps(gaps);
    ExampleSpaced(gaps, line);
    AddLine(Opcodes.ADD, 2, 0, 1, gaps, "", d);
  }

  lemma ExampleGaps(gaps: seq<string>)
    requires gaps == ["", " ", " ", " ", "\n"]
    ensures Gaps(AddWords(Opcodes.ADD, 2, 0, 1), gaps)
  {
    assert IsSpace(' ') && IsSpace('\n');
    assert AllSpace(" ") && AllSpace("\n") && AllSpace("");
  }

  lemma ExampleSpaced(gaps: seq<string>, line: string)
    requires gaps == ["", " ", " ", " ", "\n"] && line == "ADD R2 R0 R1\n"
    ensures Spaced(AddWords(Opcodes.ADD, 2, 0, 1), gaps) == line
  {
    var words := AddWords(Opcodes.ADD, 2, 0, 1);
    assert words == ["ADD", "R2", "R0", "R1"] by {
      assert RegName(2) == "R2" && RegName(0) == "R0" && RegName(1) == "R1";
    }
    SpacedFour(words, gaps);
    assert "" + "ADD" + (" " + "R2" + (" " + "R0" + (" " + "R1" + "\n"))) == line;
  }

  lemma SpacedFour(words: seq<string>, gaps: seq<string>)
    requires |words| == 4 && |gaps| == 5
    ensures Spaced(words, gaps) ==
      gaps[0] + words[0] + (gaps[1] + words[1] + (gaps[2] + words[2] + (gaps[3] + words[3] + gaps[4])))
  {
    var w1, w2, w3 := words[1..], words[2..], words[3..];
    var g1, g2, g3 := gaps[1..], gaps[2..], gaps[3..];
    assert w1[1..] == w2 && w2[1..] == w3 && w3[1..] == [];
    assert g1[1..] == g2 && g2[1..] == g3 && g3[1..] == [gaps[4]];
    assert Spaced(w3, g3) == gaps[3] + words[3] + gaps[4] by {
      assert Spaced([], [gaps[4]]) == gaps[4];
    }
    assert Spaced(w2, g2) == gaps[2] + words[2] + Spaced(w3, g3);
    assert Spaced(w1, g1) == gaps[1] + words[1] + Spaced(w2, g2);
  }

  /**
   * An immediate wider than its five bits is not rejected: "ADD R0 R0 20"
   * formats 0x20 as six bits, the bit string grows to 17 characters, and the
   * number it denotes is 0x2060, which fits in a word, is written, and is LD.
   */
  lemma WideImmediateWritten(d: Dialect)
    ensures EncodeValue(["ADD", "R0", "R0", "20"], d) == Some(0x2060)
    ensures WordBytes(Format(0x2060, 16, 4)) == Some([0x60, 0x20])
    ensures Opcodes.Decode(0x2060) == Opcodes.LD
  {
    var parts := [Opcodes.Name(Opcodes.ADD), RegName(0), RegName(0), "20"];
    assert parts == ["ADD", "R0", "R0", "20"] by {
      assert RegName(0) == "R0";
    }
    HexTwenty();
    AddImmediateBits(Opcodes.ADD, 0, 0, "20", 32, d);
    WideImmediateValue();
    ReadBack(parts, d, Instructions["ADD"] + Format(0, 2, 3) + Format(0, 2, 3) + Format(1, 2, 1) + Format(32, 2, 5), 0x2060);
    WideImmediateWord(0x2060);
  }

  /** The word 0x2060 is written as the bytes 0x60, 0x20 and decodes as LD. */
  lemma WideImmediateWord(w: nat)
    requires w == 0x2060
    ensures WordBytes(Format(w, 16, 4)) == Some([0x60, 0x20])
    ensures Opcodes.Decode(w) == Opcodes.LD
  {
    WordBytesOfHalves(w, 0x60, 0x20);
    Opcodes.DecodeCode(Opcodes.LD, 0x60);
  }

  /** A word given by its low and high byte is written as those two bytes. */
  lemma WordBytesOfHalves(w: nat, lo: Byte, hi: Byte)
    requires w == lo + 256 * hi
    ensures WordBytes(Format(w, 16, 4)) == Some([lo, hi])
  {
    WordBytesOfWord(w);
    Machine.DivModUnique(w, 256, hi, lo);
  }

  lemma HexTwenty()
    ensures ParseInt("20", 16) == Some(32)
  {
    assert IsDigit('2', 16) && IsDigit('0', 16);
    ParseDigits("20", 16);
    assert "20"[..1] == "2";
    assert "2"[..0] == [];
  }

  /** ADD's bits with a six-bit immediate 100000 read as 0x2060. */
  lemma WideImmediateValue()
    ensures ParseInt(Instructions["ADD"] + Format(0, 2, 3) + Format(0, 2, 3) + Format(1, 2, 1) + Format(32, 2, 5), 2) == Some(0x2060)
  {
    var p := Instructions["ADD"];
    Prefix(Opcodes.ADD);
    HeadLayout(p, 1, 0, 0);
    var head := p + Format(0, 2, 3) + Format(0, 2, 3);
    SmallPowers();
    Append(head, 64, 1, 1, 2);
    assert Format(32, 2, 5) == Format(32, 2, 6) by {
      FormatLength(32, 2, 5);
      FormatLength(32, 2, 6);
    }
    Append(head + Format(1, 2, 1), 129, 32, 6, 64);
    ParseDigits(head + Format(1, 2, 1) + Format(32, 2, 5), 2);
  }
}
