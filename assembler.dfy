/**
 * The toy LC-3 assembler (assembler/assembler.py): each source line loses its
 * comment, is split into tokens, and is encoded as a string of '0'/'1'
 * characters built from the register, instruction and trap tables; the
 * string is read back as a number, kept as four hex digits, and finally
 * written as two little-endian bytes.
 *
 * The encoder comes in two dialects. AsWritten is the code as it stands:
 * LD, LDI and LEA format their 9-bit offset with '05b', LDR formats its 6-bit
 * offset with '05b', and JSR takes its offset from the third token. Corrected
 * uses '09b', '06b' and the second token. Every other branch is shared.
 */
module Assembler {
  import opened Wrappers
  import opened Arith
  import opened Numerals
  import Opcodes
  import Machine

  // ---------------------------------------------------------------------------
  // The tables

  const Registers: map<string, string> := map[
    "R0" := "000", "R1" := "001", "R2" := "010", "R3" := "011",
    "R4" := "100", "R5" := "101", "R6" := "110", "R7" := "111"]

  const Instructions: map<string, string> := map[
    "ADD" := "0001", "AND" := "0101", "TRAP" := "11110000",
    "HALT" := "1111000000100101",
    "LD" := "0010", "LDI" := "1010", "LDR" := "0110", "LEA" := "1110",
    "ST" := "0011", "STI" := "1011", "STR" := "0111",
    "JMP" := "1100", "JSR" := "0100", "BR" := "0000"]

  const Traps: map<string, string> := map[
    "GETC" := "00100000", "OUT" := "00100001", "PUTS" := "00100010",
    "IN" := "00100011", "PUTSP" := "00100100",
    "IN_U16" := "00100110", "OUT_U16" := "00100111"]

  /** The register token for register k. */
  function RegName(k: nat): string
    requires k < 8
  {
    "R" + [DigitChar(k)]
  }

  // ---------------------------------------------------------------------------
  // Lines and tokens

  /** text[i].partition(";")[0]: everything before the first ';'. */
  function StripComment(line: string): (code: string)
    ensures code <= line
    ensures ';' !in code
    ensures |code| < |line| ==> line[|code|] == ';'
  {
    if line == [] || line[0] == ';' then [] else [line[0]] + StripComment(line[1..])
  }

  /** The characters Python's str.isspace() accepts, on which str.split() splits. */
  predicate IsSpace(c: char) {
    var n := c as int;
    (0x09 <= n <= 0x0D) || (0x1C <= n <= 0x20) || n == 0x85 || n == 0xA0 || n == 0x1680
    || (0x2000 <= n <= 0x200A) || n == 0x2028 || n == 0x2029 || n == 0x202F
    || n == 0x205F || n == 0x3000
  }

  predicate NoSpace(s: string) {
    forall i :: 0 <= i < |s| ==> !IsSpace(s[i])
  }

  /** The characters of s that are not white space, in order. */
  function NonSpace(s: string): string {
    if s == [] then [] else (if IsSpace(s[0]) then [] else [s[0]]) + NonSpace(s[1..])
  }

  /** The tokens joined together. */
  function Concat(parts: seq<string>): string {
    if parts == [] then [] else parts[0] + Concat(parts[1..])
  }

  /** The length of the run of non-space characters at the front of s. */
  function TokenLength(s: string): (k: nat)
    ensures k <= |s| && NoSpace(s[..k])
    ensures k < |s| ==> IsSpace(s[k])
  {
    if s == [] || IsSpace(s[0]) then 0
    else
      var k := 1 + TokenLength(s[1..]);
      assert s[..k] == [s[0]] + s[1..][..k - 1];
      k
  }

  /** str.split() without arguments: the maximal runs of non-space characters. */
  function Split(s: string): (parts: seq<string>)
    ensures forall k :: 0 <= k < |parts| ==> parts[k] != [] && NoSpace(parts[k])
    ensures Concat(parts) == NonSpace(s)
    decreases |s|
  {
    if s == [] then []
    else if IsSpace(s[0]) then Split(s[1..])
    else
      var k := TokenLength(s);
      NonSpaceOfToken(s, k);
      [s[..k]] + Split(s[k..])
  }

  lemma {:induction false} NonSpaceOfToken(s: string, k: nat)
    requires k <= |s| && NoSpace(s[..k])
    ensures NonSpace(s) == s[..k] + NonSpace(s[k..])
  {
    if k > 0 {
      assert s[..k][0] == s[0];
      assert s[1..][..k - 1] == s[..k][1..];
      NonSpaceOfToken(s[1..], k - 1);
      assert s[1..][k - 1..] == s[k..];
      assert s[..k] == [s[0]] + s[1..][..k - 1];
    }
  }

  /** Words joined by single spaces. */
  function JoinWords(words: seq<string>): string {
    if words == [] then [] else if |words| == 1 then words[0] else words[0] + " " + JoinWords(words[1..])
  }

  /** Round trip: splitting words joined by spaces gives the words back. */
  lemma {:induction false} SplitJoinWords(words: seq<string>)
    requires forall k :: 0 <= k < |words| ==> words[k] != [] && NoSpace(words[k])
    ensures Split(JoinWords(words)) == words
  {
    if words != [] {
      var w := words[0];
      var s := JoinWords(words);
      if |words| == 1 {
        SplitToken(w, "");
        assert s == w + "";
      } else {
        var rest := JoinWords(words[1..]);
        assert s == w + (" " + rest);
        SplitToken(w, " " + rest);
        assert Split(" " + rest) == Split(rest) by {
          assert (" " + rest)[1..] == rest;
        }
        SplitJoinWords(words[1..]);
      }
    }
  }

  /** A token followed by nothing or by white space is split off whole. */
  lemma SplitToken(w: string, rest: string)
    requires w != [] && NoSpace(w)
    requires rest == [] || IsSpace(rest[0])
    ensures Split(w + rest) == [w] + Split(rest)
  {
    var s := w + rest;
    TokenPrefix(w, rest);
    assert s[..|w|] == w;
    assert s[|w|..] == rest;
  }

  lemma {:induction false} TokenPrefix(w: string, rest: string)
    requires NoSpace(w)
    requires rest == [] || IsSpace(rest[0])
    ensures TokenLength(w + rest) == |w|
  {
    if w != [] {
      assert (w + rest)[1..] == w[1..] + rest;
      TokenPrefix(w[1..], rest);
    }
  }

  predicate AllSpace(s: string) {
    forall i :: 0 <= i < |s| ==> IsSpace(s[i])
  }

  /** White space alone holds no token. */
  lemma {:induction false} SplitSpaces(ws: string)
    requires AllSpace(ws)
    ensures Split(ws) == []
  {
    if ws != [] {
      assert IsSpace(ws[0]);
      SplitSpaces(ws[1..]);
    }
  }

  /** White space in front of a line is skipped. */
  lemma {:induction false} SplitLeadingSpace(ws: string, s: string)
    requires AllSpace(ws)
    ensures Split(ws + s) == Split(s)
  {
    if ws != [] {
      assert IsSpace((ws + s)[0]);
      assert (ws + s)[1..] == ws[1..] + s;
      assert Split(ws + s) == Split(ws[1..] + s);
      SplitLeadingSpace(ws[1..], s);
    } else {
      assert ws + s == s;
    }
  }

  /**
   * A non-empty run of white space, of any length and of any white-space
   * characters, separates: the tokens of a + ws + b are those of a followed by
   * those of b. With SplitSpaces and SplitToken this determines Split on every
   * string, so its tokens are the maximal runs of non-space characters.
   */
  lemma {:induction false} SplitSeparated(a: string, ws: string, b: string)
    requires ws != [] && AllSpace(ws)
    ensures Split(a + ws + b) == Split(a) + Split(b)
    decreases |a|, 1
  {
    if a == [] {
      assert a + ws + b == ws + b;
      SplitLeadingSpace(ws, b);
    } else if IsSpace(a[0]) {
      SplitSeparatedSpace(a, ws, b);
    } else {
      SplitSeparatedToken(a, ws, b);
    }
  }

  lemma {:induction false} SplitSeparatedSpace(a: string, ws: string, b: string)
    requires a != [] && IsSpace(a[0]) && ws != [] && AllSpace(ws)
    ensures Split(a + ws + b) == Split(a) + Split(b)
    decreases |a|, 0
  {
    var s := a + ws + b;
    assert s[0] == a[0] && s[1..] == a[1..] + ws + b;
    SplitSpaceFront(s);
    SplitSpaceFront(a);
    SplitSeparated(a[1..], ws, b);
  }

  lemma {:induction false} SplitSeparatedToken(a: string, ws: string, b: string)
    requires a != [] && !IsSpace(a[0]) && ws != [] && AllSpace(ws)
    ensures Split(a + ws + b) == Split(a) + Split(b)
    decreases |a|, 0
  {
    var t := ws + b;
    var s := a + t;
    assert a + ws + b == s;
    var k := TokenLength(a);
    assert k > 0;
    SplitFront(a, k);
    SliceAppend(a, t, k);
    assert IsSpace(s[k]) by {
      if k < |a| {
        assert s[k] == a[k];
      } else {
        assert s[k] == ws[0];
      }
    }
    SplitFront(s, k);
    assert a[k..] + ws + b == s[k..];
    SplitSeparated(a[k..], ws, b);
    ConsAssoc(a[..k], Split(a[k..]), Split(b));
  }

  lemma ConsAssoc(w: string, p: seq<string>, q: seq<string>)
    ensures [w] + (p + q) == ([w] + p) + q
  {
  }

  lemma SliceAppend(a: string, t: string, k: nat)
    requires k <= |a|
    ensures (a + t)[..k] == a[..k] && (a + t)[k..] == a[k..] + t
  {
  }

  /** White space at the front of s is dropped. */
  lemma SplitSpaceFront(s: string)
    requires s != [] && IsSpace(s[0])
    ensures Split(s) == Split(s[1..])
  {
  }

  /** A token of k characters at the front of s, ended by white space or by the end, is split off first. */
  lemma SplitFront(s: string, k: nat)
    requires 0 < k <= |s| && NoSpace(s[..k]) && (k == |s| || IsSpace(s[k]))
    ensures Split(s) == [s[..k]] + Split(s[k..])
  {
    assert s[..k] + s[k..] == s;
    TokenPrefix(s[..k], s[k..]);
    assert !IsSpace(s[..k][0]);
  }

  /** The words with the gaps around and between them: gaps[0] + words[0] + gaps[1] + … + gaps[n]. */
  function Spaced(words: seq<string>, gaps: seq<string>): string
    requires |gaps| == |words| + 1
  {
    if words == [] then gaps[0] else gaps[0] + words[0] + Spaced(words[1..], gaps[1..])
  }

  /** Gaps of white space, the inner ones non-empty: the layout of a line of tokens. */
  predicate Gaps(words: seq<string>, gaps: seq<string>) {
    |gaps| == |words| + 1 &&
    (forall i :: 0 <= i < |gaps| ==> AllSpace(gaps[i])) &&
    (forall i :: 0 < i < |words| ==> gaps[i] != [])
  }

  /**
   * Splitting recovers the words whatever white space lies around and between
   * them: several spaces, tabs, or the '\n' readlines() leaves at the end.
   */
  lemma {:induction false} SplitSpaced(words: seq<string>, gaps: seq<string>)
    requires forall k :: 0 <= k < |words| ==> words[k] != [] && NoSpace(words[k])
    requires Gaps(words, gaps)
    ensures Split(Spaced(words, gaps)) == words
  {
    if words == [] {
      SplitSpaces(gaps[0]);
    } else {
      var w, r := words[0], Spaced(words[1..], gaps[1..]);
      assert Spaced(words, gaps) == gaps[0] + (w + r);
      SplitLeadingSpace(gaps[0], w + r);
      assert Gaps(words[1..], gaps[1..]) by {
        assert forall i :: 0 < i < |words[1..]| ==> gaps[1..][i] == gaps[i + 1];
      }
      if |words| == 1 {
        assert r == gaps[1];
        assert r == [] || IsSpace(r[0]);
        SplitToken(w, r);
        SplitSpaces(r);
      } else {
        assert gaps[1] != [] && r == gaps[1] + words[1] + Spaced(words[2..], gaps[2..]);
        assert r[0] == gaps[1][0];
        SplitToken(w, r);
        SplitSpaced(words[1..], gaps[1..]);
      }
    }
  }

  /** White space holds no ';', so a line of tokens and gaps has no comment when its tokens have none. */
  lemma {:induction false} SpacedNoComment(words: seq<string>, gaps: seq<string>)
    requires forall k :: 0 <= k < |words| ==> ';' !in words[k]
    requires |gaps| == |words| + 1 && forall i :: 0 <= i < |gaps| ==> AllSpace(gaps[i])
    ensures ';' !in Spaced(words, gaps)
  {
    assert forall j :: 0 <= j < |gaps[0]| ==> gaps[0][j] != ';';
    if words != [] {
      SpacedNoComment(words[1..], gaps[1..]);
    }
  }

  // ---------------------------------------------------------------------------
  // The encoder

  datatype Dialect = AsWritten | Corrected

  /** Width of the offset LD, LDI and LEA format: '05b' as written, 9 bits intended. */
  function LdOffsetWidth(d: Dialect): nat {
    if d == AsWritten then 5 else 9
  }

  /** Width of the offset LDR formats: '05b' as written, 6 bits intended. */
  function LdrOffsetWidth(d: Dialect): nat {
    if d == AsWritten then 5 else 6
  }

  /** Token JSR takes its offset from: parts[2] as written, parts[1] intended. */
  function JsrOffsetIndex(d: Dialect): nat {
    if d == AsWritten then 2 else 1
  }

  /** Both pieces, concatenated, or None when either lookup failed. */
  function Join(a: Option<string>, b: Option<string>): (r: Option<string>)
    ensures r.Some? <==> a.Some? && b.Some?
    ensures r.Some? ==> |r.value| == |a.value| + |b.value|
  {
    if a.Some? && b.Some? then Some(a.value + b.value) else None
  }

  /** registers[parts[k]]: None stands for the IndexError or KeyError. */
  function RegisterField(parts: seq<string>, k: nat): (r: Option<string>)
    ensures r.Some? ==> |r.value| == 3
  {
    if k < |parts| && parts[k] in Registers then
      RegisterWidth(parts[k]);
      Some(Registers[parts[k]])
    else None
  }

  /** format(int(parts[k], 16), '0<width>b'): None stands for the IndexError or ValueError. */
  function NumberField(parts: seq<string>, k: nat, width: nat): (r: Option<string>)
    ensures r.Some? ==> |r.value| >= width
  {
    if k < |parts| then
      match ParseInt(parts[k], 16)
      case Some(v) => Some(Format(v, 2, width))
      case None => None
    else None
  }

  /**
   * The bit string the per-line code of main builds for one tokenised line. It
   * starts with the mnemonic's entry in the instruction table, and fills at
   * least the sixteen bits of a word, except for LD, LDI, LEA and LDR as
   * written, whose short offset fields leave it shorter.
   */
  function Encode(parts: seq<string>, d: Dialect): (r: Option<string>)
    ensures r.Some? ==> |parts| > 0 && parts[0] in Instructions && Instructions[parts[0]] <= r.value
    ensures r.Some? && (d == Corrected || parts[0] !in {"LD", "LDI", "LEA", "LDR"}) ==> |r.value| >= 16
  {
    if |parts| == 0 || parts[0] !in Instructions then None
    else
      InstructionWidth(parts[0]);
      Join(Some(Instructions[parts[0]]), Operands(parts, d))
  }

  /**
   * The bits after the opcode prefix, chosen by the mnemonic as in the if-chain
   * of main: eight for TRAP, at least twelve for every other operand form (LD,
   * LDI, LEA and LDR as written excepted), and nothing for a mnemonic without
   * operands.
   */
  function Operands(parts: seq<string>, d: Dialect): (r: Option<string>)
    requires |parts| > 0
    ensures r.Some? && parts[0] == "TRAP" ==> |r.value| == 8
    ensures r.Some? && parts[0] in {"ADD", "AND", "ST", "STI", "STR", "JMP", "JSR", "BR"} ==> |r.value| >= 12
    ensures r.Some? && d == Corrected && parts[0] in {"LD", "LDI", "LEA", "LDR"} ==> |r.value| >= 12
    ensures parts[0] !in {"TRAP", "ADD", "AND", "LD", "LDI", "LEA", "LDR", "ST", "STI", "STR", "JMP", "JSR", "BR"} ==>
      r == Some("")
  {
    var m := parts[0];
    if m == "TRAP" then TrapOperand(parts)
    else if m == "ADD" || m == "AND" then ArithOperands(parts)
    else if m == "LD" || m == "LDI" || m == "LEA" then OffsetOperands(parts, LdOffsetWidth(d))
    else if m == "LDR" then BaseOperands(parts, LdrOffsetWidth(d))
    else if m == "ST" || m == "STI" then OffsetOperands(parts, 9)
    else if m == "STR" then BaseOperands(parts, 6)
    else if m == "JMP" then JmpOperands(parts)
    else if m == "JSR" then JsrOperands(parts, d)
    else if m == "BR" then BrOperands(parts)
    else Some("")
  }

  /** TRAP: traps[parts[1]], an 8-bit vector. */
  function TrapOperand(parts: seq<string>): (r: Option<string>)
    ensures r.Some? ==> |r.value| == 8
  {
    if 1 < |parts| && parts[1] in Traps then
      TrapWidth(parts[1]);
      Some(Traps[parts[1]])
    else None
  }

  /** ADD/AND: DR, SR1, then "000" and SR2 when parts[3] is a register, else "1" and imm5; at least 12 bits. */
  function ArithOperands(parts: seq<string>): (r: Option<string>)
    ensures r.Some? ==> |r.value| >= 12
  {
    Join(Join(RegisterField(parts, 1), RegisterField(parts, 2)),
      if |parts| <= 3 then None
      else if parts[3] in Registers then
        RegisterWidth(parts[3]);
        Some("000" + Registers[parts[3]])
      else Join(Some("1"), NumberField(parts, 3, 5)))
  }

  /** LD/LDI/LEA/ST/STI: a register, then the offset at the given width. */
  function OffsetOperands(parts: seq<string>, width: nat): (r: Option<string>)
    ensures r.Some? ==> |r.value| >= 3 + width
  {
    Join(RegisterField(parts, 1), NumberField(parts, 2, width))
  }

  /** LDR/STR: a register, a base register, then the offset at the given width. */
  function BaseOperands(parts: seq<string>, width: nat): (r: Option<string>)
    ensures r.Some? ==> |r.value| >= 6 + width
  {
    Join(Join(RegisterField(parts, 1), RegisterField(parts, 2)), NumberField(parts, 3, width))
  }

  /** JMP: "000", the base register, "000000": exactly 12 bits. */
  function JmpOperands(parts: seq<string>): (r: Option<string>)
    ensures r.Some? ==> |r.value| == 12
  {
    Join(Join(Some("000"), RegisterField(parts, 1)), Some("000000"))
  }

  /** JSR: a register operand gives "000" BaseR "000000"; otherwise "1" and an 11-bit offset. */
  function JsrOperands(parts: seq<string>, d: Dialect): (r: Option<string>)
    ensures r.Some? ==> |r.value| >= 12
  {
    if |parts| <= 1 then None
    else if parts[1] in Registers then
      RegisterWidth(parts[1]);
      Some("000" + Registers[parts[1]] + "000000")
    else Join(Some("1"), NumberField(parts, JsrOffsetIndex(d), 11))
  }

  /** BR: "001" for P, "010" for Z, "100" otherwise, then a 9-bit offset. */
  function BrOperands(parts: seq<string>): (r: Option<string>)
    ensures r.Some? ==> |r.value| >= 12
  {
    if |parts| <= 1 then None
    else
      var nzp := if parts[1] == "P" then "001" else if parts[1] == "Z" then "010" else "100";
      Join(Some(nzp), NumberField(parts, 2, 9))
  }

  /**
   * int(program[i], 2): the number the bit string denotes; None for the
   * ValueError of a '-'. The string starts with a table prefix, never with a
   * sign, so the number is never negative.
   */
  function EncodeValue(parts: seq<string>, d: Dialect): (r: Option<int>)
    ensures r.Some? ==> r.value >= 0
  {
    match Encode(parts, d)
    case Some(bits) =>
      InstructionWidth(parts[0]);
      assert bits[0] == Instructions[parts[0]][0];
      ParseInt(bits, 2)
    case None => None
  }

  /** The number one source line assembles to: comment stripped, split, encoded, read as binary. */
  function LineValue(line: string, d: Dialect): (r: Option<int>)
    ensures r.Some? ==> r.value >= 0
  {
    EncodeValue(Split(StripComment(line)), d)
  }

  /**
   * One source line, from the raw text to format(int(program[i], 2), '04x'):
   * at least four hex digits, which int(…, 16) reads back as the line's value.
   */
  function LineHex(line: string, d: Dialect): (r: Option<string>)
    ensures r.Some? <==> LineValue(line, d).Some?
    ensures r.Some? ==> |r.value| >= 4 && ParseInt(r.value, 16) == LineValue(line, d)
  {
    match LineValue(line, d)
    case Some(v) =>
      ParseFormat(v, 16, 4);
      Some(Format(v, 16, 4))
    case None => None
  }

  /**
   * The first loop of main: every line becomes its hex string, or the whole
   * run stops at the first line that raises.
   */
  method AssembleLines(text: seq<string>, d: Dialect) returns (program: Option<seq<string>>)
    ensures program.Some? <==> forall i :: 0 <= i < |text| ==> LineHex(text[i], d).Some?
    ensures program.Some? ==> |program.value| == |text|
    ensures program.Some? ==> forall i :: 0 <= i < |text| ==> program.value[i] == LineHex(text[i], d).value
  {
    var words := seq(|text|, _ => "");
    var i := 0;
    while i < |text|
      invariant 0 <= i <= |text| && |words| == |text|
      invariant forall k :: 0 <= k < i ==> Assembled(text[k], d, words[k])
    {
      var code := StripComment(text[i]);
      var parts := Split(code);
      var value := EncodeValue(parts, d);
      if value.None? {
        return None;
      }
      words := words[i := Format(value.value, 16, 4)];
      i := i + 1;
    }
    program := Some(words);
  }

  /** The hex string the loop stores for a line. */
  predicate Assembled(line: string, d: Dialect, word: string) {
    LineHex(line, d) == Some(word)
  }

  // ---------------------------------------------------------------------------
  // The output file

  type Byte = b: int | 0 <= b < 256

  /**
   * int(format(int(inst, 16), '016b'), 2).to_bytes(2, 'little'): defined
   * exactly for hex text of a value in 0 .. 0xFFFF (None for the ValueError or
   * OverflowError otherwise), and then the value's low byte and high byte. The
   * '016b' detour changes nothing, a negative value included.
   */
  function WordBytes(inst: string): (r: Option<seq<Byte>>)
    ensures r.Some? <==> ParseInt(inst, 16).Some? && 0 <= ParseInt(inst, 16).value < 0x1_0000
    ensures r.Some? ==> r.value == [ParseInt(inst, 16).value % 256, ParseInt(inst, 16).value / 256]
  {
    match ParseInt(inst, 16)
    case None => None
    case Some(v) =>
      // int(format(v, '016b'), 2) reads back v (ParseFormatSigned), so it never raises.
      ParseFormatSigned(v, 2, 16);
      var w := ParseInt(Format(v, 2, 16), 2).value;
      if 0 <= w < 0x1_0000 then
        assert w / 256 < 256;
        Some([w % 256, w / 256])
      else None
  }

  /**
   * The bytes the second loop of main writes, and whether it reached the end
   * without raising: two bytes for each word written, and complete exactly
   * when every word can be written.
   */
  function Emit(program: seq<string>): (out: (seq<Byte>, bool))
    ensures |out.0| % 2 == 0 && |out.0| <= 2 * |program|
    ensures out.1 <==> forall i :: 0 <= i < |program| ==> WordBytes(program[i]).Some?
    ensures out.1 ==> |out.0| == 2 * |program|
  {
    if program == [] then ([], true)
    else
      var rest := Emit(program[1..]);
      match WordBytes(program[0])
      case None => ([], false)
      case Some(b) =>
        assert forall i :: 0 < i < |program| ==> program[i] == program[1..][i - 1];
        assert |b + rest.0| == |rest.0| + 2 && (|rest.0| + 2) % 2 == |rest.0| % 2;
        (b + rest.0, rest.1)
  }

  /** The second loop of main: write each word until the end or the first one that raises. */
  method WriteProgram(program: seq<string>) returns (bytes: seq<Byte>, complete: bool)
    ensures bytes == Emit(program).0 && complete == Emit(program).1
  {
    bytes := [];
    var rest := program;
    while rest != []
      invariant Emit(program).0 == bytes + Emit(rest).0
      invariant Emit(program).1 == Emit(rest).1
    {
      var b := WordBytes(rest[0]);
      if b.None? {
        return bytes, false;
      }
      bytes := bytes + b.value;
      rest := rest[1..];
    }
    complete := true;
  }

  /** Reading the file back: each pair of bytes is low + 256 * high. */
  function ReadWords(bytes: seq<Byte>): seq<nat> {
    if |bytes| < 2 then [] else [bytes[0] as int + 256 * bytes[1] as int] + ReadWords(bytes[2..])
  }

  // ---------------------------------------------------------------------------
  // The tables against the header and the machine

  /** Register token Rk names the 3-bit binary of k. */
  lemma RegisterTable(k: nat)
    requires k < 8
    ensures RegName(k) in Registers
    ensures Registers[RegName(k)] == Format(k, 2, 3)
    ensures |Registers[RegName(k)]| == 3 && AllDigits(Registers[RegName(k)], 2)
    ensures Value(Registers[RegName(k)], 2) == k
  {
    RegisterEntry(k);
    FormatValue(k, 2, 3);
    FormatLength(k, 2, 3);
    assert Pow(2, 3) == 8;
  }

  lemma RegisterEntry(k: nat)
    requires k < 8
    ensures RegName(k) in Registers && Registers[RegName(k)] == Format(k, 2, 3)
  {
    if k < 4 { RegisterEntryLow(k); } else { RegisterEntryHigh(k); }
  }

  lemma RegisterEntryLow(k: nat)
    requires k < 4
    ensures RegName(k) in Registers && Registers[RegName(k)] == Format(k, 2, 3)
  {
    ZerosSmall();
    if k == 0 { assert ToDigits(0, 2) == "0"; assert RegName(0) == "R0"; }
    else if k == 1 { assert ToDigits(1, 2) == "1"; assert RegName(1) == "R1"; }
    else if k == 2 { assert ToDigits(2, 2) == "10"; assert RegName(2) == "R2"; }
    else { assert ToDigits(3, 2) == "11"; assert RegName(3) == "R3"; }
  }

  lemma RegisterEntryHigh(k: nat)
    requires 4 <= k < 8
    ensures RegName(k) in Registers && Registers[RegName(k)] == Format(k, 2, 3)
  {
    ZerosSmall();
    if k == 4 { assert ToDigits(4, 2) == "100"; assert RegName(4) == "R4"; }
    else if k == 5 { assert ToDigits(5, 2) == "101"; assert RegName(5) == "R5"; }
    else if k == 6 { assert ToDigits(6, 2) == "110"; assert RegName(6) == "R6"; }
    else { assert ToDigits(7, 2) == "111"; assert RegName(7) == "R7"; }
  }

  /** The only keys of the register table are R0..R7. */
  lemma RegisterKeys(name: string)
    requires name in Registers
    ensures exists k :: 0 <= k < 8 && name == RegName(k)
  {
    if name == "R0" { assert name == RegName(0); }
    else if name == "R1" { assert name == RegName(1); }
    else if name == "R2" { assert name == RegName(2); }
    else if name == "R3" { assert name == RegName(3); }
    else if name == "R4" { assert name == RegName(4); }
    else if name == "R5" { assert name == RegName(5); }
    else if name == "R6" { assert name == RegName(6); }
    else { assert name == RegName(7); }
  }

  /**
   * Every four-bit opcode prefix of the instruction table is the code the
   * header gives the operation of the same name; NOT, RTI and RES have no entry.
   */
  lemma InstructionNames(op: Opcodes.Opcode)
    ensures Opcodes.Name(op) in Instructions <==> op !in {Opcodes.NOT, Opcodes.RTI, Opcodes.RES}
  {
  }

  /** The four-bit prefix of each of them is the 4-bit binary of its code. */
  lemma InstructionPrefixes(op: Opcodes.Opcode)
    requires op !in {Opcodes.NOT, Opcodes.RTI, Opcodes.RES, Opcodes.TRAP}
    ensures Opcodes.Name(op) in Instructions
    ensures Instructions[Opcodes.Name(op)] == Format(Opcodes.Code(op), 2, 4)
  {
    InstructionNames(op);
    if op in {Opcodes.BR, Opcodes.ADD, Opcodes.LD, Opcodes.ST} { PrefixesLow(op); }
    else if op in {Opcodes.JSR, Opcodes.AND, Opcodes.LDR, Opcodes.STR} { PrefixesMiddle(op); }
    else { PrefixesHigh(op); }
  }

  lemma PrefixesLow(op: Opcodes.Opcode)
    requires op in {Opcodes.BR, Opcodes.ADD, Opcodes.LD, Opcodes.ST}
    ensures Instructions[Opcodes.Name(op)] == Format(Opcodes.Code(op), 2, 4)
  {
    ZerosSmall();
    match op
    case BR => assert ToDigits(0, 2) == "0";
    case ADD => assert ToDigits(1, 2) == "1";
    case LD => assert ToDigits(2, 2) == "10";
    case ST => assert ToDigits(3, 2) == "11";
  }

  lemma PrefixesMiddle(op: Opcodes.Opcode)
    requires op in {Opcodes.JSR, Opcodes.AND, Opcodes.LDR, Opcodes.STR}
    ensures Instructions[Opcodes.Name(op)] == Format(Opcodes.Code(op), 2, 4)
  {
    ZerosSmall();
    match op
    case JSR => assert ToDigits(4, 2) == "100";
    case AND => assert ToDigits(5, 2) == "101";
    case LDR => assert ToDigits(6, 2) == "110";
    case STR => assert ToDigits(7, 2) == "111";
  }

  lemma PrefixesHigh(op: Opcodes.Opcode)
    requires op in {Opcodes.LDI, Opcodes.STI, Opcodes.JMP, Opcodes.LEA}
    ensures Instructions[Opcodes.Name(op)] == Format(Opcodes.Code(op), 2, 4)
  {
    ZerosSmall();
    match op
    case LDI => assert ToDigits(10, 2) == "1010";
    case STI => assert ToDigits(11, 2) == "1011";
    case JMP => assert ToDigits(12, 2) == "1100";
    case LEA => assert ToDigits(14, 2) == "1110";
  }

  /** Each four-bit prefix, read as a binary number, is the operation's code. */
  lemma PrefixValue(op: Opcodes.Opcode)
    requires op !in {Opcodes.NOT, Opcodes.RTI, Opcodes.RES, Opcodes.TRAP}
    ensures |Instructions[Opcodes.Name(op)]| == 4
    ensures ParseInt(Instructions[Opcodes.Name(op)], 2) == Some(Opcodes.Code(op))
  {
    InstructionPrefixes(op);
    ParseFormat(Opcodes.Code(op), 2, 4);
    FormatLength(Opcodes.Code(op), 2, 4);
  }

  /** HALT's entry is TRAP's prefix followed by the 8-bit vector x25. */
  lemma HaltHalves()
    ensures Instructions["HALT"] == Instructions["TRAP"] + Format(0x25, 2, 8)
  {
  }

  /** Every register entry is three bits wide. */
  lemma RegisterWidth(name: string)
    requires name in Registers
    ensures |Registers[name]| == 3
  {
    RegisterKeys(name);
    var k :| 0 <= k < 8 && name == RegName(k);
    RegisterTable(k);
  }

  /** Every trap entry is an 8-bit vector. */
  lemma TrapWidth(name: string)
    requires name in Traps
    ensures |Traps[name]| == 8
  {
  }

  /**
   * The instruction entries: eight bits for TRAP, a whole word for HALT, a
   * four-bit prefix for every other mnemonic; each starts with a binary digit.
   */
  lemma InstructionWidth(m: string)
    requires m in Instructions
    ensures |Instructions[m]| == (if m == "TRAP" then 8 else if m == "HALT" then 16 else 4)
    ensures Instructions[m][0] == '0' || Instructions[m][0] == '1'
  {
  }

  /** A hex operand never looks like a register name, so the immediate branches are reachable. */
  lemma NumbersAreNotRegisters(tok: string)
    requires ParseInt(tok, 16).Some?
    ensures tok !in Registers
  {
  }
}
