/**
 * The LC-3 machine of lc3vm.c: 65536 words of memory, the register file
 * R0..R7, RPC and RCND, the condition flags, sign extension and the ADD
 * handler. C's uint16_t arithmetic is written out: every result that the C
 * code stores into a uint16_t is reduced modulo 2^16.
 */
module Machine {
  import opened Arith
  import opened Opcodes

  /** UINT16_MAX + 1: one cell for every 16-bit address. */
  const MemorySize: nat := 0x1_0000

  /** The conventional load address PC_START (declared, never copied into RPC here). */
  const PcStart: Word := 0x3000

  // enum regist: R0 .. R7, RPC, RCND, and RCNT, the number of registers.
  const R0: nat := 0
  const R1: nat := 1
  const R2: nat := 2
  const R7: nat := 7
  const RPC: nat := 8
  const RCND: nat := 9
  const RCNT: nat := 10

  type Register = r: nat | r < RCNT

  // enum flags: the three values RCND can hold.
  const FP: Word := 1
  const FZ: Word := 2
  const FN: Word := 4

  /** A 16-bit word read as a two's-complement number. */
  function ToSigned(w: Word): int {
    if w < 0x8000 then w else w - 0x1_0000
  }

  /**
   * C's bitwise | on non-negative integers, bit by bit from the least
   * significant end: at least either operand, at most their sum.
   */
  function Or(a: nat, b: nat): (r: nat)
    ensures a <= r && b <= r && r <= a + b
    decreases a + b
  {
    if a == 0 && b == 0 then 0
    else 2 * Or(a / 2, b / 2) + (if a % 2 == 1 || b % 2 == 1 then 1 else 0)
  }

  /**
   * sign_extend(x, bit_count): when bit bit_count-1 of x is set,
   * x |= 0xFFFF << bit_count, the int result truncated back to 16 bits. That
   * keeps bits 0..bit_count-1 of x and sets every bit above them; a clear
   * sign bit leaves x as it is. In C the shift of the int 0xFFFF is defined
   * for 1 <= bit_count <= 15 (at 16 it overflows int); the model also takes
   * 16, where the mask falls entirely above bit 15 and x is kept.
   */
  function SignExtend(x: Word, bitCount: nat): (r: Word)
    requires 1 <= bitCount <= 16
    ensures (x / Pow(2, bitCount - 1)) % 2 == 0 ==> r == x
    ensures (x / Pow(2, bitCount - 1)) % 2 == 1 ==>
      r == x % Pow(2, bitCount) + 0x1_0000 - Pow(2, bitCount)
  {
    if (x / Pow(2, bitCount - 1)) % 2 == 1 then
      PowIsPow2(bitCount);
      PowAtMost16(bitCount);
      OrHighMask(x, Pow(2, bitCount));
      Or(x, 0xFFFF * Pow(2, bitCount)) % 0x1_0000
    else x
  }

  /** The value of an n-bit two's-complement field, as an independent reference. */
  function FieldValue(f: nat, n: nat): int
    requires n >= 1
  {
    if f < Pow(2, n - 1) then f else f - Pow(2, n)
  }

  /**
   * The flag update_flag stores for a register holding v: FZ for zero, FN when
   * bit 15 (v >> 15) is set, FP otherwise; that is, the sign of v read as a
   * signed number.
   */
  function Flag(v: Word): (f: Word)
    ensures f == FP || f == FZ || f == FN
    ensures f == FZ <==> v == 0
    ensures f == FN <==> ToSigned(v) < 0
    ensures f == FP <==> ToSigned(v) > 0
  {
    if v == 0 then FZ else if v / 0x8000 != 0 then FN else FP
  }

  // The operand fields OP_ADD extracts from an instruction.

  /** DR1 = (instruction >> 9) & 0x7 */
  function Dr(i: Word): nat { (i / 0x200) % 8 }
  /** SR1 = (instruction >> 6) & 0x7 */
  function Sr1(i: Word): nat { (i / 0x40) % 8 }
  /** IMM_FLAG = (instruction >> 5) & 0x1 */
  function ImmFlag(i: Word): nat { (i / 0x20) % 2 }
  /** SR2 = instruction & 0x7 */
  function Sr2(i: Word): nat { i % 8 }
  /** instruction & 0x1F */
  function Imm5(i: Word): nat { i % 0x20 }

  /**
   * The register file after OP_ADD(i): the wrapped sum goes into DR, then the
   * flag of DR into RCND. Only DR and RCND change, RCND holds the flag of DR's
   * new value, and RPC is never the destination.
   */
  function AddRegs(regs: seq<Word>, i: Word): (r: seq<Word>)
    requires |regs| == RCNT
    ensures |r| == RCNT
    ensures r[RCND] == Flag(r[Dr(i)])
    ensures r[RPC] == regs[RPC]
    ensures forall k :: 0 <= k < RCNT && k != Dr(i) && k != RCND ==> r[k] == regs[k]
  {
    var operand := if ImmFlag(i) == 1 then SignExtend(Imm5(i), 5) else regs[Sr2(i)];
    var sum: Word := (regs[Sr1(i)] as int + operand) % 0x1_0000;
    regs[Dr(i) := sum][RCND := Flag(sum)]
  }

  /** The global state of lc3vm.c: memory[] and reg[]. */
  class Lc3 {
    var memory: array<Word>
    var reg: array<Word>

    ghost predicate Valid()
      reads this
    {
      memory.Length == MemorySize && reg.Length == RCNT && memory != reg
    }

    /** Both arrays start out all zero, as the C globals are initialised. */
    constructor ()
      ensures Valid() && fresh(memory) && fresh(reg)
      ensures forall a :: 0 <= a < MemorySize ==> memory[a] == 0
      ensures forall r :: 0 <= r < RCNT ==> reg[r] == 0
    {
      memory := new Word[MemorySize](_ => 0);
      reg := new Word[RCNT](_ => 0);
    }

    /** mem_read: total, since every 16-bit address names a cell. */
    function MemRead(address: Word): Word
      reads this, memory
      requires Valid()
    {
      memory[address]
    }

    /** mem_write: the addressed cell now holds val; every other cell and every register is as before. */
    method MemWrite(address: Word, val: Word)
      requires Valid()
      modifies memory
      ensures Valid()
      ensures memory[..] == old(memory[..])[address := val]
      ensures MemRead(address) == val
      ensures forall a: Word :: a != address ==> MemRead(a) == old(MemRead(a))
      ensures reg[..] == old(reg[..])
    {
      memory[address] := val;
    }

    /** update_flag(r): RCND takes the flag of reg[r]; nothing else changes. */
    method UpdateFlag(r: Register)
      requires Valid()
      modifies reg
      ensures Valid()
      ensures reg[..] == old(reg[..])[RCND := Flag(old(reg[r]))]
      ensures memory[..] == old(memory[..])
    {
      if reg[r] == 0 {
        reg[RCND] := FZ;
      } else if reg[r] / 0x8000 != 0 {
        reg[RCND] := FN;
      } else {
        reg[RCND] := FP;
      }
    }

    /** OP_ADD(instruction), in its register and its immediate form. */
    method OpAdd(instruction: Word)
      requires Valid()
      modifies reg
      ensures Valid()
      ensures reg[..] == AddRegs(old(reg[..]), instruction)
      ensures memory[..] == old(memory[..])
    {
      ghost var before := reg[..];
      var dr1 := Dr(instruction);
      var sr1 := Sr1(instruction);
      var immFlag := ImmFlag(instruction);
      if immFlag == 1 {
        var imm5 := SignExtend(instruction % 0x20, 5);
        reg[dr1] := (reg[sr1] as int + imm5) % 0x1_0000;
      } else {
        var sr2 := Sr2(instruction);
        reg[dr1] := (reg[sr1] as int + reg[sr2]) % 0x1_0000;
      }
      assert reg[..] == before[dr1 := AddRegs(before, instruction)[dr1]] by {
        AddDestination(before, instruction);
      }
      UpdateFlag(dr1);
    }
  }

  /**
   * The scenario of lc3vm.c's main: R0 = -2, R1 = 3, R2 = 0, then
   * OP_ADD(0b0001010000000001), that is ADD R2, R0, R1.
   */
  method AddScenario() returns (r0: Word, r1: Word, r2: Word, cond: Word)
    ensures r0 == 0xFFFE && r1 == 3
    ensures r2 == 1 && cond == FP
  {
    var m := new Lc3();
    m.reg[R0] := -2 % 0x1_0000;
    m.reg[R1] := 3;
    m.reg[R2] := 0;
    var before := m.reg[..];
    ScenarioStep(before);
    m.OpAdd(0x1401);
    assert m.reg[..] == AddRegs(before, 0x1401);
    r0, r1, r2, cond := m.reg[R0], m.reg[R1], m.reg[R2], m.reg[RCND];
  }

  /** ADD R2, R0, R1 on R0 = -2 and R1 = 3 leaves 1 in R2, the positive flag in RCND, and R0, R1 unchanged. */
  lemma ScenarioStep(regs: seq<Word>)
    requires |regs| == RCNT && regs[R0] == 0xFFFE && regs[R1] == 3
    ensures AddRegs(regs, 0x1401)[R0] == 0xFFFE && AddRegs(regs, 0x1401)[R1] == 3
    ensures AddRegs(regs, 0x1401)[R2] == 1 && AddRegs(regs, 0x1401)[RCND] == FP
  {
    assert Dr(0x1401) == 2 && Sr1(0x1401) == 0 && ImmFlag(0x1401) == 0 && Sr2(0x1401) == 1;
    assert (0xFFFE + 3) % 0x1_0000 == 1;
  }

  // ---------------------------------------------------------------------------
  // Bitwise OR and sign extension

  /** p is a power of two. */
  predicate IsPow2(p: nat)
    decreases p
  {
    p == 1 || (p >= 2 && p % 2 == 0 && IsPow2(p / 2))
  }

  lemma {:induction false} PowIsPow2(n: nat)
    ensures IsPow2(Pow(2, n))
  {
    if n > 0 {
      PowIsPow2(n - 1);
      assert Pow(2, n) / 2 == Pow(2, n - 1);
    }
  }

  /**
   * Integer division under a name: the lemmas below state their facts about
   * Div(a, d), so that a quotient is a term the solver matches only where a
   * proof mentions it, rather than every a / d in scope.
   */
  function Div(a: nat, d: nat): nat
    requires d >= 1
  {
    a / d
  }

  /**
   * OR with a multiple m of a power of two P keeps the bits of a below P and
   * ORs the bits above: a | m == a % P + ((a / P) | (m / P)) * P.
   */
  lemma {:induction false} OrShifted(a: nat, m: nat, bigP: nat)
    requires IsPow2(bigP) && m % bigP == 0
    ensures Or(a, m) == a % bigP + Or(Div(a, bigP), Div(m, bigP)) * bigP
    decreases bigP
  {
    if bigP > 1 {
      var p := bigP / 2;
      HalveMultiple(m, p, bigP);
      OrShifted(a / 2, m / 2, p);
      DivMod2Step(a, p);
      OrEven(a, m);
      Regroup(Or(a, m), Or(a / 2, m / 2), Or(Div(a, bigP), Div(m, bigP)), a % 2, (a / 2) % p, a % bigP, p, bigP);
    }
  }

  /** OR with an even number: the low bit comes from a alone. */
  lemma OrEven(a: nat, m: nat)
    requires m % 2 == 0
    ensures Or(a, m) == 2 * Or(a / 2, m / 2) + a % 2
  {
  }

  /** A multiple of 2p halves to a multiple of p. */
  lemma HalveMultiple(m: nat, p: nat, bigP: nat)
    requires p >= 1 && bigP == 2 * p && m % bigP == 0
    ensures m % 2 == 0 && (m / 2) % p == 0 && (m / 2) / p == m / bigP
  {
    var k := m / bigP;
    assert m == bigP * k;
    assert m == 2 * (p * k);
    assert m / 2 == p * k;
    DivModUnique(m / 2, p, k, 0);
  }

  lemma Regroup(x: int, y: int, o: int, lo: int, hm: int, am: int, p: int, bigP: int)
    requires bigP == 2 * p
    requires x == 2 * y + lo && y == hm + o * p && 2 * hm + lo == am
    ensures x == am + o * bigP
  {
    assert 2 * (o * p) == o * bigP;
  }

  /** Dividing by 2 then by p is dividing by 2p; and the remainders recombine. */
  lemma DivMod2Step(a: nat, p: nat)
    requires p >= 1
    ensures (a / 2) / p == a / (2 * p)
    ensures 2 * ((a / 2) % p) + a % 2 == a % (2 * p)
  {
    var q := (a / 2) / p;
    var r := (a / 2) % p;
    assert a / 2 == q * p + r;
    assert a == (2 * p) * q + (2 * r + a % 2);
    assert 0 <= 2 * r + a % 2 < 2 * p;
    DivModUnique(a, 2 * p, q, 2 * r + a % 2);
  }

  /** Quotient and remainder are determined by a == d * q + r with 0 <= r < d. */
  lemma DivModUnique(a: int, d: int, q: int, r: int)
    requires d > 0 && a == d * q + r && 0 <= r < d
    ensures a / d == q && a % d == r
  {
    var q', r' := a / d, a % d;
    assert d * q' + r' == d * q + r;
    assert d * (q - q') == r' - r;
    if q > q' {
      MulMonotone(q - q', 1, d);
    } else if q < q' {
      MulMonotone(q' - q, 1, d);
    }
  }

  /** OR with all ones below a power of two P gives all ones, for a value below P. */
  lemma {:induction false} OrOnes(c: nat, bigP: nat)
    requires IsPow2(bigP) && c < bigP
    ensures Or(c, bigP - 1) == bigP - 1
    decreases bigP
  {
    if bigP > 1 {
      var p := bigP / 2;
      OrOnes(c / 2, p);
      assert (bigP - 1) / 2 == p - 1 && (bigP - 1) % 2 == 1;
    }
  }

  /** Bit n-1 of x is the quotient by 2^(n-1) when x is below 2^n. */
  lemma TopBit(x: nat, n: nat)
    requires n >= 1 && x < Pow(2, n)
    ensures (x / Pow(2, n - 1)) % 2 == 1 <==> x >= Pow(2, n - 1)
  {
    var p := Pow(2, n - 1);
    assert Pow(2, n) == 2 * p;
    if x >= p {
      DivModUnique(x, p, 1, x - p);
    } else {
      DivModUnique(x, p, 0, x);
    }
  }

  lemma Pow16()
    ensures Pow(2, 16) == 0x1_0000
  {
    assert Pow(2, 4) == 16;
    PowAdd(2, 4, 4);
    PowAdd(2, 8, 8);
  }

  lemma PowAtMost16(n: nat)
    requires n <= 16
    ensures Pow(2, n) <= 0x1_0000
  {
    Pow16();
    if n < 16 {
      PowStrictlyIncreasing(2, n, 16);
    }
  }

  lemma DivAtMost(x: nat, p: nat)
    requires p >= 1
    ensures Div(x, p) <= x
  {
    var q := x / p;
    assert x == p * q + x % p;
    MulMonotone(p, 1, q);
  }

  /** x | (0xFFFF * P), truncated to 16 bits, is the low bits of x under P with every bit from P up set. */
  lemma OrHighMask(x: Word, p: nat)
    requires IsPow2(p) && p <= 0x1_0000
    ensures Or(x, 0xFFFF * p) % 0x1_0000 == x % p + 0x1_0000 - p
  {
    OrHighOnes(x, p);
    var low := x % p;
    DivModUnique(low + 0xFFFF * p, 0x1_0000, p - 1, low + 0x1_0000 - p);
  }

  /** x | (0xFFFF * P) == x % P + 0xFFFF * P, before truncation. */
  lemma OrHighOnes(x: Word, p: nat)
    requires IsPow2(p) && p <= 0x1_0000
    ensures p >= 1 && Or(x, 0xFFFF * p) == x % p + 0xFFFF * p
  {
    var m := 0xFFFF * p;
    assert p >= 1;
    DivModUnique(m, p, 0xFFFF, 0);
    OrShifted(x, m, p);
    DivAtMost(x, p);
    Pow16();
    PowIsPow2(16);
    OrOnes(Div(x, p), 0x1_0000);
  }

  /**
   * For a field x of n bits, 1 <= n <= 15: a clear sign bit leaves x as it is,
   * a set one gives x + 2^16 - 2^n.
   */
  lemma SignExtendValue(x: Word, n: nat)
    requires 1 <= n <= 15 && x < Pow(2, n)
    ensures x < Pow(2, n - 1) ==> SignExtend(x, n) == x
    ensures x >= Pow(2, n - 1) ==> SignExtend(x, n) == x + 0x1_0000 - Pow(2, n)
  {
    TopBit(x, n);
    DivModUnique(x, Pow(2, n), 0, x);
  }

  /** Read as signed, sign_extend of an n-bit field is the field's two's-complement value. */
  lemma SignExtendIsTwosComplement(x: Word, n: nat)
    requires 1 <= n <= 16 && x < Pow(2, n)
    ensures ToSigned(SignExtend(x, n)) == FieldValue(x, n)
  {
    TopBit(x, n);
    DivModUnique(x, Pow(2, n), 0, x);
    PowAtMost16(n);
    assert Pow(2, n) == 2 * Pow(2, n - 1);
  }

  /** For the 5-bit immediate of ADD: the widened value read as signed is f or f - 32, within -16..15. */
  lemma Imm5Value(f: nat)
    requires f < 32
    ensures ToSigned(SignExtend(f, 5)) == if f < 16 then f else f - 32
    ensures -16 <= ToSigned(SignExtend(f, 5)) <= 15
  {
    assert Pow(2, 5) == 32 && Pow(2, 4) == 16;
    SignExtendIsTwosComplement(f, 5);
  }

  /**
   * Round trip: truncating a signed value that fits in n bits to its low n
   * bits and sign-extending it gives back the value (as a 16-bit word read
   * as signed).
   */
  lemma SignExtendRoundTrip(v: int, n: nat)
    requires 1 <= n <= 16 && -(Pow(2, n - 1) as int) <= v < Pow(2, n - 1)
    ensures 0 <= v % Pow(2, n) < 0x1_0000
    ensures ToSigned(SignExtend(v % Pow(2, n), n)) == v
  {
    var p := Pow(2, n);
    PowAtMost16(n);
    assert p == 2 * Pow(2, n - 1);
    var f := v % p;
    if v >= 0 {
      DivModUnique(v, p, 0, v);
    } else {
      DivModUnique(v, p, -1, v + p);
    }
    SignExtendIsTwosComplement(f, n);
  }

  // ---------------------------------------------------------------------------
  // ADD

  /** Register form (bit 5 clear): DR gets (SR1 + SR2) mod 2^16; the sources are read before DR is written. */
  lemma AddRegisterForm(regs: seq<Word>, i: Word)
    requires |regs| == RCNT && ImmFlag(i) == 0
    ensures AddRegs(regs, i)[Dr(i)] == (regs[Sr1(i)] as int + regs[Sr2(i)]) % 0x1_0000
    ensures ToSigned(AddRegs(regs, i)[Dr(i)]) == Wrap(ToSigned(regs[Sr1(i)]) + ToSigned(regs[Sr2(i)]))
  {
    assert AddRegs(regs, i)[Dr(i)] == (regs[Sr1(i)] as int + regs[Sr2(i)]) % 0x1_0000 by {
      AddDestination(regs, i);
    }
    WrapSum(regs[Sr1(i)], regs[Sr2(i)]);
  }

  /** Immediate form (bit 5 set): DR gets SR1 plus the signed 5-bit immediate, wrapped to 16 bits. */
  lemma AddImmediateForm(regs: seq<Word>, i: Word)
    requires |regs| == RCNT && ImmFlag(i) == 1
    ensures AddRegs(regs, i)[Dr(i)] == (regs[Sr1(i)] as int + SignExtend(Imm5(i), 5)) % 0x1_0000
    ensures ToSigned(AddRegs(regs, i)[Dr(i)]) == Wrap(ToSigned(regs[Sr1(i)]) + FieldValue(Imm5(i), 5))
  {
    var a, b := regs[Sr1(i)], SignExtend(Imm5(i), 5);
    assert AddRegs(regs, i)[Dr(i)] == (a as int + b) % 0x1_0000 by {
      AddDestination(regs, i);
    }
    assert ToSigned(b) == FieldValue(Imm5(i), 5) by {
      SignExtendIsTwosComplement(Imm5(i), 5);
    }
    assert ToSigned((a as int + b) % 0x1_0000) == Wrap(ToSigned(a) + ToSigned(b)) by {
      WrapSum(a, b);
    }
  }

  /** The value OP_ADD writes into DR, before the flag is set from it. */
  lemma AddDestination(regs: seq<Word>, i: Word)
    requires |regs| == RCNT
    ensures AddRegs(regs, i)[Dr(i)] ==
      (regs[Sr1(i)] as int + (if ImmFlag(i) == 1 then SignExtend(Imm5(i), 5) else regs[Sr2(i)])) % 0x1_0000
  {
  }

  /** Two's-complement reduction of an integer into -2^15 .. 2^15 - 1. */
  function Wrap(v: int): (r: int)
    ensures -0x8000 <= r < 0x8000
    ensures (r - v) % 0x1_0000 == 0
  {
    (v + 0x8000) % 0x1_0000 - 0x8000
  }

  /** The signed reading of a wrapped sum is the wrapped sum of the signed readings. */
  lemma WrapSum(a: Word, b: Word)
    ensures ToSigned((a as int + b) % 0x1_0000) == Wrap(ToSigned(a) + ToSigned(b))
  {
    var s := (a as int + b) % 0x1_0000;
    var t := ToSigned(a) + ToSigned(b);
    assert (a + b) - t == 0x1_0000 * ((a + b - t) / 0x1_0000);
    var w := Wrap(t);
    assert (w - ToSigned(s)) % 0x1_0000 == 0;
  }

  /** No overflow (the true sum fits in 16 signed bits): ADD computes the exact signed sum. */
  lemma AddSignedExact(regs: seq<Word>, i: Word)
    requires |regs| == RCNT && ImmFlag(i) == 0
    requires -0x8000 <= ToSigned(regs[Sr1(i)]) + ToSigned(regs[Sr2(i)]) < 0x8000
    ensures ToSigned(AddRegs(regs, i)[Dr(i)]) == ToSigned(regs[Sr1(i)]) + ToSigned(regs[Sr2(i)])
  {
    AddRegisterForm(regs, i);
  }
}
