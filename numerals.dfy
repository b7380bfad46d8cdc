/** Option datatype for operations that can fail. */
module Wrappers {
  datatype Option<+T> = None | Some(value: T)
}

/**
 * The two Python built-ins the assembler uses to move between numbers and
 * digit strings: format(n, '0<w>b') / format(n, '0<w>x') (zero-padded binary or
 * lower-case hexadecimal) and int(s, 2) / int(s, 16).
 */
module Numerals {
  import opened Wrappers
  import opened Arith

  /** The bases the assembler uses. */
  predicate IsBase(base: nat) { base == 2 || base == 16 }

  /** The character Python prints for digit d (lower case for 10..15). */
  function DigitChar(d: nat): char
    requires d < 16
  {
    "0123456789abcdef"[d]
  }

  /** The value of a digit character, upper or lower case, if it is one. */
  function DigitValue(c: char): (r: Option<nat>)
    ensures r.Some? ==> r.value < 16
  {
    if '0' <= c <= '9' then Some(c as int - '0' as int)
    else if 'a' <= c <= 'f' then Some(c as int - 'a' as int + 10)
    else if 'A' <= c <= 'F' then Some(c as int - 'A' as int + 10)
    else None
  }

  predicate IsDigit(c: char, base: nat) {
    DigitValue(c).Some? && DigitValue(c).value < base
  }

  predicate AllDigits(s: string, base: nat) {
    forall i :: 0 <= i < |s| ==> IsDigit(s[i], base)
  }

  /** The number a string of digits denotes, most significant digit first. */
  function Value(s: string, base: nat): nat
    requires AllDigits(s, base)
  {
    if s == [] then 0
    else Value(s[..|s| - 1], base) * base + DigitValue(s[|s| - 1]).value
  }

  /** The shortest digit string of n: "0" for zero, no leading zeros otherwise. */
  function ToDigits(n: nat, base: nat): string
    requires IsBase(base)
    decreases n
  {
    if n < base then [DigitChar(n)] else ToDigits(n / base, base) + [DigitChar(n % base)]
  }

  function Zeros(k: nat): string {
    seq(k, _ => '0')
  }

  lemma ZerosSmall()
    ensures Zeros(0) == "" && Zeros(1) == "0" && Zeros(2) == "00" && Zeros(3) == "000"
  {
    assert Zeros(1) == "0";
    assert Zeros(2) == "00";
    assert Zeros(3) == "000";
  }

  /** Left-pads s with '0' up to width w; a longer s is kept whole. */
  function Pad(s: string, w: int): string {
    if |s| < w then Zeros(w - |s|) + s else s
  }

  /**
   * Python's format(n, '0<width>b') (base 2) or format(n, '0<width>x') (base 16):
   * the digits of |n|, zero-padded so that the whole string, sign included, is
   * at least width characters long; a negative n gets a leading '-'.
   */
  function Format(n: int, base: nat, width: int): (s: string)
    requires IsBase(base)
    ensures |s| >= width
  {
    if n < 0 then "-" + Pad(ToDigits(-n, base), width - 1) else Pad(ToDigits(n, base), width)
  }

  /** The letters Python accepts after a leading "0" as a base prefix. */
  function PrefixLetters(base: nat): set<char> {
    if base == 2 then {'b', 'B'} else {'x', 'X'}
  }

  /**
   * Python's int(s, base) for a string without white space: an optional sign,
   * an optional "0b"/"0x" prefix matching the base, then at least one digit.
   * None stands for the ValueError Python raises otherwise.
   */
  function ParseInt(s: string, base: nat): (r: Option<int>)
    requires IsBase(base)
    ensures r.Some? && AllDigits(s, base) ==> r.value >= 0
    ensures r.Some? && r.value < 0 ==> s != [] && s[0] == '-'
  {
    var negative := |s| > 0 && s[0] == '-';
    var sign := if |s| > 0 && (s[0] == '-' || s[0] == '+') then 1 else 0;
    var prefix := if |s| >= sign + 2 && s[sign] == '0' && s[sign + 1] in PrefixLetters(base) then 2 else 0;
    var digits := s[sign + prefix..];
    if digits != [] && AllDigits(digits, base) then
      var v: int := Value(digits, base);
      Some(if negative then -v else v)
    else None
  }

  // ---------------------------------------------------------------------------
  // Properties

  /** The digits of n are digits of the base and denote n. */
  lemma {:induction false} ToDigitsValue(n: nat, base: nat)
    requires IsBase(base)
    ensures AllDigits(ToDigits(n, base), base)
    ensures Value(ToDigits(n, base), base) == n
    decreases n
  {
    var s := ToDigits(n, base);
    if n >= base {
      var p := ToDigits(n / base, base);
      ToDigitsValue(n / base, base);
      DigitRoundTrip(n % base);
      assert s == p + [DigitChar(n % base)];
      assert s[..|s| - 1] == p;
      assert Value(s, base) == (n / base) * base + n % base;
    } else {
      DigitRoundTrip(n);
    }
  }

  /** DigitValue reads back the character DigitChar prints. */
  lemma DigitRoundTrip(d: nat)
    requires d < 16
    ensures DigitValue(DigitChar(d)) == Some(d)
  {
  }

  /** Leading zeros do not change the value. */
  lemma {:induction false} ValueLeadingZeros(k: nat, s: string, base: nat)
    requires IsBase(base) && AllDigits(s, base)
    ensures AllDigits(Zeros(k) + s, base)
    ensures Value(Zeros(k) + s, base) == Value(s, base)
    decreases |s|
  {
    var z := Zeros(k) + s;
    if s == [] {
      assert z == Zeros(k);
      ZerosValue(k, base);
    } else {
      ValueLeadingZeros(k, s[..|s| - 1], base);
      assert z[..|z| - 1] == Zeros(k) + s[..|s| - 1];
    }
  }

  lemma {:induction false} ZerosValue(k: nat, base: nat)
    requires IsBase(base)
    ensures AllDigits(Zeros(k), base) && Value(Zeros(k), base) == 0
  {
    if k > 0 {
      ZerosValue(k - 1, base);
      assert Zeros(k)[..k - 1] == Zeros(k - 1);
    }
  }

  /** Denotation of a concatenation: the left part is shifted by the right part's length. */
  lemma {:induction false} ValueConcat(a: string, c: string, base: nat)
    requires AllDigits(a, base) && AllDigits(c, base)
    ensures AllDigits(a + c, base)
    ensures Value(a + c, base) == Value(a, base) * Pow(base, |c|) + Value(c, base)
    decreases |c|
  {
    var s := a + c;
    if c == [] {
      assert s == a;
    } else {
      var c' := c[..|c| - 1];
      ValueConcat(a, c', base);
      assert s[..|s| - 1] == a + c';
      var d := DigitValue(c[|c| - 1]).value;
      assert Value(s, base) == Value(a + c', base) * base + d;
      assert Value(c, base) == Value(c', base) * base + d;
      assert Pow(base, |c|) == base * Pow(base, |c'|);
      ShiftStep(Value(a, base), Pow(base, |c'|), Value(c', base), base, d);
    }
  }

  lemma ShiftStep(x: int, p: int, y: int, b: int, d: int)
    ensures (x * p + y) * b + d == x * (b * p) + (y * b + d)
  {
  }

  /** A string of k digits denotes a number below base^k. */
  lemma {:induction false} ValueBound(s: string, base: nat)
    requires IsBase(base) && AllDigits(s, base)
    ensures Value(s, base) < Pow(base, |s|)
    decreases |s|
  {
    if s != [] {
      var s' := s[..|s| - 1];
      ValueBound(s', base);
      var d := DigitValue(s[|s| - 1]).value;
      assert Value(s, base) == Value(s', base) * base + d;
      assert Value(s', base) + 1 <= Pow(base, |s'|);
      assert (Value(s', base) + 1) * base <= Pow(base, |s'|) * base;
    }
  }

  /**
   * The shortest digit string of n has at most k digits exactly when n is
   * below base^k (for k >= 1).
   */
  lemma {:induction false} ToDigitsLength(n: nat, base: nat, k: nat)
    requires IsBase(base) && k >= 1
    ensures |ToDigits(n, base)| <= k <==> n < Pow(base, k)
    decreases n
  {
    if n < base {
      PowAtLeastBase(base, k);
    } else if k == 1 {
      assert Pow(base, 1) == base;
    } else {
      ToDigitsLength(n / base, base, k - 1);
      QuotientBound(n, base, Pow(base, k - 1));
    }
  }

  /** base^k is at least base for k >= 1. */
  lemma PowAtLeastBase(base: nat, k: nat)
    requires base >= 1 && k >= 1
    ensures base <= Pow(base, k)
  {
    assert Pow(base, k) == base * Pow(base, k - 1);
  }

  /** n stays below p * base exactly when n / base stays below p. */
  lemma QuotientBound(n: nat, base: nat, p: nat)
    requires base >= 1
    ensures n < base * p <==> n / base < p
  {
    var q := n / base;
    assert n == q * base + n % base && n % base < base;
    if q < p {
      MulMonotone(p, q + 1, base);
    } else {
      MulMonotone(q, p, base);
    }
  }

  /** format(n, '0<w>…') for n >= 0 is exactly w long when n fits in w digits, longer otherwise. */
  lemma FormatLength(n: nat, base: nat, w: nat)
    requires IsBase(base) && w >= 1
    ensures |Format(n, base, w)| >= w
    ensures |Format(n, base, w)| == w <==> n < Pow(base, w)
  {
    ToDigitsLength(n, base, w);
  }

  /** Every character of format(n, …) for n >= 0 is a digit of the base, and they denote n. */
  lemma FormatValue(n: nat, base: nat, w: int)
    requires IsBase(base)
    ensures AllDigits(Format(n, base, w), base)
    ensures Value(Format(n, base, w), base) == n
  {
    var d := ToDigits(n, base);
    ToDigitsValue(n, base);
    if |d| < w {
      ValueLeadingZeros(w - |d|, d, base);
    }
  }

  /** A string of digits with no sign and no prefix parses to its value. */
  lemma ParseDigits(s: string, base: nat)
    requires IsBase(base) && s != [] && AllDigits(s, base)
    ensures ParseInt(s, base) == Some(Value(s, base))
  {
    assert IsDigit(s[0], base);
    if |s| >= 2 {
      assert IsDigit(s[1], base);
      assert s[1] !in PrefixLetters(base);
    }
  }

  /** Two binary strings of the same length and value are the same string. */
  lemma {:induction false} BinaryUnique(s: string, t: string)
    requires AllDigits(s, 2) && AllDigits(t, 2) && |s| == |t| && Value(s, 2) == Value(t, 2)
    ensures s == t
    decreases |s|
  {
    if s != [] {
      var s', t' := s[..|s| - 1], t[..|t| - 1];
      var a, b := DigitValue(s[|s| - 1]).value, DigitValue(t[|t| - 1]).value;
      assert Value(s, 2) == Value(s', 2) * 2 + a;
      assert Value(t, 2) == Value(t', 2) * 2 + b;
      assert IsDigit(s[|s| - 1], 2) && IsDigit(t[|t| - 1], 2);
      LastBitUnique(Value(s', 2), Value(t', 2), a, b);
      assert AllDigits(s', 2) && AllDigits(t', 2);
      BinaryUnique(s', t');
      assert s == s' + [s[|s| - 1]] && t == t' + [t[|t| - 1]];
    }
  }

  lemma LastBitUnique(x: int, y: int, a: int, b: int)
    requires 0 <= a < 2 && 0 <= b < 2 && x * 2 + a == y * 2 + b
    ensures a == b && x == y
  {
  }

  /** A w-digit binary string denoting v is format(v, '0<w>b'). */
  lemma Canonical(s: string, v: nat, w: nat, bound: nat)
    requires AllDigits(s, 2) && Value(s, 2) == v && |s| == w && w >= 1 && bound == Pow(2, w) && v < bound
    ensures s == Format(v, 2, w)
  {
    FormatValue(v, 2, w);
    FormatLength(v, 2, w);
    BinaryUnique(s, Format(v, 2, w));
  }

  /** Round trip: int(format(n, '0<w>…'), base) == n for every n >= 0. */
  lemma ParseFormat(n: nat, base: nat, w: int)
    requires IsBase(base)
    ensures ParseInt(Format(n, base, w), base) == Some(n)
  {
    FormatValue(n, base, w);
    ToDigitsNonEmpty(n, base);
    ParseDigits(Format(n, base, w), base);
  }

  /** The round trip holds for negative numbers too: int() reads the '-' back as the sign. */
  lemma ParseFormatSigned(n: int, base: nat, w: int)
    requires IsBase(base)
    ensures ParseInt(Format(n, base, w), base) == Some(n)
  {
    if n >= 0 {
      ParseFormat(n, base, w);
    } else {
      ParseFormatNegative(n, base, w);
    }
  }

  lemma ParseFormatNegative(n: int, base: nat, w: int)
    requires IsBase(base) && n < 0
    ensures ParseInt(Format(n, base, w), base) == Some(n)
  {
    var u := Format(-n, base, w - 1);
    FormatDigits(-n, base, w - 1);
    FormatNegativeForm(n, base, w);
    ParseNegative(u, base, -n);
  }

  /** format(n, …) for n >= 0 is a non-empty string of digits denoting n. */
  lemma FormatDigits(n: nat, base: nat, w: int)
    requires IsBase(base)
    ensures Format(n, base, w) != [] && AllDigits(Format(n, base, w), base)
    ensures Value(Format(n, base, w), base) == n
  {
    FormatValue(n, base, w);
    ToDigitsNonEmpty(n, base);
  }

  lemma FormatNegativeForm(n: int, base: nat, w: int)
    requires IsBase(base) && n < 0
    ensures Format(n, base, w) == "-" + Format(-n, base, w - 1)
  {
  }

  /** A '-' followed by plain digits parses to minus their value. */
  lemma ParseNegative(u: string, base: nat, v: nat)
    requires IsBase(base) && u != [] && AllDigits(u, base) && Value(u, base) == v
    ensures ParseInt("-" + u, base) == Some(-(v as int))
  {
    var s := "-" + u;
    assert s[0] == '-' && s[1..] == u;
    if |u| >= 2 {
      assert IsDigit(u[1], base);
      assert u[1] !in PrefixLetters(base);
    }
  }

  lemma ToDigitsNonEmpty(n: nat, base: nat)
    requires IsBase(base)
    ensures ToDigits(n, base) != []
  {
  }

  /** A negative number is formatted with a leading '-', which is not a digit. */
  lemma FormatNegative(n: int, base: nat, w: int)
    requires IsBase(base) && n < 0
    ensures |Format(n, base, w)| > 0 && Format(n, base, w)[0] == '-'
    ensures !IsDigit(Format(n, base, w)[0], base)
  {
  }
}
