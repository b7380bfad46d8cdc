/** Powers of a natural base, shared by the machine model and the assembler model. */
module Arith {

  /** b raised to the k-th power. */
  function Pow(b: nat, k: nat): (r: nat)
    ensures b >= 1 ==> r >= 1
    ensures b >= 2 ==> r >= k + 1
  {
    if k == 0 then 1 else b * Pow(b, k - 1)
  }

  /** Raising to a sum of exponents multiplies the powers. */
  lemma {:induction false} PowAdd(b: nat, j: nat, k: nat)
    ensures Pow(b, j + k) == Pow(b, j) * Pow(b, k)
  {
    if k > 0 {
      PowAdd(b, j, k - 1);
      calc {
        Pow(b, j + k);
        b * Pow(b, j + k - 1);
        b * (Pow(b, j) * Pow(b, k - 1));
        { MulComm3(b, Pow(b, j), Pow(b, k - 1)); }
        Pow(b, j) * (b * Pow(b, k - 1));
      }
    }
  }

  /**
   * The two nonlinear steps below are named lemmas so that a proof asks for
   * exactly the product it needs: the solver handles one instance at a time
   * far more cheaply than products left to its own nonlinear search.
   */
  lemma MulMonotone(a: int, c: int, p: nat)
    requires a >= c
    ensures a * p >= c * p
  {
  }

  lemma MulComm3(a: int, x: int, y: int)
    ensures a * (x * y) == x * (a * y)
  {
  }

  /** Powers of a base of at least two grow strictly with the exponent. */
  lemma {:induction false} PowStrictlyIncreasing(b: nat, j: nat, k: nat)
    requires b >= 2 && j < k
    ensures Pow(b, j) < Pow(b, k)
  {
    var p := Pow(b, k - 1);
    if k - 1 > j {
      PowStrictlyIncreasing(b, j, k - 1);
    }
    assert Pow(b, j) <= p;
    assert Pow(b, k) == b * p;
    assert b * p >= 2 * p by { MulMonotone(b, 2, p); }
  }
}
