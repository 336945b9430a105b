/** The bit operations of the C code on unsigned numbers. */
module BitOps {
  import opened Bits

  function Or(a: nat, b: nat): nat
    decreases a + b
  {
    if a == 0 && b == 0 then 0
    else (if a % 2 == 1 || b % 2 == 1 then 1 else 0) + 2 * Or(a / 2, b / 2)
  }

  function And(a: nat, b: nat): nat
    decreases a + b
  {
    if a == 0 && b == 0 then 0
    else (if a % 2 == 1 && b % 2 == 1 then 1 else 0) + 2 * And(a / 2, b / 2)
  }

  function ShiftLeft(a: nat, n: nat): nat {
    a * Pow2(n)
  }

  function ShiftRight(a: nat, n: nat): nat
    decreases n
  {
    if n == 0 then a else ShiftRight(a / 2, n - 1)
  }

  /** Or-ing a number in above the bits in use adds it there. */
  lemma {:induction false} OrAbove(a: nat, b: nat, n: nat)
    requires a < Pow2(n)
    ensures Or(a, ShiftLeft(b, n)) == a + ShiftLeft(b, n)
    decreases n
  {
    if n == 0 {
      OrZero(b);
    } else {
      var x := ShiftLeft(b, n - 1);
      MulDouble(Pow2(n - 1), b);
      assert ShiftLeft(b, n) == 2 * x;
      OrAbove(a / 2, b, n - 1);
      assert (2 * x) / 2 == x && (2 * x) % 2 == 0;
    }
  }

  lemma {:induction false} OrZero(b: nat)
    ensures Or(0, b) == b
  {
    if b != 0 {
      OrZero(b / 2);
    }
  }

  /** Masking the low `n` bits is taking the remainder. */
  lemma {:induction false} AndMask(a: nat, n: nat)
    ensures And(a, Pow2(n) - 1) == a % Pow2(n)
    decreases n
  {
    hide And;
    if n == 0 {
      AndZero(a);
    } else {
      AndMask(a / 2, n - 1);
      var p := Pow2(n - 1);
      assert Pow2(n) == 2 * p;
      MaskStep(a, p);
    }
  }

  lemma MaskStep(a: nat, p: nat)
    requires p > 0
    ensures And(a, 2 * p - 1) == a % 2 + 2 * And(a / 2, p - 1)
    ensures a % (2 * p) == a % 2 + 2 * (a / 2 % p)
  {
    assert (2 * p - 1) / 2 == p - 1 && (2 * p - 1) % 2 == 1;
    ModDouble(a, p);
  }

  /** Shifting right is dividing by a power of two. */
  lemma {:induction false} ShiftRightDivides(a: nat, n: nat)
    ensures ShiftRight(a, n) == a / Pow2(n)
    decreases n
  {
    if n > 0 {
      ShiftRightDivides(a / 2, n - 1);
      DivHalf(a, Pow2(n - 1));
    }
  }

  lemma ModDouble(a: nat, p: nat)
    requires p > 0
    ensures a % (2 * p) == a % 2 + 2 * (a / 2 % p)
  {
    var q, r := a / 2 / p, a / 2 % p;
    assert a / 2 == r + p * q;
    MulDouble(p, q);
    DivModUnique(a, 2 * p, q, a % 2 + 2 * r);
  }

  lemma {:induction false} AndZero(a: nat)
    ensures And(a, 0) == 0
  {
    if a != 0 {
      AndZero(a / 2);
    }
  }
}
