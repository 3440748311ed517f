/** Products and quotients of reals, kept behind named functions so that the
    solver reasons about them through the small facts below rather than
    through its incomplete nonlinear arithmetic. */
module RealArith {

  function Mul(a: real, b: real): real
  {
    a * b
  }

  function Div(a: real, b: real): real
    requires b != 0.0
  {
    a / b
  }

  lemma MulPositive(a: real, b: real)
    requires a > 0.0 && b > 0.0
    ensures Mul(a, b) > 0.0
  {
  }

  lemma MulNegatives(a: real, b: real)
    requires a < 0.0 && b < 0.0
    ensures Mul(a, b) > 0.0
  {
  }

  lemma MulMonotone(a: real, b: real, c: real)
    requires a >= 0.0 && b <= c
    ensures Mul(a, b) <= Mul(a, c)
  {
  }

  lemma MulMonotoneLeft(a: real, b: real, c: real)
    requires c >= 0.0 && a <= b
    ensures Mul(a, c) <= Mul(b, c)
  {
  }

  /** A non-negative product with a positive factor is zero only when the
      other factor is. */
  lemma MulPositiveCancel(a: real, b: real)
    requires b > 0.0 && Mul(a, b) == 0.0
    ensures a == 0.0
  {
  }

  /** Products with a positive common factor are ordered as their
      cofactors. */
  lemma MulCancelLe(a: real, c: real, b: real)
    requires b > 0.0 && Mul(a, b) <= Mul(c, b)
    ensures a <= c
  {
  }

  /** Equal products with a positive common factor have equal cofactors. */
  lemma MulRightCancel(a: real, c: real, b: real)
    requires b > 0.0 && Mul(a, b) == Mul(c, b)
    ensures a == c
  {
  }

  lemma MulAntitone(a: real, b: real, c: real)
    requires a <= 0.0 && b <= c
    ensures Mul(a, c) <= Mul(a, b)
  {
  }

  lemma MulNonnegative(a: real, b: real)
    requires a >= 0.0 && b >= 0.0
    ensures Mul(a, b) >= 0.0
  {
  }

  /** A quotient recovers its dividend when multiplied back. */
  lemma DivCancel(a: real, b: real)
    requires b != 0.0
    ensures Mul(Div(a, b), b) == a
  {
  }

  /** Dividing by a positive number keeps order and sign. */
  lemma DivMonotone(a: real, c: real, b: real)
    requires b > 0.0 && a <= c
    ensures Div(a, b) <= Div(c, b)
    ensures a < c ==> Div(a, b) < Div(c, b)
  {
  }

  /** A quotient of 0 <= a <= b by b lies in [0, 1], strictly below 1 when
      a < b. */
  lemma DivUnit(a: real, b: real)
    requires b > 0.0 && 0.0 <= a <= b
    ensures 0.0 <= Div(a, b) <= 1.0
    ensures a < b ==> Div(a, b) < 1.0
  {
    DivMonotone(0.0, a, b);
    DivMonotone(a, b, b);
    DivOfProduct(1.0, b, b);
  }

  /** A product divided by one factor gives the other. */
  lemma DivOfProduct(a: real, b: real, c: real)
    requires b != 0.0 && Mul(a, b) == c
    ensures Div(c, b) == a
  {
  }

  /** Only a zero dividend gives a zero quotient. */
  lemma DivZero(a: real, b: real)
    requires b != 0.0
    ensures Div(a, b) == 0.0 <==> a == 0.0
  {
    DivCancel(a, b);
  }

  lemma MulRotate(a: real, b: real, c: real)
    ensures Mul(a, Mul(b, c)) == Mul(Mul(b, a), c)
  {
  }

  function Abs(x: real): real
  {
    if x < 0.0 then -x else x
  }

  /** Scaling by a non-negative factor scales the absolute value. */
  lemma AbsScale(k: real, d: real)
    requires k >= 0.0
    ensures Abs(-Mul(k, d)) == Mul(k, Abs(d))
  {
    if d >= 0.0 {
      MulNonnegative(k, d);
    } else {
      MulMonotone(k, d, 0.0);
      assert Mul(k, Abs(d)) == -Mul(k, d);
    }
  }

  /** The n-th power of x. */
  function Pow(x: real, n: nat): real
  {
    if n == 0 then 1.0 else Mul(x, Pow(x, n - 1))
  }

  lemma {:induction false} PowUnit(k: real, n: nat)
    requires 0.0 <= k <= 1.0
    ensures 0.0 <= Pow(k, n) <= 1.0
  {
    if n > 0 {
      PowUnit(k, n - 1);
      MulNonnegative(k, Pow(k, n - 1));
      MulMonotone(Pow(k, n - 1), k, 1.0);
    }
  }

  /** Powers of a factor in [0, 1] do not grow with the exponent. */
  lemma {:induction false} PowAntitone(k: real, m: nat, n: nat)
    requires 0.0 <= k <= 1.0 && m <= n
    ensures Pow(k, n) <= Pow(k, m)
    decreases n
  {
    if m < n {
      PowAntitone(k, m, n - 1);
      PowUnit(k, n - 1);
      MulMonotone(Pow(k, n - 1), k, 1.0);
    }
  }

  lemma PowStep(k: real, m: nat, a: real)
    ensures Mul(Pow(k, m), Mul(k, a)) == Mul(Pow(k, m + 1), a)
  {
    MulRotate(Pow(k, m), k, a);
  }

  /** Exponents add under multiplication. */
  lemma {:induction false} PowAdd(k: real, m: nat, n: nat)
    ensures Pow(k, m + n) == Mul(Pow(k, m), Pow(k, n))
    decreases m
  {
    if m > 0 {
      PowAdd(k, m - 1, n);
      MulRotate(k, Pow(k, m - 1), Pow(k, n));
    }
  }
}
