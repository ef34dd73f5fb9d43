/** overflowCheck and checked_multiply of external/CLI/CLI11.hpp at any integer
    width, with the division of C++, which truncates toward zero. */
module Arithmetic {

  function Abs(x: int): (r: int)
    ensures r >= 0
  {
    if x < 0 then -x else x
  }

  /** Division of the source language. */
  function Quotient(a: int, b: int): int
    requires b != 0
  {
    if a >= 0 then (if b > 0 then a / b else -(a / -b)) else (if b > 0 then -(-a / b) else -a / -b)
  }

  /** The range of an integer type: unsigned if `min` is zero, else two's complement. */
  datatype IntType = IntType(min: int, max: int)

  predicate IsIntType(t: IntType) {
    t.max >= 0 && (t.min == 0 || t.min == -t.max - 1)
  }

  predicate Fits(t: IntType, x: int) {
    t.min <= x <= t.max
  }

  /** overflowCheck: the signed and the unsigned version.  The most negative value
      has no absolute value in its type, so it is not an operand. */
  predicate OverflowCheck(t: IntType, a: int, b: int)
    requires IsIntType(t) && a != 0 && a != t.min && b != t.min
  {
    if t.min == 0 then Quotient(t.max, a) < b
    else if (a > 0) == (b > 0) then Quotient(t.max, Abs(a)) < Abs(b)
    else Quotient(t.min, Abs(a)) > -Abs(b)
  }

  lemma DivideBound(m: nat, a: nat, b: nat)
    requires a > 0
    ensures m / a < b <==> m < a * b
  {
    var q := m / a;
    assert m == a * q + m % a;
    if q < b {
      assert a * (q + 1) <= a * b by { MulLe(a, q + 1, b); }
      assert a * (q + 1) == a * q + a;
    } else {
      MulLe(a, b, q);
    }
  }

  lemma MulLe(a: nat, x: int, y: int)
    requires x <= y
    ensures a * x <= a * y
  {
  }

  lemma AbsProduct(a: int, b: int)
    ensures Abs(a) * Abs(b) == Abs(a * b)
    ensures a != 0 && b != 0 ==> (a * b > 0 <==> ((a > 0) == (b > 0)))
  {
    if a >= 0 && b >= 0 {
    } else if a >= 0 {
      assert a * b == -(a * -b);
    } else if b >= 0 {
      assert a * b == -(-a * b);
    } else {
      assert a * b == -a * -b;
    }
  }

  /** The check is exact on all its operands. */
  lemma OverflowCheckExact(t: IntType, a: int, b: int)
    requires IsIntType(t) && Fits(t, a) && Fits(t, b) && a != 0 && b != 0 && a != t.min && b != t.min
    ensures OverflowCheck(t, a, b) <==> !Fits(t, a * b)
  {
    AbsProduct(a, b);
    DivideBound(t.max, Abs(a), Abs(b));
    if t.min != 0 {
      DivideBound(-t.min, Abs(a), Abs(b));
    }
  }

  /** checked_multiply: true exactly when the product is representable, which is
      then stored; otherwise the operand is left as it was. */
  method CheckedMultiply(t: IntType, a: int, b: int) returns (ok: bool, r: int)
    requires IsIntType(t) && Fits(t, a) && Fits(t, b)
    ensures ok <==> Fits(t, a * b)
    ensures r == if ok then a * b else a
  {
    r := a;
    if a == 0 || b == 0 || a == 1 || b == 1 {
      r := a * b;
      return true, r;
    }
    if a == t.min || b == t.min {
      MinimumOverflows(t, a, b);
      return false, r;
    }
    OverflowCheckExact(t, a, b);
    if OverflowCheck(t, a, b) {
      return false, r;
    }
    r := a * b;
    ok := true;
  }

  /** No product with the most negative value fits, other than by zero and one. */
  lemma MinimumOverflows(t: IntType, a: int, b: int)
    requires IsIntType(t) && Fits(t, a) && Fits(t, b) && (a == t.min || b == t.min)
    requires a != 0 && b != 0 && a != 1 && b != 1
    ensures !Fits(t, a * b)
  {
    if a == t.min {
      MinimumTimes(t, b);
    } else {
      MinimumTimes(t, a);
      assert a * b == b * a;
    }
  }

  lemma MinimumTimes(t: IntType, b: int)
    requires IsIntType(t) && t.min < 0 && b != 0 && b != 1
    ensures !Fits(t, t.min * b)
  {
    if b < 0 {
      MulLe(-t.min, 1, -b);
      assert t.min * b == -t.min * -b;
    } else {
      MulLe(-t.min, 2, b);
      assert t.min * b == -(-t.min * b);
    }
  }
}
