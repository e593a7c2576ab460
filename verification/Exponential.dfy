/** The exponential function, given by its laws. */
module Exponential {

  /** The two laws that single out the exponential function among all functions on the reals. */
  ghost predicate IsExp(exp: real -> real) {
    && (forall x, y :: exp(x + y) == exp(x) * exp(y))
    && (forall x :: exp(x) >= 1.0 + x)
  }

  lemma ExpOfZero(exp: real -> real)
    requires IsExp(exp)
    ensures exp(0.0) == 1.0
  {
    var e := exp(0.0);
    assert exp(0.0 + 0.0) == e * e;
    assert e >= 1.0 + 0.0;
    assert e * (e - 1.0) == 0.0;
  }

  lemma ExpPositive(exp: real -> real, x: real)
    requires IsExp(exp)
    ensures exp(x) > 0.0
  {
    var h := exp(x / 2.0);
    assert x / 2.0 + x / 2.0 == x;
    assert exp(x) == h * h >= 0.0;
    ExpOfZero(exp);
    assert exp(x + (-x)) == exp(x) * exp(-x);
    assert x + (-x) == 0.0;
  }

  lemma ExpMonotone(exp: real -> real, x: real, y: real)
    requires IsExp(exp) && x <= y
    ensures exp(x) <= exp(y)
  {
    ExpPositive(exp, x);
    var step := exp(y - x);
    assert step >= 1.0 + (y - x) >= 1.0;
    ProductNonNegative(exp(x), step - 1.0);
    assert exp(x + (y - x)) == exp(x) * step;
    assert x + (y - x) == y;
  }

  lemma ProductNonNegative(x: real, y: real)
    requires x >= 0.0 && y >= 0.0
    ensures x * y >= 0.0
  {}

  lemma ProductGrows(x: real, y: real, z: real)
    requires x <= y && z >= 0.0
    ensures x * z <= y * z
  {}

  lemma ProductGrowsStrictly(x: real, y: real, z: real)
    requires x < y && z > 0.0
    ensures x * z < y * z
  {}

  lemma ExpInverse(exp: real -> real, x: real)
    requires IsExp(exp)
    ensures exp(-x) * exp(x) == 1.0 && exp(-x) > 0.0 && exp(x) > 0.0
  {
    ExpPositive(exp, x);
    ExpPositive(exp, -x);
    ExpOfZero(exp);
    assert exp(-x + x) == exp(-x) * exp(x);
    assert -x + x == 0.0;
  }

  lemma ExpMinusOne(exp: real -> real)
    requires IsExp(exp)
    ensures 0.0 < exp(-1.0) <= 0.5
  {
    ExpPositive(exp, -1.0);
    ExpOfZero(exp);
    assert exp(1.0) >= 2.0;
    assert exp(1.0 + -1.0) == exp(1.0) * exp(-1.0);
    ProductNonNegative(exp(1.0) - 2.0, exp(-1.0));
  }

  lemma ExpSum(exp: real -> real, x: real, y: real, a: real, b: real)
    requires IsExp(exp) && exp(x) <= a && exp(y) <= b
    ensures exp(x + y) <= a * b
  {
    ExpPositive(exp, x);
    ExpPositive(exp, y);
    ProductNonNegative(a - exp(x), b);
    ProductNonNegative(exp(x), b - exp(y));
  }

  lemma ExpMinusTen(exp: real -> real)
    requires IsExp(exp)
    ensures exp(-10.0) <= 1.0 / 1024.0
  {
    ExpMinusOne(exp);
    ExpSum(exp, -1.0, -1.0, 0.5, 0.5);
    ExpSum(exp, -2.0, -2.0, 0.25, 0.25);
    ExpSum(exp, -4.0, -4.0, 0.0625, 0.0625);
    ExpSum(exp, -8.0, -2.0, 0.0625 * 0.0625, 0.25);
  }
}
