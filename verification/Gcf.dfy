/** gcf, lcm and reduce_fraction of bindings/python/rad_util.py, on integers. */
module Gcf {
  datatype Fraction = Fraction(num: int, denom: int) | ZeroDivisionError

  /** Python's floor division and the remainder that goes with it. */
  function FloorDiv(a: int, b: int): int
    requires b != 0
  {
    if b > 0 then a / b else (-a) / (-b)
  }

  function FloorMod(a: int, b: int): int
    requires b != 0
  {
    if b > 0 then a % b else -((-a) % (-b))
  }

  lemma FloorDivMod(a: int, b: int)
    requires b != 0
    ensures a == b * FloorDiv(a, b) + FloorMod(a, b)
    ensures if b > 0 then 0 <= FloorMod(a, b) < b else b < FloorMod(a, b) <= 0
  {
    if b < 0 {
      var q, r := (-a) / (-b), (-a) % (-b);
      assert -a == (-b) * q + r;
      assert (-b) * q == -(b * q);
    }
  }

  ghost predicate Times(d: int, k: int, a: int) { a == d * k }

  ghost predicate Divides(d: int, a: int) { exists k :: Times(d, k, a) }

  /** The non-negative common divisor that every common divisor divides. */
  ghost predicate IsGcd(g: int, a: int, b: int) {
    && g >= 0 && Divides(g, a) && Divides(g, b)
    && forall d :: Divides(d, a) && Divides(d, b) ==> Divides(d, g)
  }

  ghost predicate Combination(g: int, a: int, x: int, b: int, y: int) { g == a * x + b * y }

  // ----- divisibility -----

  lemma DividesCombination(d: int, a: int, b: int, g: int, x: int, y: int)
    requires Divides(d, a) && Divides(d, b) && Combination(g, a, x, b, y)
    ensures Divides(d, g)
  {
    var k :| Times(d, k, a);
    var m :| Times(d, m, b);
    assert a * x == d * (k * x) && b * y == d * (m * y);
    assert d * (k * x) + d * (m * y) == d * (k * x + m * y);
    assert Times(d, k * x + m * y, g);
  }

  lemma DividesNeg(d: int, a: int)
    requires Divides(d, a)
    ensures Divides(d, -a) && Divides(-d, a)
  {
    var k :| Times(d, k, a);
    assert d * (-k) == -a && (-d) * (-k) == a;
    assert Times(d, -k, -a) && Times(-d, -k, a);
  }

  lemma DividesSelfAndZero(d: int)
    ensures Divides(d, d) && Divides(d, 0)
  {
    assert Times(d, 1, d) && Times(d, 0, 0);
  }

  /** The Euclidean loop, with floor remainders for either sign. */
  method Gcf(a: int, b: int) returns (r: int)
    ensures IsGcd(r, a, b)
    ensures exists x, y :: Combination(r, a, x, b, y)
  {
    var result, remainder := if a >= b then a else b, if a >= b then b else a;
    ghost var x0, y0, x1, y1 := if a >= b then 1 else 0, if a >= b then 0 else 1,
                                if a >= b then 0 else 1, if a >= b then 1 else 0;
    while remainder != 0
      invariant Combination(result, a, x0, b, y0) && Combination(remainder, a, x1, b, y1)
      invariant forall d :: Divides(d, result) && Divides(d, remainder) ==> Divides(d, a) && Divides(d, b)
      decreases if remainder < 0 then -remainder else remainder
    {
      var newRemainder := FloorMod(result, remainder);
      ghost var q := FloorDiv(result, remainder);
      FloorDivMod(result, remainder);
      NextCombination(result, remainder, newRemainder, q, a, b, x0, y0, x1, y1);
      forall d | Divides(d, remainder) && Divides(d, newRemainder) ensures Divides(d, result) {
        assert Combination(result, remainder, q, newRemainder, 1);
        DividesCombination(d, remainder, newRemainder, result, q, 1);
      }
      x0, y0, x1, y1 := x1, y1, x0 - q * x1, y0 - q * y1;
      result := remainder;
      remainder := newRemainder;
    }
    DividesSelfAndZero(result);
    r := if result < 0 then -result else result;
    AbsoluteGcd(a, b, result, x0, y0);
  }

  lemma NextCombination(r0: int, r1: int, r2: int, q: int, a: int, b: int, x0: int, y0: int, x1: int, y1: int)
    requires r0 == r1 * q + r2 && Combination(r0, a, x0, b, y0) && Combination(r1, a, x1, b, y1)
    ensures Combination(r2, a, x0 - q * x1, b, y0 - q * y1)
  {
    assert r1 * q == (a * x1 + b * y1) * q == a * (q * x1) + b * (q * y1);
    assert a * (x0 - q * x1) == a * x0 - a * (q * x1) && b * (y0 - q * y1) == b * y0 - b * (q * y1);
  }

  /** Taking the absolute value at the end. */
  lemma AbsoluteGcd(a: int, b: int, g: int, x: int, y: int)
    requires Combination(g, a, x, b, y) && Divides(g, a) && Divides(g, b)
    ensures var r := if g < 0 then -g else g;
      IsGcd(r, a, b) && exists u, v :: Combination(r, a, u, b, v)
  {
    var s := if g < 0 then -1 else 1;
    var r := if g < 0 then -g else g;
    assert a * (s * x) == s * (a * x) && b * (s * y) == s * (b * y);
    assert Combination(r, a, s * x, b, s * y);
    DividesNeg(g, a);
    DividesNeg(g, b);
    forall d | Divides(d, a) && Divides(d, b) ensures Divides(d, r) {
      DividesCombination(d, a, b, r, s * x, s * y);
    }
  }

  // ----- lcm -----

  method Lcm(a: int, b: int) returns (r: int)
    ensures a == 0 && b == 0 ==> r == 0
    ensures exists g :: IsGcd(g, a, b) && r * g == a * b
    ensures Divides(a, r) && Divides(b, r)
    ensures forall m :: Divides(a, m) && Divides(b, m) ==> Divides(r, m)
  {
    var denom := Gcf(a, b);
    if denom == 0 {
      r := 0;
      ghost var k :| Times(denom, k, a);
      ghost var m :| Times(denom, m, b);
      DividesSelfAndZero(0);
    } else {
      r := a * FloorDiv(b, denom);
      ghost var x, y :| Combination(denom, a, x, b, y);
      LcmFacts(a, b, denom, x, y, r);
    }
  }

  lemma ExactDiv(b: int, g: int)
    requires g > 0 && Divides(g, b)
    ensures b == g * FloorDiv(b, g)
  {
    var k :| Times(g, k, b);
    assert FloorMod(b, g) == 0 by {
      FloorDivMod(b, g);
      assert FloorMod(b, g) == g * (k - FloorDiv(b, g));
      MultipleBelow(g, k - FloorDiv(b, g));
    }
    FloorDivMod(b, g);
  }

  lemma MultipleBelow(g: int, k: int)
    requires g > 0 && 0 <= g * k < g
    ensures g * k == 0
  {
    Stretches(g, k);
    Stretches(g, -k);
    assert g * (-k) == -(g * k);
  }

  lemma Stretches(g: int, k: int)
    requires g > 0
    ensures k >= 1 ==> g * k >= g
  {
    if k >= 1 {
      assert g * k == g * (k - 1) + g;
      assert g * (k - 1) >= 0;
    }
  }

  lemma LcmFacts(a: int, b: int, g: int, x: int, y: int, r: int)
    requires g > 0 && IsGcd(g, a, b) && Combination(g, a, x, b, y) && r == a * FloorDiv(b, g)
    ensures r * g == a * b && Divides(a, r) && Divides(b, r)
    ensures forall m :: Divides(a, m) && Divides(b, m) ==> Divides(r, m)
  {
    var q := FloorDiv(b, g);
    ExactDiv(b, g);
    assert r * g == a * (q * g) == a * b;
    assert Times(a, q, r);
    var p :| Times(g, p, a);
    assert r == (g * p) * q == b * p;
    assert Times(b, p, r);
    forall m | Divides(a, m) && Divides(b, m) ensures Divides(r, m) {
      var s :| Times(a, s, m);
      var t :| Times(b, t, m);
      CommonMultiple(a, b, g, x, y, r, p, q, m, s, t);
    }
  }

  /** g*m = (a*x + b*y)*m is a multiple of a*b = r*g, so m is a multiple of r. */
  lemma CommonMultiple(a: int, b: int, g: int, x: int, y: int, r: int, p: int, q: int, m: int, s: int, t: int)
    requires g > 0 && g == a * x + b * y && a == g * p && b == g * q && r == a * q && m == a * s && m == b * t
    ensures Divides(r, m)
  {
    var k := x * t + y * s;
    assert m * g == m * (a * x) + m * (b * y);
    assert m * (a * x) == (b * t) * (a * x) == (a * b) * (x * t);
    assert m * (b * y) == (a * s) * (b * y) == (a * b) * (y * s);
    assert m * g == (a * b) * k;
    assert a * b == r * g;
    assert (a * b) * k == (r * k) * g;
    CancelPositive(m, r * k, g);
    assert Times(r, k, m);
  }

  lemma CancelPositive(u: int, v: int, g: int)
    requires g > 0 && u * g == v * g
    ensures u == v
  {
    Stretches(g, u - v);
    Stretches(g, v - u);
    assert g * (u - v) == 0 && g * (v - u) == 0;
  }

  // ----- reduce_fraction -----

  /** An equal fraction in lowest terms; 0/0 is the one input that divides by zero. */
  method ReduceFraction(num: int, denom: int) returns (r: Fraction)
    ensures r == ZeroDivisionError <==> num == 0 && denom == 0
    ensures r.Fraction? ==> IsGcd(1, r.num, r.denom) && r.num * denom == num * r.denom
    ensures r.Fraction? ==> exists g :: g > 0 && num == g * r.num && denom == g * r.denom
  {
    var commonFactor := Gcf(num, denom);
    if commonFactor == 0 {
      ghost var k :| Times(0, k, num);
      ghost var m :| Times(0, m, denom);
      return ZeroDivisionError;
    }
    r := Fraction(FloorDiv(num, commonFactor), FloorDiv(denom, commonFactor));
    ghost var x, y :| Combination(commonFactor, num, x, denom, y);
    ExactDiv(num, commonFactor);
    ExactDiv(denom, commonFactor);
    Coprime(num, denom, commonFactor, x, y, r.num, r.denom);
  }

  lemma Coprime(a: int, b: int, g: int, x: int, y: int, p: int, q: int)
    requires g > 0 && Combination(g, a, x, b, y) && a == g * p && b == g * q
    ensures IsGcd(1, p, q) && p * b == a * q && (a != 0 || b != 0)
  {
    assert g == g * (p * x + q * y);
    CancelPositive(1, p * x + q * y, g);
    assert Combination(1, p, x, q, y);
    assert Times(1, p, p) && Times(1, q, q);
    forall d | Divides(d, p) && Divides(d, q) ensures Divides(d, 1) {
      DividesCombination(d, p, q, 1, x, y);
    }
    assert p * (g * q) == (g * p) * q;
  }
}
