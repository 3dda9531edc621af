/** Greatest common divisors, as the argument permuter of getopt computes them. */
module Gcd {

  /** d is a common divisor of a and b. */
  predicate DividesBoth(d: int, a: int, b: int)
    requires d > 0
  {
    a % d == 0 && b % d == 0
  }

  /** d divides a and b, and every common divisor of a and b divides d. */
  ghost predicate IsGcd(d: int, a: int, b: int) {
    && d > 0
    && DividesBoth(d, a, b)
    && forall e :: e > 0 && DividesBoth(e, a, b) ==> d % e == 0
  }

  lemma MultipleMod(q: int, d: int)
    requires d > 0
    ensures (q * d) % d == 0 && (q * d) / d == q
  {
    var r := (q * d) % d;
    var p := (q * d) / d;
    assert q * d == d * p + r;
    assert (q - p) * d == r;
    assert q - p >= 1 ==> (q - p) * d >= d;
    assert q - p <= -1 ==> (q - p) * d <= -d;
  }

  /** Any integer combination of two multiples of d is a multiple of d. */
  lemma CombinationMod(x: int, a: int, y: int, b: int, d: int)
    requires d > 0 && DividesBoth(d, a, b)
    ensures (x * a + y * b) % d == 0
  {
    var p, q := a / d, b / d;
    assert a == p * d && b == q * d;
    assert x * a + y * b == (x * p + y * q) * d by {
      assert x * (p * d) == x * p * d;
      assert y * (q * d) == y * q * d;
    }
    MultipleMod(x * p + y * q, d);
  }

  /** One Euclidean step keeps the common divisors. */
  lemma EuclidStep(a: int, b: int, e: int)
    requires b > 0 && e > 0
    ensures DividesBoth(e, a, b) <==> DividesBoth(e, b, a % b)
  {
    var q, c := a / b, a % b;
    assert a == b * q + c;
    if DividesBoth(e, a, b) {
      CombinationMod(1, a, -q, b, e);
      assert c == 1 * a + (-q) * b;
    }
    if DividesBoth(e, b, c) {
      CombinationMod(q, b, 1, c, e);
      assert a == q * b + 1 * c;
    }
  }

  /** Euclid's loop. */
  method Compute(a0: int, b0: int) returns (d: int)
    requires a0 >= 0 && b0 > 0
    ensures IsGcd(d, a0, b0)
  {
    var a, b := a0, b0;
    var c := a % b;
    while c != 0
      invariant a >= 0 && b > 0 && c == a % b
      invariant forall e :: e > 0 ==> (DividesBoth(e, a, b) <==> DividesBoth(e, a0, b0))
      decreases b
    {
      forall e | e > 0
        ensures DividesBoth(e, b, c) <==> DividesBoth(e, a0, b0)
      {
        EuclidStep(a, b, e);
      }
      a := b;
      b := c;
      c := a % b;
    }
    MultipleMod(1, b);
    assert DividesBoth(b, a, b);
    d := b;
  }

  lemma {:induction false} Bezout(a: int, b: int) returns (x: int, y: int, g: int)
    requires a >= 0 && b > 0
    ensures g > 0 && DividesBoth(g, a, b) && g == x * a + y * b
    decreases b
  {
    var q, c := a / b, a % b;
    if c == 0 {
      x, y, g := 0, 1, b;
      MultipleMod(1, b);
    } else {
      var u, v;
      u, v, g := Bezout(b, c);
      EuclidStep(a, b, g);
      x, y := v, u - v * q;
      assert c == a - b * q;
      assert v * c == v * a - v * q * b;
      assert y * b == u * b - v * q * b;
    }
  }

  lemma DivisorBound(g: int, d: int)
    requires d > 0 && g > 0 && d % g == 0
    ensures g <= d
  {
  }

  /** The greatest common divisor is an integer combination of its arguments. */
  lemma GcdIsCombination(d: int, a: int, b: int) returns (x: int, y: int)
    requires a >= 0 && b > 0 && IsGcd(d, a, b)
    ensures d == x * a + y * b
  {
    var g;
    x, y, g := Bezout(a, b);
    CombinationMod(x, a, y, b, d);
    DivisorBound(g, d);
    DivisorBound(d, g);
  }
}
