/**
 * Powers of a fraction p = 1/q and of its complement 1 - p, cleared of their
 * denominator q: the exact rational arithmetic behind the binomial weights.
 *
 * The powers are passed to these lemmas by name (x == PowR(a, e) and so on),
 * so that every product the solver sees is a product of plain variables.
 */
module Fractions {
  import opened Arith

  /** One step of PowR: b ** e == b ** (e - 1) * b. */
  lemma {:induction false} PowRStep(b: real, e: nat, x: real, x1: real)
    requires e >= 1 && x == PowR(b, e) && x1 == PowR(b, e - 1)
    ensures x == x1 * b
  {
  }

  /** Powers with the same exponent multiply base by base: a ** e * b ** e == (a * b) ** e. */
  lemma {:induction false} PowRMul(a: real, b: real, c: real, e: nat, x: real, y: real, z: real)
    requires c == a * b && x == PowR(a, e) && y == PowR(b, e) && z == PowR(c, e)
    ensures x * y == z
    decreases e
  {
    if e == 0 {
      assert x == 1.0 && y == 1.0 && z == 1.0;
    } else {
      var x1, y1, z1 := PowR(a, e - 1), PowR(b, e - 1), PowR(c, e - 1);
      PowRMul(a, b, c, e - 1, x1, y1, z1);
      PowRStep(a, e, x, x1);
      PowRStep(b, e, y, y1);
      PowRStep(c, e, z, z1);
      MulStep(x1, a, y1, b, z1, c, x, y, z);
    }
  }

  /** One more factor on each side of x * y == z. */
  lemma {:induction false} MulStep(x: real, a: real, y: real, b: real, z: real, c: real, xa: real, yb: real, zc: real)
    requires x * y == z && c == a * b && xa == x * a && yb == y * b && zc == z * c
    ensures xa * yb == zc
  {
    assert (x * a) * (y * b) == (x * y) * (a * b);
  }

  /** Powers of one base add their exponents: b ** e1 * b ** e2 == b ** (e1 + e2). */
  lemma {:induction false} PowRAdd(b: real, e1: nat, e2: nat, e: nat, x: real, y: real, z: real)
    requires e == e1 + e2 && x == PowR(b, e1) && y == PowR(b, e2) && z == PowR(b, e)
    ensures x * y == z
    decreases e2
  {
    if e2 == 0 {
      assert y == 1.0 && z == x;
    } else {
      var y1, z1 := PowR(b, e2 - 1), PowR(b, e - 1);
      PowRAdd(b, e1, e2 - 1, e - 1, x, y1, z1);
      PowRStep(b, e2, y, y1);
      PowRStep(b, e, z, z1);
      AssocStep(x, y1, b, z1, y, z);
    }
  }

  /** x * (y * b) == z * b when x * y == z. */
  lemma {:induction false} AssocStep(x: real, y: real, b: real, z: real, yb: real, zb: real)
    requires x * y == z && yb == y * b && zb == z * b
    ensures x * yb == zb
  {
  }

  /** p ** o * q ** o == 1 when p * q == 1. */
  lemma {:induction false} InversePower(q: real, p: real, o: nat, a: real, s: real)
    requires p * q == 1.0 && a == PowR(p, o) && s == PowR(q, o)
    ensures a * s == 1.0
  {
    PowROne(o);
    PowRMul(p, q, 1.0, o, a, s, PowR(1.0, o));
  }

  /** (1 - p) ** m * q ** m == (q - 1) ** m when p * q == 1. */
  lemma {:induction false} ComplementPower(q: real, p: real, m: nat, a: real, s: real, z: real)
    requires p * q == 1.0 && a == PowR(1.0 - p, m) && s == PowR(q, m) && z == PowR(q - 1.0, m)
    ensures a * s == z
  {
    PowRMul(1.0 - p, q, q - 1.0, m, a, s, z);
  }

  /**
   * The chance m = a * f = p ** o * (1 - p) ** (n - o) of one arrangement of o
   * successes among n dice, times s = q ** n, is z = (q - 1) ** (n - o) when
   * p * q == 1.
   */
  lemma {:induction false} PowersCleared(n: nat, o: nat, q: real, p: real, a: real, f: real, m: real, s: real, z: real)
    requires o <= n && p * q == 1.0 && m == a * f
    requires a == PowR(p, o) && f == PowR(1.0 - p, n - o) && s == PowR(q, n) && z == PowR(q - 1.0, n - o)
    ensures m * s == z
  {
    var so, sr := PowR(q, o), PowR(q, n - o);
    InversePower(q, p, o, a, so);
    ComplementPower(q, p, n - o, f, sr, z);
    PowRAdd(q, o, n - o, n, so, sr, s);
    Combine(a, f, m, so, z, sr, s);
  }

  /** m = x * y scaled by s = s1 * s2, where x * s1 == 1 and y * s2 == a, is a. */
  lemma {:induction false} Combine(x: real, y: real, m: real, s1: real, a: real, s2: real, s: real)
    requires x * s1 == 1.0 && y * s2 == a && s1 * s2 == s && m == x * y
    ensures m * s == a
  {
    assert (x * y) * (s1 * s2) == (x * s1) * (y * s2);
  }

  /** b * z = C(n, o) * r ** (n - o), with r the integer y read as a real, is t = BinomTerm(n, y, o) read as a real. */
  lemma {:induction false} TermReal(n: nat, o: nat, y: int, r: real, b: real, z: real, t: real)
    requires o <= n && r == y as real
    requires b == Binom(n, o) as real && z == PowR(r, n - o) && t == BinomTerm(n, y, o) as real
    ensures b * z == t
  {
    PowCast(y, n - o);
    CastProduct(Binom(n, o), Pow(y, n - o), b, z, BinomTerm(n, y, o), t);
  }

  /** A product of integers read as a real is the product of the reals. */
  lemma {:induction false} CastProduct(x: int, y: int, b: real, r: real, i: int, t: real)
    requires b == x as real && r == y as real && i == x * y && t == i as real
    ensures b * r == t
  {
  }
}
