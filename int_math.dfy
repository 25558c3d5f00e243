/**
 * Integer facts the rational arithmetic rests on, and a model of Python's
 * `math.gcd`: the greatest common divisor of the absolute values of its
 * arguments, never negative, with gcd(0, 0) == 0.
 *
 * Divisibility is written `x % k == 0` for a positive `k`; Dafny's `%` is
 * Euclidean, so this is the usual "k divides x" for negative `x` too.
 */
module IntMath {

  function Abs(x: int): nat
  {
    if x < 0 then -x else x
  }

  /**
   * math.gcd(a, b), computed by Euclid's algorithm: it is 0 only for (0, 0).
   */
  function Gcd(a: int, b: int): (g: nat)
    ensures g == 0 <==> a == 0 && b == 0
    decreases Abs(b)
  {
    if b == 0 then Abs(a) else Gcd(b, a % b)
  }

  lemma AbsMul(a: int, b: int)
    ensures Abs(a * b) == Abs(a) * Abs(b)
  {
    if a < 0 && b < 0 {
      assert a * b == (-a) * (-b);
    } else if a < 0 {
      assert -(a * b) == (-a) * b;
    } else if b < 0 {
      assert -(a * b) == a * (-b);
    }
  }

  lemma MulAbsAtLeast(b: int, m: int)
    requires m != 0
    ensures Abs(b * m) >= Abs(b)
  {
    AbsMul(b, m);
    var p, q := Abs(b), Abs(m);
    assert p * q == p * (q - 1) + p;
    assert p * (q - 1) >= 0;
  }

  /** Quotient and remainder are unique: any decomposition with an in-range remainder is Dafny's. */
  lemma DivModUnique(a: int, b: int, q: int, r: int)
    requires b != 0
    requires a == b * q + r
    requires 0 <= r < Abs(b)
    ensures a / b == q && a % b == r
  {
    var q0, r0 := a / b, a % b;
    assert b * q0 + r0 == a;
    assert b * (q - q0) == r0 - r;
    if q != q0 {
      MulAbsAtLeast(b, q - q0);
      assert false;
    }
  }

  /** k divides x exactly when x is k times its quotient. */
  lemma DividesMul(x: int, k: int)
    requires k > 0
    ensures x % k == 0 <==> x == k * (x / k)
  {
  }

  lemma MulDivides(k: int, m: int)
    requires k > 0
    ensures (k * m) % k == 0 && (k * m) / k == m
  {
    DivModUnique(k * m, k, m, 0);
  }

  /** A divisor of n + k*d and of d divides n. */
  lemma DividesDifference(n: int, d: int, k: int, g: int)
    requires g > 0 && (n + k * d) % g == 0 && d % g == 0
    ensures n % g == 0
  {
    var m := n + k * d;
    DividesMul(m, g);
    DividesMul(d, g);
    assert n == g * (m / g - k * (d / g)) by {
      assert k * d == g * (k * (d / g));
    }
    MulDivides(g, m / g - k * (d / g));
  }

  /** math.gcd(a, b) divides both a and b. */
  lemma {:induction false} GcdDivides(a: int, b: int)
    requires a != 0 || b != 0
    ensures Gcd(a, b) > 0
    ensures a % Gcd(a, b) == 0 && b % Gcd(a, b) == 0
    decreases Abs(b)
  {
    var g := Gcd(a, b);
    if b == 0 {
      var sign: int := if a < 0 then -1 else 1;
      assert a == g * sign;
      MulDivides(g, sign);
    } else {
      var r := a % b;
      GcdDivides(b, r);
      assert g == Gcd(b, r);
      var q := a / b;
      assert a == b * q + r;
      var bq, rq := b / g, r / g;
      DividesMul(b, g);
      DividesMul(r, g);
      Factor(a, b, r, q, g, bq, rq);
      MulDivides(g, bq * q + rq);
    }
  }

  /** Every positive common divisor of a and b divides math.gcd(a, b): it is the greatest one. */
  lemma {:induction false} GcdGreatest(a: int, b: int, k: int)
    requires k > 0 && a % k == 0 && b % k == 0
    ensures Gcd(a, b) % k == 0
    decreases Abs(b)
  {
    if b == 0 {
      assert a == k * (a / k);
      if a < 0 {
        assert -a == k * (-(a / k));
        MulDivides(k, -(a / k));
      }
    } else {
      var r := a % b;
      var q := a / b;
      assert a == k * (a / k) && b == k * (b / k);
      assert r == k * (a / k - (b / k) * q) by {
        assert r == a - b * q;
        assert b * q == k * ((b / k) * q);
      }
      MulDivides(k, a / k - (b / k) * q);
      GcdGreatest(b, r, k);
    }
  }

  lemma ModScale(a: int, b: int, k: int)
    requires k > 0 && b != 0
    ensures (k * a) % (k * b) == k * (a % b)
  {
    var q, r := a / b, a % b;
    assert a == b * q + r;
    assert k * a == (k * b) * q + k * r by {
      assert k * (b * q + r) == (k * b) * q + k * r;
    }
    AbsMul(k, b);
    assert k * Abs(b) - k * r == k * (Abs(b) - r);
    assert k * (Abs(b) - r) > 0;
    DivModUnique(k * a, k * b, q, k * r);
  }

  /** Scaling both arguments by a positive k scales their gcd by k. */
  lemma {:induction false} GcdScale(a: int, b: int, k: int)
    requires k > 0
    ensures Gcd(k * a, k * b) == k * Gcd(a, b)
    decreases Abs(b)
  {
    if b == 0 {
      assert k * b == 0;
      AbsMul(k, a);
    } else {
      assert k * b != 0;
      ModScale(a, b, k);
      GcdScale(b, a % b, k);
    }
  }

  lemma Factor(a: int, b: int, r: int, q: int, g: int, bq: int, rq: int)
    requires a == b * q + r && b == g * bq && r == g * rq
    ensures a == g * (bq * q + rq)
  {
    assert b * q == g * (bq * q);
  }

  lemma MulNonNegative(x: int, y: int)
    requires x >= 0 && y >= 0
    ensures x * y >= 0
  {
  }

  /** A positive multiple h * p of a positive h is at least h. */
  lemma MultipleAtLeast(h: int, p: int)
    requires h > 0 && h * p > 0
    ensures p > 0 && h * p >= h
  {
    if p <= 0 {
      MulNonNegative(h, -p);
      assert false;
    } else {
      MulNonNegative(h, p - 1);
      assert h * p == h * (p - 1) + h;
    }
  }

  /** Two positive numbers that divide each other are equal. */
  lemma MutualDivision(g: int, h: int)
    requires g > 0 && h > 0 && g % h == 0 && h % g == 0
    ensures g == h
  {
    DividesMul(g, h);
    DividesMul(h, g);
    MultipleAtLeast(h, g / h);
    MultipleAtLeast(g, h / g);
  }

  lemma NegDivides(x: int, k: int)
    requires k > 0 && x % k == 0
    ensures (-x) % k == 0
  {
    assert x == k * (x / k);
    MulDivides(k, -(x / k));
  }

  /** math.gcd ignores signs. */
  lemma GcdNegate(a: int, b: int)
    ensures Gcd(-a, -b) == Gcd(a, b)
  {
    if a != 0 || b != 0 {
      GcdDivides(a, b);
      GcdDivides(-a, -b);
      var g, h := Gcd(a, b), Gcd(-a, -b);
      NegDivides(a, g);
      NegDivides(b, g);
      NegDivides(-a, h);
      NegDivides(-b, h);
      GcdGreatest(-a, -b, g);
      GcdGreatest(a, b, h);
      MutualDivision(g, h);
    }
  }

  lemma AbsDivides(x: int, k: int)
    requires k > 0
    ensures x % k == 0 <==> Abs(x) % k == 0
  {
    if x < 0 {
      if x % k == 0 {
        NegDivides(x, k);
      }
      if Abs(x) % k == 0 {
        NegDivides(Abs(x), k);
      }
    }
  }

  /** math.gcd(a, b) is the gcd of |a| and |b|. */
  lemma GcdOfAbs(a: int, b: int)
    ensures Gcd(a, b) == Gcd(Abs(a), Abs(b))
  {
    if a != 0 || b != 0 {
      GcdDivides(a, b);
      GcdDivides(Abs(a), Abs(b));
      var g, h := Gcd(a, b), Gcd(Abs(a), Abs(b));
      AbsDivides(a, g);
      AbsDivides(b, g);
      AbsDivides(a, h);
      AbsDivides(b, h);
      GcdGreatest(Abs(a), Abs(b), g);
      GcdGreatest(a, b, h);
      MutualDivision(g, h);
    }
  }

  /** Any non-zero k: Gcd(k*a, k*b) == |k| * Gcd(a, b). */
  lemma GcdScaleAbs(a: int, b: int, k: int)
    requires k != 0
    ensures Gcd(k * a, k * b) == Abs(k) * Gcd(a, b)
  {
    if k > 0 {
      GcdScale(a, b, k);
    } else {
      var na, nb, nk := -a, -b, -k;
      GcdScale(na, nb, nk);
      GcdNegate(a, b);
      NegProduct(k, a);
      NegProduct(k, b);
      assert k * a == nk * na && k * b == nk * nb;
      assert Abs(k) == nk;
    }
  }

  lemma NegProduct(k: int, x: int)
    ensures (-k) * (-x) == k * x
  {
  }

  /** Dividing a and b by their gcd leaves two coprime numbers. */
  lemma GcdOfQuotients(a: int, b: int)
    requires a != 0 || b != 0
    ensures Gcd(a, b) > 0
    ensures Gcd(a / Gcd(a, b), b / Gcd(a, b)) == 1
  {
    GcdDivides(a, b);
    var g := Gcd(a, b);
    var x, y := a / g, b / g;
    DividesMul(a, g);
    DividesMul(b, g);
    GcdScale(x, y, g);
    assert Gcd(a, b) == Gcd(g * x, g * y);
    UnitFactor(g, Gcd(x, y));
  }

  lemma UnitFactor(g: int, c: int)
    requires g > 0 && g * c == g
    ensures c == 1
  {
    assert g * (c - 1) == 0;
  }
}
