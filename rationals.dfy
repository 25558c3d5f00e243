/**
 * The Rational type of main.py: a pair of integer fields n and d, reduced by
 * math.gcd when the object is built. Python's gcd is never negative, so
 * reduction never moves a sign: the denominator keeps the sign it was given
 * and -1/-2 stays -1/-2. Objects are never changed after construction, so a
 * Rational is a value here.
 *
 * The exact value of a Rational is a Dafny `real` (an exact rational number).
 */
module Rationals {
  import opened Wrappers
  import opened IntMath
  import opened Text

  /** A Rational object's two fields, `self.n` and `self.d`. */
  datatype Rational = Rational(n: int, d: int)

  /** The exceptions of the core. */
  datatype Error =
    | ZeroDenominator      // RationalValueError: "Denominator cannot be zero"
    | InvalidLiteral       // ValueError raised by int() on a malformed literal
    | MissingDenominator   // IndexError: a string without '/' has no parts[1]
    | UnsupportedOperand   // RationalValueError: an operand of the wrong kind for +
    | NotRational          // RationalValueError: a non-Rational stored in a RationalList
    | IndexOutOfRange      // IndexError raised by list indexing

  /** The errors an `except ValueError` clause catches (RationalValueError is a ValueError). */
  predicate IsValueError(e: Error): (b: bool)
    ensures b <==> !(e.MissingDenominator? || e.IndexOutOfRange?)
  {
    match e
    case ZeroDenominator | UnsupportedOperand | NotRational => true  // RationalValueError
    case InvalidLiteral => true                                      // ValueError
    case MissingDenominator | IndexOutOfRange => false               // IndexError
  }

  /** The run-time kinds of the right operand of `+` and `+=`, and of a stored value. */
  datatype Operand =
    | OInt(k: int)                      // an int
    | ORat(r: Rational)                 // a Rational
    | OList(elements: seq<Rational>)    // a RationalList, by its elements
    | OOther                            // anything else: a float, a str, None, ...

  /** What every constructed Rational satisfies: non-zero denominator, lowest terms. */
  predicate Reduced(r: Rational)
  {
    r.d != 0 && Gcd(r.n, r.d) == 1
  }

  predicate AllReduced(xs: seq<Rational>)
  {
    forall i | 0 <= i < |xs| :: Reduced(xs[i])
  }

  /** The operand holds only constructed Rationals. */
  predicate OperandReduced(o: Operand)
  {
    match o
    case ORat(x) => Reduced(x)
    case OList(xs) => AllReduced(xs)
    case _ => true
  }

  /** The exact value n / d. */
  function Value(r: Rational): real
    requires r.d != 0
  {
    r.n as real / r.d as real
  }

  lemma CrossMulValue(a: int, b: int, c: int, e: int)
    requires b != 0 && e != 0 && a * e == c * b
    ensures a as real / b as real == c as real / e as real
  {
    var A, B, C, E := a as real, b as real, c as real, e as real;
    assert A * E == C * B;
    assert A / B == (A * E) / (B * E);
    assert C / E == (C * B) / (E * B);
  }

  lemma SumValue(a: int, b: int, c: int, e: int)
    requires b != 0 && e != 0
    ensures (a * e + c * b) as real / (b * e) as real == a as real / b as real + c as real / e as real
  {
    var A, B, C, E := a as real, b as real, c as real, e as real;
    assert (a * e + c * b) as real == A * E + C * B;
    assert (b * e) as real == B * E;
    assert (A * E + C * B) / (B * E) == (A * E) / (B * E) + (C * B) / (B * E);
    assert (A * E) / (B * E) == A / B;
    assert (C * B) / (B * E) == C / E;
  }

  lemma QuotientFacts(a: int, b: int, g: int, x: int, y: int)
    requires g > 0 && a == g * x && b == g * y && b != 0
    ensures x * b == a * y
    ensures y != 0 && (y > 0 <==> b > 0)
  {
    if y <= 0 {
      MulNonNegative(g, -y);
      assert g * (-y) == -b;
    } else {
      MulNonNegative(g, y - 1);
      assert g * y == g * (y - 1) + g;
    }
  }

  /** `reduce`: both fields divided by math.gcd(n, d) with `//`; for a positive divisor `//` is Dafny's `/`. */
  function Reduce(r: Rational): (s: Rational)
    requires r.d != 0
    ensures Reduced(s)
    ensures s.n * r.d == r.n * s.d
    ensures Value(s) == Value(r)
    ensures (s.d > 0) == (r.d > 0)
    ensures Reduced(r) ==> s == r
  {
    GcdOfQuotients(r.n, r.d);
    GcdDivides(r.n, r.d);
    var g := Gcd(r.n, r.d);
    DividesMul(r.n, g);
    DividesMul(r.d, g);
    var s := Rational(r.n / g, r.d / g);
    QuotientFacts(r.n, r.d, g, s.n, s.d);
    CrossMulValue(s.n, s.d, r.n, r.d);
    s
  }

  /** `Rational(numerator, denominator)` with two ints: a zero denominator raises, anything else is reduced. */
  function FromParts(a: int, b: int): (r: Result<Rational, Error>)
    ensures r.Failure? <==> b == 0
    ensures r.Failure? ==> r.error == ZeroDenominator
    ensures r.Success? ==> Reduced(r.value) && r.value.n * b == a * r.value.d
    ensures r.Success? ==> (r.value.d > 0 <==> b > 0) && Value(r.value) == a as real / b as real
  {
    if b == 0 then Failure(ZeroDenominator) else Success(Reduce(Rational(a, b)))
  }

  /**
   * `__init__` with two ints, step by step: the zero check, the two field
   * assignments, then `reduce()` dividing each field by the gcd in place.
   */
  method Create(numerator: int, denominator: int) returns (r: Result<Rational, Error>)
    ensures r == FromParts(numerator, denominator)
  {
    if denominator == 0 {
      return Failure(ZeroDenominator);
    }
    var n, d := numerator, denominator;
    var commonDivisor := Gcd(n, d);
    n := n / commonDivisor;
    d := d / commonDivisor;
    r := Success(Rational(n, d));
  }

  /**
   * `__init__` with one string: `parts = s.split('/')`, then `int(parts[0])`
   * and `int(parts[1])`, left to right, then the two-int constructor. Parts
   * after the second are ignored.
   */
  function FromString(s: string): (r: Result<Rational, Error>)
    ensures r.Success? ==> Reduced(r.value)
    ensures var parts := Split(s, '/');
      r.Success? <==> |parts| >= 2 && ParseInt(parts[0]).Some? && ParseInt(parts[1]).Some? && ParseInt(parts[1]).value != 0
    ensures var parts := Split(s, '/');
      r.Success? ==> Value(r.value) == ParseInt(parts[0]).value as real / ParseInt(parts[1]).value as real
    ensures var parts := Split(s, '/');
      r.Success? ==> (r.value.d > 0 <==> ParseInt(parts[1]).value > 0)
    ensures r == Failure(MissingDenominator) <==> '/' !in s && ParseInt(s).Some?
    ensures r.Failure? ==> r.error in {ZeroDenominator, InvalidLiteral, MissingDenominator}
  {
    var parts := Split(s, '/');
    SplitPieces(s, '/');
    JoinSplit(s, '/');
    match ParseInt(parts[0])
    case None => Failure(InvalidLiteral)
    case Some(a) =>
      if |parts| < 2 then Failure(MissingDenominator)
      else
        match ParseInt(parts[1])
        case None => Failure(InvalidLiteral)
        case Some(b) => FromParts(a, b)
  }

  lemma ProductSign(a: int, b: int)
    requires a != 0 && b != 0
    ensures a * b != 0 && (a * b > 0 <==> (a > 0 <==> b > 0))
  {
    AbsMul(a, b);
    MulAbsAtLeast(a, b);
  }

  lemma IntSumValue(a: int, b: int, k: int)
    requires b != 0
    ensures (a + k * b) as real / b as real == a as real / b as real + k as real
  {
    var A, B, K := a as real, b as real, k as real;
    assert (a + k * b) as real == A + K * B;
    assert (A + K * B) / B == A / B + (K * B) / B;
  }

  /**
   * `__add__`: another Rational by cross-multiplying, an int k as (n + k*d)/d,
   * both through the two-int constructor; any other operand raises.
   */
  function Add(x: Rational, other: Operand): (r: Result<Rational, Error>)
    ensures (other.OList? || other.OOther?) ==> r == Failure(UnsupportedOperand)
    ensures other.ORat? && x.d != 0 && other.r.d != 0 ==>
      && r.Success? && Reduced(r.value)
      && Value(r.value) == Value(x) + Value(other.r)
      && (r.value.d > 0 <==> (x.d > 0 <==> other.r.d > 0))
    ensures other.OInt? && x.d != 0 ==>
      && r.Success? && Reduced(r.value)
      && Value(r.value) == Value(x) + other.k as real
      && (r.value.d > 0 <==> x.d > 0)
  {
    match other
    case ORat(y) =>
      if x.d != 0 && y.d != 0 then
        ProductSign(x.d, y.d);
        SumValue(x.n, x.d, y.n, y.d);
        FromParts(x.n * y.d + y.n * x.d, x.d * y.d)
      else FromParts(x.n * y.d + y.n * x.d, x.d * y.d)
    case OInt(k) =>
      if x.d != 0 then
        IntSumValue(x.n, x.d, k);
        FromParts(x.n + k * x.d, x.d)
      else FromParts(x.n + k * x.d, x.d)
    case _ => Failure(UnsupportedOperand)
  }

  /** `__radd__`, reached for `k + r` with an int k: the same as `r + k`. */
  function RAdd(x: Rational, other: Operand): (r: Result<Rational, Error>)
    ensures (other.OList? || other.OOther?) ==> r == Failure(UnsupportedOperand)
    ensures other.OInt? && x.d != 0 ==>
      r.Success? && Reduced(r.value) && Value(r.value) == other.k as real + Value(x)
    ensures other.OInt? && x.d != 0 ==> (r.value.d > 0 <==> x.d > 0)
    ensures other.OInt? && Reduced(x) ==> r == Success(Rational(x.n + other.k * x.d, x.d))
  {
    if other.OInt? && Reduced(x) then
      AddIntegerExact(x, other.k);
      Add(x, other)
    else Add(x, other)
  }

  // ---------------------------------------------------------------------
  // Properties of construction and addition
  // ---------------------------------------------------------------------

  lemma ValueCross(x: Rational, y: Rational)
    requires x.d != 0 && y.d != 0 && Value(x) == Value(y)
    ensures x.n * y.d == y.n * x.d
  {
    var A, B, C, E := x.n as real, x.d as real, y.n as real, y.d as real;
    assert A / B == C / E;
    assert A * E == C * B by {
      assert A == (A / B) * B;
      assert C == (C / E) * E;
    }
    assert (x.n * y.d) as real == A * E;
    assert (y.n * x.d) as real == C * B;
  }

  lemma Cancel(a: int, b: int, c: int)
    requires c != 0 && a * c == b * c
    ensures a == b
  {
    assert (a - b) * c == 0;
  }

  /**
   * A reduced pair is determined by its value and the sign of its
   * denominator: lowest terms are unique up to the sign that the code keeps.
   */
  lemma ReducedUnique(x: Rational, y: Rational)
    requires Reduced(x) && Reduced(y)
    requires Value(x) == Value(y)
    requires (x.d > 0) == (y.d > 0)
    ensures x == y
  {
    ValueCross(x, y);
    GcdScaleAbs(x.n, x.d, y.d);
    GcdScaleAbs(y.n, y.d, x.d);
    assert y.d * x.n == x.d * y.n;
    assert y.d * x.d == x.d * y.d;
    assert Abs(y.d) == Abs(x.d);
    assert y.d == x.d;
    Cancel(x.n, y.n, x.d);
  }

  /** Reducing twice is the same as reducing once. */
  lemma ReduceIdempotent(r: Rational)
    requires r.d != 0
    ensures Reduce(Reduce(r)) == Reduce(r)
  {
  }

  /** An int operand is coerced as `Rational(k, 1)`, which is k/1 unchanged. */
  lemma FromPartsInteger(k: int)
    ensures FromParts(k, 1) == Success(Rational(k, 1))
  {
    assert Gcd(k, 1) == 1 by {
      assert k % 1 == 0;
    }
  }

  /**
   * Scaling both integers by k > 0 gives the same Rational; scaling by
   * k < 0 gives the same value with both signs flipped, because math.gcd is
   * never negative and the code keeps the sign of the denominator.
   */
  lemma FromPartsScale(a: int, b: int, k: int)
    requires b != 0 && k != 0
    ensures var r := FromParts(a, b).value;
      FromParts(k * a, k * b) == Success(if k > 0 then r else Rational(-r.n, -r.d))
  {
    ProductSign(k, b);
    var r := FromParts(a, b).value;
    var s := FromParts(k * a, k * b).value;
    ScaleValue(a, b, k);
    if k > 0 {
      ReducedUnique(s, r);
    } else {
      var flipped := Rational(-r.n, -r.d);
      Flip(r);
      ReducedUnique(s, flipped);
    }
  }

  /** Negating both fields keeps a pair reduced and its value, and flips the denominator's sign. */
  lemma Flip(r: Rational)
    requires Reduced(r)
    ensures Reduced(Rational(-r.n, -r.d)) && Value(Rational(-r.n, -r.d)) == Value(r)
    ensures (-r.d > 0) == !(r.d > 0)
  {
    GcdNegate(r.n, r.d);
    CrossMulValue(-r.n, -r.d, r.n, r.d);
  }

  lemma ScaleValue(a: int, b: int, k: int)
    requires b != 0 && k != 0
    ensures k * b != 0 && (k * a) as real / (k * b) as real == a as real / b as real
  {
    ProductSign(k, b);
    assert (k * a) * b == a * (k * b);
    CrossMulValue(k * a, k * b, a, b);
  }

  /** `x + y` and `y + x` give the same Rational, not only the same value. */
  lemma AddCommutative(x: Rational, y: Rational)
    ensures Add(x, ORat(y)) == Add(y, ORat(x))
  {
    assert x.n * y.d + y.n * x.d == y.n * x.d + x.n * y.d;
    assert x.d * y.d == y.d * x.d;
  }

  /** `(x + y) + z` and `x + (y + z)` give the same Rational. */
  lemma AddAssociative(x: Rational, y: Rational, z: Rational)
    requires Reduced(x) && Reduced(y) && Reduced(z)
    ensures Add(x, ORat(y)).Success? && Add(y, ORat(z)).Success?
    ensures Add(Add(x, ORat(y)).value, ORat(z)) == Add(x, ORat(Add(y, ORat(z)).value))
  {
    var xy := Add(x, ORat(y)).value;
    var yz := Add(y, ORat(z)).value;
    var left := Add(xy, ORat(z)).value;
    var right := Add(x, ORat(yz)).value;
    assert Value(left) == Value(right);
    ReducedUnique(left, right);
  }

  /** Zero is a left identity: `0/1 + x` is x itself for a constructed x. */
  lemma ZeroAddIdentity(x: Rational)
    requires Reduced(x)
    ensures Add(Rational(0, 1), ORat(x)) == Success(x)
  {
    assert 0 * x.d + x.n * 1 == x.n && 1 * x.d == x.d;
  }

  /**
   * Adding an int never needs reduction: for a constructed x, `x + k` is
   * exactly (n + k*d)/d.
   */
  lemma AddIntegerExact(x: Rational, k: int)
    requires Reduced(x)
    ensures Add(x, OInt(k)) == Success(Rational(x.n + k * x.d, x.d))
  {
    var m := x.n + k * x.d;
    GcdDivides(m, x.d);
    var g := Gcd(m, x.d);
    DividesDifference(x.n, x.d, k, g);
    GcdGreatest(x.n, x.d, g);
    assert 1 % g == 0;
    assert g == 1;
    assert Reduced(Rational(m, x.d));
  }

  // ---------------------------------------------------------------------
  // The string form
  // ---------------------------------------------------------------------

  /** `__str__`: "n/d" with the stored signs, e.g. "-1/-2". */
  function Render(r: Rational): (s: string)
    ensures Split(s, '/') == [IntToString(r.n), IntToString(r.d)]
  {
    var a, b := IntToString(r.n), IntToString(r.d);
    SplitAfter(a, b, '/');
    SplitNone(b, '/');
    a + ['/'] + b
  }

  /** Printing a constructed Rational and reading it back with the string constructor gives it back. */
  lemma RenderRoundTrip(r: Rational)
    requires Reduced(r)
    ensures FromString(Render(r)) == Success(r)
  {
  }

  /** Only the first two '/'-separated parts are read: "a/b/rest" builds the same as "a/b". */
  lemma FromStringExtraParts(a: string, b: string, rest: string)
    requires '/' !in a && '/' !in b
    ensures FromString(a + "/" + b + "/" + rest) == FromString(a + "/" + b)
  {
    assert a + "/" + b + "/" + rest == a + ['/'] + (b + ['/'] + rest);
    SplitAfter(a, b + ['/'] + rest, '/');
    SplitAfter(b, rest, '/');
    SplitAfter(a, b, '/');
    SplitNone(b, '/');
  }

  /** "a/b" whose b reads as 0 raises the zero-denominator error. */
  lemma FromStringZeroDenominator(a: string, b: string)
    requires ParseInt(a).Some? && ParseInt(b) == Some(0)
    ensures FromString(a + "/" + b) == Failure(ZeroDenominator)
  {
    SplitAfter(a, b, '/');
    SplitNone(b, '/');
  }

  /** "abc/2": the first part is not an integer literal. */
  lemma FromStringNonInteger()
    ensures FromString("abc/2") == Failure(InvalidLiteral)
  {
    SplitAfter("abc", "2", '/');
    SplitNone("2", '/');
    assert "abc/2" == "abc" + ['/'] + "2";
    assert !IsDigit('a');
  }

  /** The denominator keeps its sign: -1/-2 stays -1/-2, while 2/4 becomes 1/2. */
  lemma SignsAreKept()
    ensures FromParts(-1, -2) == Success(Rational(-1, -2))
    ensures FromParts(2, 4) == Success(Rational(1, 2))
    ensures FromParts(3, -6) == Success(Rational(1, -2))
  {
    assert Gcd(-1, -2) == 1 by {
      assert -1 % -2 == 1 && -2 % 1 == 0;
      assert Gcd(-1, -2) == Gcd(-2, 1) == Gcd(1, 0);
    }
    assert Gcd(2, 4) == 2 by {
      assert 2 % 4 == 2 && 4 % 2 == 0;
      assert Gcd(2, 4) == Gcd(4, 2) == Gcd(2, 0);
    }
    assert Gcd(3, -6) == 3 by {
      assert 3 % -6 == 3 && -6 % 3 == 0;
      assert Gcd(3, -6) == Gcd(-6, 3) == Gcd(3, 0);
    }
  }
}
