/**
 * RationalList of main.py: a Python list that only holds Rational objects.
 * `append`, `__setitem__` and `__iadd__` change the list in place; `__add__`
 * builds a new list and leaves the receiver alone; `sum` folds `+` over the
 * elements from 0/1.
 */
module RationalLists {
  import opened Wrappers
  import opened IntMath
  import opened Rationals

  /** The exact sum of the values of the elements, left to right. */
  function ValueSum(xs: seq<Rational>): real
    requires AllReduced(xs)
  {
    if |xs| == 0 then 0.0 else ValueSum(xs[..|xs| - 1]) + Value(xs[|xs| - 1])
  }

  /** How many elements have a negative denominator. */
  function NegativeCount(xs: seq<Rational>): nat
  {
    if |xs| == 0 then 0
    else NegativeCount(xs[..|xs| - 1]) + (if xs[|xs| - 1].d < 0 then 1 else 0)
  }

  /**
   * What `sum` computes: `total = Rational(0, 1)`, then `total += element`
   * for each element in order. The printed denominator is positive exactly
   * when an even number of elements have a negative one.
   */
  function SumOf(xs: seq<Rational>): (s: Rational)
    requires AllReduced(xs)
    ensures Reduced(s)
    ensures Value(s) == ValueSum(xs)
    ensures s.d > 0 <==> NegativeCount(xs) % 2 == 0
  {
    if |xs| == 0 then
      FromPartsInteger(0);
      Rational(0, 1)
    else
      var total := SumOf(xs[..|xs| - 1]);
      Add(total, ORat(xs[|xs| - 1])).value
  }

  /**
   * The elements of `L + other` (`__add__`) and of `L` after `L += other`
   * (`__iadd__`): a RationalList adds all its elements, a Rational itself, an
   * int k the Rational k/1; anything else raises.
   */
  function Concatenated(elements: seq<Rational>, other: Operand): (r: Result<seq<Rational>, Error>)
    ensures r.Failure? <==> other.OOther?
    ensures r.Failure? ==> r.error == UnsupportedOperand
    ensures r.Success? ==> |r.value| >= |elements| && r.value[..|elements|] == elements
    ensures other.OList? ==> r == Success(elements + other.elements)
    ensures other.ORat? ==> r == Success(elements + [other.r])
    ensures other.OInt? ==> r == Success(elements + [Rational(other.k, 1)])
    ensures AllReduced(elements) && OperandReduced(other) && r.Success? ==> AllReduced(r.value)
  {
    match other
    case OList(ys) => Success(elements + ys)
    case ORat(x) => Success(elements + [x])
    case OInt(k) =>
      FromPartsInteger(k);
      (match FromParts(k, 1)
       case Success(x) => Success(elements + [x])
       case Failure(e) => Failure(e))
    case OOther => Failure(UnsupportedOperand)
  }

  /** Python list indexing: 0 <= i < n counts from the front, -n <= i < 0 from the end. */
  function Position(index: int, length: nat): (p: Option<nat>)
    ensures p.Some? <==> -(length as int) <= index < length
    ensures p.Some? ==> p.value < length && (p.value == index || p.value == index + length)
  {
    if 0 <= index < length then Some(index)
    else if -(length as int) <= index < 0 then Some(index + length)
    else None
  }

  // ---------------------------------------------------------------------
  // Properties of the fold
  // ---------------------------------------------------------------------

  lemma {:induction false} ValueSumConcat(xs: seq<Rational>, ys: seq<Rational>)
    requires AllReduced(xs) && AllReduced(ys)
    ensures AllReduced(xs + ys)
    ensures ValueSum(xs + ys) == ValueSum(xs) + ValueSum(ys)
    decreases |ys|
  {
    if |ys| == 0 {
      assert xs + ys == xs;
    } else {
      var init := ys[..|ys| - 1];
      assert (xs + ys)[..|xs + ys| - 1] == xs + init;
      ValueSumConcat(xs, init);
    }
  }

  lemma {:induction false} NegativeCountConcat(xs: seq<Rational>, ys: seq<Rational>)
    ensures NegativeCount(xs + ys) == NegativeCount(xs) + NegativeCount(ys)
    decreases |ys|
  {
    if |ys| == 0 {
      assert xs + ys == xs;
    } else {
      var init := ys[..|ys| - 1];
      assert (xs + ys)[..|xs + ys| - 1] == xs + init;
      NegativeCountConcat(xs, init);
    }
  }

  lemma Parity(p: nat, q: nat)
    ensures (p + q) % 2 == 0 <==> (p % 2 == 0 <==> q % 2 == 0)
  {
  }

  /** The sum of a concatenation has the denominator sign of the two sums added. */
  lemma SumOfConcatSign(xs: seq<Rational>, ys: seq<Rational>)
    requires AllReduced(xs) && AllReduced(ys) && AllReduced(xs + ys)
    ensures (SumOf(xs + ys).d > 0) == (Add(SumOf(xs), ORat(SumOf(ys))).value.d > 0)
  {
    NegativeCountConcat(xs, ys);
    Parity(NegativeCount(xs), NegativeCount(ys));
  }

  /**
   * The sum of a concatenation is the sum of the sums: `(L + M).sum()` is
   * the same Rational as `L.sum() + M.sum()`, not only the same value.
   */
  lemma SumOfConcat(xs: seq<Rational>, ys: seq<Rational>)
    requires AllReduced(xs) && AllReduced(ys)
    ensures AllReduced(xs + ys)
    ensures Value(SumOf(xs + ys)) == Value(SumOf(xs)) + Value(SumOf(ys))
    ensures SumOf(xs + ys) == Add(SumOf(xs), ORat(SumOf(ys))).value
  {
    ValueSumConcat(xs, ys);
    var whole, left, right := SumOf(xs + ys), SumOf(xs), SumOf(ys);
    var pair := Add(left, ORat(right)).value;
    assert Value(pair) == Value(whole) by {
      assert Value(pair) == Value(left) + Value(right);
    }
    SumOfConcatSign(xs, ys);
    ReducedUnique(pair, whole);
  }

  /** The sum of one element is that element. */
  lemma SumOfSingleton(x: Rational)
    requires Reduced(x)
    ensures SumOf([x]) == x
  {
    assert [x][..0] == [];
    ZeroAddIdentity(x);
  }

  /** [1/2, 1/3] sums to 5/6. */
  lemma SumExample()
    ensures AllReduced([Rational(1, 2), Rational(1, 3)])
    ensures SumOf([Rational(1, 2), Rational(1, 3)]) == Rational(5, 6)
  {
    var xs := [Rational(1, 2), Rational(1, 3)];
    assert Gcd(1, 2) == 1 && Gcd(1, 3) == 1 && Gcd(5, 6) == 1;
    assert xs[..1] == [Rational(1, 2)];
    SumOfSingleton(Rational(1, 2));
    ReducedUnique(SumOf(xs), Rational(5, 6));
  }

  class RationalList {
    var elements: seq<Rational>

    /** Every element is a constructed Rational. */
    ghost predicate Valid()
      reads this
    {
      AllReduced(elements)
    }

    /** `RationalList()`: an empty list. */
    constructor ()
      ensures Valid() && elements == []
    {
      elements := [];
    }

    /** `len(L)` */
    function Length(): (n: nat)
      reads this
      ensures n == |elements|
    {
      |elements|
    }

    /** `L[index]`: bounds-checked, negative indices counting from the end. */
    function GetItem(index: int): (r: Result<Rational, Error>)
      reads this
      ensures 0 <= index < |elements| ==> r == Success(elements[index])
      ensures -|elements| <= index < 0 ==> r == Success(elements[|elements| + index])
      ensures index < -|elements| || |elements| <= index ==> r == Failure(IndexOutOfRange)
      ensures Valid() && r.Success? ==> Reduced(r.value)
    {
      match Position(index, |elements|)
      case Some(k) => Success(elements[k])
      case None => Failure(IndexOutOfRange)
    }

    /** `L[index] = value`: only a Rational is accepted, then the position is checked. */
    method SetItem(index: int, value: Operand) returns (r: Outcome<Error>)
      requires Valid() && OperandReduced(value)
      modifies this
      ensures Valid()
      ensures !value.ORat? ==> r == Fail(NotRational) && elements == old(elements)
      ensures value.ORat? && Position(index, |old(elements)|).None? ==>
        r == Fail(IndexOutOfRange) && elements == old(elements)
      ensures value.ORat? && Position(index, |old(elements)|).Some? ==>
        r == Pass && elements == old(elements)[Position(index, |old(elements)|).value := value.r]
    {
      if !value.ORat? {
        return Fail(NotRational);
      }
      match Position(index, |elements|)
      case None =>
        r := Fail(IndexOutOfRange);
      case Some(k) =>
        elements := elements[k := value.r];
        r := Pass;
    }

    /** `L.append(value)`: only a Rational is accepted, and it goes last. */
    method Append(value: Operand) returns (r: Outcome<Error>)
      requires Valid() && OperandReduced(value)
      modifies this
      ensures Valid()
      ensures value.ORat? ==> r == Pass && elements == old(elements) + [value.r]
      ensures !value.ORat? ==> r == Fail(NotRational) && elements == old(elements)
    {
      if value.ORat? {
        elements := elements + [value.r];
        r := Pass;
      } else {
        r := Fail(NotRational);
      }
    }

    /** `L + other`: a new list; the receiver is not changed (the method modifies nothing). */
    method Concat(other: Operand) returns (r: Result<RationalList, Error>)
      requires Valid() && OperandReduced(other)
      ensures r.Success? <==> Concatenated(elements, other).Success?
      ensures r.Failure? ==> r.error == UnsupportedOperand
      ensures r.Success? ==> fresh(r.value) && r.value.Valid()
      ensures r.Success? ==> r.value.elements == Concatenated(elements, other).value
    {
      var newList := new RationalList();
      newList.elements := elements;
      match other {
        case OList(ys) =>
          newList.elements := newList.elements + ys;
        case ORat(x) =>
          newList.elements := newList.elements + [x];
        case OInt(k) =>
          var x := FromParts(k, 1);
          FromPartsInteger(k);
          newList.elements := newList.elements + [x.value];
        case OOther =>
          return Failure(UnsupportedOperand);
      }
      r := Success(newList);
    }

    /** `L += other`: the same elements as `L + other`, but in L itself, which is returned. */
    method Extend(other: Operand) returns (r: Result<RationalList, Error>)
      requires Valid() && OperandReduced(other)
      modifies this
      ensures Valid()
      ensures Concatenated(old(elements), other).Success? ==>
        r == Success(this) && elements == Concatenated(old(elements), other).value
      ensures Concatenated(old(elements), other).Failure? ==>
        r == Failure(UnsupportedOperand) && elements == old(elements)
    {
      match other {
        case OList(ys) =>
          elements := elements + ys;
        case ORat(x) =>
          elements := elements + [x];
        case OInt(k) =>
          var x := FromParts(k, 1);
          FromPartsInteger(k);
          elements := elements + [x.value];
        case OOther =>
          return Failure(UnsupportedOperand);
      }
      r := Success(this);
    }

    /** `L.sum()`: the left fold of Rational `+` from 0/1; its value is the exact sum of the elements. */
    method Sum() returns (total: Rational)
      requires Valid()
      ensures total == SumOf(elements)
      ensures Reduced(total) && Value(total) == ValueSum(elements)
      ensures elements == [] ==> total == Rational(0, 1)
    {
      var zero := FromParts(0, 1);
      FromPartsInteger(0);
      total := zero.value;
      for i := 0 to |elements|
        invariant total == SumOf(elements[..i])
      {
        assert elements[..i + 1][..i] == elements[..i];
        var next := Add(total, ORat(elements[i]));
        total := next.value;
      }
      assert elements[..|elements|] == elements;
    }
  }
}
