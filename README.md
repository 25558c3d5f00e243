# Exact rational arithmetic of hw12.3, in Dafny

This project models the core of `main.py`:

- the `Rational` type, an integer pair `n`/`d` reduced with `math.gcd` when it is built, either from two ints or from an `"a/b"` string;
- addition of a Rational and another Rational or an int, in both orders;
- the `RationalList` container, which holds only Rationals, and its operations `len`, indexing, item assignment, `append`, `+`, `+=` and `sum`;
- the per-token loop of `process_input_files`, which turns tokens into Rationals and skips every token that raises.

It then proves properties of this model.

Modules, one file each:

| file | module | models |
|---|---|---|
| `wrappers.dfy` | `Wrappers` | `Option`, `Result`, `Outcome`; these replace Python's exceptions |
| `int_math.dfy` | `IntMath` | `math.gcd` as Euclid's algorithm, with its characterisation |
| `text.dfy` | `Text` | `str.split('/')`, `int(s)` for decimal literals, and `str(i)` |
| `rationals.dfy` | `Rationals` | `Rational`: construction, `reduce`, `__add__`, `__radd__`, `__str__` |
| `rational_lists.dfy` | `RationalLists` | `RationalList` as a class over `seq<Rational>`, and the fold behind `sum` |
| `token_parsing.dfy` | `TokenParsing` | the token loop of `process_input_files`, without the files |

Modelling decisions:

- **Rational is a value.**
  - It is a datatype `Rational(n, d)`. A Python Rational object is never changed after `__init__` has reduced it.
  - `RationalList.__add__` copies the list, which shares the Rational objects. Value semantics behave the same.
  - `Rationals.Create` mirrors `__init__` step by step. It checks the denominator, copies the two ints into local variables `n` and `d` (standing for the fields `self.n` and `self.d`), divides each by their gcd, and only then builds the Rational value.
  - `Rationals.FromParts` is the same constructor as a function. `__add__` uses it.
- **Every constructed Rational is `Reduced`.** That means `d != 0` and `gcd(n, d) == 1`.
  - This is the invariant of the Python type. The list methods therefore take their operands with `OperandReduced`.
  - The `Valid()` predicate of `RationalList` says that all of its elements are reduced.
- **Signs stay where the input put them.**
  - `math.gcd` is never negative, so reduction never moves a sign, and the denominator keeps the sign it was given.
  - `-1/-2` stays `-1/-2`. `3/-6` becomes `1/-2`.
  - The denominator is never made positive, and gcd is applied to the signed fields.
  - The string form reads only the first two `/`-separated parts and ignores any others.
  - The sum of a list has a positive denominator exactly when an even number of its elements have a negative one: `[1/-2]` sums to `1/-2`, and `[1/-2, 1/-2]` to `-1/1`.
- **Exact values are Dafny `real`s.** `Value(r)` is `n / d` as an exact rational.
- **Python's run-time type checks become an `Operand` datatype.** They are `isinstance(other, Rational)`, `isinstance(other, int)` and `isinstance(other, RationalList)`. The datatype has the cases `OInt`, `ORat`, `OList` (a RationalList, given by its elements) and `OOther` (anything else).
- **Exceptions become `Failure`/`Fail` values with an `Error`.**
  - `RationalValueError` is a subclass of `ValueError`, and both are caught by the token loop (`IsValueError`).
  - The `IndexError` from `parts[1]` is not a `ValueError`. The model proves that a token containing `/` always splits into at least two parts, so this error never reaches the loop.
- **`//` is modelled by Dafny's `/`.** Python's `//` floors. The divisor is always a positive gcd, and for a positive divisor Dafny's `/` is the same operation.

What is proved, in short:

- **Construction.** A zero denominator is rejected, from two ints and from `"a/0"`. Otherwise the stored pair is in lowest terms and keeps the value `a/b` and the sign of `b`. Reducing it again changes nothing. Lowest terms are unique for a given value and denominator sign (`ReducedUnique`). Scaling both inputs by `k > 0` gives the same Rational, and scaling by `k < 0` flips both signs.
- **Addition.**
  - `x + y` is reduced and its value is `Value(x) + Value(y)`.
  - It is commutative and associative as exact pairs, not only as values.
  - `x + k` is exactly `(n + k*d)/d`, with no reduction needed.
  - Any other operand raises.
- **The list.**
  - `append` puts the new element last, and `L[i] = v` replaces only position `i`. A non-Rational value raises and leaves the list as it was.
  - `L + x` builds a new list and leaves `L` alone. `L += x` gives `L` the same elements and returns `L`.
  - `sum` is the left fold from `0/1`, and its value is the exact sum of the elements.
- **The token loop.**
  - The result holds exactly the tokens that parse, in input order.
  - The example `1 2/4 x 5/0 -3` gives `[1/1, 1/2, -3/1]`.
  - Printing a Rational with `__str__` and reading it back with the string constructor gives the same pair, ignoring CPython's 4300-digit limit on int/str conversion.

## Model

| member | source | states |
|---|---|---|
| `IntMath.GcdDivides` | main.py:19 | math.gcd(a, b) is positive unless both are 0, and divides both a and b |
| `IntMath.GcdGreatest` | main.py:19 | every positive common divisor of a and b divides math.gcd(a, b) |
| `IntMath.GcdOfAbs` | main.py:19 | math.gcd(a, b) equals the gcd of abs(a) and abs(b), so it ignores signs |
| `IntMath.Gcd` | main.py:19 | math.gcd(a, b) by Euclid's algorithm; it is never negative, and 0 exactly when a and b are both 0 |
| `IntMath.GcdScale` | main.py:19 | scaling both arguments by k > 0 scales the gcd by k |
| `IntMath.GcdOfQuotients` | main.py:18-21 | dividing both integers by their gcd leaves a coprime pair |
| `Text.Split` | main.py:10 | `split('/')` always yields at least one part |
| `Text.ParseInt` | main.py:11 | `int(s)` for a decimal literal: a literal is an optional leading '-' followed by at least one digit, so it never contains '/' and ends in a digit (a lone "-" is rejected); a negative result has the '-'; every such literal parses |
| `Text.JoinSplit` | main.py:10 | joining the parts with '/' restores the string |
| `Text.SplitPieces` | main.py:10 | no part contains '/', and there are at least two parts exactly when the string contains '/' |
| `Text.SplitJoin` | main.py:10 | splitting '/'-free parts joined by '/' gives the parts back |
| `Text.IntToString` | main.py:11 | `int(str(i)) == i` for every integer i, ignoring CPython's 4300-digit conversion limit, and `str(i)` contains only '-' and digits |
| `Text.NatToString` | main.py:41 | the decimal digits of k are non-empty, all digits, and read back as k |
| `Rationals.IsValueError` | main.py:107 | the errors `except (ValueError, RationalValueError)` catches are every kind except the two IndexErrors (a missing `parts[1]` and a bad list index) |
| `Rationals.Reduce` | main.py:18-21 | reduce leaves a coprime pair with a non-zero denominator, the same value, and the denominator's sign kept; an already reduced pair is unchanged |
| `Rationals.ReduceIdempotent` | main.py:18-21 | reducing twice gives the same pair as reducing once |
| `Rationals.FromParts` | main.py:8-21 | Rational(a, b) raises ZeroDenominator exactly when b == 0; otherwise the stored pair is reduced, has n*b == a*d and the value a/b, and d has the sign of b |
| `Rationals.Create` | main.py:12-21 | the step-by-step constructor (zero check, field assignment, in-place division by the gcd) gives exactly FromParts(a, b) |
| `Rationals.FromString` | main.py:8-13 | the string constructor succeeds exactly when the first two '/'-parts are integer literals and the second is not 0; then it gives a reduced pair with value parts[0]/parts[1] whose denominator has the sign of parts[1], so "1/-2" stays 1/-2. It raises IndexError exactly for a lone integer literal without '/', and only ValueError kinds otherwise |
| `Rationals.FromStringZeroDenominator` | main.py:11-13 | "a/b" whose b reads as 0 raises ZeroDenominator |
| `Rationals.FromStringNonInteger` | main.py:11 | "abc/2" raises the ValueError of int() |
| `Rationals.FromStringExtraParts` | main.py:10-11 | "a/b/rest" builds the same as "a/b": parts after the second are ignored |
| `Rationals.ReducedUnique` | main.py:18-21 | two reduced pairs with the same value and the same denominator sign are equal |
| `Rationals.FromPartsScale` | main.py:18-21 | Rational(k*a, k*b) equals Rational(a, b) for k > 0, and has both signs flipped for k < 0 |
| `Rationals.SignsAreKept` | main.py:18-21 | -1/-2 stays -1/-2, 2/4 becomes 1/2 and 3/-6 becomes 1/-2 |
| `Rationals.FromPartsInteger` | main.py:67 | Rational(k, 1) is k/1 unchanged |
| `Rationals.Add` | main.py:23-32 | Rational + Rational and Rational + int succeed with a reduced result whose value is the exact sum; the denominator sign is the product of the operands' signs; a list or any other operand raises UnsupportedOperand |
| `Rationals.AddCommutative` | main.py:23-27 | x + y and y + x give the same pair |
| `Rationals.AddAssociative` | main.py:23-27 | (x + y) + z and x + (y + z) give the same pair |
| `Rationals.AddIntegerExact` | main.py:28-30 | x + k is exactly (n + k*d)/d, with no reduction needed |
| `Rationals.ZeroAddIdentity` | main.py:90-92 | 0/1 + x is x itself |
| `Rationals.RAdd` | main.py:34-35 | k + x (via __radd__) succeeds with a reduced result of value k + Value(x) whose denominator has the sign of x.d; for a constructed x it is exactly (n + k*d)/d; a list or any other operand raises |
| `Rationals.Render` | main.py:40-41 | `__str__` gives a text whose '/'-parts are exactly `str(n)` and `str(d)`, with the stored signs |
| `Rationals.RenderRoundTrip` | main.py:40-41 | reading the "n/d" text of a constructed Rational with the string constructor gives the same pair (ignoring CPython's 4300-digit conversion limit) |
| `RationalLists.SumOf` | main.py:89-93 | the left fold of + from 0/1 is reduced, its value is the exact sum of the element values, and its denominator is positive exactly when an even number of elements have a negative denominator |
| `RationalLists.SumOfConcat` | main.py:89-93 | the sum of a concatenation is the same pair as the two sums added, and so has their added value |
| `RationalLists.SumOfSingleton` | main.py:89-93 | the sum of one element is that element |
| `RationalLists.SumExample` | main.py:89-93 | [1/2, 1/3] sums to 5/6 |
| `RationalLists.Concatenated` | main.py:59-81 | a RationalList adds all its elements, a Rational adds itself and an int k adds k/1, after the receiver's elements, which stay a prefix; any other operand raises UnsupportedOperand; reduced elements stay reduced |
| `RationalLists.Position` | main.py:47-48 | a Python list index is valid exactly in [-len, len), and negative indices count from the end |
| `RationalLists.RationalList.constructor` | main.py:44-45 | a new list is empty |
| `RationalLists.RationalList.Length` | main.py:56-57 | len(L) is the number of elements |
| `RationalLists.RationalList.GetItem` | main.py:47-48 | L[i] returns the element at i from the front or from the end, or raises IndexOutOfRange; the result is a constructed Rational |
| `RationalLists.RationalList.SetItem` | main.py:50-54 | a non-Rational raises NotRational and changes nothing; a bad index raises IndexOutOfRange and changes nothing; otherwise only that position is replaced and the length is kept |
| `RationalLists.RationalList.Append` | main.py:83-87 | a Rational goes last and the other elements are kept; anything else raises NotRational and changes nothing |
| `RationalLists.RationalList.Concat` | main.py:59-70 | L + x returns a fresh list holding Concatenated(L.elements, x), and L is unchanged; an unsupported operand raises |
| `RationalLists.RationalList.Extend` | main.py:72-81 | L += x gives L the elements Concatenated(L.elements, x) and returns L; an unsupported operand raises and changes nothing |
| `RationalLists.RationalList.Sum` | main.py:89-93 | sum() is the left fold SumOf of the elements, 0/1 for an empty list, and its value is the exact sum |
| `TokenParsing.ParseToken` | main.py:103-106 | a token parses to a reduced Rational; every failure is a ValueError the loop catches; a token with '/' goes through the string constructor; a token without '/' parses exactly when it is an integer literal k, and then gives k/1 |
| `TokenParsing.ParseTokens` | main.py:101-108 | the appended Rationals are reduced and no more than the tokens |
| `TokenParsing.ParseTokensKeepsValidInOrder` | main.py:101-108 | the result holds exactly the tokens that parse, in increasing input positions |
| `TokenParsing.ParseTokensConcat` | main.py:101-108 | parsing two token streams one after the other gives the two results concatenated |
| `TokenParsing.ParseTokensExample` | main.py:101-108 | the tokens 1 2/4 x 5/0 -3 give [1/1, 1/2, -3/1] |
| `TokenParsing.AppendTokens` | main.py:101-108 | the loop appends ParseTokens(tokens) to the list and keeps it valid |
| `TokenParsing.Process` | main.py:95-110 | the list built from the tokens is ParseTokens(tokens), and the sum written first is its left fold |

## Left out

- File opening, line reading and output writing in `process_input_files` (main.py:97-99, 109-112). This is I/O. The whitespace split of each line is not modelled either: the input of `TokenParsing.Process` is the tokens of all lines, in order.
- The warning printed for a skipped token (main.py:108). It is logging only.
- The module-level call with fixed file names (main.py:114-117).
- `__call__` (main.py:37-38). It returns `n / d` as a float, and floating point is not modelled.
- Iterating over a RationalList in the output pass (main.py:111). Python iterates through `__getitem__` until IndexError; the model reads the element sequence instead.
- Text.ParseInt: accepts only an optional '-' followed by ASCII digits. Python's `int()` also accepts a leading '+', surrounding whitespace, '_' between digits and non-ASCII digits. `Text.IntToString` output is inside the modelled grammar, so that difference does not affect the round trip.
- Text.ParseInt: has no digit limit. CPython 3.11 and later (and the 3.7–3.10 security releases) raise ValueError from `int()` for a string of more than 4300 decimal digits. `str()` and f-string formatting also raise for an int that long. So Python skips a token with more than 4300 digits (main.py:106-108), while `TokenParsing.ParseToken` accepts it. A Rational with a field that long also makes `__str__` (main.py:41) raise, while `Rationals.Render` and `Rationals.RenderRoundTrip` succeed. `Text.IntToString` likewise has no such limit.
- RationalLists.RationalList.GetItem: slices are not modelled; integer indices, negative ones included, are.
- RationalLists.RationalList.SetItem: slice indices are not modelled either. In Python, `L[i:j] = v` with a Rational `v` passes the isinstance check and then raises TypeError at main.py:52, because a Rational is not iterable; only integer indices are modelled.
- `bool` being a subclass of `int` in `isinstance`: a `True` operand counts as the int 1 in Python and is not a separate case here.
- Direct assignments to the public fields `n` and `d` of a Rational from outside the class. Nothing in the core makes them, and the model assumes every Rational is as its constructor left it.
