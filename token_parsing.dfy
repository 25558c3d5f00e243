/**
 * The per-token loop of `process_input_files`: each whitespace-separated
 * token becomes a Rational, through the string constructor when it contains
 * '/' and as `Rational(int(token), 1)` otherwise; a token that raises a
 * ValueError is skipped and the others keep their order. File reading,
 * writing and the warning printed for a skipped token are not modelled: the
 * tokens of all input lines, in order, are the input here.
 */
module TokenParsing {
  import opened Wrappers
  import opened Text
  import opened Rationals
  import opened RationalLists

  /** The body of the `try` for one token. */
  function ParseToken(token: string): (r: Result<Rational, Error>)
    ensures r.Success? ==> Reduced(r.value)
    ensures r.Failure? ==> IsValueError(r.error)
    ensures '/' !in token ==> (r.Success? <==> ParseInt(token).Some?)
    ensures '/' !in token && r.Success? ==> r.value == Rational(ParseInt(token).value, 1)
    ensures '/' in token ==> r == FromString(token)
  {
    if '/' in token then
      FromString(token)
    else
      match ParseInt(token)
      case None => Failure(InvalidLiteral)
      case Some(k) =>
        FromPartsInteger(k);
        FromParts(k, 1)
  }

  /** The Rationals the loop appends for a sequence of tokens. */
  function ParseTokens(tokens: seq<string>): (rs: seq<Rational>)
    ensures AllReduced(rs)
    ensures |rs| <= |tokens|
  {
    if |tokens| == 0 then []
    else
      var init := ParseTokens(tokens[..|tokens| - 1]);
      match ParseToken(tokens[|tokens| - 1])
      case Success(r) => init + [r]
      case Failure(_) => init
  }

  /**
   * The result holds exactly the tokens that parse, in input order: the
   * i-th element comes from token idx[i], the positions increase, and every
   * token that parses has its position in idx.
   */
  lemma {:induction false} ParseTokensKeepsValidInOrder(tokens: seq<string>) returns (idx: seq<nat>)
    ensures |idx| == |ParseTokens(tokens)|
    ensures forall j | 0 <= j < |idx| :: idx[j] < |tokens| && ParseToken(tokens[idx[j]]) == Success(ParseTokens(tokens)[j])
    ensures forall j, k | 0 <= j < k < |idx| :: idx[j] < idx[k]
    ensures forall i | 0 <= i < |tokens| && ParseToken(tokens[i]).Success? :: i in idx
  {
    if |tokens| == 0 {
      idx := [];
    } else {
      var n := |tokens| - 1;
      var init := tokens[..n];
      var prev := ParseTokensKeepsValidInOrder(init);
      var rs, before := ParseTokens(tokens), ParseTokens(init);
      var extra: seq<nat>;
      match ParseToken(tokens[n]) {
        case Success(r) =>
          assert rs == before + [r];
          extra := [n];
        case Failure(_) =>
          assert rs == before;
          extra := [];
      }
      idx := prev + extra;
      forall j | 0 <= j < |idx|
        ensures idx[j] < |tokens| && ParseToken(tokens[idx[j]]) == Success(rs[j])
      {
        if j < |prev| {
          assert idx[j] == prev[j] && rs[j] == before[j];
          assert tokens[prev[j]] == init[prev[j]];
        }
      }
      forall i | 0 <= i < |tokens| && ParseToken(tokens[i]).Success?
        ensures i in idx
      {
        if i < n {
          assert tokens[i] == init[i];
          assert i in prev;
        }
      }
    }
  }

  /** Parsing is per token: the tokens of two inputs parse to the two results, concatenated. */
  lemma {:induction false} ParseTokensConcat(a: seq<string>, b: seq<string>)
    ensures ParseTokens(a + b) == ParseTokens(a) + ParseTokens(b)
    decreases |b|
  {
    if |b| == 0 {
      assert a + b == a;
    } else {
      var init := b[..|b| - 1];
      assert (a + b)[..|a + b| - 1] == a + init;
      assert (a + b)[|a + b| - 1] == b[|b| - 1];
      ParseTokensConcat(a, init);
    }
  }

  /** One more token: its Rational goes last, or nothing is added. */
  lemma ParseTokensSnoc(tokens: seq<string>, t: string)
    ensures ParseTokens(tokens + [t]) == ParseTokens(tokens) + (match ParseToken(t) case Success(r) => [r] case Failure(_) => [])
  {
    assert (tokens + [t])[..|tokens|] == tokens;
  }

  lemma ExampleInteger()
    ensures ParseToken("1") == Success(Rational(1, 1))
    ensures ParseToken("-3") == Success(Rational(-3, 1))
  {
    assert "1"[..0] == "";
    assert "-3"[1..] == "3";
    assert "3"[..0] == "";
  }

  lemma ExampleFraction()
    ensures ParseToken("2/4") == Success(Rational(1, 2))
  {
    assert "2/4" == "2" + ['/'] + "4";
    SplitAfter("2", "4", '/');
    SplitNone("4", '/');
    assert "2"[..0] == "";
    assert "4"[..0] == "";
    SignsAreKept();
  }

  lemma ExampleSkipped()
    ensures ParseToken("x").Failure?
    ensures ParseToken("5/0").Failure?
  {
    assert !IsDigit('x');
    assert "5/0" == "5" + ['/'] + "0";
    SplitAfter("5", "0", '/');
    SplitNone("0", '/');
  }

  /** "1 2/4 x 5/0 -3" gives [1/1, 1/2, -3/1]: "x" and "5/0" are skipped. */
  lemma ParseTokensExample()
    ensures ParseTokens(["1", "2/4", "x", "5/0", "-3"]) == [Rational(1, 1), Rational(1, 2), Rational(-3, 1)]
  {
    ExampleInteger();
    ExampleFraction();
    ExampleSkipped();
    ParseTokensSnoc([], "1");
    assert [] + ["1"] == ["1"];
    assert ParseTokens(["1"]) == [Rational(1, 1)];
    ParseTokensSnoc(["1"], "2/4");
    assert ["1"] + ["2/4"] == ["1", "2/4"];
    assert ParseTokens(["1", "2/4"]) == [Rational(1, 1), Rational(1, 2)];
    ParseTokensSnoc(["1", "2/4"], "x");
    assert ["1", "2/4"] + ["x"] == ["1", "2/4", "x"];
    ParseTokensSnoc(["1", "2/4", "x"], "5/0");
    assert ["1", "2/4", "x"] + ["5/0"] == ["1", "2/4", "x", "5/0"];
    assert ParseTokens(["1", "2/4", "x", "5/0"]) == [Rational(1, 1), Rational(1, 2)];
    ParseTokensSnoc(["1", "2/4", "x", "5/0"], "-3");
    assert ["1", "2/4", "x", "5/0"] + ["-3"] == ["1", "2/4", "x", "5/0", "-3"];
  }

  /** The token loop: append each token that parses to the list, skip each that raises. */
  method AppendTokens(list: RationalList, tokens: seq<string>)
    requires list.Valid()
    modifies list
    ensures list.Valid()
    ensures list.elements == old(list.elements) + ParseTokens(tokens)
  {
    for i := 0 to |tokens|
      invariant list.Valid()
      invariant list.elements == old(list.elements) + ParseTokens(tokens[..i])
    {
      assert tokens[..i + 1][..i] == tokens[..i];
      match ParseToken(tokens[i]) {
        case Success(r) =>
          var _ := list.Append(ORat(r));
        case Failure(_) =>
      }
    }
    assert tokens[..|tokens|] == tokens;
  }

  /**
   * `process_input_files` without the files: parse every token into a
   * fresh RationalList, then take its sum. The first output line carries
   * `total`, the following lines the elements of `values`.
   */
  method Process(tokens: seq<string>) returns (total: Rational, values: seq<Rational>)
    ensures values == ParseTokens(tokens)
    ensures total == SumOf(values)
    ensures Reduced(total) && Value(total) == ValueSum(values)
  {
    var list := new RationalList();
    AppendTokens(list, tokens);
    total := list.Sum();
    values := list.elements;
  }
}
