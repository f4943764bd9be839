/**
  The command line: read an expression, differentiate it, collect like terms
  and print the result.
 */
module Pipeline {
  import opened Tokens
  import opened Lists
  import opened Terms
  import opened Parser
  import opened Derivative
  import opened Collect
  import opened Render

  /** What the program prints for the expression `text`, or the fault that
      the model reports: `Success` exactly when neither differentiating nor
      collecting fails, and a fault in differentiating ends it before
      collecting starts. A nested list token is reported as `Nested`, where
      the program itself would print the list's Python text. */
  function Run(text: string): (r: Result<string>)
    ensures r.Success? <==>
      Differentiate(Parse(text)).Success? && CollectTerms(Differentiate(Parse(text)).value).Success?
    ensures r.Success? ==> r.value == Str(CollectTerms(Differentiate(Parse(text)).value).value)
    ensures Differentiate(Parse(text)).Failure? ==> r == Failure(Differentiate(Parse(text)).fault)
    ensures Differentiate(Parse(text)).Success? && CollectTerms(Differentiate(Parse(text)).value).Failure? ==>
      r == Failure(CollectTerms(Differentiate(Parse(text)).value).fault)
  {
    match Differentiate(Parse(text))
    case Failure(f) => Failure(f)
    case Success(dy) =>
      match CollectTerms(dy)
      case Failure(f) => Failure(f)
      case Success(c) => Success(Str(c))
  }

  /** The same program with like terms collected by position. */
  function RunFixed(text: string): (r: Result<string>)
    ensures r.Success? <==>
      Differentiate(Parse(text)).Success? && CollectTermsFixed(Differentiate(Parse(text)).value).Success?
    ensures r.Success? ==> r.value == Str(CollectTermsFixed(Differentiate(Parse(text)).value).value)
    ensures Differentiate(Parse(text)).Failure? ==> r == Failure(Differentiate(Parse(text)).fault)
    ensures Differentiate(Parse(text)).Success? && CollectTermsFixed(Differentiate(Parse(text)).value).Failure? ==>
      r == Failure(CollectTermsFixed(Differentiate(Parse(text)).value).fault)
  {
    match Differentiate(Parse(text))
    case Failure(f) => Failure(f)
    case Success(dy) =>
      match CollectTermsFixed(dy)
      case Failure(f) => Failure(f)
      case Success(c) => Success(Str(c))
  }

  /** Blanks in the text do not change what the program prints, unless the
      text starts with blanks followed by `-`. */
  lemma RunIgnoresSpaces(text: string)
    requires |text| > 0 && text[0] != '-' ==> |RemoveSpaces(text)| == 0 || RemoveSpaces(text)[0] != '-'
    ensures Run(text) == Run(RemoveSpaces(text))
    ensures RunFixed(text) == RunFixed(RemoveSpaces(text))
  {
    ParseIgnoresSpaces(text);
  }

  // ---------------------------------------------------------------------
  // A worked example: `3*x^2+5*x+7` prints `6 * x + 5`

  /** The tokens of `3*x^2+5*x+7`. */
  lemma ParseExample(t: string)
    requires t == "3*x^2+5*x+7"
    ensures Parse(t).data == [Num(3), Op(Mul), Sym("x"), Op(Pow), Num(2), Op(Add), Num(5), Op(Mul), Sym("x"), Op(Add), Num(7)]
  {
    var d0: seq<Token> := [];
    var d3 := d0 + [Num(3), Op(Mul)] + [Sym("x")] + [Op(Pow)];
    var d5 := d3 + [Num(2), Op(Add)] + [Num(5), Op(Mul)];
    var d7 := d5 + [Sym("x")] + [Op(Add)];
    assert Scan(State(d0, "", false), t) == State(d7, "7", false) by {
      ScanExampleHead(d0, t);
      ScanExampleMiddle(d3);
      ScanExampleTail(d5);
    }
    assert Parse(t).data == Flush(d7, "7", false) by {
      ParseUnsigned(t, State(d7, "7", false));
    }
    assert Flush(d7, "7", false) == d7 + [Num(7)] by {
      assert IsIntLiteral("7");
      FlushInt(d7, "7", false);
      assert DigitsValue("7") == 7 by {
        assert "7"[..0] == [];
      }
    }
    ExampleTokens(d7);
  }

  /** Text that does not start with `-` is scanned from an empty state
      and the buffer left at the end is flushed. */
  lemma ParseUnsigned(t: string, st: State)
    requires |t| > 0 && t[0] != '-' && Scan(State([], "", false), t) == st
    ensures Parse(t).data == Flush(st.data, st.buf, false)
  {
  }

  lemma ScanExampleHead(d0: seq<Token>, t: string)
    requires t == "3*x^2+5*x+7"
    ensures Scan(State(d0, "", false), t)
         == Scan(State(d0 + [Num(3), Op(Mul)] + [Sym("x")] + [Op(Pow)], "", false), "2+5*x+7")
  {
    var d1 := d0 + [Num(3), Op(Mul)];
    var rest := "2+5*x+7";
    assert t == ['3', '*', 'x', '^'] + rest;
    RegroupFour('3', '*', 'x', '^', rest);
    ScanDigitOperator(d0, '3', '*', 3, Mul, ['x'] + (['^'] + rest), false);
    ScanLetter(d1, 'x', ['^'] + rest, false);
    ScanOperator(d1 + [Sym("x")], '^', Pow, rest, false);
  }

  lemma RegroupFour(a: char, b: char, c: char, d: char, rest: string)
    ensures [a, b, c, d] + rest == [a, b] + ([c] + ([d] + rest))
  {
  }

  /** The next four: `2+5*`. */
  lemma ScanExampleMiddle(d3: seq<Token>)
    ensures Scan(State(d3, "", false), "2+5*x+7")
         == Scan(State(d3 + [Num(2), Op(Add)] + [Num(5), Op(Mul)], "", false), "x+7")
  {
    assert "2+5*x+7" == ['2', '+'] + (['5', '*'] + "x+7");
    ScanDigitOperator(d3, '2', '+', 2, Add, ['5', '*'] + "x+7", false);
    ScanDigitOperator(d3 + [Num(2), Op(Add)], '5', '*', 5, Mul, "x+7", false);
  }

  /** The last three: `x+7`, leaving `7` in the buffer. */
  lemma ScanExampleTail(d5: seq<Token>)
    requires |d5| > 0 && d5[|d5| - 1].Op?
    ensures Scan(State(d5, "", false), "x+7") == State(d5 + [Sym("x")] + [Op(Add)], "7", false)
  {
    assert "x+7" == "x" + ("+" + "7");
    ScanLetter(d5, 'x', "+" + "7", false);
    ScanOperator(d5 + [Sym("x")], '+', Add, "7", false);
    ScanLastDigit(d5 + [Sym("x")] + [Op(Add)], '7', false);
  }

  lemma ExampleTokens(d7: seq<Token>)
    requires d7 == [] + [Num(3), Op(Mul)] + [Sym("x")] + [Op(Pow)] + [Num(2), Op(Add)] + [Num(5), Op(Mul)] + [Sym("x")] + [Op(Add)]
    ensures d7 + [Num(7)] == [Num(3), Op(Mul), Sym("x"), Op(Pow), Num(2), Op(Add), Num(5), Op(Mul), Sym("x"), Op(Add), Num(7)]
  {
  }

  /** `3*x^2 + 5*x + 7` differentiates to `6*x + 5`. */
  lemma DifferentiateExample(a: seq<Token>, b: seq<Token>, c: seq<Token>)
    requires a == [Num(3), Op(Mul), Sym("x"), Op(Pow), Num(2)]
    requires b == [Num(5), Op(Mul), Sym("x")]
    requires c == [Num(7)]
    ensures Differentiate(Expression(a + [Op(Add)] + b + [Op(Add)] + c))
         == Success(Expression([Num(6), Op(Mul), Sym("x")] + [Op(Add)] + [Num(5)]))
  {
    RuleOfScaledPower(3, "x", 2);
    RuleOfLinear(5, "x");
    assert CountSyms(a) > 0 by {
      assert a[2..][0] == Sym("x") && CountSyms(a[2..]) >= 1;
      assert a[1..][1..] == a[2..] && CountSyms(a[1..]) >= 1;
    }
    assert CountSyms(b) > 0 by {
      assert b[2..][0] == Sym("x") && CountSyms(b[2..]) >= 1;
      assert b[1..][1..] == b[2..] && CountSyms(b[1..]) >= 1;
    }
    assert CountSyms(c) == 0 by {
      assert c[1..] == [];
    }
    DifferentiateSum(a, b, c, [Num(6), Op(Mul), Sym("x")], [Num(5)]);
  }

  /** `6*x + 5` has nothing to collect. */
  lemma CollectExample(u: seq<Token>, v: seq<Token>)
    requires u == [Num(6), Op(Mul), Sym("x")] && v == [Num(5)]
    ensures CollectTerms(Expression(u + [Op(Add)] + v)) == Success(Expression(u + [Op(Add)] + v))
  {
    OrdersOfRepeatedOne();
    PiecesOfRepeatedOne();
    LoneConstantPiece(5);
    assert IsNonzeroTerm(u);
    CollectPair(u, v);
  }

  /** `6*x + 5` prints as `6 * x + 5`. */
  lemma RenderExample(u: seq<Token>, v: seq<Token>)
    requires u == [Num(6), Op(Mul), Sym("x")] && v == [Num(5)]
    ensures Str(Expression(u + [Op(Add)] + v)) == "6 * x + 5"
  {
    assert u + [Op(Add)] + v == [Num(6), Op(Mul), Sym("x"), Op(Add), Num(5)];
    RenderExampleTokens(u + [Op(Add)] + v);
  }

  lemma RenderExampleTokens(d: seq<Token>)
    requires d == [Num(6), Op(Mul), Sym("x"), Op(Add), Num(5)]
    ensures ExpToString(d) == "6 * x + 5"
  {
    assert TokenText(Num(6)) == "6" && TokenText(Num(5)) == "5";
    RenderFive(d, "6", "*", "x", "+", "5");
  }

  /** The program, given `3*x^2+5*x+7`, prints `6 * x + 5`. */
  lemma RunExample(text: string)
    requires text == "3*x^2+5*x+7"
    ensures Run(text) == Success("6 * x + 5")
  {
    var a := [Num(3), Op(Mul), Sym("x"), Op(Pow), Num(2)];
    var b := [Num(5), Op(Mul), Sym("x")];
    var c := [Num(7)];
    var u := [Num(6), Op(Mul), Sym("x")];
    var v := [Num(5)];
    var dy := Expression(u + [Op(Add)] + v);
    assert Parse(text).data == a + [Op(Add)] + b + [Op(Add)] + c by {
      ParseExample(text);
      ExampleConcat(a, b, c);
    }
    assert Differentiate(Parse(text)) == Success(dy) by {
      DifferentiateExample(a, b, c);
    }
    assert CollectTerms(dy) == Success(dy) by {
      CollectExample(u, v);
    }
    assert Str(dy) == "6 * x + 5" by {
      RenderExample(u, v);
    }
  }

  lemma ExampleConcat(a: seq<Token>, b: seq<Token>, c: seq<Token>)
    requires a == [Num(3), Op(Mul), Sym("x"), Op(Pow), Num(2)]
    requires b == [Num(5), Op(Mul), Sym("x")]
    requires c == [Num(7)]
    ensures a + [Op(Add)] + b + [Op(Add)] + c
         == [Num(3), Op(Mul), Sym("x"), Op(Pow), Num(2), Op(Add), Num(5), Op(Mul), Sym("x"), Op(Add), Num(7)]
  {
  }

  lemma JoinThree(a: string, b: string, c: string)
    ensures Intercalate([a, b, c], ' ') == a + " " + b + " " + c
  {
    assert [a, b, c][1..] == [b, c] && [b, c][1..] == [c];
    assert Intercalate([b, c], ' ') == b + [' '] + c;
    assert Intercalate([a, b, c], ' ') == a + [' '] + (b + [' '] + c);
  }

  lemma JoinFive(words: seq<string>)
    requires |words| == 5
    ensures Intercalate(words, ' ') == words[0] + " " + words[1] + " " + words[2] + " " + words[3] + " " + words[4]
  {
    var w3 := words[3..];
    var w2 := words[2..];
    var w1 := words[1..];
    assert Intercalate(w3, ' ') == words[3] + " " + words[4] by {
      assert w3 == [words[3], words[4]];
      JoinCons(words[3], [words[4]]);
    }
    assert Intercalate(w2, ' ') == words[2] + " " + (words[3] + " " + words[4]) by {
      assert w2 == [words[2]] + w3;
      JoinCons(words[2], w3);
    }
    assert Intercalate(w1, ' ') == words[1] + " " + (words[2] + " " + (words[3] + " " + words[4])) by {
      assert w1 == [words[1]] + w2;
      JoinCons(words[1], w2);
    }
    assert Intercalate(words, ' ') == words[0] + " " + (words[1] + " " + (words[2] + " " + (words[3] + " " + words[4]))) by {
      assert words == [words[0]] + w1;
      JoinCons(words[0], w1);
    }
  }

  /** A word in front of at least one more is followed by a blank. */
  lemma JoinCons(w: string, ws: seq<string>)
    requires |ws| > 0
    ensures Intercalate([w] + ws, ' ') == w + " " + Intercalate(ws, ' ')
  {
    assert ([w] + ws)[1..] == ws && ([w] + ws)[0] == w;
  }

  // ---------------------------------------------------------------------
  // The derivative of `x+3*x^2+x`, printed

  /** The tokens of `x+3*x^2+x`. */
  lemma ParseRepeated(t: string)
    requires t == "x+3*x^2+x"
    ensures Parse(t).data == [Sym("x"), Op(Add), Num(3), Op(Mul), Sym("x"), Op(Pow), Num(2), Op(Add), Sym("x")]
  {
    var d0: seq<Token> := [];
    var d3 := d0 + [Sym("x")] + [Op(Add)] + [Num(3), Op(Mul)];
    var d7 := d3 + [Sym("x")] + [Op(Pow)] + [Num(2), Op(Add)] + [Sym("x")];
    ScanRepeatedHead(d0, t);
    ScanRepeatedTail(d3);
    assert t[0] != '-';
    RepeatedTokens(d7);
  }

  /** The first four characters: `x+3*`. */
  lemma ScanRepeatedHead(d0: seq<Token>, t: string)
    requires t == "x+3*x^2+x" && |d0| == 0
    ensures Scan(State(d0, "", false), t)
         == Scan(State(d0 + [Sym("x")] + [Op(Add)] + [Num(3), Op(Mul)], "", false), "x^2+x")
  {
    assert t == "x" + ("+" + (['3', '*'] + "x^2+x"));
    ScanLetter(d0, 'x', "+" + (['3', '*'] + "x^2+x"), false);
    ScanOperator(d0 + [Sym("x")], '+', Add, ['3', '*'] + "x^2+x", false);
    ScanDigitOperator(d0 + [Sym("x")] + [Op(Add)], '3', '*', 3, Mul, "x^2+x", false);
  }

  /** The last five: `x^2+x`. */
  lemma ScanRepeatedTail(d3: seq<Token>)
    requires |d3| > 0 && d3[|d3| - 1].Op?
    ensures Scan(State(d3, "", false), "x^2+x")
         == State(d3 + [Sym("x")] + [Op(Pow)] + [Num(2), Op(Add)] + [Sym("x")], "", false)
  {
    var d5 := d3 + [Sym("x")] + [Op(Pow)];
    assert "x^2+x" == "x" + ("^" + (['2', '+'] + ("x" + "")));
    ScanLetter(d3, 'x', "^" + (['2', '+'] + ("x" + "")), false);
    ScanOperator(d3 + [Sym("x")], '^', Pow, ['2', '+'] + ("x" + ""), false);
    ScanDigitOperator(d5, '2', '+', 2, Add, "x" + "", false);
    ScanLetter(d5 + [Num(2), Op(Add)], 'x', "", false);
    assert Scan(State(d5 + [Num(2), Op(Add)] + [Sym("x")], "", false), "") == State(d5 + [Num(2), Op(Add)] + [Sym("x")], "", false);
  }

  lemma RepeatedTokens(d7: seq<Token>)
    requires d7 == [] + [Sym("x")] + [Op(Add)] + [Num(3), Op(Mul)] + [Sym("x")] + [Op(Pow)] + [Num(2), Op(Add)] + [Sym("x")]
    ensures d7 == [Sym("x"), Op(Add), Num(3), Op(Mul), Sym("x"), Op(Pow), Num(2), Op(Add), Sym("x")]
  {
  }

  /** `x + 3*x^2 + x` differentiates to `1 + 6*x + 1`. */
  lemma DifferentiateRepeated(u: seq<Token>, v: seq<Token>)
    requires u == [Sym("x")] && v == [Num(3), Op(Mul), Sym("x"), Op(Pow), Num(2)]
    ensures Differentiate(Expression(u + [Op(Add)] + v + [Op(Add)] + u))
         == Success(Expression([Num(1)] + [Op(Add)] + [Num(6), Op(Mul), Sym("x")] + [Op(Add)] + [Num(1)]))
  {
    RuleOfSymbol("x");
    RuleOfScaledPower(3, "x", 2);
    assert CountSyms(u) > 0;
    assert CountSyms(v) > 0 by {
      assert v[2..][0] == Sym("x") && CountSyms(v[2..]) >= 1;
      assert v[1..][1..] == v[2..] && CountSyms(v[1..]) >= 1;
    }
    DifferentiateThreeTerms(u, v, u, [Num(1)], [Num(6), Op(Mul), Sym("x")], [Num(1)]);
  }

  /** For `x+3*x^2+x` the program prints `2 + 1`: the term `6 * x` is lost.
      Collecting by position prints `2 + 6 * x`. */
  lemma RunRepeated(text: string)
    requires text == "x+3*x^2+x"
    ensures Run(text) == Success("2 + 1")
    ensures RunFixed(text) == Success("2 + 6 * x")
  {
    var u := [Sym("x")];
    var v := [Num(3), Op(Mul), Sym("x"), Op(Pow), Num(2)];
    var one := [Num(1)];
    var two := [Num(2)];
    var six := [Num(6), Op(Mul), Sym("x")];
    var dy := Expression(one + [Op(Add)] + six + [Op(Add)] + one);
    var c := Expression(two + [Op(Add)] + one);
    var c' := Expression(two + [Op(Add)] + six);
    assert Parse(text).data == u + [Op(Add)] + v + [Op(Add)] + u by {
      ParseRepeated(text);
    }
    assert Differentiate(Parse(text)) == Success(dy) by {
      DifferentiateRepeated(u, v);
    }
    assert CollectTerms(dy) == Success(c) && CollectTermsFixed(dy) == Success(c') by {
      CollectRepeatedOne();
    }
    assert Str(c) == "2 + 1" && Str(c') == "2 + 6 * x" by {
      RenderCollected(one, two, six);
    }
  }

  /** `2 + 1` and `2 + 6*x` print as `2 + 1` and `2 + 6 * x`. */
  lemma RenderCollected(one: seq<Token>, two: seq<Token>, six: seq<Token>)
    requires one == [Num(1)] && two == [Num(2)] && six == [Num(6), Op(Mul), Sym("x")]
    ensures Str(Expression(two + [Op(Add)] + one)) == "2 + 1"
    ensures Str(Expression(two + [Op(Add)] + six)) == "2 + 6 * x"
  {
    RenderSum(two + [Op(Add)] + one);
    RenderSumWithProduct(two + [Op(Add)] + six);
  }

  lemma RenderSum(d: seq<Token>)
    requires d == [Num(2), Op(Add), Num(1)]
    ensures ExpToString(d) == "2 + 1"
  {
    assert TokenText(Num(2)) == "2" && TokenText(Num(1)) == "1";
    RenderThree(d, "2", "+", "1");
  }

  lemma RenderSumWithProduct(d: seq<Token>)
    requires d == [Num(2), Op(Add), Num(6), Op(Mul), Sym("x")]
    ensures ExpToString(d) == "2 + 6 * x"
  {
    assert TokenText(Num(2)) == "2" && TokenText(Num(6)) == "6";
    RenderFive(d, "2", "+", "6", "*", "x");
  }

  /** A list whose token texts are the clean `words` prints as the words
      joined with single blanks. */
  lemma RenderWords(d: seq<Token>, words: seq<string>)
    requires |d| == |words|
    requires forall i :: 0 <= i < |d| ==> TokenText(d[i]) == words[i] && IsCleanWord(words[i])
    ensures ExpToString(d) == Intercalate(words, ' ')
  {
    RenderJoinsWords(d);
    assert Map(TokenText, d) == words;
  }

  lemma RenderFive(d: seq<Token>, a: string, b: string, c: string, e: string, f: string)
    requires |d| == 5
    requires TokenText(d[0]) == a && TokenText(d[1]) == b && TokenText(d[2]) == c
    requires TokenText(d[3]) == e && TokenText(d[4]) == f
    requires IsCleanWord(a) && IsCleanWord(b) && IsCleanWord(c) && IsCleanWord(e) && IsCleanWord(f)
    ensures ExpToString(d) == a + " " + b + " " + c + " " + e + " " + f
  {
    var words := [a, b, c, e, f];
    RenderWords(d, words);
    JoinFive(words);
  }

  lemma RenderThree(d: seq<Token>, a: string, b: string, c: string)
    requires |d| == 3 && TokenText(d[0]) == a && TokenText(d[1]) == b && TokenText(d[2]) == c
    requires IsCleanWord(a) && IsCleanWord(b) && IsCleanWord(c)
    ensures ExpToString(d) == a + " " + b + " " + c
  {
    RenderWords(d, [a, b, c]);
    JoinThree(a, b, c);
  }

  /** The same with blanks around the operators: `x + 3*x^2 + x` prints
      `2 + 1`. */
  lemma RunRepeatedSpaced(text: string)
    requires text == "x + 3*x^2 + x"
    ensures Run(text) == Success("2 + 1")
    ensures RunFixed(text) == Success("2 + 6 * x")
  {
    RunIgnoresSpaces(text);
    assert RemoveSpaces(text) == "x+3*x^2+x" by {
      SpacesOfRepeated(text);
    }
    RunRepeated(RemoveSpaces(text));
  }

  lemma SpacesOfRepeated(text: string)
    requires text == "x + 3*x^2 + x"
    ensures RemoveSpaces(text) == "x+3*x^2+x"
  {
    var a := "x + ";
    var b := "3*x^2";
    var c := " + x";
    assert text == a + (b + c);
    assert RemoveSpaces(a) == "x+" by {
      SpacedPair('x', '+');
    }
    assert RemoveSpaces(c) == "+x" by {
      SpacedPair('+', 'x');
    }
    assert RemoveSpaces(b) == b by {
      SolidPower(b);
    }
    assert RemoveSpaces(b + c) == b + "+x" by {
      RemoveSpacesAppend(b, c);
    }
    assert RemoveSpaces(text) == "x+" + (b + "+x") by {
      RemoveSpacesAppend(a, b + c);
    }
    assert "x+" + (b + "+x") == "x+3*x^2+x";
  }

  lemma SolidPower(b: string)
    requires b == "3*x^2"
    ensures RemoveSpaces(b) == b
  {
    assert forall i :: 0 <= i < |b| ==> !IsSpace(b[i]);
    RemoveSpacesSolid(b);
  }

  lemma RemoveSpacesAppend(a: string, b: string)
    ensures RemoveSpaces(a + b) == RemoveSpaces(a) + RemoveSpaces(b)
  {
    FilterAppend(c => !IsSpace(c), a, b);
  }

  lemma RemoveSpacesSolid(w: string)
    requires forall i :: 0 <= i < |w| ==> !IsSpace(w[i])
    ensures RemoveSpaces(w) == w
  {
    FilterAll(c => !IsSpace(c), w);
  }

  lemma RemoveSpacesCons(ch: char, s: string)
    ensures RemoveSpaces([ch] + s) == (if IsSpace(ch) then "" else [ch]) + RemoveSpaces(s)
  {
    assert ([ch] + s)[0] == ch && ([ch] + s)[1..] == s;
  }

  /** Two characters, each followed or each preceded by a blank. */
  lemma SpacedPair(x: char, p: char)
    requires !IsSpace(x) && !IsSpace(p)
    ensures RemoveSpaces([x, ' ', p, ' ']) == [x, p]
    ensures RemoveSpaces([' ', x, ' ', p]) == [x, p]
  {
    assert RemoveSpaces([x, ' ', p, ' ']) == [x, p] by {
      SpacedChar(x);
      SpacedChar(p);
      assert [x, ' ', p, ' '] == [x, ' '] + [p, ' '];
      RemoveSpacesAppend([x, ' '], [p, ' ']);
    }
    assert RemoveSpaces([' ', x, ' ', p]) == [x, p] by {
      SpacedChar(x);
      SpacedChar(p);
      assert [' ', x, ' ', p] == [' ', x] + [' ', p];
      RemoveSpacesAppend([' ', x], [' ', p]);
    }
  }

  /** One character with a blank after or before it. */
  lemma SpacedChar(x: char)
    requires !IsSpace(x)
    ensures RemoveSpaces([x, ' ']) == [x] && RemoveSpaces([' ', x]) == [x]
  {
    assert IsSpace(' ');
    RemoveSpacesCons(x, " ");
    RemoveSpacesCons(' ', "");
    RemoveSpacesCons(' ', [x]);
    RemoveSpacesCons(x, "");
    assert [x] + " " == [x, ' '] && [' '] + [x] == [' ', x] && [x] + "" == [x];
  }
}
