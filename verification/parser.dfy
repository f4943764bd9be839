/**
  The parsing constructor `Expression(parse=text)`: one left-to-right pass
  over the text with a literal buffer, a pending sign and implicit
  multiplication before letters.
 */
module Parser {
  import opened Tokens
  import opened Lists

  /** The locals of the parsing loop: tokens so far, the literal being
      accumulated, and whether a pending sign is set. */
  datatype State = State(data: seq<Token>, buf: string, invert: bool)

  /** `_append(buf, invert)`: a non-empty buffer becomes one token; an
      integer is negated when `invert` is set. */
  function Flush(data: seq<Token>, buf: string, invert: bool): seq<Token>
  {
    if |buf| == 0 then data
    else
      var t := TryInt(Strip(buf));
      data + [if invert && t.Num? then Num(-t.n) else t]
  }

  /** One iteration of the `for c in parse` loop. */
  function Step(st: State, c: char): State
  {
    if IsOperatorChar(c) then
      State(Flush(st.data, st.buf, false) + [Op(CharOperator(c))], "", c == '-')
    else if IsSpace(c) then
      st
    else if IsAlpha(c) then
      var d := Flush(st.data, st.buf, st.invert);
      var d' := if |d| > 0 && !d[|d| - 1].Op? then d + [Op(Mul)] else d;
      State(d' + [Sym([c])], "", st.invert)
    else
      State(st.data, st.buf + [c], st.invert)
  }

  function Scan(st: State, s: string): State
    decreases |s|
  {
    if |s| == 0 then st else Scan(Step(st, s[0]), s[1..])
  }

  /** `Expression(parse=text)`: a leading `-` is dropped and sets the pending
      sign; the buffer left at the end is flushed without a sign. */
  function Parse(text: string): Expression
  {
    var negated := |text| > 0 && text[0] == '-';
    var rest := if negated then text[1..] else text;
    var st := Scan(State([], "", negated), rest);
    Expression(Flush(st.data, st.buf, false))
  }

  // ---------------------------------------------------------------------
  // What the buffer can hold

  /** Characters the loop appends to the buffer. */
  predicate IsLiteralChar(c: char)
  {
    !IsOperatorChar(c) && !IsSpace(c) && !IsAlpha(c)
  }

  predicate LiteralText(s: string)
  {
    forall i :: 0 <= i < |s| ==> IsLiteralChar(s[i])
  }

  /** A one-letter string token: what a letter of the text becomes. */
  predicate IsLetterToken(t: Token)
  {
    t.Sym? && |t.s| == 1 && IsAlpha(t.s[0])
  }

  lemma FlushedLiteral(data: seq<Token>, buf: string, invert: bool)
    requires LiteralText(buf) && |buf| > 0
    ensures var t := TryInt(buf);
      Flush(data, buf, invert) == data + [if invert && t.Num? then Num(-t.n) else t]
    ensures !IsLetterToken(Flush(data, buf, invert)[|data|])
  {
    assert IsLiteralChar(buf[0]) && IsLiteralChar(buf[|buf| - 1]);
    assert Strip(buf) == buf;
    var t := TryInt(buf);
    assert t.Sym? ==> t.s == buf;
  }

  lemma ScanLiteral(data: seq<Token>, buf: string, invert: bool, s: string)
    requires LiteralText(s)
    ensures Scan(State(data, buf, invert), s) == State(data, buf + s, invert)
    decreases |s|
  {
    if |s| > 0 {
      ScanLiteral(data, buf + [s[0]], invert, s[1..]);
      assert buf + [s[0]] + s[1..] == buf + s;
    }
  }

  // ---------------------------------------------------------------------
  // Every letter becomes its own one-character token

  /** The letters that appear as one-letter tokens, in order. */
  function LetterTokens(data: seq<Token>): string
  {
    if |data| == 0 then ""
    else if IsLetterToken(data[0]) then [data[0].s[0]] + LetterTokens(data[1..])
    else LetterTokens(data[1..])
  }

  function Letters(s: string): string
  {
    Filter(IsAlpha, s)
  }

  lemma {:induction false} LetterTokensAppend(a: seq<Token>, b: seq<Token>)
    ensures LetterTokens(a + b) == LetterTokens(a) + LetterTokens(b)
  {
    if |a| == 0 {
      assert a + b == b;
    } else {
      LetterTokensAppend(a[1..], b);
      var h := if IsLetterToken(a[0]) then [a[0].s[0]] else "";
      assert LetterTokens(a + b) == h + LetterTokens(a[1..] + b) by {
        assert a + b == [a[0]] + (a[1..] + b);
        LetterTokensCons(a[0], a[1..] + b);
      }
      assert LetterTokens(a) == h + LetterTokens(a[1..]);
    }
  }

  lemma LetterTokensCons(t: Token, s: seq<Token>)
    ensures LetterTokens([t] + s) == (if IsLetterToken(t) then [t.s[0]] else "") + LetterTokens(s)
  {
    assert ([t] + s)[1..] == s;
  }

  lemma FlushLetters(data: seq<Token>, buf: string, invert: bool)
    requires LiteralText(buf)
    ensures LetterTokens(Flush(data, buf, invert)) == LetterTokens(data)
  {
    if |buf| > 0 {
      FlushedLiteral(data, buf, invert);
      var f := Flush(data, buf, invert);
      LetterTokensAppend(data, [f[|data|]]);
      assert f == data + [f[|data|]];
    }
  }

  lemma StepLetters(st: State, c: char)
    requires LiteralText(st.buf)
    ensures LiteralText(Step(st, c).buf)
    ensures LetterTokens(Step(st, c).data) == LetterTokens(st.data) + Letters([c])
  {
    if IsOperatorChar(c) {
      var f := Flush(st.data, st.buf, false);
      FlushLetters(st.data, st.buf, false);
      LetterTokensAppend(f, [Op(CharOperator(c))]);
    } else if IsSpace(c) {
    } else if IsAlpha(c) {
      var d := Flush(st.data, st.buf, st.invert);
      FlushLetters(st.data, st.buf, st.invert);
      var d' := if |d| > 0 && !d[|d| - 1].Op? then d + [Op(Mul)] else d;
      LetterTokensAppend(d, [Op(Mul)]);
      LetterTokensAppend(d', [Sym([c])]);
      assert Step(st, c).data == d' + [Sym([c])];
    } else {
      assert Step(st, c) == State(st.data, st.buf + [c], st.invert);
    }
  }

  lemma {:induction false} ScanLetters(st: State, s: string)
    requires LiteralText(st.buf)
    ensures LiteralText(Scan(st, s).buf)
    ensures LetterTokens(Scan(st, s).data) == LetterTokens(st.data) + Letters(s)
    decreases |s|
  {
    if |s| > 0 {
      StepLetters(st, s[0]);
      ScanLetters(Step(st, s[0]), s[1..]);
      FilterAppend(IsAlpha, [s[0]], s[1..]);
      assert s == [s[0]] + s[1..];
    }
  }

  /** Every letter of the text, and nothing else, becomes a one-letter string
      token, in the order of the text. */
  lemma ParseLetters(text: string)
    ensures LetterTokens(Parse(text).data) == Letters(text)
  {
    var negated := |text| > 0 && text[0] == '-';
    var rest := if negated then text[1..] else text;
    ScanLetters(State([], "", negated), rest);
    var st := Scan(State([], "", negated), rest);
    FlushLetters(st.data, st.buf, false);
    if negated {
      assert text == ['-'] + rest;
    }
  }

  // ---------------------------------------------------------------------
  // Implicit multiplication

  /** A one-letter token is always the first token or follows an operator. */
  predicate LettersFollowOperators(data: seq<Token>)
  {
    forall k :: 0 < k < |data| && IsLetterToken(data[k]) ==> data[k - 1].Op?
  }

  /** One step of the loop keeps the buffer literal and the letters after
      operators. */
  lemma StepImplicitMul(st: State, c: char)
    requires LiteralText(st.buf) && LettersFollowOperators(st.data)
    ensures LiteralText(Step(st, c).buf) && LettersFollowOperators(Step(st, c).data)
  {
    if IsOperatorChar(c) {
      OperatorImplicitMul(st, c);
    } else if IsAlpha(c) {
      LetterImplicitMul(st, c);
    }
  }

  lemma OperatorImplicitMul(st: State, c: char)
    requires LiteralText(st.buf) && LettersFollowOperators(st.data) && IsOperatorChar(c)
    ensures Step(st, c).buf == "" && LettersFollowOperators(Step(st, c).data)
  {
    if |st.buf| > 0 {
      FlushedLiteral(st.data, st.buf, false);
    }
  }

  lemma LetterImplicitMul(st: State, c: char)
    requires LiteralText(st.buf) && LettersFollowOperators(st.data) && IsAlpha(c)
    ensures Step(st, c).buf == "" && LettersFollowOperators(Step(st, c).data)
  {
    if |st.buf| > 0 {
      FlushedLiteral(st.data, st.buf, st.invert);
    }
  }

  lemma {:induction false} ScanImplicitMul(st: State, s: string)
    requires LiteralText(st.buf) && LettersFollowOperators(st.data)
    ensures LiteralText(Scan(st, s).buf) && LettersFollowOperators(Scan(st, s).data)
    decreases |s|
  {
    if |s| > 0 {
      StepImplicitMul(st, s[0]);
      ScanImplicitMul(Step(st, s[0]), s[1..]);
    }
  }

  /** The parser puts a `*` before every letter that follows an operand, so
      no letter token ever follows an operand. */
  lemma ParseImplicitMul(text: string)
    ensures LettersFollowOperators(Parse(text).data)
  {
    var negated := |text| > 0 && text[0] == '-';
    var rest := if negated then text[1..] else text;
    ScanImplicitMul(State([], "", negated), rest);
    var st := Scan(State([], "", negated), rest);
    if |st.buf| > 0 {
      FlushedLiteral(st.data, st.buf, false);
    }
  }

  lemma ScanOne(st: State, c: char)
    ensures Scan(st, [c]) == Step(st, c)
  {
    assert [c][1..] == [];
  }

  lemma IntLiteralIsLiteralText(digits: string)
    requires IsIntLiteral(digits)
    ensures LiteralText(digits)
  {
    forall i | 0 <= i < |digits|
      ensures IsLiteralChar(digits[i])
    {
      assert IsDigit(digits[i]) || digits[i] == '_';
    }
  }

  /** Flushing an integer literal appends its value, negated when asked. */
  lemma FlushInt(data: seq<Token>, digits: string, invert: bool)
    requires IsIntLiteral(digits)
    ensures Flush(data, digits, invert)
         == data + [Num(if invert then -(DigitsValue(digits) as int) else DigitsValue(digits))]
  {
    IntLiteralIsLiteralText(digits);
    FlushedLiteral(data, digits, invert);
    var t := TryInt(digits);
    assert t == Num(DigitsValue(digits));
  }

  /** The state after an integer literal at the start of the text. */
  lemma ScanLeadingLiteral(digits: string, invert: bool)
    requires IsIntLiteral(digits)
    ensures Scan(State([], "", invert), digits) == State([], digits, invert)
  {
    IntLiteralIsLiteralText(digits);
    ScanLiteral([], "", invert, digits);
    assert "" + digits == digits;
  }

  /** An integer literal written against a letter gives the same tokens as
      the literal, an explicit `*`, and the letter. */
  lemma ImplicitMulOfLiteral(digits: string, c: char)
    requires IsIntLiteral(digits) && IsAlpha(c)
    ensures Parse(digits + [c]) == Parse(digits + "*" + [c])
    ensures Parse(digits + [c]).data == [Num(DigitsValue(digits)), Op(Mul), Sym([c])]
  {
    var init := State([], "", false);
    var v := DigitsValue(digits);
    ScanLeadingLiteral(digits, false);
    FlushInt([], digits, false);
    var st0 := State([], digits, false);
    var expected := State([Num(v), Op(Mul), Sym([c])], "", false);
    // implicit: the letter flushes the literal and a `*` is inserted
    ScanAppend(init, digits, [c]);
    ScanOne(st0, c);
    assert Step(st0, c) == expected;
    assert (digits + [c])[0] == digits[0];
    assert Parse(digits + [c]).data == Flush(expected.data, "", false);
    // explicit: the `*` flushes the literal and the letter follows an operator
    var st1 := State([Num(v), Op(Mul)], "", false);
    assert Step(st0, '*') == st1;
    assert Scan(st0, "*" + [c]) == Scan(st1, [c]);
    ScanOne(st1, c);
    assert Step(st1, c) == expected;
    assert digits + "*" + [c] == digits + ("*" + [c]);
    ScanAppend(init, digits, "*" + [c]);
    assert (digits + "*" + [c])[0] == digits[0];
  }

  lemma {:induction false} ScanAppend(st: State, a: string, b: string)
    ensures Scan(st, a + b) == Scan(Scan(st, a), b)
    decreases |a|
  {
    if |a| == 0 {
      assert a + b == b;
    } else {
      ScanAppend(Step(st, a[0]), a[1..], b);
      assert (a + b)[1..] == a[1..] + b && (a + b)[0] == a[0];
    }
  }

  // ---------------------------------------------------------------------
  // Signs

  /** A negative integer token is always a coefficient: it is followed by a
      `*` and a letter. Numbers flushed by an operator or at the end of the
      text are never negated. */
  predicate NegativesScaleLetters(data: seq<Token>)
  {
    forall k :: 0 <= k < |data| && data[k].Num? && data[k].n < 0 ==>
      k + 2 < |data| && data[k + 1] == Op(Mul) && IsLetterToken(data[k + 2])
  }

  lemma FlushNoSign(data: seq<Token>, buf: string)
    requires LiteralText(buf) && NegativesScaleLetters(data)
    ensures NegativesScaleLetters(Flush(data, buf, false))
  {
    if |buf| > 0 {
      FlushedLiteral(data, buf, false);
    }
  }

  lemma {:induction false} ScanNegatives(st: State, s: string)
    requires LiteralText(st.buf) && NegativesScaleLetters(st.data)
    ensures LiteralText(Scan(st, s).buf) && NegativesScaleLetters(Scan(st, s).data)
    decreases |s|
  {
    if |s| > 0 {
      StepNegatives(st, s[0]);
      ScanNegatives(Step(st, s[0]), s[1..]);
    }
  }

  lemma StepNegatives(st: State, c: char)
    requires LiteralText(st.buf) && NegativesScaleLetters(st.data)
    ensures LiteralText(Step(st, c).buf) && NegativesScaleLetters(Step(st, c).data)
  {
    var data := st.data;
    if IsOperatorChar(c) {
      FlushNoSign(data, st.buf);
      NegativesAppend(Flush(data, st.buf, false), [Op(CharOperator(c))]);
    } else if IsSpace(c) {
    } else if IsAlpha(c) {
      if |st.buf| == 0 {
        var tail := if |data| > 0 && !data[|data| - 1].Op? then [Op(Mul), Sym([c])] else [Sym([c])];
        assert Step(st, c).data == data + tail;
        NegativesAppend(data, tail);
      } else {
        FlushedLiteral(data, st.buf, st.invert);
        var t := TryInt(st.buf);
        var x := if st.invert && t.Num? then Num(-t.n) else t;
        assert Flush(data, st.buf, st.invert) == data + [x];
        assert Step(st, c).data == data + [x, Op(Mul), Sym([c])];
        NegativeBeforeLetter(data, x, c);
      }
    } else {
      assert IsLiteralChar(c);
    }
  }

  /** Appending tokens that are not negative numbers keeps every negative
      number followed by `*` and a letter. */
  lemma NegativesAppend(data: seq<Token>, more: seq<Token>)
    requires NegativesScaleLetters(data)
    requires forall m :: 0 <= m < |more| ==> !(more[m].Num? && more[m].n < 0)
    ensures NegativesScaleLetters(data + more)
  {
    var d := data + more;
    forall k | 0 <= k < |d| && d[k].Num? && d[k].n < 0
      ensures k + 2 < |d| && d[k + 1] == Op(Mul) && IsLetterToken(d[k + 2])
    {
      assert k < |data|;
    }
  }

  /** A number, a `*` and a letter: the number may be negative. */
  lemma NegativeBeforeLetter(data: seq<Token>, x: Token, c: char)
    requires NegativesScaleLetters(data) && IsAlpha(c)
    ensures NegativesScaleLetters(data + [x, Op(Mul), Sym([c])])
  {
    var d := data + [x, Op(Mul), Sym([c])];
    assert IsLetterToken(Sym([c]));
    forall k | 0 <= k < |d| && d[k].Num? && d[k].n < 0
      ensures k + 2 < |d| && d[k + 1] == Op(Mul) && IsLetterToken(d[k + 2])
    {
      if k < |data| {
        assert d[k] == data[k] && d[k + 1] == data[k + 1] && d[k + 2] == data[k + 2];
      }
    }
  }

  lemma ParseNegatives(text: string)
    ensures NegativesScaleLetters(Parse(text).data)
  {
    var negated := |text| > 0 && text[0] == '-';
    var rest := if negated then text[1..] else text;
    ScanNegatives(State([], "", negated), rest);
    var st := Scan(State([], "", negated), rest);
    FlushNoSign(st.data, st.buf);
  }

  lemma {:induction false} ScanSubtractions(st: State, s: string)
    ensures CountIn(Scan(st, s).data, {Op(Sub)}) == CountIn(st.data, {Op(Sub)}) + CountIn(s, {'-'})
    decreases |s|
  {
    if |s| > 0 {
      StepSubtractions(st, s[0]);
      ScanSubtractions(Step(st, s[0]), s[1..]);
      assert s == [s[0]] + s[1..];
      CountInAppend([s[0]], s[1..], {'-'});
    }
  }

  lemma StepSubtractions(st: State, c: char)
    ensures CountIn(Step(st, c).data, {Op(Sub)}) == CountIn(st.data, {Op(Sub)}) + CountIn([c], {'-'})
  {
    assert [c][1..] == [];
    if IsOperatorChar(c) {
      OperatorSubtractions(st, c);
    } else if IsAlpha(c) {
      LetterSubtractions(st, c);
    }
  }

  /** Flushing the buffer adds no `-`. */
  lemma FlushSubtractions(data: seq<Token>, buf: string, invert: bool)
    ensures CountIn(Flush(data, buf, invert), {Op(Sub)}) == CountIn(data, {Op(Sub)})
  {
    var f := Flush(data, buf, invert);
    if |buf| > 0 {
      CountInAppend(data, [f[|data|]], {Op(Sub)});
      assert f == data + [f[|data|]];
    }
  }

  lemma OperatorSubtractions(st: State, c: char)
    requires IsOperatorChar(c)
    ensures CountIn(Step(st, c).data, {Op(Sub)}) == CountIn(st.data, {Op(Sub)}) + (if c == '-' then 1 else 0)
  {
    var f := Flush(st.data, st.buf, false);
    FlushSubtractions(st.data, st.buf, false);
    CountInAppend(f, [Op(CharOperator(c))], {Op(Sub)});
    OperatorCharInjective(CharOperator(c), Sub);
  }

  lemma LetterSubtractions(st: State, c: char)
    requires IsAlpha(c)
    ensures CountIn(Step(st, c).data, {Op(Sub)}) == CountIn(st.data, {Op(Sub)})
  {
    var g := Flush(st.data, st.buf, st.invert);
    FlushSubtractions(st.data, st.buf, st.invert);
    var d' := if |g| > 0 && !g[|g| - 1].Op? then g + [Op(Mul)] else g;
    CountInAppend(g, [Op(Mul)], {Op(Sub)});
    CountInAppend(d', [Sym([c])], {Op(Sub)});
  }


  /** Every `-` of the text stays in the token list as a subtraction operator,
      except a leading one, which only sets the pending sign. */
  lemma ParseKeepsSubtractions(text: string)
    ensures CountIn(Parse(text).data, {Op(Sub)})
         == CountIn(text, {'-'}) - (if |text| > 0 && text[0] == '-' then 1 else 0)
  {
    var negated := |text| > 0 && text[0] == '-';
    var rest := if negated then text[1..] else text;
    ScanSubtractions(State([], "", negated), rest);
    var st := Scan(State([], "", negated), rest);
    var f := Flush(st.data, st.buf, false);
    if |st.buf| > 0 {
      CountInAppend(st.data, [f[|st.data|]], {Op(Sub)});
      assert f == st.data + [f[|st.data|]];
    }
  }

  /** A literal flushed by a letter takes the pending sign; the same literal
      flushed by the end of the text does not. */
  lemma LeadingMinus(digits: string, c: char)
    requires IsIntLiteral(digits) && IsAlpha(c)
    ensures Parse("-" + digits + [c]).data == [Num(-(DigitsValue(digits) as int)), Op(Mul), Sym([c])]
    ensures Parse("-" + digits).data == [Num(DigitsValue(digits))]
  {
    LeadingMinusProduct(digits, c);
    LeadingMinusConstant(digits);
  }

  lemma LeadingMinusProduct(digits: string, c: char)
    requires IsIntLiteral(digits) && IsAlpha(c)
    ensures Parse("-" + digits + [c]).data == [Num(-(DigitsValue(digits) as int)), Op(Mul), Sym([c])]
  {
    assert ("-" + digits + [c])[1..] == digits + [c];
    LeadingLiteralLetter(digits, c);
  }

  /** A negated literal followed by a letter: the literal is flushed with
      its sign and a `*` goes in front of the letter. */
  lemma LeadingLiteralLetter(digits: string, c: char)
    requires IsIntLiteral(digits) && IsAlpha(c)
    ensures Scan(State([], "", true), digits + [c])
         == State([Num(-(DigitsValue(digits) as int)), Op(Mul), Sym([c])], "", true)
  {
    var st0 := State([], digits, true);
    assert Scan(State([], "", true), digits) == st0 by {
      ScanLeadingLiteral(digits, true);
    }
    assert Scan(State([], "", true), digits + [c]) == Step(st0, c) by {
      ScanAppend(State([], "", true), digits, [c]);
      ScanOne(st0, c);
    }
    StepLetterAfterLiteral(digits, c);
  }

  lemma StepLetterAfterLiteral(digits: string, c: char)
    requires IsIntLiteral(digits) && IsAlpha(c)
    ensures Step(State([], digits, true), c)
         == State([Num(-(DigitsValue(digits) as int)), Op(Mul), Sym([c])], "", true)
  {
    assert !IsOperatorChar(c) && !IsSpace(c);
    var d := Flush([], digits, true);
    assert d == [Num(-(DigitsValue(digits) as int))] by {
      FlushInt([], digits, true);
    }
    assert d + [Op(Mul)] + [Sym([c])] == [Num(-(DigitsValue(digits) as int)), Op(Mul), Sym([c])];
  }

  lemma LeadingMinusConstant(digits: string)
    requires IsIntLiteral(digits)
    ensures Parse("-" + digits).data == [Num(DigitsValue(digits))]
  {
    assert Scan(State([], "", true), digits) == State([], digits, true) by {
      ScanLeadingLiteral(digits, true);
    }
    assert ("-" + digits)[1..] == digits;
    FlushInt([], digits, false);
  }

  // ---------------------------------------------------------------------
  // Whitespace

  function RemoveSpaces(s: string): string
  {
    Filter(c => !IsSpace(c), s)
  }

  lemma {:induction false} ScanIgnoresSpaces(st: State, s: string)
    ensures Scan(st, s) == Scan(st, RemoveSpaces(s))
    decreases |s|
  {
    if |s| > 0 {
      ScanIgnoresSpaces(Step(st, s[0]), s[1..]);
      if IsSpace(s[0]) {
        ScanIgnoresSpaces(st, s[1..]);
      }
    }
  }

  /** Whitespace is ignored: removing it gives the same tokens, unless the
      text starts with blanks followed by `-` (the blank keeps that `-` from
      being taken as a sign, so it becomes an operator). */
  lemma ParseIgnoresSpaces(text: string)
    requires |text| > 0 && text[0] != '-' ==> |RemoveSpaces(text)| == 0 || RemoveSpaces(text)[0] != '-'
    ensures Parse(text) == Parse(RemoveSpaces(text))
  {
    var t := RemoveSpaces(text);
    if |text| > 0 && text[0] == '-' {
      assert t == [text[0]] + RemoveSpaces(text[1..]);
      ScanIgnoresSpaces(State([], "", true), text[1..]);
      assert t[1..] == RemoveSpaces(text[1..]);
    } else {
      ScanIgnoresSpaces(State([], "", false), text);
    }
  }

  // ---------------------------------------------------------------------
  // One character at a time

  /** The loop takes the first character, then goes on with the rest. */
  lemma ScanCons(st: State, c: char, rest: string)
    ensures Scan(st, [c] + rest) == Scan(Step(st, c), rest)
  {
    assert ([c] + rest)[0] == c && ([c] + rest)[1..] == rest;
  }

  /** A one-digit literal followed by an operator: the literal is flushed
      without a sign, the operator appended, and the pending sign set exactly
      when the operator is `-`. */
  lemma ScanDigitOperator(data: seq<Token>, c: char, o: char, n: int, op: Operator, rest: string, invert: bool)
    requires IsDigit(c) && IsOperatorChar(o) && DigitValue(c) == n && CharOperator(o) == op
    ensures Scan(State(data, "", invert), [c, o] + rest) == Scan(State(data + [Num(n), Op(op)], "", o == '-'), rest)
  {
    var st := State(data, "", invert);
    assert [c, o] + rest == [c] + ([o] + rest);
    ScanCons(st, c, [o] + rest);
    StepDigit(data, c, invert);
    ScanCons(State(data, [c], invert), o, rest);
    StepFlushDigit(data, c, o, n, op, invert);
  }

  /** A digit with an empty buffer starts the buffer. */
  lemma StepDigit(data: seq<Token>, c: char, invert: bool)
    requires IsDigit(c)
    ensures Step(State(data, "", invert), c) == State(data, [c], invert)
  {
  }

  /** An operator after a one-digit buffer flushes the digit without a sign. */
  lemma StepFlushDigit(data: seq<Token>, c: char, o: char, n: int, op: Operator, invert: bool)
    requires IsDigit(c) && IsOperatorChar(o) && DigitValue(c) == n && CharOperator(o) == op
    ensures Step(State(data, [c], invert), o) == State(data + [Num(n), Op(op)], "", o == '-')
  {
    assert Flush(data, [c], false) == data + [Num(n)] by {
      assert IsIntLiteral([c]);
      FlushInt(data, [c], false);
      assert DigitsValue([c]) == DigitValue(c) by {
        assert [c][..0] == [];
      }
    }
    assert data + [Num(n)] + [Op(op)] == data + [Num(n), Op(op)];
  }

  /** An operator after a letter is appended as it is. */
  lemma ScanOperator(data: seq<Token>, o: char, op: Operator, rest: string, invert: bool)
    requires IsOperatorChar(o) && CharOperator(o) == op
    ensures Scan(State(data, "", invert), [o] + rest) == Scan(State(data + [Op(op)], "", o == '-'), rest)
  {
    ScanCons(State(data, "", invert), o, rest);
  }

  /** A letter at the start or after an operator becomes a one-letter
      string token, with no `*` in front. */
  lemma ScanLetter(data: seq<Token>, x: char, rest: string, invert: bool)
    requires IsAlpha(x) && (|data| == 0 || data[|data| - 1].Op?)
    ensures Scan(State(data, "", invert), [x] + rest) == Scan(State(data + [Sym([x])], "", invert), rest)
  {
    ScanCons(State(data, "", invert), x, rest);
  }

  /** A digit at the end of the text is left in the buffer. */
  lemma ScanLastDigit(data: seq<Token>, c: char, invert: bool)
    requires IsDigit(c)
    ensures Scan(State(data, "", invert), [c]) == State(data, [c], invert)
  {
    ScanCons(State(data, "", invert), c, "");
  }
}
