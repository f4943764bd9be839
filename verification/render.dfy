/**
  Printing an expression: `_exp_to_str` and `__str__`.
 */
module Render {
  import opened Tokens
  import opened Lists
  import opened Parser

  /** The text of one token: a string token as it is, an operator as its
      character, an integer as `str` prints it. */
  function TokenText(t: Token): string
  {
    match t
    case Sym(s) => s
    case Op(op) => [OperatorChar(op)]
    case Num(n) => IntToString(n)
  }

  /** The string `_exp_to_str` builds before stripping: a blank before every
      token's text. */
  function Spaced(data: seq<Token>): string
  {
    if |data| == 0 then "" else " " + TokenText(data[0]) + Spaced(data[1..])
  }

  /** `_exp_to_str(exp)`. */
  function ExpToString(data: seq<Token>): string
  {
    Strip(Spaced(data))
  }

  /** `str(expression)`. */
  function Str(e: Expression): string
  {
    ExpToString(e.data)
  }

  /** A word that `strip` leaves alone: not empty, no blank at either end. */
  predicate IsCleanWord(w: string)
  {
    |w| > 0 && !IsSpace(w[0]) && !IsSpace(w[|w| - 1])
  }

  /** A word with no blank anywhere. */
  predicate IsSolidWord(w: string)
  {
    |w| > 0 && forall i :: 0 <= i < |w| ==> !IsSpace(w[i])
  }

  // ---------------------------------------------------------------------
  // Properties

  /** Integers and operators always print as a solid word. */
  lemma NumberAndOperatorWords(t: Token)
    requires !t.Sym?
    ensures IsSolidWord(TokenText(t))
  {
    if t.Num? && t.n < 0 {
      var digits := NatToString(-t.n);
      assert TokenText(t) == "-" + digits;
      forall i | 0 <= i < |TokenText(t)|
        ensures !IsSpace(TokenText(t)[i])
      {
        if i > 0 {
          assert TokenText(t)[i] == digits[i - 1];
        }
      }
    }
  }

  /** The first and last characters of words joined with blanks. */
  lemma {:induction false} JoinedEdges(words: seq<string>)
    requires |words| > 0
    requires forall i :: 0 <= i < |words| ==> |words[i]| > 0
    ensures var r := Intercalate(words, ' ');
      |r| > 0 && r[0] == words[0][0] && r[|r| - 1] == words[|words| - 1][|words[|words| - 1]| - 1]
  {
    if |words| > 1 {
      JoinedEdges(words[1..]);
    }
  }

  /** The unstripped string is a blank followed by the token texts joined
      with single blanks. */
  lemma {:induction false} SpacedJoin(data: seq<Token>)
    ensures Spaced(data) == if |data| == 0 then "" else " " + Intercalate(Map(TokenText, data), ' ')
  {
    if |data| > 0 {
      var words := Map(TokenText, data);
      SpacedJoin(data[1..]);
      assert words[1..] == Map(TokenText, data[1..]);
      if |data| > 1 {
        assert Intercalate(words, ' ') == TokenText(data[0]) + [' '] + Intercalate(words[1..], ' ');
      }
    }
  }

  /** When every token prints as a clean word, `_exp_to_str` is exactly the
      token texts joined with single blanks. */
  lemma RenderJoinsWords(data: seq<Token>)
    requires forall i :: 0 <= i < |data| ==> IsCleanWord(TokenText(data[i]))
    ensures ExpToString(data) == Intercalate(Map(TokenText, data), ' ')
  {
    SpacedJoin(data);
    var words := Map(TokenText, data);
    if |data| > 0 {
      forall i | 0 <= i < |words|
        ensures IsCleanWord(words[i])
      {
        assert words[i] == TokenText(data[i]);
      }
      CleanJoin(words);
      StripBlankWord(Intercalate(words, ' '));
    } else {
      assert Strip("") == "";
    }
  }

  /** Clean words joined with blanks make a clean word. */
  lemma CleanJoin(words: seq<string>)
    requires |words| > 0
    requires forall i :: 0 <= i < |words| ==> IsCleanWord(words[i])
    ensures IsCleanWord(Intercalate(words, ' '))
  {
    JoinedEdges(words);
  }

  /** A blank before a clean word is stripped and nothing else is. */
  lemma StripBlankWord(w: string)
    requires IsCleanWord(w)
    ensures Strip(" " + w) == w
  {
    assert (" " + w)[1..] == w;
    assert StripLeft(" " + w) == w;
  }

  /** When every token prints as a solid word, the printed string splits on
      blanks back into the token texts, one per token. */
  lemma RenderSplitsBack(data: seq<Token>)
    requires |data| > 0
    requires forall i :: 0 <= i < |data| ==> IsSolidWord(TokenText(data[i]))
    ensures Split(ExpToString(data), {' '}) == Map(TokenText, data)
  {
    var words := Map(TokenText, data);
    forall i | 0 <= i < |words|
      ensures Avoids(words[i], {' '})
    {
      assert IsSolidWord(words[i]);
    }
    RenderJoinsWords(data);
    SplitIntercalate(words, ' ', {' '});
  }

  /** Every token the parser produces prints as a solid word. */
  predicate SolidTokens(data: seq<Token>)
  {
    forall i :: 0 <= i < |data| ==> IsSolidWord(TokenText(data[i]))
  }

  lemma FlushSolid(data: seq<Token>, buf: string, invert: bool)
    requires LiteralText(buf) && SolidTokens(data)
    ensures SolidTokens(Flush(data, buf, invert))
  {
    if |buf| > 0 {
      FlushedLiteral(data, buf, invert);
      var t := TryInt(buf);
      var u := if invert && t.Num? then Num(-t.n) else t;
      if u.Sym? {
        assert u.s == buf;
      } else {
        NumberAndOperatorWords(u);
      }
      assert Flush(data, buf, invert) == data + [u];
    }
  }

  lemma {:induction false} ScanSolid(st: State, s: string)
    requires LiteralText(st.buf) && SolidTokens(st.data)
    ensures LiteralText(Scan(st, s).buf) && SolidTokens(Scan(st, s).data)
    decreases |s|
  {
    if |s| > 0 {
      var c := s[0];
      FlushSolid(st.data, st.buf, false);
      FlushSolid(st.data, st.buf, st.invert);
      if IsOperatorChar(c) {
        NumberAndOperatorWords(Op(CharOperator(c)));
      } else if IsAlpha(c) {
        NumberAndOperatorWords(Op(Mul));
      }
      ScanSolid(Step(st, c), s[1..]);
    }
  }

  /** The words of a printed parse are the texts of its tokens: splitting
      `str(Expression(parse=text))` on blanks recovers one word per token. */
  lemma ParsedWords(text: string)
    requires |Parse(text).data| > 0
    ensures Split(Str(Parse(text)), {' '}) == Map(TokenText, Parse(text).data)
  {
    var negated := |text| > 0 && text[0] == '-';
    var rest := if negated then text[1..] else text;
    ScanSolid(State([], "", negated), rest);
    var st := Scan(State([], "", negated), rest);
    FlushSolid(st.data, st.buf, false);
    RenderSplitsBack(Parse(text).data);
  }
}
