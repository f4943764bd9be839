/**
  Comparing expressions: `__eq__`.
 */
module Equality {
  import opened Tokens
  import opened Lists
  import opened Terms

  /** The right operand `other` of `==`: an expression, or a value for which
      `isinstance(self, other.__class__)` is false. */
  datatype Operand = AnExpression(e: Expression) | NotAnExpression

  /** The loop of `__eq__`: every term of the left side must find an equal
      term of the right side, which is then removed; at the end nothing may be
      left over. */
  function MatchTerms(xs: seq<seq<Token>>, ys: seq<seq<Token>>): bool
  {
    if |xs| == 0 then |ys| == 0
    else if xs[0] in ys then MatchTerms(xs[1..], RemoveFirst(ys, xs[0]))
    else false
  }

  /** `a == b`. */
  function Equals(a: Expression, b: Operand): bool
  {
    match b
    case NotAnExpression => false
    case AnExpression(e) => MatchTerms(TermsOf(a.data), TermsOf(e.data))
  }

  // ---------------------------------------------------------------------
  // Properties

  /** The loop succeeds exactly when both lists hold the same terms the same
      number of times. */
  lemma {:induction false} MatchTermsMultiset(xs: seq<seq<Token>>, ys: seq<seq<Token>>)
    ensures MatchTerms(xs, ys) <==> multiset(xs) == multiset(ys)
  {
    if |xs| == 0 {
      if |ys| > 0 {
        assert ys[0] in multiset(ys);
      }
    } else {
      var x := xs[0];
      assert multiset(xs) == multiset(xs[1..]) + multiset{x} by {
        assert xs == [x] + xs[1..];
      }
      if x in ys {
        var rest := RemoveFirst(ys, x);
        assert MatchTerms(xs, ys) == MatchTerms(xs[1..], rest);
        assert MatchTerms(xs[1..], rest) <==> multiset(xs[1..]) == multiset(rest) by {
          MatchTermsMultiset(xs[1..], rest);
        }
        assert multiset(ys) == multiset(rest) + multiset{x} by {
          RemoveFirstPutBack(ys, x);
        }
        MultisetCancel(multiset(xs[1..]), multiset(rest), x);
      } else {
        assert x in multiset(xs) && x !in multiset(ys);
      }
    }
  }

  /** Two expressions are equal exactly when their terms, split on `+` and
      `-`, are the same multiset; nothing else equals an expression. */
  lemma EqualsTerms(a: Expression, b: Operand)
    ensures Equals(a, b) <==> b.AnExpression? && multiset(TermsOf(a.data)) == multiset(TermsOf(b.e.data))
  {
    if b.AnExpression? {
      MatchTermsMultiset(TermsOf(a.data), TermsOf(b.e.data));
    }
  }

  lemma EqualsReflexive(a: Expression)
    ensures Equals(a, AnExpression(a))
  {
    EqualsTerms(a, AnExpression(a));
  }

  lemma EqualsSymmetric(a: Expression, b: Expression)
    ensures Equals(a, AnExpression(b)) <==> Equals(b, AnExpression(a))
  {
    EqualsTerms(a, AnExpression(b));
    EqualsTerms(b, AnExpression(a));
  }

  lemma EqualsTransitive(a: Expression, b: Expression, c: Expression)
    requires Equals(a, AnExpression(b)) && Equals(b, AnExpression(c))
    ensures Equals(a, AnExpression(c))
  {
    EqualsTerms(a, AnExpression(b));
    EqualsTerms(b, AnExpression(c));
    EqualsTerms(a, AnExpression(c));
  }

  /** The order of the terms and which of `+` and `-` joins them do not
      matter: the same terms in any order, joined with any separator, give
      equal expressions. */
  lemma EqualsReordered(parts: seq<seq<Token>>, other: seq<seq<Token>>, sep: Token, sep': Token)
    requires |parts| > 0 && multiset(parts) == multiset(other)
    requires forall i :: 0 <= i < |parts| ==> Avoids(parts[i], Separators)
    requires forall i :: 0 <= i < |other| ==> Avoids(other[i], Separators)
    requires sep in Separators && sep' in Separators
    ensures Equals(Expression(Intercalate(parts, sep)), AnExpression(Expression(Intercalate(other, sep'))))
  {
    assert |other| == |multiset(other)| == |multiset(parts)| == |parts|;
    SplitIntercalate(parts, sep, Separators);
    SplitIntercalate(other, sep', Separators);
    EqualsTerms(Expression(Intercalate(parts, sep)), AnExpression(Expression(Intercalate(other, sep'))));
  }

  /** Two terms swapped, with either separator on each side. */
  lemma EqualsSwapped(u: seq<Token>, v: seq<Token>, sep: Token, sep': Token)
    requires Avoids(u, Separators) && Avoids(v, Separators)
    requires sep in Separators && sep' in Separators
    ensures Equals(Expression(u + [sep] + v), AnExpression(Expression(v + [sep'] + u)))
  {
    assert multiset([u, v]) == multiset([v, u]);
    EqualsReordered([u, v], [v, u], sep, sep');
    assert [u, v][1..] == [v] && [v, u][1..] == [u];
    assert Intercalate([u, v], sep) == u + [sep] + v;
    assert Intercalate([v, u], sep') == v + [sep'] + u;
  }

  /** `x + 3` equals `3 - x`. */
  lemma SumEqualsDifference(x: seq<Token>, three: seq<Token>)
    requires x == [Sym("x")] && three == [Num(3)]
    ensures Equals(Expression(x + [Op(Add)] + three), AnExpression(Expression(three + [Op(Sub)] + x)))
  {
    EqualsSwapped(x, three, Op(Add), Op(Sub));
  }
}
