/**
  Term analysis: `tokenize_terms`, `get_order` and `get_coefficient`.
 */
module Terms {
  import opened Tokens
  import opened Lists

  /** `SPLIT_OPERATORS`: the tokens that separate terms. */
  const Separators: set<Token> := {Op(Add), Op(Sub)}

  /** `tokenize_terms`: the terms of a token list, split on `+` and `-`. */
  function TermsOf(data: seq<Token>): (terms: seq<seq<Token>>)
    ensures |terms| == CountIn(data, Separators) + 1
    ensures forall i :: 0 <= i < |terms| ==> Avoids(terms[i], Separators)
  {
    Split(data, Separators)
  }

  /** Number of string tokens. */
  function CountSyms(term: seq<Token>): nat
  {
    if |term| == 0 then 0 else (if term[0].Sym? then 1 else 0) + CountSyms(term[1..])
  }

  /** `get_order`: the token after the first `^`, or else the number of
      string tokens, as an integer token. `None` is the IndexError raised
      when that `^` is the last token. */
  function GetOrder(term: seq<Token>): (r: Option<Token>)
    ensures Op(Pow) !in term ==> r == Some(Num(CountSyms(term)))
    ensures r.None? <==> |term| > 0 && term[|term| - 1] == Op(Pow) && Op(Pow) !in term[..|term| - 1]
    ensures r.Some? && Op(Pow) in term ==>
      exists k :: 0 <= k < |term| - 1 && term[k] == Op(Pow) && Op(Pow) !in term[..k] && r.value == term[k + 1]
  {
    if Op(Pow) in term then
      var k := IndexOf(term, Op(Pow));
      if k + 1 < |term| then Some(term[k + 1])
      else
        assert term[..|term| - 1] == term[..k];
        None
    else Some(Num(CountSyms(term)))
  }

  /** What `get_coefficient` returns: the token itself for a one-token term
      that is not a string (an integer, or an operator); the pair `(1, s)`
      for a one-string term; the integer 0; or the pair of a coefficient and
      the tokens left after the coefficient and its `*` were deleted. */
  datatype Coef = Plain(t: Token) | Unit(name: string) | Factor(c: int, rest: seq<Token>)

  /** The first block of `get_coefficient` for a term of length other than 1.
      Only a `*` at position 0 or 1 is looked at. With the `*` at 1 the integer
      at position 0 is taken, and it and the `*` are deleted. With the `*` at 0
      Python's index -1 takes the last token, and the two deletions at index
      -1 remove the last two tokens. The deletions happen even when the
      integer is 0. The branch guarded by `mul_index + 1 > len(exp)` can never
      be taken and is left out. */
  function LeadingFactor(term: seq<Token>): (r: (int, seq<Token>))
    requires |term| != 1
    ensures |term| >= 2 && term[0].Num? && term[1] == Op(Mul) ==> r == (term[0].n, term[2..])
    ensures |term| >= 2 && term[0] == Op(Mul) && term[|term| - 1].Num? ==>
      r == (term[|term| - 1].n, term[..|term| - 2])
    ensures (!(|term| >= 2 && term[0].Num? && term[1] == Op(Mul))
             && !(|term| >= 2 && term[0] == Op(Mul) && term[|term| - 1].Num?)) ==> r == (0, term)
    ensures r.0 != 0 ==> |r.1| == |term| - 2
    ensures r.1 == term || |r.1| == |term| - 2
  {
    if Op(Mul) in term then
      var k := IndexOf(term, Op(Mul));
      assert k == 1 <==> term[0] != Op(Mul) && term[1] == Op(Mul) by {
        if term[0] != Op(Mul) && term[1] == Op(Mul) {
          assert term[..1] == [term[0]];
        }
      }
      if k == 1 && term[0].Num? then (term[0].n, term[2..])
      else if k == 0 && term[|term| - 1].Num? then (term[|term| - 1].n, term[..|term| - 2])
      else (0, term)
    else (0, term)
  }

  /** `get_coefficient(exp)` together with the list it leaves behind: the
      recursive call runs with `duplicate=False` and mutates the same list,
      and the outer pair carries that mutated list. */
  function Extract(term: seq<Token>): (r: (Coef, seq<Token>))
    decreases |term|
  {
    if |term| == 1 then (if term[0].Sym? then Unit(term[0].s) else Plain(term[0]), term)
    else
      var (c, left) := LeadingFactor(term);
      if c == 0 then (Plain(Num(0)), left)
      else
        var (inner, rest) := Extract(left);
        (Factor(if inner.Plain? && inner.t.Num? then c + inner.t.n else c, rest), rest)
  }

  /** `get_coefficient(exp)`: a term has a coefficient pair exactly when an
      integer other than 0 stands next to its first `*`, that `*` being at
      position 1 (integer at 0) or at position 0 (integer last); every other
      term of length other than 1 gets 0. */
  function GetCoefficient(term: seq<Token>): (r: Coef)
    ensures |term| == 1 ==> r == (if term[0].Sym? then Unit(term[0].s) else Plain(term[0]))
    ensures |term| != 1 ==> (r.Factor? || r == Plain(Num(0)))
    ensures r.Factor? <==>
      && |term| >= 2
      && ((term[0].Num? && term[0].n != 0 && term[1] == Op(Mul))
          || (term[0] == Op(Mul) && term[|term| - 1].Num? && term[|term| - 1].n != 0))
    ensures r.Factor? && term[0].Num? ==>
      r.c == term[0].n + (if |term| == 3 && term[2].Num? then term[2].n else 0)
    ensures r.Factor? && term[0] == Op(Mul) ==> r.c == term[|term| - 1].n
    ensures r.Factor? && |term| <= 3 ==> r.rest == (if term[0].Num? then term[2..] else term[..|term| - 2])
  {
    ExtractCases(term);
    Extract(term).0
  }

  /** The coefficient `get_coefficient` returns and the list it leaves: a
      pair exactly when a non-zero integer stands before a `*` at position 1,
      or last with the `*` at position 0. The pair holds that integer plus the
      lone integer left after the deletions, if there is one; for a term of at
      most three tokens it holds what the deletions leave. */
  lemma ExtractCases(term: seq<Token>)
    ensures var r := Extract(term).0;
      r.Factor? <==>
        && |term| >= 2
        && ((term[0].Num? && term[0].n != 0 && term[1] == Op(Mul))
            || (term[0] == Op(Mul) && term[|term| - 1].Num? && term[|term| - 1].n != 0))
    ensures var r := Extract(term).0;
      r.Factor? && term[0].Num? ==> r.c == term[0].n + (if |term| == 3 && term[2].Num? then term[2].n else 0)
    ensures var r := Extract(term).0;
      r.Factor? && term[0] == Op(Mul) ==> r.c == term[|term| - 1].n
    ensures var r := Extract(term).0;
      r.Factor? && |term| <= 3 ==> r.rest == (if term[0].Num? then term[2..] else term[..|term| - 2])
    ensures var r := Extract(term);
      !r.0.Factor? ==> r.1 == (if |term| == 1 then term else LeadingFactor(term).1)
  {
    if |term| >= 2 {
      var left := LeadingFactor(term).1;
      if |left| == 1 {
        assert Extract(left).0 == (if left[0].Sym? then Unit(left[0].s) else Plain(left[0]));
      } else if |left| == 0 {
        assert Extract(left) == (Plain(Num(0)), left);
      } else {
        assert Extract(left).0.Factor? || Extract(left).0 == Plain(Num(0));
      }
    }
  }

  /** The shared shape of `_remove_constants` and `_remove_zeroes`: the terms
      that pass a test, joined with `+`. */
  function KeepTerms(p: seq<Token> -> bool, data: seq<Token>): seq<Token>
  {
    JoinList(Filter(p, TermsOf(data)), Op(Add))
  }

  /** When the test rejects the empty term, the terms of the result are
      exactly the terms that passed, in their original order (an empty result
      has the single empty term). */
  lemma KeptTerms(p: seq<Token> -> bool, data: seq<Token>)
    requires !p([])
    ensures var kept := Filter(p, TermsOf(data));
      TermsOf(KeepTerms(p, data)) == if |kept| == 0 then [[]] else kept
  {
    var terms := TermsOf(data);
    var kept := Filter(p, terms);
    forall i | 0 <= i < |kept|
      ensures Avoids(kept[i], Separators) && |kept[i]| > 0
    {
      FilterMember(p, terms, kept[i]);
    }
    FilterAll((q: seq<Token>) => |q| > 0, kept);
    SplitJoinList(kept, Op(Add), Separators);
  }

  /** Keeping terms a second time changes nothing. */
  lemma KeepTermsIdempotent(p: seq<Token> -> bool, data: seq<Token>)
    requires !p([])
    ensures KeepTerms(p, KeepTerms(p, data)) == KeepTerms(p, data)
  {
    KeptTerms(p, data);
    var kept := Filter(p, TermsOf(data));
    if |kept| > 0 {
      FilterAll(p, kept);
    }
  }

  /** What keeping terms leaves: no `-`, and no `+` at either end or twice
      in a row. */
  lemma KeepTermsShape(p: seq<Token> -> bool, data: seq<Token>)
    ensures var r := KeepTerms(p, data);
      && Op(Sub) !in r
      && (|r| > 0 ==> r[0] != Op(Add) && r[|r| - 1] != Op(Add))
      && (forall k :: 0 <= k < |r| - 1 ==> !(r[k] == Op(Add) && r[k + 1] == Op(Add)))
  {
    var terms := TermsOf(data);
    var kept := Filter(p, terms);
    forall i | 0 <= i < |kept|
      ensures Avoids(kept[i], Separators) && Avoids(kept[i], {Op(Add)}) && Avoids(kept[i], {Op(Sub)})
    {
      FilterMember(p, terms, kept[i]);
    }
    JoinListShape(kept, Op(Add));
    JoinListAvoids(kept, Op(Add), {Op(Sub)});
  }

  /** The terms of `u + v + w`. */
  lemma TermsOfThree(u: seq<Token>, v: seq<Token>, w: seq<Token>)
    requires Avoids(u, Separators) && Avoids(v, Separators) && Avoids(w, Separators)
    ensures TermsOf(u + [Op(Add)] + v + [Op(Add)] + w) == [u, v, w]
  {
    var parts := [u, v, w];
    assert parts[1..] == [v, w] && parts[1..][1..] == [w];
    assert Intercalate([v, w], Op(Add)) == v + [Op(Add)] + w;
    assert Intercalate(parts, Op(Add)) == u + [Op(Add)] + (v + [Op(Add)] + w);
    assert u + [Op(Add)] + (v + [Op(Add)] + w) == u + [Op(Add)] + v + [Op(Add)] + w;
    SplitIntercalate(parts, Op(Add), Separators);
  }

  /** The terms of `u + v`. */
  lemma TermsOfTwo(u: seq<Token>, v: seq<Token>)
    requires Avoids(u, Separators) && Avoids(v, Separators)
    ensures TermsOf(u + [Op(Add)] + v) == [u, v]
  {
    var parts := [u, v];
    assert parts[1..] == [v];
    assert Intercalate(parts, Op(Add)) == u + [Op(Add)] + v;
    SplitIntercalate(parts, Op(Add), Separators);
  }
}
