/**
  Differentiation: `_remove_constants`, `_power_rule` and `differentiate`.
 */
module Derivative {
  import opened Tokens
  import opened Lists
  import opened Terms

  /** A term that keeps its place under differentiation: it holds at least
      one string token. */
  predicate IsVariableTerm(term: seq<Token>)
  {
    CountSyms(term) != 0
  }

  /** `_remove_constants`: drop every term without a string token and join
      the rest with `+`. */
  function RemoveConstants(data: seq<Token>): seq<Token>
  {
    KeepTerms(IsVariableTerm, data)
  }

  /** Python's reading of a possibly negative list index. */
  function PyIndex(k: int, n: nat): (j: nat)
    requires -(n as int) <= k < n
    ensures j < n
  {
    if k < 0 then k + n else k
  }

  /** The `while i < len(data)` loop of `_power_rule` on a single term, from
      position `i`. `None` is the TypeError of `data[i + 2] -= 1` when the
      token after `^` is not an integer. */
  function RuleLoop(data: seq<Token>, i: nat): Option<seq<Token>>
    decreases |data| - i
  {
    if i >= |data| then Some(data)
    else if !data[i].Sym? then RuleLoop(data, i + 1)
    else if i + 2 < |data| then
      if data[i + 1] == Op(Pow) then
        if !data[i + 2].Num? then None
        else
          var power := data[i + 2].n;
          var lowered := data[i + 2 := Num(power - 1)];
          // an exponent lowered to 1 is deleted together with its `^`
          var d := if power - 1 == 1 then lowered[..i + 1] + lowered[i + 3..] else lowered;
          if i >= 1 && d[i - 1] == Op(Mul) && d[PyIndex(i - 2, |d|)].Num? then
            // an integer coefficient is multiplied by the old exponent
            var j := PyIndex(i - 2, |d|);
            RuleLoop(d[j := Num(d[j].n * power)], i + 2)
          else
            // otherwise the old exponent and a `*` are inserted before the symbol
            RuleLoop(d[..i] + [Num(power), Op(Mul)] + d[i..], i + 3)
      else
        // a symbol followed by something other than `^` is deleted with it
        RuleLoop(data[..i] + data[i + 2..], i + 1)
    else if i >= 1 then
      if data[i - 1] == Op(Mul) && data[PyIndex(i - 2, |data|)].Num? then
        // `c * x` at the end of the term: the `*` and the symbol go
        RuleLoop(data[..i - 1] + data[i + 1..], i + 1)
      else RuleLoop(data, i + 1)
    else
      // a symbol at the front of a term of at most two tokens becomes 1
      RuleLoop(data[i := Num(1)], i + 1)
  }

  /** `_power_rule` on a list that is a single term. */
  function TermRule(term: seq<Token>): Option<seq<Token>>
  {
    RuleLoop(term, 0)
  }

  /** The power rule on each part, failing if any part fails. */
  function MapTermRule(parts: seq<seq<Token>>): (r: Option<seq<seq<Token>>>)
    ensures r.Some? <==> forall i :: 0 <= i < |parts| ==> TermRule(parts[i]).Some?
    ensures r.Some? ==> |r.value| == |parts|
    ensures r.Some? ==> forall i :: 0 <= i < |parts| ==> r.value[i] == TermRule(parts[i]).value
  {
    if |parts| == 0 then Some([])
    else match TermRule(parts[0])
      case None => None
      case Some(first) =>
        match MapTermRule(parts[1..])
        case None => None
        case Some(others) => Some([first] + others)
  }

  /** `_power_rule`: a single term is rewritten in place; several terms are
      rewritten one by one (each part has no separator, so the recursive call
      on it takes the single-term branch) and joined with `+`. */
  function PowerRule(data: seq<Token>): Option<seq<Token>>
  {
    var split := TermsOf(data);
    if |split| == 1 then TermRule(split[0])
    else match MapTermRule(split)
      case None => None
      case Some(rs) => Some(JoinList(rs, Op(Add)))
  }

  /** `differentiate`: a new expression holding the power rule applied to the
      terms that are not constants. */
  function Differentiate(e: Expression): Result<Expression>
  {
    match PowerRule(RemoveConstants(e.data))
    case None => Failure(Crash)
    case Some(d) => Success(Expression(d))
  }

  // ---------------------------------------------------------------------
  // Properties

  /** The terms left by `_remove_constants` are exactly the terms holding a
      string token, in order; a second pass changes nothing. */
  lemma RemoveConstantsTerms(data: seq<Token>)
    ensures var kept := Filter(IsVariableTerm, TermsOf(data));
      TermsOf(RemoveConstants(data)) == if |kept| == 0 then [[]] else kept
    ensures RemoveConstants(RemoveConstants(data)) == RemoveConstants(data)
  {
    KeptTerms(IsVariableTerm, data);
    KeepTermsIdempotent(IsVariableTerm, data);
  }

  /** On a separator-free list, `_power_rule` is the single-term rewrite. */
  lemma PowerRuleOfTerm(term: seq<Token>)
    requires Avoids(term, Separators)
    ensures PowerRule(term) == TermRule(term)
  {
    SplitAvoiding(term, Separators);
  }

  lemma JoinListSingle<T>(r: seq<T>, sep: T)
    ensures JoinList([r], sep) == r
  {
    if |r| > 0 {
      assert NonEmpty([r]) == [r];
    } else {
      assert NonEmpty([r]) == [];
    }
  }

  /** Differentiation works term by term: the terms without a string token
      are dropped, the power rule is applied to each remaining term of the
      original expression, and the results are joined with `+`. It fails
      exactly when the rule fails on one of those terms. */
  lemma DifferentiateTermwise(e: Expression)
    ensures var parts := Filter(IsVariableTerm, TermsOf(e.data));
      Differentiate(e) == match MapTermRule(parts)
        case None => Failure(Crash)
        case Some(rs) => Success(Expression(JoinList(rs, Op(Add))))
  {
    var parts := Filter(IsVariableTerm, TermsOf(e.data));
    RemoveConstantsTerms(e.data);
    if |parts| == 1 {
      match TermRule(parts[0])
      case None =>
      case Some(r) =>
        JoinListSingle(r, Op(Add));
    }
  }

  /** A bare symbol becomes 1. */
  lemma RuleOfSymbol(x: string)
    ensures TermRule([Sym(x)]) == Some([Num(1)])
  {
    var d := [Sym(x)];
    assert d[0 := Num(1)] == [Num(1)];
    assert RuleLoop(d, 0) == RuleLoop([Num(1)], 1);
  }

  /** `c * x` becomes `c`. */
  lemma RuleOfLinear(c: int, x: string)
    ensures TermRule([Num(c), Op(Mul), Sym(x)]) == Some([Num(c)])
  {
    var d := [Num(c), Op(Mul), Sym(x)];
    assert RuleLoop(d, 0) == RuleLoop(d, 1) == RuleLoop(d, 2);
    assert PyIndex(0, 3) == 0;
    assert d[..1] + d[3..] == [Num(c)];
    assert RuleLoop(d, 2) == RuleLoop([Num(c)], 3);
  }

  /** `x ^ n` becomes `n * x ^ (n - 1)`, written `2 * x` when n is 2. */
  lemma RuleOfPower(x: string, n: int)
    ensures TermRule([Sym(x), Op(Pow), Num(n)])
         == Some(if n == 2 then [Num(2), Op(Mul), Sym(x)]
                 else [Num(n), Op(Mul), Sym(x), Op(Pow), Num(n - 1)])
  {
    var data := [Sym(x), Op(Pow), Num(n)];
    var lowered := data[2 := Num(n - 1)];
    var d := if n - 1 == 1 then lowered[..1] + lowered[3..] else lowered;
    var inserted := d[..0] + [Num(n), Op(Mul)] + d[0..];
    assert RuleLoop(data, 0) == RuleLoop(inserted, 3);
    if n == 2 {
      assert d == [Sym(x)];
      assert inserted == [Num(2), Op(Mul), Sym(x)];
    } else {
      assert inserted == [Num(n), Op(Mul), Sym(x), Op(Pow), Num(n - 1)];
      assert RuleLoop(inserted, 3) == RuleLoop(inserted, 4) == RuleLoop(inserted, 5);
    }
  }

  /** `c * x ^ n` becomes `c·n * x ^ (n - 1)`, written `c·2 * x` when n is 2. */
  lemma RuleOfScaledPower(c: int, x: string, n: int)
    ensures TermRule([Num(c), Op(Mul), Sym(x), Op(Pow), Num(n)])
         == Some(if n == 2 then [Num(c * 2), Op(Mul), Sym(x)]
                 else [Num(c * n), Op(Mul), Sym(x), Op(Pow), Num(n - 1)])
  {
    var data := [Num(c), Op(Mul), Sym(x), Op(Pow), Num(n)];
    assert RuleLoop(data, 0) == RuleLoop(data, 1) == RuleLoop(data, 2);
    var lowered := data[4 := Num(n - 1)];
    var d := if n - 1 == 1 then lowered[..3] + lowered[5..] else lowered;
    assert PyIndex(0, |d|) == 0;
    var scaled := d[0 := Num(c * n)];
    assert RuleLoop(data, 2) == RuleLoop(scaled, 4);
    if n == 2 {
      assert scaled == [Num(c * 2), Op(Mul), Sym(x)];
    } else {
      assert scaled == [Num(c * n), Op(Mul), Sym(x), Op(Pow), Num(n - 1)];
      assert RuleLoop(scaled, 4) == RuleLoop(scaled, 5);
    }
  }

  /** A non-integer exponent makes `_power_rule` raise. */
  lemma RuleOfSymbolicPower(x: string, y: string)
    ensures TermRule([Sym(x), Op(Pow), Sym(y)]).None?
  {
  }

  /** Two variable terms and a trailing constant: the constant is dropped and
      each variable term is rewritten on its own, the results joined with `+`. */
  lemma DifferentiateSum(u: seq<Token>, v: seq<Token>, w: seq<Token>, ru: seq<Token>, rv: seq<Token>)
    requires Avoids(u, Separators) && Avoids(v, Separators) && Avoids(w, Separators)
    requires IsVariableTerm(u) && IsVariableTerm(v) && !IsVariableTerm(w)
    requires TermRule(u) == Some(ru) && TermRule(v) == Some(rv) && |ru| > 0 && |rv| > 0
    ensures Differentiate(Expression(u + [Op(Add)] + v + [Op(Add)] + w)) == Success(Expression(ru + [Op(Add)] + rv))
  {
    var e := Expression(u + [Op(Add)] + v + [Op(Add)] + w);
    TermsOfThree(u, v, w);
    DifferentiateTermwise(e);
    var s := [u, v, w];
    assert s[1..] == [v, w] && s[1..][1..] == [w] && s[1..][1..][1..] == [];
    assert Filter(IsVariableTerm, [w]) == [] by {
      assert [w][1..] == [];
    }
    assert Filter(IsVariableTerm, [v, w]) == [v] + [];
    assert Filter(IsVariableTerm, s) == [u] + [v];
    assert [u] + [v] == [u, v] && [v] + [] == [v];
    assert [u, v][1..] == [v] && [v][1..] == [];
    assert MapTermRule([]) == Some([]);
    assert [rv] + [] == [rv];
    assert MapTermRule([v]) == Some([rv] + []);
    assert MapTermRule([v]) == Some([rv]);
    assert [u, v][0] == u;
    assert MapTermRule([u, v]) == Some([ru] + [rv]);
    assert [ru] + [rv] == [ru, rv] && [rv] + [] == [rv];
    FilterAll((p: seq<Token>) => |p| > 0, [ru, rv]);
    assert NonEmpty([ru, rv]) == [ru, rv];
    assert [ru, rv][1..] == [rv];
    assert Intercalate([ru, rv], Op(Add)) == ru + [Op(Add)] + rv;
  }

  /** Three variable terms are each rewritten on their own, the results
      joined with `+`. */
  lemma DifferentiateThreeTerms(u: seq<Token>, v: seq<Token>, w: seq<Token>, ru: seq<Token>, rv: seq<Token>, rw: seq<Token>)
    requires Avoids(u, Separators) && Avoids(v, Separators) && Avoids(w, Separators)
    requires IsVariableTerm(u) && IsVariableTerm(v) && IsVariableTerm(w)
    requires TermRule(u) == Some(ru) && TermRule(v) == Some(rv) && TermRule(w) == Some(rw)
    requires |ru| > 0 && |rv| > 0 && |rw| > 0
    ensures Differentiate(Expression(u + [Op(Add)] + v + [Op(Add)] + w))
         == Success(Expression(ru + [Op(Add)] + rv + [Op(Add)] + rw))
  {
    var e := Expression(u + [Op(Add)] + v + [Op(Add)] + w);
    TermsOfThree(u, v, w);
    DifferentiateTermwise(e);
    var s := [u, v, w];
    FilterAll(IsVariableTerm, s);
    assert s[1..] == [v, w] && s[1..][1..] == [w] && s[1..][1..][1..] == [];
    assert MapTermRule([]) == Some([]);
    assert [rw] + [] == [rw];
    assert MapTermRule([w]) == Some([rw]);
    assert [rv] + [rw] == [rv, rw];
    assert MapTermRule([v, w]) == Some([rv, rw]);
    assert [ru] + [rv, rw] == [ru, rv, rw];
    assert MapTermRule(s) == Some([ru, rv, rw]);
    var rs := [ru, rv, rw];
    FilterAll((p: seq<Token>) => |p| > 0, rs);
    assert NonEmpty(rs) == rs;
    assert rs[1..] == [rv, rw] && rs[1..][1..] == [rw];
    assert Intercalate([rv, rw], Op(Add)) == rv + [Op(Add)] + rw;
    assert Intercalate(rs, Op(Add)) == ru + [Op(Add)] + (rv + [Op(Add)] + rw);
    assert ru + [Op(Add)] + (rv + [Op(Add)] + rw) == ru + [Op(Add)] + rv + [Op(Add)] + rw;
    assert JoinList(rs, Op(Add)) == ru + [Op(Add)] + rv + [Op(Add)] + rw;
  }
}
