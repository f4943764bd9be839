/**
  Collecting like terms: `_like_terms`, `_remove_zeroes` and
  `collect_terms`, as written and with the removal of matched terms done by
  position instead of by equality.
 */
module Collect {
  import opened Tokens
  import opened Lists
  import opened Terms
  import opened Grouping

  /** What one pass of the `_like_terms` loop appends to `result`: a flat
      list of tokens, a list holding a list or tuple, or an exception. */
  datatype Piece = Flat(tokens: seq<Token>) | NestedPiece | CrashPiece

  /** What `co += matching_co if isinstance(matching_co, int) else
      matching_co[0]` adds for a matching term; `None` when the coefficient
      is an operator, which cannot be subscripted. */
  function MatchValue(co: Coef): Option<int>
  {
    match co
    case Plain(t) => if t.Num? then Some(t.n) else None
    case Unit(_) => Some(1)
    case Factor(c, _) => Some(c)
  }

  /** The sum of the values of all matching terms. */
  function SumMatches(ms: seq<seq<Token>>): Option<int>
  {
    if |ms| == 0 then Some(0)
    else match (MatchValue(GetCoefficient(ms[0])), SumMatches(ms[1..]))
      case (Some(a), Some(b)) => Some(a + b)
      case _ => None
  }

  /** `list.extend` with a string adds one token per character. */
  function Chars(s: string): seq<Token>
  {
    Map((ch: char) => Sym([ch]), s)
  }

  /** The body of the `_like_terms` loop for one term of the given order and
      its matching terms.
      - Order 0: the coefficient itself, plus the matchings when there are
        any (which needs the coefficient to be an integer).
      - Other orders: the coefficient must unpack into a pair `(co, ex)`.
        For a positive order, `co * ex` when the sum is above 1, else `ex`
        alone (a nested list when `ex` is a list). For an order below 0, the
        sum alone. A non-integer order cannot be compared with 0. */
  function MergeItem(item: seq<Token>, order: Token, ms: seq<seq<Token>>): Piece
  {
    var co := GetCoefficient(item);
    if order == Num(0) then
      if |ms| == 0 then (if co.Plain? then Flat([co.t]) else NestedPiece)
      else if !(co.Plain? && co.t.Num?) then CrashPiece
      else match SumMatches(ms)
        case None => CrashPiece
        case Some(k) => Flat([Num(co.t.n + k)])
    else if co.Plain? then CrashPiece
    else
      var base := if co.Unit? then 1 else co.c;
      match SumMatches(ms)
      case None => CrashPiece
      case Some(k) =>
        if !order.Num? then CrashPiece
        else if order.n > 0 then
          if base + k > 1 then
            Flat([Num(base + k), Op(Mul)] + (if co.Unit? then Chars(co.name) else co.rest))
          else if co.Unit? then Flat([Sym(co.name)])
          else NestedPiece
        else Flat([Num(base + k)])
  }

  /** One pass of the loop body on an item followed by its matching terms. */
  function GroupPiece(g: seq<seq<Token>>): Piece
  {
    if |g| == 0 || GetOrder(g[0]).None? then CrashPiece
    else MergeItem(g[0], GetOrder(g[0]).value, g[1..])
  }

  predicate SomeOrderFails(split: seq<seq<Token>>)
  {
    exists k :: 0 <= k < |split| && GetOrder(split[k]).None?
  }

  /** The `while i < len(split)` loop of `_like_terms`. The first pass
      evaluates `get_order` on every term (the item, then every other term in
      the filter), so a term whose order cannot be read raises there; later
      lists only hold terms of the first one. Each pass merges the item with
      the other terms of the same order (`x is not item` compares positions,
      so terms before the item count too); `removeall` then drops, for each
      matching term, the first term EQUAL to it, which may be the item itself
      or an earlier term. */
  function LikeLoop(split: seq<seq<Token>>): seq<Piece>
  {
    if SomeOrderFails(split) then [CrashPiece] else PassLoop(GetOrder, GroupPiece, split, 0, [])
  }

  function PieceTokens(p: Piece): seq<Token>
  {
    if p.Flat? then p.tokens else []
  }

  /** `joinlist(result, OPERATORS['+'])`, where an exception in any pass
      wins, and a nested piece makes the result something other than a
      token list. */
  function Finish(pieces: seq<Piece>): Result<seq<Token>>
  {
    if exists k :: 0 <= k < |pieces| && pieces[k].CrashPiece? then Failure(Crash)
    else if exists k :: 0 <= k < |pieces| && pieces[k].NestedPiece? then Failure(Nested)
    else Success(JoinList(Map(PieceTokens, pieces), Op(Add)))
  }

  /** `_like_terms(exp)`. */
  function LikeTerms(exp: seq<Token>): (r: Result<seq<Token>>)
    ensures CountIn(exp, Separators) == 0 ==> r == Success(exp)
  {
    var split := TermsOf(exp);
    if |split| == 1 then Success(exp) else Finish(LikeLoop(split))
  }

  /** A term `get_coefficient` does not report as 0. */
  predicate IsNonzeroTerm(t: seq<Token>)
  {
    GetCoefficient(t) != Plain(Num(0))
  }

  /** `_remove_zeroes(exp)`. */
  function RemoveZeroes(exp: seq<Token>): seq<Token>
  {
    KeepTerms(IsNonzeroTerm, exp)
  }

  /** `collect_terms()`: like terms, then zero terms removed. */
  function CollectTerms(e: Expression): Result<Expression>
  {
    match LikeTerms(e.data)
    case Failure(f) => Failure(f)
    case Success(d) => Success(Expression(RemoveZeroes(d)))
  }

  // ---------------------------------------------------------------------
  // Collecting with matched terms removed by position

  /** The pieces of `_like_terms` when each pass removes exactly its
      matching terms: one piece per group. */
  function FixedPieces(split: seq<seq<Token>>): seq<Piece>
  {
    if SomeOrderFails(split) then [CrashPiece] else Map(GroupPiece, Groups(GetOrder, split))
  }

  function LikeTermsFixed(exp: seq<Token>): (r: Result<seq<Token>>)
    ensures CountIn(exp, Separators) == 0 ==> r == Success(exp)
  {
    var split := TermsOf(exp);
    if |split| == 1 then Success(exp) else Finish(FixedPieces(split))
  }

  function CollectTermsFixed(e: Expression): Result<Expression>
  {
    match LikeTermsFixed(e.data)
    case Failure(f) => Failure(f)
    case Success(d) => Success(Expression(RemoveZeroes(d)))
  }

  // ---------------------------------------------------------------------
  // Properties

  /** The terms left by `_remove_zeroes` are exactly the terms whose
      coefficient is not 0, in order; a second pass changes nothing. */
  lemma RemoveZeroesTerms(exp: seq<Token>)
    ensures var kept := Filter(IsNonzeroTerm, TermsOf(exp));
      TermsOf(RemoveZeroes(exp)) == if |kept| == 0 then [[]] else kept
    ensures RemoveZeroes(RemoveZeroes(exp)) == RemoveZeroes(exp)
  {
    assert GetCoefficient([]) == Plain(Num(0));
    KeptTerms(IsNonzeroTerm, exp);
    KeepTermsIdempotent(IsNonzeroTerm, exp);
  }

  /** After `collect_terms` the list has no `-`, no `+` at either end or
      twice in a row, and, unless it is empty, no term whose coefficient is
      0. */
  lemma CollectShape(e: Expression)
    requires CollectTerms(e).Success?
    ensures var r := CollectTerms(e).value.data;
      && Op(Sub) !in r
      && (|r| > 0 ==> r[0] != Op(Add) && r[|r| - 1] != Op(Add))
      && (forall k :: 0 <= k < |r| - 1 ==> !(r[k] == Op(Add) && r[k + 1] == Op(Add)))
      && (|r| > 0 ==> forall i :: 0 <= i < |TermsOf(r)| ==> IsNonzeroTerm(TermsOf(r)[i]))
  {
    var d := LikeTerms(e.data).value;
    var r := CollectTerms(e).value.data;
    assert r == KeepTerms(IsNonzeroTerm, d);
    KeepTermsShape(IsNonzeroTerm, d);
    assert |r| > 0 ==> forall i :: 0 <= i < |TermsOf(r)| ==> IsNonzeroTerm(TermsOf(r)[i]) by {
      RemoveZeroesTerms(d);
      var kept := Filter(IsNonzeroTerm, TermsOf(d));
      if |kept| == 0 {
        assert NonEmpty(kept) == [];
      }
    }
  }

  /** When no term occurs twice, `_like_terms` as written and the version
      that removes matched terms by position agree. */
  lemma LikeTermsAgree(exp: seq<Token>)
    requires Distinct(TermsOf(exp))
    ensures LikeTerms(exp) == LikeTermsFixed(exp)
    ensures CollectTerms(Expression(exp)) == CollectTermsFixed(Expression(exp))
  {
    var split := TermsOf(exp);
    if |split| != 1 && !SomeOrderFails(split) {
      PassLoopGroups(GetOrder, GroupPiece, split);
    }
  }

  // ---------------------------------------------------------------------
  // A term between two copies of another term

  /** As written, `_like_terms` loses a term `v` that stands between two
      copies of a term `u` of another order: the result has a piece for the
      merged copies of `u` and one for the second copy again, and none for
      `v`. */
  lemma LikeTermsSkipsTerm(u: seq<Token>, v: seq<Token>)
    requires Avoids(u, Separators) && Avoids(v, Separators)
    requires GetOrder(u).Some? && GetOrder(v).Some? && GetOrder(u) != GetOrder(v)
    ensures LikeTerms(u + [Op(Add)] + v + [Op(Add)] + u) == Finish([GroupPiece([u, u]), GroupPiece([u])])
  {
    TermsOfThree(u, v, u);
    var split := [u, v, u];
    NoOrderFailsOfRepeat(u, v);
    PassLoopSkips(GetOrder, GroupPiece, u, v);
    assert LikeLoop(split) == [GroupPiece([u, u]), GroupPiece([u])];
  }

  /** Removing matched terms by position gives a piece for `v`. */
  lemma LikeTermsFixedKeepsTerm(u: seq<Token>, v: seq<Token>)
    requires Avoids(u, Separators) && Avoids(v, Separators)
    requires GetOrder(u).Some? && GetOrder(v).Some? && GetOrder(u) != GetOrder(v)
    ensures LikeTermsFixed(u + [Op(Add)] + v + [Op(Add)] + u) == Finish([GroupPiece([u, u]), GroupPiece([v])])
  {
    TermsOfThree(u, v, u);
    var split := [u, v, u];
    NoOrderFailsOfRepeat(u, v);
    GroupsOfRepeat(GetOrder, u, v);
    assert Map(GroupPiece, [[u, u], [v]]) == [GroupPiece([u, u]), GroupPiece([v])];
    assert FixedPieces(split) == [GroupPiece([u, u]), GroupPiece([v])];
  }

  lemma NoOrderFailsOfRepeat(u: seq<Token>, v: seq<Token>)
    requires GetOrder(u).Some? && GetOrder(v).Some?
    ensures !SomeOrderFails([u, v, u])
  {
  }

  /** Two terms of different orders are each a piece of their own. */
  lemma LikeTermsPair(u: seq<Token>, v: seq<Token>)
    requires Avoids(u, Separators) && Avoids(v, Separators)
    requires GetOrder(u).Some? && GetOrder(v).Some? && GetOrder(u) != GetOrder(v)
    ensures LikeTerms(u + [Op(Add)] + v) == Finish([GroupPiece([u]), GroupPiece([v])])
  {
    TermsOfTwo(u, v);
    assert !SomeOrderFails([u, v]);
    PassLoopPair(GetOrder, GroupPiece, u, v);
  }

  /** `collect_terms` leaves two terms of different orders alone when each
      is its own piece and neither has coefficient 0. */
  lemma CollectPair(u: seq<Token>, v: seq<Token>)
    requires Avoids(u, Separators) && Avoids(v, Separators)
    requires GetOrder(u).Some? && GetOrder(v).Some? && GetOrder(u) != GetOrder(v)
    requires GroupPiece([u]) == Flat(u) && GroupPiece([v]) == Flat(v)
    requires |u| > 0 && IsNonzeroTerm(u) && |v| > 0 && IsNonzeroTerm(v)
    ensures CollectTerms(Expression(u + [Op(Add)] + v)) == Success(Expression(u + [Op(Add)] + v))
  {
    LikeTermsPair(u, v);
    var r := u + [Op(Add)] + v;
    FinishFlatPair(u, v, r);
    ZeroFreePair(u, v, r);
  }

  // ---------------------------------------------------------------------
  // Merging, and the two ways a pass goes wrong

  /** Two terms of the same order are merged into one piece. */
  lemma LikeTermsMergePair(u: seq<Token>, v: seq<Token>)
    requires Avoids(u, Separators) && Avoids(v, Separators)
    requires GetOrder(u).Some? && GetOrder(u) == GetOrder(v)
    ensures LikeTerms(u + [Op(Add)] + v) == Finish([GroupPiece([u, v])])
  {
    var split := [u, v];
    assert TermsOf(u + [Op(Add)] + v) == split by {
      TermsOfTwo(u, v);
    }
    assert !SomeOrderFails(split) by {
      assert split[0] == u && split[1] == v;
    }
    assert PassLoop(GetOrder, GroupPiece, split, 0, []) == [GroupPiece([u, v])] by {
      PassLoopMergePair(GetOrder, GroupPiece, u, v);
    }
  }

  /** A single flat piece is the result. */
  lemma FinishFlat(a: seq<Token>)
    requires |a| > 0
    ensures Finish([Flat(a)]) == Success(a)
  {
    var pieces := [Flat(a)];
    assert Map(PieceTokens, pieces) == [a];
    FilterAll((p: seq<Token>) => |p| > 0, [a]);
  }

  /** `x + x` collects to `2 * x`. */
  lemma LikeTermsDoubles(x: seq<Token>)
    requires x == [Sym("x")]
    ensures LikeTerms(x + [Op(Add)] + x) == Success([Num(2), Op(Mul), Sym("x")])
  {
    var r := [Num(2), Op(Mul), Sym("x")];
    assert LikeTerms(x + [Op(Add)] + x) == Finish([GroupPiece([x, x])]) by {
      LoneLetter("x");
      LikeTermsMergePair(x, x);
    }
    assert GroupPiece([x, x]) == Flat(r) by {
      DoubledLetterPiece("x");
      assert Chars("x") == [Sym("x")];
      assert [Num(2), Op(Mul)] + [Sym("x")] == r;
    }
    FinishFlat(r);
  }

  /** A lone letter has order 1 and the unit coefficient. */
  lemma LoneLetter(x: string)
    ensures GetOrder([Sym(x)]) == Some(Num(1)) && GetCoefficient([Sym(x)]) == Unit(x)
  {
    assert CountSyms([Sym(x)]) == 1 by {
      assert [Sym(x)][1..] == [];
    }
  }

  /** Two copies of a letter merge into `2 * letter`. */
  lemma DoubledLetterPiece(x: string)
    ensures GroupPiece([[Sym(x)], [Sym(x)]]) == Flat([Num(2), Op(Mul)] + Chars(x))
  {
    LoneLetter(x);
    var g := [[Sym(x)], [Sym(x)]];
    assert g[1..] == [[Sym(x)]];
    assert SumMatches([[Sym(x)]]) == Some(1) by {
      assert [[Sym(x)]][1..] == [];
    }
  }

  /** Two integer terms merge into their sum. */
  lemma ConstantsPiece(a: int, b: int)
    ensures GroupPiece([[Num(a)], [Num(b)]]) == Flat([Num(a + b)])
  {
    LoneConstantPiece(a);
    LoneConstantPiece(b);
    var g := [[Num(a)], [Num(b)]];
    assert g[1..] == [[Num(b)]] && [[Num(b)]][1..] == [];
    assert SumMatches([[Num(b)]]) == Some(b);
  }

  /** `3 + 4` collects to `7`. */
  lemma LikeTermsAddsConstants(three: seq<Token>, four: seq<Token>)
    requires three == [Num(3)] && four == [Num(4)]
    ensures LikeTerms(three + [Op(Add)] + four) == Success([Num(7)])
  {
    LoneConstantPiece(3);
    LoneConstantPiece(4);
    LikeTermsMergePair(three, four);
    ConstantsPiece(3, 4);
    FinishFlat([Num(7)]);
  }

  /** A term of order other than 0 whose coefficient is an integer (0, for
      a term with no coefficient in front of `*`) cannot be unpacked into a
      pair, and `_like_terms` raises. */
  lemma LikeTermsUnpackFails(u: seq<Token>, v: seq<Token>)
    requires Avoids(u, Separators) && Avoids(v, Separators)
    requires GetOrder(u).Some? && GetOrder(v).Some? && GetOrder(u) != GetOrder(v)
    requires GetOrder(u) != Some(Num(0)) && GetCoefficient(u).Plain?
    ensures LikeTerms(u + [Op(Add)] + v) == Failure(Crash)
  {
    LikeTermsPair(u, v);
    assert [u][1..] == [];
    assert GroupPiece([u]) == CrashPiece;
    assert [GroupPiece([u]), GroupPiece([v])][0].CrashPiece?;
  }

  /** `x^2 + 1` makes `_like_terms` raise: `get_coefficient` gives 0 for
      `x^2`. */
  lemma SquarePlusOneFails(sq: seq<Token>, one: seq<Token>)
    requires sq == [Sym("x"), Op(Pow), Num(2)] && one == [Num(1)]
    ensures LikeTerms(sq + [Op(Add)] + one) == Failure(Crash)
  {
    assert GetOrder(sq) == Some(Num(2));
    assert GetCoefficient(sq) == Plain(Num(0));
    LoneConstantPiece(1);
    LikeTermsUnpackFails(sq, one);
  }

  /** A term of positive order whose merged coefficient is at most 1 appends
      the list `[ex]`, which holds a list: the result is not a token list. */
  lemma LikeTermsNests(u: seq<Token>, v: seq<Token>, c: int, rest: seq<Token>, n: int)
    requires Avoids(u, Separators) && Avoids(v, Separators)
    requires GetOrder(u) == Some(Num(n)) && n > 0 && GetOrder(v).Some? && GetOrder(v) != Some(Num(n))
    requires GetCoefficient(u) == Factor(c, rest) && c <= 1
    requires GroupPiece([v]).Flat?
    ensures LikeTerms(u + [Op(Add)] + v) == Failure(Nested)
  {
    LikeTermsPair(u, v);
    LoneFactorNests(u, c, rest, n);
    FinishNested(GroupPiece([u]), GroupPiece([v]));
  }

  lemma LoneFactorNests(u: seq<Token>, c: int, rest: seq<Token>, n: int)
    requires GetOrder(u) == Some(Num(n)) && n > 0
    requires GetCoefficient(u) == Factor(c, rest) && c <= 1
    ensures GroupPiece([u]) == NestedPiece
  {
    assert [u][1..] == [];
  }

  /** A nested piece without an exception makes the result nested. */
  lemma FinishNested(p: Piece, q: Piece)
    requires p.NestedPiece? && q.Flat?
    ensures Finish([p, q]) == Failure(Nested)
  {
    var pieces := [p, q];
    assert forall k :: 0 <= k < |pieces| ==> !pieces[k].CrashPiece?;
    assert pieces[0].NestedPiece?;
  }

  /** A term `c * x` has order 1 and the coefficient pair `(c, [x])`. */
  lemma LinearTerm(c: int, x: string)
    requires c != 0
    ensures GetOrder([Num(c), Op(Mul), Sym(x)]) == Some(Num(1))
    ensures GetCoefficient([Num(c), Op(Mul), Sym(x)]) == Factor(c, [Sym(x)])
  {
    var t := [Num(c), Op(Mul), Sym(x)];
    assert CountSyms(t) == 1 by {
      var t1 := [Op(Mul), Sym(x)];
      var t2 := [Sym(x)];
      assert t2[1..] == [] && CountSyms(t2) == 1 + CountSyms([]);
      assert t1[1..] == t2 && CountSyms(t1) == CountSyms(t2);
      assert t[1..] == t1 && CountSyms(t) == CountSyms(t1);
    }
    assert IndexOf(t, Op(Mul)) == 1;
    assert LeadingFactor(t) == (c, [Sym(x)]);
    assert Extract([Sym(x)]) == (Unit(x), [Sym(x)]);
    assert Extract(t) == (Factor(c, [Sym(x)]), [Sym(x)]);
  }

  /** `1*x + 5` gives a nested list. */
  lemma UnitFactorNests(ux: seq<Token>, five: seq<Token>)
    requires ux == [Num(1), Op(Mul), Sym("x")] && five == [Num(5)]
    ensures LikeTerms(ux + [Op(Add)] + five) == Failure(Nested)
  {
    LinearTerm(1, "x");
    LoneConstantPiece(5);
    LikeTermsNests(ux, five, 1, [Sym("x")], 1);
  }

  // ---------------------------------------------------------------------
  // The derivative of x + 3*x^2 + x

  lemma OrdersOfRepeatedOne()
    ensures GetOrder([Num(1)]) == Some(Num(0))
    ensures GetOrder([Num(6), Op(Mul), Sym("x")]) == Some(Num(1))
    ensures GetCoefficient([Num(1)]) == Plain(Num(1))
    ensures GetCoefficient([Num(6), Op(Mul), Sym("x")]) == Factor(6, [Sym("x")])
  {
    var t := [Num(6), Op(Mul), Sym("x")];
    assert CountSyms(t) == 1 by {
      assert t[1..] == [Op(Mul), Sym("x")];
      assert t[1..][1..] == [Sym("x")];
    }
    assert IndexOf(t, Op(Mul)) == 1;
    assert LeadingFactor(t) == (6, [Sym("x")]);
  }

  /** The pieces of the merged terms `1 + 1` and of the lone terms. */
  lemma PiecesOfRepeatedOne()
    ensures GroupPiece([[Num(1)], [Num(1)]]) == Flat([Num(2)])
    ensures GroupPiece([[Num(1)]]) == Flat([Num(1)])
    ensures GroupPiece([[Num(6), Op(Mul), Sym("x")]]) == Flat([Num(6), Op(Mul), Sym("x")])
  {
    OrdersOfRepeatedOne();
    assert SumMatches([[Num(1)]]) == Some(1);
  }

  /** A lone integer term has order 0 and is its own piece. */
  lemma LoneConstantPiece(n: int)
    ensures GetOrder([Num(n)]) == Some(Num(0))
    ensures GroupPiece([[Num(n)]]) == Flat([Num(n)])
    ensures n != 0 <==> IsNonzeroTerm([Num(n)])
  {
    assert CountSyms([Num(n)]) == 0 by {
      assert [Num(n)][1..] == [];
    }
    assert [[Num(n)]][1..] == [];
  }

  /** Two flat, non-empty pieces are joined with one `+`. */
  lemma FinishFlatPair(a: seq<Token>, b: seq<Token>, r: seq<Token>)
    requires |a| > 0 && |b| > 0 && r == a + [Op(Add)] + b
    ensures Finish([Flat(a), Flat(b)]) == Success(r)
  {
    var pieces := [Flat(a), Flat(b)];
    assert forall k :: 0 <= k < |pieces| ==> pieces[k].Flat?;
    assert Map(PieceTokens, pieces) == [a, b];
    FilterAll((p: seq<Token>) => |p| > 0, [a, b]);
    assert [a, b][1..] == [b];
    assert Intercalate([a, b], Op(Add)) == a + [Op(Add)] + b;
  }

  /** A sum of two terms whose coefficients are not 0 is left alone by
      `_remove_zeroes`. */
  lemma ZeroFreePair(a: seq<Token>, b: seq<Token>, r: seq<Token>)
    requires |a| > 0 && Avoids(a, Separators) && IsNonzeroTerm(a)
    requires |b| > 0 && Avoids(b, Separators) && IsNonzeroTerm(b)
    requires r == a + [Op(Add)] + b
    ensures RemoveZeroes(r) == r
  {
    var parts := [a, b];
    assert parts[1..] == [b];
    assert Intercalate(parts, Op(Add)) == a + [Op(Add)] + b;
    SplitIntercalate(parts, Op(Add), Separators);
    FilterAll(IsNonzeroTerm, parts);
    FilterAll((p: seq<Token>) => |p| > 0, parts);
  }

  /** `collect_terms` on `u + v + u` as written: the merged copies of `u`
      and the second copy again, with `v` gone. */
  lemma CollectSkipsTerm(u: seq<Token>, v: seq<Token>, a: seq<Token>, b: seq<Token>)
    requires Avoids(u, Separators) && Avoids(v, Separators)
    requires GetOrder(u).Some? && GetOrder(v).Some? && GetOrder(u) != GetOrder(v)
    requires GroupPiece([u, u]) == Flat(a) && GroupPiece([u]) == Flat(b)
    requires |a| > 0 && Avoids(a, Separators) && IsNonzeroTerm(a)
    requires |b| > 0 && Avoids(b, Separators) && IsNonzeroTerm(b)
    ensures CollectTerms(Expression(u + [Op(Add)] + v + [Op(Add)] + u)) == Success(Expression(a + [Op(Add)] + b))
  {
    LikeTermsSkipsTerm(u, v);
    var r := a + [Op(Add)] + b;
    FinishFlatPair(a, b, r);
    ZeroFreePair(a, b, r);
  }

  /** `collect_terms` on `u + v + u` with matched terms removed by position:
      the merged copies of `u`, then `v`. */
  lemma CollectKeepsTerm(u: seq<Token>, v: seq<Token>, a: seq<Token>, b: seq<Token>)
    requires Avoids(u, Separators) && Avoids(v, Separators)
    requires GetOrder(u).Some? && GetOrder(v).Some? && GetOrder(u) != GetOrder(v)
    requires GroupPiece([u, u]) == Flat(a) && GroupPiece([v]) == Flat(b)
    requires |a| > 0 && Avoids(a, Separators) && IsNonzeroTerm(a)
    requires |b| > 0 && Avoids(b, Separators) && IsNonzeroTerm(b)
    ensures CollectTermsFixed(Expression(u + [Op(Add)] + v + [Op(Add)] + u)) == Success(Expression(a + [Op(Add)] + b))
  {
    LikeTermsFixedKeepsTerm(u, v);
    var r := a + [Op(Add)] + b;
    FinishFlatPair(a, b, r);
    ZeroFreePair(a, b, r);
  }

  /** `1 + 6 * x + 1`, what `_power_rule` makes of `x + 3 * x ^ 2 + x`,
      collects to `2 + 1` as written, losing the term `6 * x`; with matched
      terms removed by position it collects to `2 + 6 * x`. */
  lemma CollectRepeatedOne()
    ensures var one := [Num(1)];
      var six := [Num(6), Op(Mul), Sym("x")];
      var exp := one + [Op(Add)] + six + [Op(Add)] + one;
      && CollectTerms(Expression(exp)) == Success(Expression([Num(2)] + [Op(Add)] + one))
      && CollectTermsFixed(Expression(exp)) == Success(Expression([Num(2)] + [Op(Add)] + six))
  {
    var one := [Num(1)];
    var six := [Num(6), Op(Mul), Sym("x")];
    OrdersOfRepeatedOne();
    PiecesOfRepeatedOne();
    assert IsNonzeroTerm([Num(2)]);
    CollectSkipsTerm(one, six, [Num(2)], one);
    CollectKeepsTerm(one, six, [Num(2)], six);
  }
}
