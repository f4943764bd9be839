# quickderiv expressions, in Dafny

A model of `expressions.py`, the expression engine of quickderiv. quickderiv
reads a one-variable polynomial such as `3*x^2+5*x+7`, differentiates it term
by term with the power rule, collects like terms and prints the result
(`6 * x + 5`).

An `Expression` is a flat list of tokens. A token is an integer, a string (a
letter, or any literal `int()` rejects) or one of the five operators
`+ - / * ^`. The modules follow the source:

- `Tokens`: the token datatype, the `OPERATORS` table, `str.strip`,
  `tryint` and `str` of an integer.
- `Lists`: `splitlist`, `joinlist`, `list.remove` and `removeall`, with the
  reference definitions they are compared with (`Intercalate`, `Exclude`).
- `Terms`: `tokenize_terms`, `get_order`, `get_coefficient`, and the
  term filter shared by `_remove_constants` and `_remove_zeroes`.
- `Parser`: `Expression(parse=...)` and `_append`, as a left fold over the
  text with a literal buffer and a pending sign.
- `Derivative`: `_remove_constants`, `_power_rule` and `differentiate`.
- `Grouping`: the loop skeleton of `_like_terms` over an abstract key and
  merge function, and the grouping it is meant to compute.
- `Collect`: `_like_terms`, `_remove_zeroes` and `collect_terms`, as
  written and with matched terms removed by position.
- `Render`: `_exp_to_str` and `__str__`.
- `Equality`: `__eq__`.
- `Pipeline`: the command line of `__main__.py`: parse, differentiate,
  collect, print.

Python exceptions become `Failure(Crash)`. A list or tuple appended as a
token, which makes the result something other than a token list, becomes
`Failure(Nested)`; the program itself would go on and print the list's Python
text. The object methods are pure functions: the receiver's
tokens are an argument, and a method that mutates `self.data` returns the new
list.

## Model

| member | source | states |
|---|---|---|
| Tokens.CharOperator | expressions.py:3-11 | looking a character up in the operator table gives the operator whose key it is |
| Tokens.Strip | expressions.py:90 | the stripped text starts and ends with a non-blank, and a text with no blank at either end is unchanged |
| Tokens.StripTrims | expressions.py:90 | the stripped text is the slice of the text between a run of leading blanks and a run of trailing blanks |
| Tokens.TryInt | expressions.py:30-34 | a literal becomes an integer exactly when `int()` accepts it, and is otherwise kept as the same string |
| Tokens.NatToString | expressions.py:267 | `str` of a non-negative integer is a non-empty string of digits with no leading `0` except in `0` itself |
| Tokens.TryIntOfNatToString | expressions.py:30-34 | `tryint(str(n)) == n` for every non-negative n |
| Tokens.IntToString | expressions.py:267 | no contract of its own; `str` of an integer token, a `-` before the digits of a negative one; IntToStringReadsBack states its partner |
| Tokens.IntToStringReadsBack | expressions.py:267 | `str` of every integer reads back through `int()` as the same integer, after the leading `-` when it is negative |
| Lists.Split | expressions.py:36-43 | `splitlist` gives one more part than there are separators, no part holds a separator, and the parts concatenated are the input without its separators |
| Lists.SplitAvoiding | expressions.py:36-43 | a list holding no separator is split into exactly one part, itself |
| Lists.SplitAfterPart | expressions.py:36-43 | a separator-free part followed by a separator is the first part, and the rest is split on its own |
| Lists.JoinList | expressions.py:45-53 | `joinlist` is the non-empty parts with exactly one separator between neighbours |
| Lists.SplitIntercalate | expressions.py:36-43 | splitting separator-free parts joined with a separator gives the parts back |
| Lists.SplitJoinList | expressions.py:36-53 | `splitlist` undoes `joinlist`, up to the dropped empty parts |
| Lists.JoinListShape | expressions.py:45-53 | `joinlist` output has no separator at either end, none twice in a row, and one fewer than there are non-empty parts |
| Lists.JoinListAvoids | expressions.py:45-53 | `joinlist` adds no element other than the separator |
| Lists.RemoveFirst | expressions.py:22 | `list.remove` deletes the element at the first position holding it and keeps the others in order, so exactly one copy goes |
| Lists.RemoveAll | expressions.py:19-22 | `removeall` takes out one copy of each element of `sub` that is still present, and what is left keeps its order |
| Lists.RemoveAllDistinct | expressions.py:19-22 | on a list without repeats, `removeall` keeps exactly the elements not in `sub`, in order |
| Terms.TermsOf | expressions.py:95-96 | the terms are split on `+` and `-`: one more term than separators, none holding a separator |
| Lists.IndexOf | expressions.py:133 | `list.index` gives the first position of the element |
| Terms.GetOrder | expressions.py:130-135 | the order is the token after the first `^`, or the number of string tokens when there is no `^`; it fails exactly when that `^` is the last token |
| Terms.LeadingFactor | expressions.py:143-153 | with a `*` at position 1 after an integer, that integer is taken and the first two tokens are deleted; with a `*` at position 0 and an integer last, that integer is taken and the last two tokens are deleted; any other term gives 0 and is unchanged |
| Terms.Extract | expressions.py:137-157 | no contract of its own; `get_coefficient` with the list it mutates, the recursive call working on the same list; ExtractCases and GetCoefficient state its cases |
| Terms.GetCoefficient | expressions.py:137-157 | a one-token term gives the token, or the pair `(1, s)` for a string; a longer term gives a pair exactly when a non-zero integer stands before a `*` at position 1, or last with the `*` at position 0; every other term gives 0. The pair's coefficient is the taken integer plus the lone integer left after the deletions, if there is one, and for a term of at most three tokens its list is what the deletions leave |
| Terms.ExtractCases | expressions.py:143-157 | the same case split and coefficient value; when no pair is returned, the list left is the term itself for one token and otherwise what the first block left |
| Terms.KeptTerms | expressions.py:191-197 | the terms left after filtering are exactly the terms that passed, in order |
| Terms.KeepTermsIdempotent | expressions.py:191-197 | filtering terms a second time changes nothing |
| Terms.KeepTermsShape | expressions.py:191-197 | the filtered list has no `-`, and no `+` at either end or twice in a row |
| Terms.TermsOfThree | expressions.py:95-96 | the terms of `u + v + w` are `u`, `v`, `w` |
| Terms.TermsOfTwo | expressions.py:95-96 | the terms of `u + v` are `u`, `v` |
| Parser.Flush | expressions.py:88-93 | no contract of its own; `_append`: a non-empty buffer is stripped, read through `tryint` and appended, negated only for a number with the sign pending; FlushedLiteral and FlushInt state it |
| Parser.Step | expressions.py:66-81 | no contract of its own; one pass of the `for c in parse` loop over the tokens, the buffer and `invert`; StepImplicitMul, StepNegatives, StepSubtractions and the Scan lemmas below state what one step does |
| Parser.Scan | expressions.py:66-81 | no contract of its own; the loop over all characters; ScanAppend, ScanLiteral and ScanIgnoresSpaces state it |
| Parser.Parse | expressions.py:56-82 | no contract of its own; `Expression(parse=text)`: the leading `-`, the loop and the final flush; ParseLetters, ParseImplicitMul, ParseNegatives, ParseKeepsSubtractions, LeadingMinus and ParseIgnoresSpaces state its properties |
| Parser.FlushedLiteral | expressions.py:88-93 | a buffered literal becomes one token, negated only when it is an integer and the sign is pending, and never a letter token |
| Parser.FlushInt | expressions.py:88-93 | flushing an integer literal appends its value, negated when asked |
| Parser.ScanLiteral | expressions.py:80-81 | characters that are not operators, blanks or letters accumulate in the buffer |
| Parser.ParseLetters | expressions.py:66-82 | every letter of the text, and nothing else, becomes a one-letter string token, in order |
| Parser.ParseImplicitMul | expressions.py:74-78 | no letter token follows an operand: a `*` is inserted before a letter after anything that is not an operator |
| Parser.ImplicitMulOfLiteral | expressions.py:66-82 | `3x` and `3*x` give the same tokens `[3, *, x]` |
| Parser.ScanAppend | expressions.py:66 | parsing two texts in a row is parsing their concatenation |
| Parser.ParseNegatives | expressions.py:62-82 | a negative integer token is always followed by `*` and a letter: numbers flushed by an operator or at the end are never negated |
| Parser.ParseKeepsSubtractions | expressions.py:63-71 | every `-` of the text stays as a `-` operator, except a leading one |
| Parser.LeadingMinus | expressions.py:63-82 | `-3x` gives `[-3, *, x]` but `-3` gives `[3]` |
| Parser.ParseIgnoresSpaces | expressions.py:73 | removing whitespace does not change the tokens, unless the text starts with blanks followed by `-` |
| Parser.ScanDigitOperator | expressions.py:67-81 | a digit waits in the buffer; the operator after it flushes it as an unsigned literal, appends itself and sets the sign flag exactly when it is `-` |
| Parser.ScanOperator | expressions.py:67-72 | an operator with an empty buffer appends only itself and sets the sign flag exactly when it is `-` |
| Parser.ScanLetter | expressions.py:74-79 | a letter at the start or right after an operator becomes a one-letter symbol with no `*` in front, and the sign flag is kept |
| Parser.ScanLastDigit | expressions.py:80-81 | a digit with nothing after it stays in the buffer for the final flush |
| Derivative.RemoveConstants | expressions.py:195-197 | no contract of its own; `_remove_constants`; RemoveConstantsTerms states it |
| Derivative.RuleLoop | expressions.py:217-245 | no contract of its own; the `while i < len(data)` rewrite of one term, `None` where Python raises; the RuleOf lemmas state its cases |
| Derivative.TermRule | expressions.py:215-245 | no contract of its own; the single-term branch of `_power_rule`; the RuleOf lemmas state it on each term shape |
| Derivative.PowerRule | expressions.py:211-247 | no contract of its own; `_power_rule`; PowerRuleOfTerm and MapTermRule state its two branches |
| Derivative.Differentiate | expressions.py:249-252 | no contract of its own; `differentiate`, a raised exception becoming `Failure(Crash)`; DifferentiateTermwise states it |
| Derivative.MapTermRule | expressions.py:247 | the list comprehension succeeds exactly when the power rule succeeds on every part, and then result i is the rule applied to part i |
| Derivative.RemoveConstantsTerms | expressions.py:195-197 | `_remove_constants` keeps exactly the terms holding a string token, in order, and is idempotent |
| Derivative.PowerRuleOfTerm | expressions.py:211-245 | on a list with no `+` or `-`, `_power_rule` is the single-term rewrite |
| Derivative.DifferentiateTermwise | expressions.py:249-252 | differentiating drops the constant terms, applies the power rule to each remaining term and joins the results with `+`; it fails exactly when the rule fails on one of those terms |
| Derivative.RuleOfSymbol | expressions.py:242-243 | `[x]` becomes `[1]` |
| Derivative.RuleOfLinear | expressions.py:238-241 | `[c, *, x]` becomes `[c]` |
| Derivative.RuleOfPower | expressions.py:220-234 | `[x, ^, 2]` becomes `[2, *, x]`, and `[x, ^, n]` becomes `[n, *, x, ^, n-1]` otherwise |
| Derivative.RuleOfScaledPower | expressions.py:220-230 | `[c, *, x, ^, n]` becomes `[c·n, *, x, ^, n-1]`, without `^ 1` when n is 2 |
| Derivative.RuleOfSymbolicPower | expressions.py:220-223 | a string exponent after `^` makes `_power_rule` raise, because `data[i + 2] -= 1` cannot subtract from a string |
| Derivative.DifferentiateSum | expressions.py:249-252 | two variable terms and a constant differentiate to the two rewritten terms joined with `+` |
| Derivative.DifferentiateThreeTerms | expressions.py:249-252 | three variable terms differentiate to the three rewritten terms joined with `+` |
| Grouping.PassLoop | expressions.py:165-188 | no contract of its own; the `while i < len(split)` loop of `_like_terms` over any key and merge, `removeall` by equality included; PassLoopGroups, PassRemovesSameKey and PassLoopSkips state it |
| Grouping.KeyFilterCons | expressions.py:174 | the first element goes to exactly one side of the order test |
| Grouping.GroupsPartition | expressions.py:166-188 | the groups hold every term exactly as often as the input, each group is non-empty with one order, and different groups have different orders |
| Grouping.PassRemovesSameKey | expressions.py:174-187 | on a list without repeats, a pass for a new order removes exactly the later terms of that order |
| Grouping.PassLoopGroups | expressions.py:166-188 | on a list without repeats, the loop merges exactly the groups, one piece per order, in order of first occurrence |
| Grouping.PassLoopSkips | expressions.py:166-188 | on `[u, v, u]` with `v` of another order, the loop yields the merged copies of `u` and then `u` again, and nothing for `v` |
| Grouping.GroupsOfRepeat | expressions.py:166-188 | the groups of `[u, v, u]` are `[u, u]` and `[v]` |
| Grouping.PassLoopPair | expressions.py:166-188 | two terms of different orders each get a pass of their own |
| Grouping.PassLoopMergePair | expressions.py:166-188 | two terms of the same order, equal or not, are merged by the first pass |
| Collect.MergeItem | expressions.py:169-186 | no contract of its own; one iteration of `_like_terms` for an item and its matchings: the summed coefficient, then the `[co, *] + ex`, `[ex]` or `[co]` piece; LoneConstantPiece, LikeTermsMergePair, ConstantsPiece, LikeTermsNests and DoubledLetterPiece state its cases |
| Collect.GroupPiece | expressions.py:169-186 | no contract of its own; the piece for an item followed by its matchings, a raised `get_order` becoming a crash; the same lemmas state it |
| Collect.LikeLoop | expressions.py:165-188 | no contract of its own; the loop of `_like_terms` on the term lists, as written; LikeTermsAgree and LikeTermsSkipsTerm state it |
| Collect.FixedPieces | expressions.py:165-188 | no contract of its own; the same loop with each matched term removed where it stands; LikeTermsAgree and LikeTermsFixedKeepsTerm state it |
| Collect.Finish | expressions.py:184-189 | no contract of its own; `joinlist(result, +)`, with a crash or a nested `[ex]` piece reported as a fault; FinishNested, FinishFlat and FinishFlatPair state it |
| Collect.RemoveZeroes | expressions.py:191-193 | no contract of its own; `_remove_zeroes`; RemoveZeroesTerms states it |
| Collect.CollectTerms | expressions.py:84-86 | no contract of its own; `collect_terms`: like terms, then zeroes removed; CollectShape, CollectPair and CollectSkipsTerm state it |
| Collect.CollectTermsFixed | expressions.py:84-86 | no contract of its own; `collect_terms` with like terms collected by position; CollectKeepsTerm states it |
| Collect.LikeTerms | expressions.py:159-164 | a list with no `+` or `-` passes through `_like_terms` unchanged |
| Collect.LikeTermsFixed | expressions.py:159-164 | the same for the version that removes matched terms by position |
| Collect.RemoveZeroesTerms | expressions.py:191-193 | `_remove_zeroes` keeps exactly the terms whose coefficient is not 0, in order, and is idempotent |
| Collect.CollectShape | expressions.py:84-86 | after `collect_terms` there is no `-`, no `+` at either end or twice in a row, and no term with coefficient 0 |
| Collect.LikeTermsAgree | expressions.py:159-189 | when no term occurs twice, `_like_terms` agrees with the version that removes matched terms by position |
| Collect.LikeTermsSkipsTerm | expressions.py:167-188 | as written, `u + v + u` with `v` of another order gives the merged `u`s and `u` again, losing `v` |
| Collect.LikeTermsFixedKeepsTerm | expressions.py:167-188 | removing by position, `u + v + u` gives the merged `u`s and then `v` |
| Collect.LikeTermsPair | expressions.py:167-189 | two terms of different orders each become their own piece |
| Collect.CollectPair | expressions.py:84-86 | `collect_terms` leaves two unlike terms with non-zero coefficients unchanged |
| Collect.LoneConstantPiece | expressions.py:170-186 | a lone integer term has order 0 and becomes itself, and is kept by `_remove_zeroes` exactly when it is not 0 |
| Collect.LikeTermsMergePair | expressions.py:167-189 | two terms of the same order become one merged piece |
| Collect.LikeTermsDoubles | expressions.py:170-189 | `x + x` becomes `[2, *, x]` |
| Collect.ConstantsPiece | expressions.py:170-186 | two integer terms merge into their sum |
| Collect.LikeTermsAddsConstants | expressions.py:170-189 | `3 + 4` becomes `[7]` |
| Collect.LikeTermsUnpackFails | expressions.py:173 | a term of order other than 0 whose coefficient is a single value cannot be unpacked into `co, ex`, and `_like_terms` raises |
| Collect.SquarePlusOneFails | expressions.py:173 | `x^2 + 1` makes `_like_terms` raise |
| Collect.LikeTermsNests | expressions.py:178-184 | a positive-order term whose summed coefficient is at most 1 appends a list holding a list |
| Collect.LoneFactorNests | expressions.py:184 | such a term alone gives a nested piece |
| Collect.FinishNested | expressions.py:189 | a nested piece and no exception makes the result nested |
| Collect.LinearTerm | expressions.py:130-157 | `c * x` has order 1 and the coefficient pair `(c, [x])` |
| Collect.LoneLetter | expressions.py:131-140 | a lone letter has order 1 and the coefficient pair `(1, x)` |
| Collect.DoubledLetterPiece | expressions.py:168-182 | two equal lone letters merge into `[2, *]` followed by the letter's characters, as `append.extend(ex)` extends with a string |
| Collect.UnitFactorNests | expressions.py:178-184 | `1*x + 5` gives a nested list |
| Collect.FinishFlat | expressions.py:189 | a single flat piece is the result |
| Collect.FinishFlatPair | expressions.py:189 | two flat pieces are joined with one `+` |
| Collect.ZeroFreePair | expressions.py:191-193 | two terms with non-zero coefficients are left alone by `_remove_zeroes` |
| Collect.OrdersOfRepeatedOne | expressions.py:130-157 | `1` has order 0 and coefficient 1; `6*x` has order 1 and the pair `(6, [x])` |
| Collect.PiecesOfRepeatedOne | expressions.py:170-186 | `1` merged with `1` gives `2`; `1` and `6*x` alone give themselves |
| Collect.CollectSkipsTerm | expressions.py:84-86 | as written, `collect_terms` on `u + v + u` gives the merged `u`s plus `u`, without `v` |
| Collect.CollectKeepsTerm | expressions.py:84-86 | removing by position, `collect_terms` on `u + v + u` gives the merged `u`s plus `v` |
| Collect.CollectRepeatedOne | expressions.py:84-86 | `1 + 6*x + 1` collects to `2 + 1` as written and to `2 + 6*x` by position |
| Render.Spaced | expressions.py:256-267 | no contract of its own; the loop of `_exp_to_str` before `strip`; SpacedJoin states it |
| Render.ExpToString | expressions.py:255-268 | no contract of its own; `_exp_to_str`; SpacedJoin, RenderJoinsWords and RenderSplitsBack state it |
| Render.Str | expressions.py:270-271 | no contract of its own; `__str__`; ParsedWords states it |
| Render.NumberAndOperatorWords | expressions.py:261-267 | integers and operators print as one word with no blank |
| Render.SpacedJoin | expressions.py:256-267 | before stripping, the text is a blank followed by the token texts joined with single blanks |
| Render.RenderJoinsWords | expressions.py:254-268 | when every token prints as a word with no blank at either end, the output is the token texts joined with single blanks |
| Render.StripBlankWord | expressions.py:268 | stripping removes the leading blank and nothing else |
| Render.RenderSplitsBack | expressions.py:254-268 | when no token text holds a blank, splitting the output on blanks gives back one text per token |
| Render.ParsedWords | expressions.py:254-271 | for a parsed expression, splitting `str` on blanks gives back one word per token |
| Equality.MatchTerms | expressions.py:278-283 | no contract of its own; the remove-matching loop of `__eq__`; MatchTermsMultiset states it |
| Equality.Equals | expressions.py:273-284 | no contract of its own; `__eq__`; EqualsTerms and the lemmas after it state it |
| Equality.MatchTermsMultiset | expressions.py:278-283 | the matching loop succeeds exactly when both term lists are the same multiset |
| Equality.EqualsTerms | expressions.py:273-284 | `==` holds exactly when the other operand is an Expression whose terms, split on `+` and `-`, are the same multiset |
| Equality.EqualsReflexive | expressions.py:273-284 | every expression equals itself |
| Equality.EqualsSymmetric | expressions.py:273-284 | `a == b` exactly when `b == a` |
| Equality.EqualsTransitive | expressions.py:273-284 | equality is transitive |
| Equality.EqualsReordered | expressions.py:273-284 | the same terms in any order, joined with either separator, are equal |
| Equality.EqualsSwapped | expressions.py:273-284 | `u ± v` equals `v ± u` |
| Equality.SumEqualsDifference | expressions.py:273-284 | `x + 3` equals `3 - x` |
| Pipeline.Run | __main__.py:6-9 | Run returns `Success` exactly when differentiating and collecting both succeed, and then its value is `str` of the collected derivative; a fault in differentiating, or else in collecting, is the fault returned |
| Pipeline.RunFixed | __main__.py:6-9 | the same for the program that collects by position: `Success` with `str` of the collected derivative exactly when both steps succeed, and otherwise the first fault |
| Pipeline.ParseExample | expressions.py:56-82 | `3*x^2+5*x+7` parses to `[3, *, x, ^, 2, +, 5, *, x, +, 7]` |
| Pipeline.DifferentiateExample | expressions.py:249-252 | `3*x^2 + 5*x + 7` differentiates to `6*x + 5` |
| Pipeline.CollectExample | expressions.py:84-86 | `6*x + 5` has nothing to collect |
| Pipeline.RenderExample | expressions.py:254-268 | `6*x + 5` prints as `6 * x + 5` |
| Pipeline.RunExample | __main__.py:6-9 | given `3*x^2+5*x+7`, the program prints `6 * x + 5` |
| Pipeline.ParseRepeated | expressions.py:56-82 | `x+3*x^2+x` parses to `[x, +, 3, *, x, ^, 2, +, x]` |
| Pipeline.DifferentiateRepeated | expressions.py:249-252 | `x + 3*x^2 + x` differentiates to `1 + 6*x + 1` |
| Pipeline.RunRepeated | __main__.py:6-9 | given `x+3*x^2+x`, the program prints `2 + 1`; collecting by position prints `2 + 6 * x` |
| Pipeline.RunIgnoresSpaces | __main__.py:6-9 | blanks in the text do not change what the program prints, unless the text starts with blanks followed by `-` |
| Pipeline.RunRepeatedSpaced | __main__.py:6-9 | given `x + 3*x^2 + x`, the program prints `2 + 1`; collecting by position prints `2 + 6 * x` |
| Pipeline.RenderSum | expressions.py:254-268 | `[2, +, 1]` prints as `2 + 1` |
| Pipeline.RenderSumWithProduct | expressions.py:254-268 | `[2, +, 6, *, x]` prints as `2 + 6 * x` |
| Pipeline.RenderWords | expressions.py:254-268 | tokens whose texts are words with no blank at either end print as those words joined with single blanks |

## Left out

- `evaluate`, `_evaluate` and `_evaluate_list` (expressions.py:98-128): they compute with floats through `math.pow` and true division, and nothing in the differentiation path calls them.
- `count` and `randombool` (expressions.py:24-28): unused here, and randomness.
- game.py and setup.py: the pygame front end and the packaging script.
- `__main__.py`: joining `sys.argv` and printing are I/O. `Run` takes the joined text and returns the printed string.
- Non-ASCII text: `isspace`, `isalpha` and `int()` are modelled on ASCII only (blanks are 9-13, 28-31 and 32). `int()` is modelled for unsigned decimal digits with single underscores between digits. The buffer never holds a sign or a blank, so the signed and padded forms `int()` accepts never arise.
- Float tokens: no path of the model produces one. `_append` negates only integers, because `tryint` never returns a float.
- Exceptions are a single `Crash` fault, without their Python type or message.
- The first coefficient branch of `get_coefficient` (expressions.py:146-149): its guard `mul_index + 1 > len(exp)` is never true.
- Object identity: `x is not item` in `_like_terms` compares term lists created by `splitlist`. It is modelled as comparing positions.
- The receiver is never mutated: `differentiate` returns a new `Expression` and leaves its receiver alone because every function here is pure.
- Pipeline.Run: where `_like_terms` appends a list as a token (expressions.py:184) and no exception follows, the program goes on and prints that list's Python text, e.g. `['x'] + 3 * x ^ 2` for `-3x^2+x^3`. Run returns `Failure(Nested)` there instead, because tokens are not modelled as Python lists.
- Pipeline.RunFixed: the same nested-list path returns `Failure(Nested)` where the program would print the list's Python text.
- Terms.ExtractCases: the list left in a pair is pinned only for terms of at most three tokens. For longer terms it depends on how many factors the recursive call goes on to take, and a taken `0` still deletes its two tokens; the contract leaves that list open.
- Terms.GetCoefficient: the list left in a pair is pinned only for terms of at most three tokens; longer terms can lose further factors to the recursive call, and the contract leaves that list open.
- Equality.Equals: a plain `object()` operand passes the test at expressions.py:274, because `object` is the base class of `Expression`, and `__eq__` then raises AttributeError at expressions.py:277 when it calls `tokenize_terms`. The model has no such operand: `NotAnExpression` stands only for values that fail the `isinstance` test, and for those `==` is false.
- Parser.ParseImplicitMul: states that every letter token follows an operator or starts the list. That no `*` is added after an operator is shown only for integer literals, by `ImplicitMulOfLiteral`.

## Findings

| source | as written | input that shows it | evidently intended | confidence | as-written member | corrected member |
|---|---|---|---|---|---|---|
| expressions.py:19-22 | `removeall` removes the first term EQUAL to each matching term. In `_like_terms` (expressions.py:187) that can be the item itself or an earlier term, and a term of another order standing between two equal terms is never visited | `x + 3*x^2 + x`: the derivative `1 + 6*x + 1` collects to `2 + 1`, losing `6*x` | each matched term removed where it stands, so `1 + 6*x + 1` collects to `2 + 6*x` | high, not executed | Collect.LikeTermsSkipsTerm | Collect.LikeTermsFixedKeepsTerm |

The as-written behaviour is `Grouping.PassLoopSkips`, `Collect.CollectRepeatedOne` and `Pipeline.RunRepeatedSpaced` (the program prints `2 + 1`). The corrected `LikeTermsFixed` builds one piece per group of `Grouping.Groups`. `Grouping.GroupsPartition` proves that every term lands in exactly one group of its order. `Collect.LikeTermsAgree` proves that the two versions agree whenever no term occurs twice. `Pipeline.RunFixed` is the program with the correction, and `Pipeline.RunRepeatedSpaced` shows it prints `2 + 6 * x`.
