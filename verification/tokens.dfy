/**
  Tokens of the flat expression representation used by `expressions.py`.

  A token is an integer, a string, or one of the five operator objects of
  the `OPERATORS` table. Literals that `int()` rejects stay strings, so
  `"3.5"` is a string token exactly like a variable name.
 */
module Tokens {

  datatype Option<+T> = None | Some(value: T)

  /** The five entries of the `OPERATORS` table. */
  datatype Operator = Add | Sub | Div | Mul | Pow

  datatype Token = Num(n: int) | Sym(s: string) | Op(op: Operator)

  /** An `Expression` object is its token list `data`. */
  datatype Expression = Expression(data: seq<Token>)

  /** Why an operation of the source would not produce a plain token list:
      `Crash` stands for a Python exception (TypeError, IndexError, failed
      tuple unpacking); `Nested` for a list or tuple appended as a token. */
  datatype Fault = Crash | Nested

  datatype Result<+T> = Success(value: T) | Failure(fault: Fault)

  /** The key of an operator in the `OPERATORS` table. */
  function OperatorChar(op: Operator): char
  {
    match op
    case Add => '+'
    case Sub => '-'
    case Div => '/'
    case Mul => '*'
    case Pow => '^'
  }

  predicate IsOperatorChar(c: char)
  {
    c == '+' || c == '-' || c == '/' || c == '*' || c == '^'
  }

  /** Looks a character up in the `OPERATORS` table. */
  function CharOperator(c: char): (op: Operator)
    requires IsOperatorChar(c)
    ensures OperatorChar(op) == c
  {
    if c == '+' then Add
    else if c == '-' then Sub
    else if c == '/' then Div
    else if c == '*' then Mul
    else Pow
  }

  lemma OperatorCharInjective(a: Operator, b: Operator)
    ensures OperatorChar(a) == OperatorChar(b) <==> a == b
    ensures IsOperatorChar(OperatorChar(a)) && CharOperator(OperatorChar(a)) == a
  {
  }

  /** `str.isspace` on the ASCII range. */
  predicate IsSpace(c: char)
  {
    c == ' ' || (9 <= c as int <= 13) || (28 <= c as int <= 31)
  }

  /** `str.isalpha` on the ASCII range. */
  predicate IsAlpha(c: char)
  {
    ('a' <= c <= 'z') || ('A' <= c <= 'Z')
  }

  predicate IsDigit(c: char)
  {
    '0' <= c <= '9'
  }

  /** Every character is a blank (true of the empty text). */
  predicate AllSpace(s: string)
  {
    forall k :: 0 <= k < |s| ==> IsSpace(s[k])
  }

  /** `str.lstrip()`. */
  function StripLeft(s: string): (r: string)
    ensures |r| <= |s|
    ensures |r| > 0 ==> !IsSpace(r[0])
    ensures |s| > 0 && !IsSpace(s[0]) ==> r == s
  {
    if |s| > 0 && IsSpace(s[0]) then StripLeft(s[1..]) else s
  }

  /** `str.rstrip()`. */
  function StripRight(s: string): (r: string)
    ensures |r| <= |s|
    ensures |r| > 0 ==> !IsSpace(r[|r| - 1])
    ensures |s| > 0 && !IsSpace(s[|s| - 1]) ==> r == s
  {
    if |s| > 0 && IsSpace(s[|s| - 1]) then StripRight(s[..|s| - 1]) else s
  }

  /** `lstrip` keeps a suffix and drops only blanks. */
  lemma {:induction false} StripLeftSuffix(s: string)
    ensures var r := StripLeft(s); r == s[|s| - |r|..] && AllSpace(s[..|s| - |r|])
    decreases |s|
  {
    if |s| > 0 && IsSpace(s[0]) {
      var t := s[1..];
      StripLeftSuffix(t);
      var r := StripLeft(t);
      var m := |t| - |r|;
      assert t[m..] == s[m + 1..];
      var head := s[..m + 1];
      forall k | 0 <= k < |head|
        ensures IsSpace(head[k])
      {
        if k > 0 {
          assert head[k] == t[..m][k - 1];
        }
      }
    }
  }

  /** `rstrip` keeps a prefix and drops only blanks. */
  lemma {:induction false} StripRightPrefix(s: string)
    ensures var r := StripRight(s); r == s[..|r|] && AllSpace(s[|r|..])
    decreases |s|
  {
    if |s| > 0 && IsSpace(s[|s| - 1]) {
      var t := s[..|s| - 1];
      StripRightPrefix(t);
      var r := StripRight(t);
      assert t[..|r|] == s[..|r|];
      var tail := s[|r|..];
      forall k | 0 <= k < |tail|
        ensures IsSpace(tail[k])
      {
        if k < |t| - |r| {
          assert tail[k] == t[|r|..][k];
        }
      }
    }
  }

  /** `str.strip()`: the text between the leading and the trailing blanks. */
  function Strip(s: string): (r: string)
    ensures |r| > 0 ==> !IsSpace(r[0]) && !IsSpace(r[|r| - 1])
    ensures |s| > 0 && !IsSpace(s[0]) && !IsSpace(s[|s| - 1]) ==> r == s
  {
    StripRightPrefix(StripLeft(s));
    StripRight(StripLeft(s))
  }

  /** What `str.strip()` keeps is a slice of the text, with nothing but
      blanks before and after it. */
  lemma StripTrims(s: string)
    ensures exists i, j :: 0 <= i <= j <= |s| && Strip(s) == s[i..j] && AllSpace(s[..i]) && AllSpace(s[j..])
  {
    var i := |s| - |StripLeft(s)|;
    var j := i + |StripRight(StripLeft(s))|;
    StripSlices(s, i, j);
  }

  lemma StripSlices(s: string, i: nat, j: nat)
    requires i == |s| - |StripLeft(s)| && j == i + |StripRight(StripLeft(s))|
    ensures j <= |s| && StripRight(StripLeft(s)) == s[i..j] && AllSpace(s[..i]) && AllSpace(s[j..])
  {
    StripLeftSuffix(s);
    StripKept(s, StripLeft(s), i, j);
    StripTrail(s, StripLeft(s), i, j);
  }

  lemma StripKept(s: string, l: string, i: nat, j: nat)
    requires l == StripLeft(s) && i == |s| - |l| && j == i + |StripRight(l)|
    ensures j <= |s| && StripRight(l) == s[i..j]
  {
    StripLeftSuffix(s);
    StripRightPrefix(l);
    assert l == s[i..];
    assert StripRight(l) == l[..j - i];
    SuffixSlices(s, i, j - i);
  }

  lemma StripTrail(s: string, l: string, i: nat, j: nat)
    requires l == StripLeft(s) && i == |s| - |l| && j == i + |StripRight(l)|
    ensures j <= |s| && AllSpace(s[j..])
  {
    StripLeftSuffix(s);
    StripRightPrefix(l);
    assert l == s[i..];
    assert AllSpace(l[j - i..]);
    SuffixSlices(s, i, j - i);
  }

  lemma SuffixSlices(s: string, i: nat, n: nat)
    requires i + n <= |s|
    ensures s[i..][..n] == s[i..i + n] && s[i..][n..] == s[i + n..]
  {
  }

  /** The strings `int()` accepts once no sign and no surrounding blanks are
      possible: decimal digits, with single underscores between digits. */
  predicate IsIntLiteral(s: string)
  {
    && |s| > 0
    && IsDigit(s[0])
    && IsDigit(s[|s| - 1])
    && (forall i :: 0 <= i < |s| ==> IsDigit(s[i]) || s[i] == '_')
    && (forall i :: 0 <= i < |s| - 1 ==> s[i] == '_' ==> s[i + 1] != '_')
  }

  function DigitValue(c: char): nat
    requires IsDigit(c)
  {
    (c as int) - ('0' as int)
  }

  function DigitChar(k: nat): (c: char)
    requires k < 10
    ensures IsDigit(c) && DigitValue(c) == k
  {
    (('0' as int) + k) as char
  }

  /** The value of a digit string, underscores ignored. */
  function DigitsValue(s: string): nat
    requires forall i :: 0 <= i < |s| ==> IsDigit(s[i]) || s[i] == '_'
  {
    if |s| == 0 then 0
    else if s[|s| - 1] == '_' then DigitsValue(s[..|s| - 1])
    else 10 * DigitsValue(s[..|s| - 1]) + DigitValue(s[|s| - 1])
  }

  /** `tryint`: the integer a literal denotes, or the literal itself. */
  function TryInt(s: string): (t: Token)
    ensures t.Num? <==> IsIntLiteral(s)
    ensures t.Num? ==> t.n >= 0
    ensures !t.Num? ==> t == Sym(s)
  {
    if IsIntLiteral(s) then Num(DigitsValue(s)) else Sym(s)
  }

  /** `str` of a non-negative integer: decimal digits, with no leading `0`
      except in `0` itself. */
  function NatToString(n: nat): (s: string)
    ensures |s| > 0
    ensures forall i :: 0 <= i < |s| ==> IsDigit(s[i])
    ensures |s| > 1 ==> s[0] != '0'
    decreases n
  {
    if n < 10 then [DigitChar(n)] else NatToString(n / 10) + [DigitChar(n % 10)]
  }

  /** `str` of an integer. */
  function IntToString(n: int): string
  {
    if n < 0 then "-" + NatToString(-n) else NatToString(n)
  }

  /** `str` of any integer reads back as that integer: directly when it is
      not negative, and after the leading `-` otherwise. */
  lemma IntToStringReadsBack(n: int)
    ensures n >= 0 ==> TryInt(IntToString(n)) == Num(n)
    ensures n < 0 ==> IntToString(n)[0] == '-' && TryInt(IntToString(n)[1..]) == Num(-n)
  {
    if n >= 0 {
      TryIntOfNatToString(n);
    } else {
      TryIntOfNatToString(-n);
      assert IntToString(n)[1..] == NatToString(-n);
    }
  }

  /** `int(str(n)) == n`: the printed form of a non-negative integer token is
      read back as the same integer token. */
  lemma {:induction false} TryIntOfNatToString(n: nat)
    ensures TryInt(NatToString(n)) == Num(n)
  {
    DigitsValueOfNatToString(n);
  }

  lemma {:induction false} DigitsValueOfNatToString(n: nat)
    ensures DigitsValue(NatToString(n)) == n
    decreases n
  {
    var s := NatToString(n);
    if n >= 10 {
      DigitsValueOfNatToString(n / 10);
      assert s[..|s| - 1] == NatToString(n / 10);
    } else {
      assert s[..|s| - 1] == [];
    }
  }
}
