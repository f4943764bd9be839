/**
  The list helpers of `expressions.py`: `splitlist`, `joinlist` and
  `removeall`, with the generic filtering and mapping the rest of the model
  needs, and the reference definitions they are compared with.
 */
module Lists {

  /** Every element of `p` lies outside `seps`. */
  predicate Avoids<T(==)>(p: seq<T>, seps: set<T>)
  {
    forall i :: 0 <= i < |p| ==> p[i] !in seps
  }

  /** Number of elements of `s` that are separators. */
  function CountIn<T(==)>(s: seq<T>, seps: set<T>): nat
  {
    if |s| == 0 then 0 else (if s[0] in seps then 1 else 0) + CountIn(s[1..], seps)
  }

  /** `s` with every separator dropped. */
  function Without<T(==)>(s: seq<T>, seps: set<T>): seq<T>
  {
    if |s| == 0 then [] else (if s[0] in seps then [] else [s[0]]) + Without(s[1..], seps)
  }

  function Flatten<T>(parts: seq<seq<T>>): seq<T>
  {
    if |parts| == 0 then [] else parts[0] + Flatten(parts[1..])
  }

  function Filter<T(==)>(p: T -> bool, s: seq<T>): (r: seq<T>)
    ensures |r| <= |s|
    ensures forall i :: 0 <= i < |r| ==> p(r[i])
  {
    if |s| == 0 then []
    else if p(s[0]) then [s[0]] + Filter(p, s[1..])
    else Filter(p, s[1..])
  }

  /** An element is kept exactly when it is in the list and passes. */
  lemma {:induction false} FilterMember<T>(p: T -> bool, s: seq<T>, x: T)
    ensures x in Filter(p, s) <==> x in s && p(x)
  {
    if |s| > 0 {
      FilterMember(p, s[1..], x);
      assert s == [s[0]] + s[1..];
    }
  }

  function Map<A, B>(f: A -> B, s: seq<A>): (r: seq<B>)
    ensures |r| == |s|
    ensures forall i :: 0 <= i < |s| ==> r[i] == f(s[i])
  {
    if |s| == 0 then [] else [f(s[0])] + Map(f, s[1..])
  }

  /** The parts that are not empty, in order (the `if i:` test of `joinlist`). */
  function NonEmpty<T(==)>(parts: seq<seq<T>>): seq<seq<T>>
  {
    Filter((p: seq<T>) => |p| > 0, parts)
  }

  lemma NonEmptyMember<T>(parts: seq<seq<T>>, x: seq<T>)
    ensures x in NonEmpty(parts) <==> x in parts && |x| > 0
  {
    FilterMember((p: seq<T>) => |p| > 0, parts, x);
  }

  /** `splitlist(data, *separators)`: the maximal separator-free runs of `s`,
      one more than there are separators. */
  function Split<T(==)>(s: seq<T>, seps: set<T>): (parts: seq<seq<T>>)
    ensures |parts| == CountIn(s, seps) + 1
    ensures forall i :: 0 <= i < |parts| ==> Avoids(parts[i], seps)
    ensures Flatten(parts) == Without(s, seps)
  {
    if |s| == 0 then [[]]
    else
      var rest := Split(s[1..], seps);
      if s[0] in seps then [[]] + rest
      else [[s[0]] + rest[0]] + rest[1..]
  }

  /** Reference: the parts with exactly one separator between neighbours. */
  function Intercalate<T>(parts: seq<seq<T>>, sep: T): seq<T>
  {
    if |parts| == 0 then []
    else if |parts| == 1 then parts[0]
    else parts[0] + [sep] + Intercalate(parts[1..], sep)
  }

  /** The list `joinlist` builds before it deletes its last element: every
      non-empty part followed by the separator. */
  function JoinWithTrailing<T(==)>(parts: seq<seq<T>>, sep: T): seq<T>
  {
    if |parts| == 0 then []
    else (if |parts[0]| > 0 then parts[0] + [sep] else []) + JoinWithTrailing(parts[1..], sep)
  }

  /** `joinlist(data, separator)`. */
  function JoinList<T(==)>(parts: seq<seq<T>>, sep: T): (r: seq<T>)
    ensures r == Intercalate(NonEmpty(parts), sep)
  {
    var acc := JoinWithTrailing(parts, sep);
    JoinWithTrailingIntercalates(parts, sep);
    if |acc| > 0 then acc[..|acc| - 1] else acc
  }

  lemma {:induction false} JoinWithTrailingIntercalates<T>(parts: seq<seq<T>>, sep: T)
    ensures JoinWithTrailing(parts, sep)
         == if |NonEmpty(parts)| == 0 then [] else Intercalate(NonEmpty(parts), sep) + [sep]
  {
    if |parts| > 0 {
      JoinWithTrailingIntercalates(parts[1..], sep);
      var rest := NonEmpty(parts[1..]);
      if |parts[0]| > 0 {
        assert NonEmpty(parts) == [parts[0]] + rest;
        if |rest| > 0 {
          assert ([parts[0]] + rest)[1..] == rest;
        }
      }
    }
  }

  /** Splitting a separator-free list gives the list back as the only part. */
  lemma {:induction false} SplitAvoiding<T>(p: seq<T>, seps: set<T>)
    requires Avoids(p, seps)
    ensures Split(p, seps) == [p]
  {
    if |p| > 0 {
      SplitAvoiding(p[1..], seps);
      assert [p[0]] + p[1..] == p;
    }
  }

  /** A separator after a separator-free prefix closes exactly that part. */
  lemma {:induction false} SplitAfterPart<T>(p: seq<T>, sep: T, q: seq<T>, seps: set<T>)
    requires Avoids(p, seps) && sep in seps
    ensures Split(p + [sep] + q, seps) == [p] + Split(q, seps)
  {
    if |p| == 0 {
      assert p + [sep] + q == [sep] + q;
      assert ([sep] + q)[1..] == q;
    } else {
      SplitAfterPart(p[1..], sep, q, seps);
      assert (p + [sep] + q)[1..] == p[1..] + [sep] + q;
      assert [p[0]] + p[1..] == p;
    }
  }

  /** Joining separator-free parts and splitting again gives the parts back. */
  lemma {:induction false} SplitIntercalate<T>(parts: seq<seq<T>>, sep: T, seps: set<T>)
    requires |parts| > 0 && sep in seps
    requires forall i :: 0 <= i < |parts| ==> Avoids(parts[i], seps)
    ensures Split(Intercalate(parts, sep), seps) == parts
  {
    if |parts| == 1 {
      SplitAvoiding(parts[0], seps);
    } else {
      SplitIntercalate(parts[1..], sep, seps);
      SplitAfterPart(parts[0], sep, Intercalate(parts[1..], sep), seps);
      assert [parts[0]] + parts[1..] == parts;
    }
  }

  /** `splitlist` undoes `joinlist`: the parts come back without the empty ones
      (and an empty join splits into one empty part). */
  lemma SplitJoinList<T>(parts: seq<seq<T>>, sep: T, seps: set<T>)
    requires sep in seps
    requires forall i :: 0 <= i < |parts| ==> Avoids(parts[i], seps)
    ensures Split(JoinList(parts, sep), seps)
         == if |NonEmpty(parts)| == 0 then [[]] else NonEmpty(parts)
  {
    var ne := NonEmpty(parts);
    if |ne| > 0 {
      forall i | 0 <= i < |ne|
        ensures Avoids(ne[i], seps)
      {
        NonEmptyMember(parts, ne[i]);
      }
      SplitIntercalate(ne, sep, seps);
    }
  }

  /** The separator occurs in an intercalation of non-empty, separator-free
      parts only between two parts: never first, never last, never twice in a
      row, and |parts| - 1 times in all. */
  lemma {:induction false} IntercalateShape<T>(parts: seq<seq<T>>, sep: T)
    requires |parts| > 0
    requires forall i :: 0 <= i < |parts| ==> |parts[i]| > 0 && Avoids(parts[i], {sep})
    ensures var r := Intercalate(parts, sep);
      && |r| > 0 && r[0] != sep && r[|r| - 1] != sep
      && (forall k :: 0 <= k < |r| - 1 ==> !(r[k] == sep && r[k + 1] == sep))
      && CountIn(r, {sep}) == |parts| - 1
  {
    var r := Intercalate(parts, sep);
    if |parts| == 1 {
      CountAvoiding(parts[0], {sep});
    } else {
      var tail := Intercalate(parts[1..], sep);
      IntercalateShape(parts[1..], sep);
      var p := parts[0];
      assert r == p + ([sep] + tail);
      forall k | 0 <= k < |r| - 1
        ensures !(r[k] == sep && r[k + 1] == sep)
      {
        if k < |p| {
          assert r[k] == p[k];
        } else if k == |p| {
          assert r[k + 1] == tail[0];
        } else {
          assert r[k] == tail[k - |p| - 1] && r[k + 1] == tail[k - |p|];
        }
      }
      CountAvoiding(p, {sep});
      CountInAppend(p, [sep] + tail, {sep});
      CountInAppend([sep], tail, {sep});
    }
  }

  lemma {:induction false} CountAvoiding<T>(p: seq<T>, seps: set<T>)
    requires Avoids(p, seps)
    ensures CountIn(p, seps) == 0
  {
    if |p| > 0 {
      CountAvoiding(p[1..], seps);
    }
  }

  lemma {:induction false} CountInAppend<T>(a: seq<T>, b: seq<T>, seps: set<T>)
    ensures CountIn(a + b, seps) == CountIn(a, seps) + CountIn(b, seps)
  {
    if |a| > 0 {
      CountInAppend(a[1..], b, seps);
      assert (a + b)[1..] == a[1..] + b && (a + b)[0] == a[0];
    } else {
      assert a + b == b;
    }
  }

  /** `joinlist` over separator-free parts: no separator at either end, none
      doubled, and one fewer separator than there are non-empty parts. */
  lemma JoinListShape<T>(parts: seq<seq<T>>, sep: T)
    requires forall i :: 0 <= i < |parts| ==> Avoids(parts[i], {sep})
    ensures var r := JoinList(parts, sep);
      && (|r| == 0 <==> |NonEmpty(parts)| == 0)
      && (|r| > 0 ==> r[0] != sep && r[|r| - 1] != sep)
      && (forall k :: 0 <= k < |r| - 1 ==> !(r[k] == sep && r[k + 1] == sep))
      && (|r| > 0 ==> CountIn(r, {sep}) == |NonEmpty(parts)| - 1)
  {
    var ne := NonEmpty(parts);
    if |ne| > 0 {
      forall i | 0 <= i < |ne|
        ensures |ne[i]| > 0 && Avoids(ne[i], {sep})
      {
        NonEmptyMember(parts, ne[i]);
      }
      IntercalateShape(ne, sep);
    }
  }

  /** Joining parts that avoid a set, with a separator outside it, gives a
      list that avoids the set. */
  lemma {:induction false} IntercalateAvoids<T>(parts: seq<seq<T>>, sep: T, seps: set<T>)
    requires sep !in seps
    requires forall i :: 0 <= i < |parts| ==> Avoids(parts[i], seps)
    ensures Avoids(Intercalate(parts, sep), seps)
  {
    if |parts| > 1 {
      IntercalateAvoids(parts[1..], sep, seps);
      var r := Intercalate(parts, sep);
      var tail := Intercalate(parts[1..], sep);
      assert r == parts[0] + ([sep] + tail);
      forall k | 0 <= k < |r|
        ensures r[k] !in seps
      {
        if k < |parts[0]| {
          assert r[k] == parts[0][k];
        } else if k > |parts[0]| {
          assert r[k] == tail[k - |parts[0]| - 1];
        }
      }
    }
  }

  lemma JoinListAvoids<T>(parts: seq<seq<T>>, sep: T, seps: set<T>)
    requires sep !in seps
    requires forall i :: 0 <= i < |parts| ==> Avoids(parts[i], seps)
    ensures Avoids(JoinList(parts, sep), seps)
  {
    var ne := NonEmpty(parts);
    forall i | 0 <= i < |ne|
      ensures Avoids(ne[i], seps)
    {
      NonEmptyMember(parts, ne[i]);
    }
    IntercalateAvoids(ne, sep, seps);
  }

  // ---------------------------------------------------------------------
  // removeall

  /** `list.index(x)`: the first position of `x`. */
  function IndexOf<T(==)>(s: seq<T>, x: T): (k: nat)
    requires x in s
    ensures k < |s| && s[k] == x && x !in s[..k]
  {
    if s[0] == x then 0
    else
      assert s[1..][..IndexOf(s[1..], x)] == s[1..IndexOf(s[1..], x) + 1];
      1 + IndexOf(s[1..], x)
  }

  /** `r` is `s` with some elements left out, the rest kept in order. */
  predicate IsSubsequence<T(==)>(r: seq<T>, s: seq<T>)
    decreases |s|
  {
    if |r| == 0 then true
    else if |s| == 0 then false
    else (r[0] == s[0] && IsSubsequence(r[1..], s[1..])) || IsSubsequence(r, s[1..])
  }

  lemma {:induction false} SubsequenceReflexive<T>(s: seq<T>)
    ensures IsSubsequence(s, s)
    decreases |s|
  {
    if |s| > 0 {
      SubsequenceReflexive(s[1..]);
    }
  }

  lemma {:induction false} SubsequenceTransitive<T>(a: seq<T>, b: seq<T>, c: seq<T>)
    requires IsSubsequence(a, b) && IsSubsequence(b, c)
    ensures IsSubsequence(a, c)
    decreases |c|
  {
    if |a| > 0 {
      if IsSubsequence(b, c[1..]) {
        SubsequenceTransitive(a, b, c[1..]);
      } else if a[0] == b[0] && IsSubsequence(a[1..], b[1..]) {
        SubsequenceTransitive(a[1..], b[1..], c[1..]);
      } else {
        SubsequenceTransitive(a, b[1..], c[1..]);
      }
    }
  }

  /** `list.remove(x)`: drops the first element equal to `x` and keeps the
      others in order. */
  function RemoveFirst<T(==)>(s: seq<T>, x: T): (r: seq<T>)
    requires x in s
    ensures r == s[..IndexOf(s, x)] + s[IndexOf(s, x) + 1..]
    ensures multiset(r) == multiset(s) - multiset{x}
    ensures |r| == |s| - 1
  {
    if s[0] == x then
      DropHead(s, x);
      s[1..]
    else
      InTail(s, x);
      var r' := RemoveFirst(s[1..], x);
      DropLater(s, x, IndexOf(s[1..], x), r');
      [s[0]] + r'
  }

  /** An element present but not first is in the tail. */
  lemma InTail<T>(s: seq<T>, x: T)
    requires x in s && s[0] != x
    ensures x in s[1..]
  {
    assert s == [s[0]] + s[1..];
  }

  /** The first element removed: the rest, with its multiset. */
  lemma DropHead<T>(s: seq<T>, x: T)
    requires |s| > 0 && s[0] == x
    ensures IndexOf(s, x) == 0
    ensures s[..0] + s[1..] == s[1..] && multiset(s[1..]) == multiset(s) - multiset{x}
  {
    assert s == [s[0]] + s[1..];
  }

  /** A later element removed from the tail, the head put back. */
  lemma DropLater<T>(s: seq<T>, x: T, k: nat, r': seq<T>)
    requires |s| > 0 && s[0] != x && x in s[1..] && k == IndexOf(s[1..], x)
    requires r' == s[1..][..k] + s[1..][k + 1..] && multiset(r') == multiset(s[1..]) - multiset{x}
    ensures IndexOf(s, x) == k + 1
    ensures [s[0]] + r' == s[..k + 1] + s[k + 2..]
    ensures multiset([s[0]] + r') == multiset(s) - multiset{x}
  {
    IndexOfLater(s, x);
    ConsSlices(s, k, r');
    ConsMultiset(s, x, r');
  }

  lemma IndexOfLater<T>(s: seq<T>, x: T)
    requires |s| > 0 && s[0] != x && x in s[1..]
    ensures IndexOf(s, x) == IndexOf(s[1..], x) + 1
  {
  }

  lemma ConsMultiset<T>(s: seq<T>, x: T, r': seq<T>)
    requires |s| > 0 && multiset(r') == multiset(s[1..]) - multiset{x} && x in s[1..]
    ensures multiset([s[0]] + r') == multiset(s) - multiset{x}
  {
    assert s == [s[0]] + s[1..];
  }

  lemma ConsSlices<T>(s: seq<T>, k: nat, r': seq<T>)
    requires k + 1 < |s| && r' == s[1..][..k] + s[1..][k + 1..]
    ensures [s[0]] + r' == s[..k + 1] + s[k + 2..]
  {
    var t := s[1..];
    assert s[..k + 1] == [s[0]] + t[..k];
    assert s[k + 2..] == t[k + 1..];
  }

  lemma RemoveFirstPutBack<T>(s: seq<T>, x: T)
    requires x in s
    ensures multiset(s) == multiset(RemoveFirst(s, x)) + multiset{x}
  {
  }

  lemma MultisetCancel<T>(a: multiset<T>, b: multiset<T>, x: T)
    ensures a + multiset{x} == b + multiset{x} <==> a == b
  {
    if a + multiset{x} == b + multiset{x} {
      assert forall y :: a[y] == (a + multiset{x})[y] - multiset{x}[y];
    }
  }

  lemma {:induction false} RemoveFirstSubsequence<T>(s: seq<T>, x: T)
    requires x in s
    ensures IsSubsequence(RemoveFirst(s, x), s)
    decreases |s|
  {
    if s[0] == x {
      SubsequenceReflexive(s[1..]);
    } else {
      RemoveFirstSubsequence(s[1..], x);
      var r := RemoveFirst(s, x);
      assert r[0] == s[0] && r[1..] == RemoveFirst(s[1..], x);
    }
  }

  /** `removeall(seq, sub)`: for each element of `sub` in turn, drop the first
      equal element of `seq` if there is one. */
  function RemoveAll<T(==)>(s: seq<T>, sub: seq<T>): (r: seq<T>)
    ensures multiset(r) == multiset(s) - multiset(sub)
    ensures IsSubsequence(r, s)
    ensures |r| <= |s|
    decreases |sub|
  {
    if |sub| == 0 then
      SubsequenceReflexive(s);
      s
    else
      var s' := if sub[0] in s then RemoveFirst(s, sub[0]) else s;
      var r := RemoveAll(s', sub[1..]);
      RemoveAllStep(s, sub, s', r);
      r
  }

  /** One round of `removeall`: dropping the first copy of `sub[0]`, if any,
      and then the rest of `sub`. */
  lemma RemoveAllStep<T>(s: seq<T>, sub: seq<T>, s': seq<T>, r: seq<T>)
    requires |sub| > 0 && s' == (if sub[0] in s then RemoveFirst(s, sub[0]) else s)
    requires multiset(r) == multiset(s') - multiset(sub[1..]) && IsSubsequence(r, s')
    ensures multiset(r) == multiset(s) - multiset(sub) && IsSubsequence(r, s)
  {
    RemoveAllStepMultiset(s, sub, s', r);
    RemoveAllStepOrder(s, sub[0], s', r);
  }

  lemma RemoveAllStepMultiset<T>(s: seq<T>, sub: seq<T>, s': seq<T>, r: seq<T>)
    requires |sub| > 0 && s' == (if sub[0] in s then RemoveFirst(s, sub[0]) else s)
    requires multiset(r) == multiset(s') - multiset(sub[1..])
    ensures multiset(r) == multiset(s) - multiset(sub)
  {
    assert multiset(s') == multiset(s) - multiset{sub[0]} by {
      if sub[0] !in s {
        assert multiset(s)[sub[0]] == 0;
      }
    }
    assert sub == [sub[0]] + sub[1..];
  }

  lemma RemoveAllStepOrder<T>(s: seq<T>, x: T, s': seq<T>, r: seq<T>)
    requires s' == (if x in s then RemoveFirst(s, x) else s)
    requires IsSubsequence(r, s')
    ensures IsSubsequence(r, s)
  {
    if x in s {
      RemoveFirstSubsequence(s, x);
    } else {
      SubsequenceReflexive(s);
    }
    SubsequenceTransitive(r, s', s);
  }

  /** No element occurs twice. */
  predicate Distinct<T(==)>(s: seq<T>)
  {
    forall i :: 0 <= i < |s| ==> multiset(s)[s[i]] == 1
  }

  lemma FilterAll<T>(p: T -> bool, s: seq<T>)
    requires forall i :: 0 <= i < |s| ==> p(s[i])
    ensures Filter(p, s) == s
  {
  }

  lemma {:induction false} FilterCongruence<T>(p: T -> bool, q: T -> bool, s: seq<T>)
    requires forall i :: 0 <= i < |s| ==> p(s[i]) == q(s[i])
    ensures Filter(p, s) == Filter(q, s)
  {
    if |s| > 0 {
      FilterCongruence(p, q, s[1..]);
    }
  }

  lemma {:induction false} FilterFilter<T>(p: T -> bool, q: T -> bool, s: seq<T>)
    ensures Filter(p, Filter(q, s)) == Filter(x => p(x) && q(x), s)
  {
    if |s| > 0 {
      FilterFilter(p, q, s[1..]);
    }
  }

  lemma {:induction false} FilterAppend<T>(p: T -> bool, a: seq<T>, b: seq<T>)
    ensures Filter(p, a + b) == Filter(p, a) + Filter(p, b)
  {
    if |a| == 0 {
      assert a + b == b;
    } else {
      FilterAppend(p, a[1..], b);
      var h := if p(a[0]) then [a[0]] else [];
      assert Filter(p, a + b) == h + Filter(p, a[1..] + b) by {
        assert (a + b)[1..] == a[1..] + b;
        assert (a + b)[0] == a[0];
      }
      assert Filter(p, a) == h + Filter(p, a[1..]);
    }
  }

  lemma {:induction false} FilterMultiset<T>(p: T -> bool, s: seq<T>)
    ensures multiset(Filter(p, s)) <= multiset(s)
  {
    if |s| > 0 {
      FilterMultiset(p, s[1..]);
      assert s == [s[0]] + s[1..];
    }
  }

  lemma DistinctSub<T>(s: seq<T>, t: seq<T>)
    requires Distinct(s) && multiset(t) <= multiset(s)
    ensures Distinct(t)
  {
    forall i | 0 <= i < |t|
      ensures multiset(t)[t[i]] == 1
    {
      assert t[i] in multiset(t);
      assert t[i] in multiset(s);
      assert t[i] in s;
      var j :| 0 <= j < |s| && s[j] == t[i];
      assert multiset(t)[t[i]] <= multiset(s)[t[i]];
    }
  }

  /** The elements of a list, as a set. */
  function Elems<T>(s: seq<T>): set<T>
  {
    set x | x in s
  }

  /** Reference: the elements of `s` outside `drop`, in order. */
  function Exclude<T(==)>(s: seq<T>, drop: set<T>): seq<T>
  {
    if |s| == 0 then []
    else if s[0] in drop then Exclude(s[1..], drop)
    else [s[0]] + Exclude(s[1..], drop)
  }

  lemma ExcludeCons<T>(x: T, s: seq<T>, drop: set<T>)
    ensures Exclude([x] + s, drop) == (if x in drop then [] else [x]) + Exclude(s, drop)
  {
    assert ([x] + s)[1..] == s;
  }

  lemma {:induction false} ExcludeMultiset<T>(s: seq<T>, drop: set<T>)
    ensures multiset(Exclude(s, drop)) <= multiset(s)
  {
    if |s| > 0 {
      ExcludeMultiset(s[1..], drop);
      assert s == [s[0]] + s[1..];
      ExcludeCons(s[0], s[1..], drop);
    }
  }

  lemma {:induction false} ExcludeNothing<T>(s: seq<T>, drop: set<T>)
    requires forall i :: 0 <= i < |s| ==> s[i] !in drop
    ensures Exclude(s, drop) == s
  {
    if |s| > 0 {
      ExcludeNothing(s[1..], drop);
    }
  }

  lemma {:induction false} ExcludeAppend<T>(a: seq<T>, b: seq<T>, drop: set<T>)
    ensures Exclude(a + b, drop) == Exclude(a, drop) + Exclude(b, drop)
  {
    if |a| == 0 {
      assert a + b == b;
    } else {
      ExcludeAppend(a[1..], b, drop);
      assert a + b == [a[0]] + (a[1..] + b) && a == [a[0]] + a[1..];
      ExcludeCons(a[0], a[1..] + b, drop);
      ExcludeCons(a[0], a[1..], drop);
    }
  }

  lemma {:induction false} ExcludeTwice<T>(s: seq<T>, a: set<T>, b: set<T>)
    ensures Exclude(Exclude(s, a), b) == Exclude(s, a + b)
  {
    if |s| > 0 {
      ExcludeTwice(s[1..], a, b);
      if s[0] in a {
        assert Exclude(s, a) == Exclude(s[1..], a);
      } else {
        assert Exclude(s, a) == [s[0]] + Exclude(s[1..], a);
        assert Exclude(s, a)[1..] == Exclude(s[1..], a);
      }
    }
  }

  /** On a list without repeats, `list.remove` drops exactly the element. */
  lemma {:induction false} RemoveFirstDistinct<T>(s: seq<T>, x: T)
    requires Distinct(s) && x in s
    ensures RemoveFirst(s, x) == Exclude(s, {x})
  {
    assert s == [s[0]] + s[1..];
    DistinctSub(s, s[1..]);
    if s[0] == x {
      assert multiset(s)[x] == 1 + multiset(s[1..])[x];
      assert x !in s[1..];
      ExcludeNothing(s[1..], {x});
    } else {
      RemoveFirstDistinct(s[1..], x);
    }
  }

  /** The first step of `removeall` on a list without repeats. */
  lemma RemoveOneDistinct<T>(s: seq<T>, x: T)
    requires Distinct(s)
    ensures var s' := if x in s then RemoveFirst(s, x) else s;
      s' == Exclude(s, {x}) && Distinct(s')
  {
    if x in s {
      RemoveFirstDistinct(s, x);
    } else {
      ExcludeNothing(s, {x});
    }
    ExcludeMultiset(s, {x});
    DistinctSub(s, Exclude(s, {x}));
  }

  lemma ElemsCons<T>(s: seq<T>)
    requires |s| > 0
    ensures Elems(s) == {s[0]} + Elems(s[1..])
  {
    assert s == [s[0]] + s[1..];
  }

  /** On a list without repeats, `removeall` keeps exactly the elements that
      are not in `sub`, in order. */
  lemma {:induction false} RemoveAllDistinct<T>(s: seq<T>, sub: seq<T>)
    requires Distinct(s)
    ensures RemoveAll(s, sub) == Exclude(s, Elems(sub))
    decreases |sub|
  {
    if |sub| == 0 {
      ExcludeNothing(s, Elems(sub));
    } else {
      var x := sub[0];
      RemoveOneDistinct(s, x);
      var s' := Exclude(s, {x});
      assert RemoveAll(s, sub) == RemoveAll(s', sub[1..]);
      RemoveAllDistinct(s', sub[1..]);
      ExcludeTwice(s, {x}, Elems(sub[1..]));
      ElemsCons(sub);
    }
  }

  /** Two positions of a list without repeats hold different elements. */
  lemma DistinctIndices<T>(s: seq<T>, i: nat, k: nat)
    requires Distinct(s) && i < k < |s|
    ensures s[i] != s[k]
  {
    assert s == s[..k] + [s[k]] + s[k + 1..];
    assert s[i] in s[..k];
  }

  /** A test and its negation split a list into two parts that together hold
      every element. */
  lemma {:induction false} FilterComplement<T>(p: T -> bool, q: T -> bool, s: seq<T>)
    requires forall i :: 0 <= i < |s| ==> q(s[i]) == !p(s[i])
    ensures multiset(Filter(p, s)) + multiset(Filter(q, s)) == multiset(s)
  {
    if |s| > 0 {
      FilterComplement(p, q, s[1..]);
      assert s == [s[0]] + s[1..];
    }
  }

  lemma {:induction false} FlattenContains<T>(parts: seq<seq<T>>, b: nat, m: nat)
    requires b < |parts| && m < |parts[b]|
    ensures parts[b][m] in Flatten(parts)
  {
    if b > 0 {
      FlattenContains(parts[1..], b - 1, m);
    }
  }
}
