/**
  Grouping the elements of a list by a key, and what `removeall` does to a
  list without repeats when it is given the elements of one key.
 */
module Grouping {
  import opened Lists

  /** The elements whose key is `k`, in order. */
  function SameKey<T(==), K(==)>(f: T -> K, s: seq<T>, k: K): (r: seq<T>)
    ensures forall i :: 0 <= i < |r| ==> f(r[i]) == k
  {
    Filter((x: T) => f(x) == k, s)
  }

  /** The elements whose key is not `k`, in order. */
  function OtherKey<T(==), K(==)>(f: T -> K, s: seq<T>, k: K): (r: seq<T>)
    ensures forall i :: 0 <= i < |r| ==> f(r[i]) != k
  {
    Filter((x: T) => f(x) != k, s)
  }

  lemma SameKeyMember<T, K>(f: T -> K, s: seq<T>, k: K, x: T)
    ensures x in SameKey(f, s, k) <==> x in s && f(x) == k
  {
    FilterMember((y: T) => f(y) == k, s, x);
  }

  lemma OtherKeyMember<T, K>(f: T -> K, s: seq<T>, k: K, x: T)
    ensures x in OtherKey(f, s, k) <==> x in s && f(x) != k
  {
    FilterMember((y: T) => f(y) != k, s, x);
  }

  /** The first element goes to exactly one side of the key test. */
  lemma KeyFilterCons<T, K>(f: T -> K, x: T, s: seq<T>, k: K)
    ensures SameKey(f, [x] + s, k) == (if f(x) == k then [x] else []) + SameKey(f, s, k)
    ensures OtherKey(f, [x] + s, k) == (if f(x) == k then [] else [x]) + OtherKey(f, s, k)
  {
    assert ([x] + s)[1..] == s;
  }

  lemma OtherKeyMultiset<T, K>(f: T -> K, s: seq<T>, k: K)
    ensures multiset(OtherKey(f, s, k)) <= multiset(s)
  {
    FilterMultiset((y: T) => f(y) != k, s);
  }

  /** The first element of each key followed by the later elements of the
      same key, groups in order of first occurrence. */
  function Groups<T(==), K(==)>(f: T -> K, s: seq<T>): seq<seq<T>>
    decreases |s|
  {
    if |s| == 0 then []
    else
      var k := f(s[0]);
      [[s[0]] + SameKey(f, s[1..], k)] + Groups(f, OtherKey(f, s[1..], k))
  }

  lemma {:induction false} GroupsMultiset<T, K>(f: T -> K, s: seq<T>)
    ensures multiset(Flatten(Groups(f, s))) == multiset(s)
    decreases |s|
  {
    if |s| > 0 {
      var k := f(s[0]);
      var tail := s[1..];
      var other := OtherKey(f, tail, k);
      GroupsMultiset(f, other);
      var gs := Groups(f, s);
      assert gs[1..] == Groups(f, other);
      FilterComplement((x: T) => f(x) == k, (x: T) => f(x) != k, tail);
      assert s == [s[0]] + tail;
    }
  }

  lemma GroupKeys<T, K>(f: T -> K, s: seq<T>)
    requires |s| > 0
    ensures var g := Groups(f, s)[0];
      |g| > 0 && forall m :: 0 <= m < |g| ==> f(g[m]) == f(g[0])
  {
    var k := f(s[0]);
    var same := SameKey(f, s[1..], k);
    var g := Groups(f, s)[0];
    assert g == [s[0]] + same;
    forall m | 0 < m < |g|
      ensures f(g[m]) == k
    {
      assert g[m] == same[m - 1];
    }
  }

  lemma {:induction false} GroupsKeys<T, K>(f: T -> K, s: seq<T>)
    ensures var gs := Groups(f, s);
      forall a :: 0 <= a < |gs| ==> |gs[a]| > 0 && forall m :: 0 <= m < |gs[a]| ==> f(gs[a][m]) == f(gs[a][0])
    decreases |s|
  {
    if |s| > 0 {
      var other := OtherKey(f, s[1..], f(s[0]));
      GroupsKeys(f, other);
      GroupKeys(f, s);
      var gs := Groups(f, s);
      assert gs[1..] == Groups(f, other);
      forall a | 0 < a < |gs|
        ensures gs[a] == Groups(f, other)[a - 1]
      {
      }
    }
  }

  lemma GroupNonEmpty<T, K>(f: T -> K, s: seq<T>, a: nat)
    requires a < |Groups(f, s)|
    ensures |Groups(f, s)[a]| > 0
  {
    GroupsKeys(f, s);
  }

  lemma LaterGroupsOtherKey<T, K>(f: T -> K, s: seq<T>, b: nat)
    requires |s| > 0 && 0 < b < |Groups(f, s)|
    ensures |Groups(f, s)[b]| > 0 && f(Groups(f, s)[b][0]) != f(s[0])
  {
    var other := OtherKey(f, s[1..], f(s[0]));
    var rest := Groups(f, other);
    assert Groups(f, s) == [[s[0]] + SameKey(f, s[1..], f(s[0]))] + rest by {
      GroupsHead(f, s);
    }
    assert b - 1 < |rest| && Groups(f, s)[b] == rest[b - 1];
    assert |rest[b - 1]| > 0 by {
      GroupNonEmpty(f, other, b - 1);
    }
    var x := rest[b - 1][0];
    assert x in other by {
      GroupsMultiset(f, other);
      FlattenContains(rest, b - 1, 0);
      assert x in multiset(Flatten(rest));
    }
    OtherKeyMember(f, s[1..], f(s[0]), x);
  }

  lemma {:induction false} GroupsDistinctKeys<T, K>(f: T -> K, s: seq<T>)
    ensures forall a, b :: 0 <= a < b < |Groups(f, s)| ==>
      |Groups(f, s)[a]| > 0 && |Groups(f, s)[b]| > 0 && f(Groups(f, s)[a][0]) != f(Groups(f, s)[b][0])
    decreases |s|
  {
    if |s| > 0 {
      var other := OtherKey(f, s[1..], f(s[0]));
      GroupsDistinctKeys(f, other);
      GroupsKeys(f, s);
      var gs := Groups(f, s);
      var rest := Groups(f, other);
      assert gs[0][0] == s[0];
      assert gs == [gs[0]] + rest;
      forall a, b | 0 <= a < b < |Groups(f, s)|
        ensures |Groups(f, s)[a]| > 0 && |Groups(f, s)[b]| > 0
        ensures f(Groups(f, s)[a][0]) != f(Groups(f, s)[b][0])
      {
        if a == 0 {
          LaterGroupsOtherKey(f, s, b);
        } else {
          assert gs[a] == rest[a - 1] && gs[b] == rest[b - 1];
        }
      }
    } else {
      assert Groups(f, s) == [];
    }
  }

  /** The groups partition the list: together they hold every element as
      often as it occurs, all members of a group share the key of its first
      member, and no two groups share a key. */
  lemma GroupsPartition<T, K>(f: T -> K, s: seq<T>)
    ensures var gs := Groups(f, s);
      && multiset(Flatten(gs)) == multiset(s)
      && (forall a :: 0 <= a < |gs| ==> |gs[a]| > 0)
      && (forall a, m :: 0 <= a < |gs| && 0 <= m < |gs[a]| ==> f(gs[a][m]) == f(gs[a][0]))
      && (forall a, b :: 0 <= a < b < |gs| ==> f(gs[a][0]) != f(gs[b][0]))
  {
    GroupsMultiset(f, s);
    GroupsKeys(f, s);
    GroupsDistinctKeys(f, s);
  }

  lemma {:induction false} SameKeyNone<T, K>(f: T -> K, s: seq<T>, k: K)
    requires forall j :: 0 <= j < |s| ==> f(s[j]) != k
    ensures SameKey(f, s, k) == []
  {
    if |s| > 0 {
      SameKeyNone(f, s[1..], k);
    }
  }

  /** Excluding a list that holds every element of key `k` and nothing of
      another key leaves the elements of other keys. */
  lemma {:induction false} ExcludeKey<T, K>(f: T -> K, t: seq<T>, ms: seq<T>, k: K)
    requires forall m :: 0 <= m < |ms| ==> f(ms[m]) == k
    requires forall j :: 0 <= j < |t| && f(t[j]) == k ==> t[j] in ms
    ensures Exclude(t, Elems(ms)) == OtherKey(f, t, k)
  {
    if |t| > 0 {
      ExcludeKey(f, t[1..], ms, k);
      if t[0] in ms {
        var m :| 0 <= m < |ms| && ms[m] == t[0];
      }
    }
  }

  lemma ItemNotLater<T>(s: seq<T>, i: nat, later: seq<T>)
    requires i < |s| && Distinct(s)
    requires forall m :: 0 <= m < |later| ==> later[m] in s[i + 1..]
    ensures s[i] !in later
  {
    if s[i] in later {
      var n :| 0 <= n < |later| && later[n] == s[i];
      var m :| 0 <= m < |s[i + 1..]| && s[i + 1..][m] == s[i];
      DistinctIndices(s, i, i + 1 + m);
    }
  }

  lemma OtherKeyNotIn<T, K>(f: T -> K, ms: seq<T>, k: K, x: T)
    requires forall m :: 0 <= m < |ms| ==> f(ms[m]) == k
    requires f(x) != k
    ensures x !in ms
  {
  }

  lemma ExcludeAround<T>(s: seq<T>, i: nat, drop: set<T>)
    requires i < |s|
    ensures Exclude(s, drop) == Exclude(s[..i], drop) + Exclude([s[i]], drop) + Exclude(s[i + 1..], drop)
  {
    assert s == s[..i] + [s[i]] + s[i + 1..];
    ExcludeAppend(s[..i] + [s[i]], s[i + 1..], drop);
    ExcludeAppend(s[..i], [s[i]], drop);
  }

  /** Excluding the later elements of `s[i]`'s key, when no earlier element
      has that key and `s[i]` is not among them. */
  lemma ExcludeLaterSameKey<T, K>(f: T -> K, s: seq<T>, i: nat)
    requires i < |s|
    requires forall j :: 0 <= j < i ==> f(s[j]) != f(s[i])
    requires s[i] !in SameKey(f, s[i + 1..], f(s[i]))
    ensures Exclude(s, Elems(SameKey(f, s[i + 1..], f(s[i])))) == s[..i + 1] + OtherKey(f, s[i + 1..], f(s[i]))
  {
    var k := f(s[i]);
    var head := s[..i];
    var tail := s[i + 1..];
    var later := SameKey(f, tail, k);
    var drop := Elems(later);
    ExcludeAround(s, i, drop);
    assert Exclude(head, drop) == head by {
      assert forall j :: 0 <= j < |head| ==> head[j] == s[j];
      ExcludeEarlier(f, head, later, k);
    }
    assert Exclude([s[i]], drop) == [s[i]] by {
      assert s[i] !in drop && [s[i]][1..] == [];
    }
    assert Exclude(tail, drop) == OtherKey(f, tail, k) by {
      ExcludeSameKey(f, tail, k);
    }
    PrefixExtend(s, i);
  }

  lemma PrefixExtend<T>(s: seq<T>, i: nat)
    requires i < |s|
    ensures s[..i] + [s[i]] == s[..i + 1]
  {
  }

  /** Elements of other keys are not excluded by a list of key `k`. */
  lemma ExcludeEarlier<T, K>(f: T -> K, head: seq<T>, later: seq<T>, k: K)
    requires forall m :: 0 <= m < |later| ==> f(later[m]) == k
    requires forall j :: 0 <= j < |head| ==> f(head[j]) != k
    ensures Exclude(head, Elems(later)) == head
  {
    forall j | 0 <= j < |head|
      ensures head[j] !in Elems(later)
    {
      OtherKeyNotIn(f, later, k, head[j]);
    }
    ExcludeNothing(head, Elems(later));
  }

  /** Excluding the elements of key `k` leaves the elements of other keys. */
  lemma ExcludeSameKey<T, K>(f: T -> K, tail: seq<T>, k: K)
    ensures Exclude(tail, Elems(SameKey(f, tail, k))) == OtherKey(f, tail, k)
  {
    var later := SameKey(f, tail, k);
    forall j | 0 <= j < |tail| && f(tail[j]) == k
      ensures tail[j] in later
    {
      SameKeyMember(f, tail, k, tail[j]);
    }
    ExcludeKey(f, tail, later, k);
  }

  /** On a list without repeats, `removeall` of the later elements of
      `s[i]`'s key drops exactly those, when no earlier element has that
      key. */
  lemma RemoveLaterSameKey<T, K>(f: T -> K, s: seq<T>, i: nat)
    requires i < |s| && Distinct(s)
    requires forall j :: 0 <= j < i ==> f(s[j]) != f(s[i])
    ensures RemoveAll(s, SameKey(f, s[i + 1..], f(s[i]))) == s[..i + 1] + OtherKey(f, s[i + 1..], f(s[i]))
  {
    var later := SameKey(f, s[i + 1..], f(s[i]));
    RemoveAllDistinct(s, later);
    forall m | 0 <= m < |later|
      ensures later[m] in s[i + 1..]
    {
      SameKeyMember(f, s[i + 1..], f(s[i]), later[m]);
    }
    ItemNotLater(s, i, later);
    ExcludeLaterSameKey(f, s, i);
  }

  /** When no earlier element has `s[i]`'s key, the other elements of its
      key all come after it. */
  lemma MatchingsAfter<T, K>(f: T -> K, s: seq<T>, i: nat)
    requires i < |s|
    requires forall j :: 0 <= j < i ==> f(s[j]) != f(s[i])
    ensures SameKey(f, s[..i], f(s[i])) + SameKey(f, s[i + 1..], f(s[i])) == SameKey(f, s[i + 1..], f(s[i]))
  {
    var k := f(s[i]);
    var head := s[..i];
    forall j | 0 <= j < |head|
      ensures f(head[j]) != k
    {
      assert head[j] == s[j];
    }
    SameKeyNone(f, head, k);
  }

  /** One pass for an element whose key no earlier element has, on a list
      without repeats: the elements of its key other than itself all come
      after it, and `removeall` of them drops exactly those. */
  lemma PassRemovesSameKey<T, K>(f: T -> K, s: seq<T>, i: nat)
    requires i < |s| && Distinct(s)
    requires forall j :: 0 <= j < i ==> f(s[j]) != f(s[i])
    ensures var k := f(s[i]);
      var ms := SameKey(f, s[..i], k) + SameKey(f, s[i + 1..], k);
      && ms == SameKey(f, s[i + 1..], k)
      && RemoveAll(s, ms) == s[..i + 1] + OtherKey(f, s[i + 1..], k)
  {
    RemoveLaterSameKey(f, s, i);
    MatchingsAfter(f, s, i);
  }

  /** A loop over a list that, at each position `i`, merges the element
      there with the other elements of its key (those before it, then those
      after it) and then removes, for each of those others, the first EQUAL
      element of the list. */
  function PassLoop<T(==), K(==), P>(f: T -> K, merge: seq<T> -> P, s: seq<T>, i: nat, pieces: seq<P>): seq<P>
    decreases |s| - i
  {
    if i >= |s| then pieces
    else
      var ms := SameKey(f, s[..i], f(s[i])) + SameKey(f, s[i + 1..], f(s[i]));
      PassLoop(f, merge, RemoveAll(s, ms), i + 1, pieces + [merge([s[i]] + ms)])
  }

  /** Every element kept by `OtherKey` stands somewhere in the list. */
  lemma OtherKeyOrigin<T, K>(f: T -> K, t: seq<T>, k: K, n: nat)
    requires n < |OtherKey(f, t, k)|
    ensures exists m :: 0 <= m < |t| && t[m] == OtherKey(f, t, k)[n]
  {
    OtherKeyMember(f, t, k, OtherKey(f, t, k)[n]);
  }

  lemma NextPassDistinct<T, K>(f: T -> K, s: seq<T>, i: nat)
    requires i < |s| && Distinct(s)
    ensures Distinct(s[..i + 1] + OtherKey(f, s[i + 1..], f(s[i])))
  {
    var tail := s[i + 1..];
    var s' := s[..i + 1] + OtherKey(f, tail, f(s[i]));
    OtherKeyMultiset(f, tail, f(s[i]));
    assert s == s[..i + 1] + tail;
    assert multiset(s') <= multiset(s);
    DistinctSub(s, s');
  }

  /** The elements after position `i` come from after position `i`. */
  lemma NextPassOrigin<T, K>(f: T -> K, s: seq<T>, i: nat, k: nat)
    requires i < |s|
    requires i < k < |s[..i + 1] + OtherKey(f, s[i + 1..], f(s[i]))|
    ensures exists m :: i < m < |s| && s[m] == (s[..i + 1] + OtherKey(f, s[i + 1..], f(s[i])))[k]
  {
    var tail := s[i + 1..];
    var other := OtherKey(f, tail, f(s[i]));
    OtherKeyOrigin(f, tail, f(s[i]), k - i - 1);
    var m :| 0 <= m < |tail| && tail[m] == other[k - i - 1];
    assert s[i + 1 + m] == tail[m];
  }

  /** After a pass at position `i` on a list without repeats whose keys up
      to `i` are new, the list still has no repeats, and its keys up to
      `i + 1` are new. */
  lemma NextPass<T, K>(f: T -> K, s: seq<T>, i: nat)
    requires i < |s| && Distinct(s)
    requires forall j, k :: 0 <= j < i && j < k < |s| ==> f(s[j]) != f(s[k])
    ensures var s' := s[..i + 1] + OtherKey(f, s[i + 1..], f(s[i]));
      && Distinct(s')
      && (forall j, k :: 0 <= j < i + 1 && j < k < |s'| ==> f(s'[j]) != f(s'[k]))
  {
    NextPassDistinct(f, s, i);
    var other := OtherKey(f, s[i + 1..], f(s[i]));
    var s' := s[..i + 1] + other;
    forall j, k | 0 <= j < i + 1 && j < k < |s'|
      ensures f(s'[j]) != f(s'[k])
    {
      if k > i {
        assert s'[k] == other[k - i - 1];
        if j < i {
          NextPassOrigin(f, s, i, k);
          var m :| i < m < |s| && s[m] == s'[k];
          assert s'[j] == s[j];
        }
      }
    }
  }

  /** One pass of the loop when the item's key is new on a list without
      repeats. */
  lemma PassStep<T, K, P>(f: T -> K, merge: seq<T> -> P, s: seq<T>, i: nat, pieces: seq<P>)
    requires i < |s| && Distinct(s)
    requires forall j :: 0 <= j < i ==> f(s[j]) != f(s[i])
    ensures var k := f(s[i]);
      PassLoop(f, merge, s, i, pieces)
      == PassLoop(f, merge, s[..i + 1] + OtherKey(f, s[i + 1..], k), i + 1,
                  pieces + [merge([s[i]] + SameKey(f, s[i + 1..], k))])
  {
    PassRemovesSameKey(f, s, i);
  }

  /** The groups of a suffix: the first group, then the groups of what is
      not of its key. */
  lemma GroupsOfSuffix<T, K>(f: T -> K, s: seq<T>, i: nat)
    requires i < |s|
    ensures var k := f(s[i]);
      Groups(f, s[i..]) == [[s[i]] + SameKey(f, s[i + 1..], k)] + Groups(f, OtherKey(f, s[i + 1..], k))
  {
    assert s[i..][0] == s[i];
    assert s[i..][1..] == s[i + 1..];
  }

  lemma MergedSuffix<T, K, P>(f: T -> K, merge: seq<T> -> P, s: seq<T>, i: nat, pieces: seq<P>)
    requires i < |s|
    ensures var k := f(s[i]);
      var s' := s[..i + 1] + OtherKey(f, s[i + 1..], k);
      pieces + [merge([s[i]] + SameKey(f, s[i + 1..], k))] + Map(merge, Groups(f, s'[i + 1..]))
      == pieces + Map(merge, Groups(f, s[i..]))
  {
    var k := f(s[i]);
    var other := OtherKey(f, s[i + 1..], k);
    var s' := s[..i + 1] + other;
    var g := [s[i]] + SameKey(f, s[i + 1..], k);
    assert s'[i + 1..] == other;
    GroupsOfSuffix(f, s, i);
    var gs := Groups(f, s[i..]);
    assert Map(merge, gs) == [merge(g)] + Map(merge, Groups(f, other)) by {
      assert gs[1..] == Groups(f, other);
    }
  }

  /** On a list without repeats, the loop from position `i` (keys up to `i`
      new) merges exactly the groups of the rest of the list. */
  lemma {:induction false} PassLoopFrom<T, K, P>(f: T -> K, merge: seq<T> -> P, s: seq<T>, i: nat, pieces: seq<P>)
    requires i <= |s| && Distinct(s)
    requires forall j, k :: 0 <= j < i && j < k < |s| ==> f(s[j]) != f(s[k])
    ensures PassLoop(f, merge, s, i, pieces) == pieces + Map(merge, Groups(f, s[i..]))
    decreases |s| - i
  {
    if i == |s| {
      assert s[i..] == [];
    } else {
      var k := f(s[i]);
      var other := OtherKey(f, s[i + 1..], k);
      var s' := s[..i + 1] + other;
      var g := [s[i]] + SameKey(f, s[i + 1..], k);
      PassStep(f, merge, s, i, pieces);
      NextPass(f, s, i);
      PassLoopFrom(f, merge, s', i + 1, pieces + [merge(g)]);
      MergedSuffix(f, merge, s, i, pieces);
    }
  }

  /** On a list without repeats, the loop merges exactly the groups: one
      merge per key, each over all elements of that key. */
  lemma PassLoopGroups<T, K, P>(f: T -> K, merge: seq<T> -> P, s: seq<T>)
    requires Distinct(s)
    ensures PassLoop(f, merge, s, 0, []) == Map(merge, Groups(f, s))
  {
    PassLoopFrom(f, merge, s, 0, []);
    assert s[0..] == s;
  }

  /** Without distinct elements the passes and the groups part ways: in
      `[u, v, u]` with `u` and `v` of different keys, the first pass merges
      both copies of `u` and then removes the first element equal to the
      second copy, which is the item itself; the second pass lands on the
      second copy, and `v` is never merged. */
  lemma PassLoopSkips<T, K, P>(f: T -> K, merge: seq<T> -> P, u: T, v: T)
    requires f(u) != f(v)
    ensures PassLoop(f, merge, [u, v, u], 0, []) == [merge([u, u]), merge([u])]
  {
    SkipsFirstPass(f, merge, u, v);
    SkipsSecondPass(f, merge, u, v);
    PassDone(f, merge, [v, u], 2, [merge([u, u]), merge([u])]);
  }

  /** The first pass over `[u, v, u]` leaves `[v, u]` and one piece. */
  lemma SkipsFirstPass<T, K, P>(f: T -> K, merge: seq<T> -> P, u: T, v: T)
    requires f(u) != f(v)
    ensures PassLoop(f, merge, [u, v, u], 0, []) == PassLoop(f, merge, [v, u], 1, [merge([u, u])])
  {
    var s := [u, v, u];
    var first := [merge([u, u])];
    FirstPassSkips(f, u, v);
    var ms := SameKey(f, s[..0], f(s[0])) + SameKey(f, s[1..], f(s[0]));
    assert [] + [merge([s[0]] + ms)] == first;
    assert PassLoop(f, merge, s, 0, []) == PassLoop(f, merge, RemoveAll(s, ms), 1, [] + [merge([s[0]] + ms)]);
  }

  /** The second pass lands on the second copy of `u`, which has no match
      left. */
  lemma SkipsSecondPass<T, K, P>(f: T -> K, merge: seq<T> -> P, u: T, v: T)
    requires f(u) != f(v)
    ensures PassLoop(f, merge, [v, u], 1, [merge([u, u])]) == PassLoop(f, merge, [v, u], 2, [merge([u, u]), merge([u])])
  {
    var t := [v, u];
    var first := [merge([u, u])];
    assert SameKey(f, t[..1], f(t[1])) + SameKey(f, t[2..], f(t[1])) == [] by {
      PairSlices(v, u);
      SameKeyOne(f, v, f(u));
      SameKeyNone(f, [], f(u));
    }
    PassNoMatch(f, merge, t, 1, first);
    assert first + [merge([t[1]])] == [merge([u, u]), merge([u])];
  }

  /** Once the index has passed the end, the loop stops. */
  lemma PassDone<T, K, P>(f: T -> K, merge: seq<T> -> P, s: seq<T>, i: nat, pieces: seq<P>)
    requires i >= |s|
    ensures PassLoop(f, merge, s, i, pieces) == pieces
  {
  }

  /** A pass whose item has no match elsewhere makes a piece of the item
      alone and leaves the list as it is. */
  lemma PassNoMatch<T, K, P>(f: T -> K, merge: seq<T> -> P, s: seq<T>, i: nat, pieces: seq<P>)
    requires i < |s|
    requires SameKey(f, s[..i], f(s[i])) + SameKey(f, s[i + 1..], f(s[i])) == []
    ensures PassLoop(f, merge, s, i, pieces) == PassLoop(f, merge, s, i + 1, pieces + [merge([s[i]])])
  {
    assert [s[i]] + [] == [s[i]];
    assert RemoveAll(s, []) == s;
  }

  /** The first pass over `[u, v, u]`: the item `u` matches the second `u`,
      and removing that match leaves `[v, u]`. */
  lemma FirstPassSkips<T, K>(f: T -> K, u: T, v: T)
    requires f(u) != f(v)
    ensures var s := [u, v, u];
      var ms := SameKey(f, s[..0], f(s[0])) + SameKey(f, s[1..], f(s[0]));
      ms == [u] && [s[0]] + ms == [u, u] && RemoveAll(s, ms) == [v, u]
  {
    var s := [u, v, u];
    var ms := SameKey(f, s[..0], f(s[0])) + SameKey(f, s[1..], f(s[0]));
    assert ms == [u] by {
      TripleSlices(u, v, u);
      SameKeyOne(f, u, f(u));
      KeyFilterCons(f, v, [u], f(u));
      SameKeyNone(f, [], f(u));
    }
    assert RemoveAll(s, ms) == [v, u] by {
      TripleSlices(u, v, u);
      RemoveAllHead(s);
    }
  }

  /** The slices of a three-element list the passes look at. */
  lemma TripleSlices<T>(u: T, v: T, w: T)
    ensures [u, v, w][..0] == [] && [u, v, w][1..] == [v, w] && [u, v, w][0] == u
  {
  }

  /** The slices of a two-element list the passes look at. */
  lemma PairSlices<T>(u: T, v: T)
    ensures [u, v][..0] == [] && [u, v][1..] == [v] && [u, v][..1] == [u] && [u, v][2..] == []
    ensures [u, v][0] == u && [u, v][1] == v
  {
  }

  /** A one-element list has its element in one key test or the other. */
  lemma SameKeyOne<T, K>(f: T -> K, x: T, k: K)
    ensures SameKey(f, [x], k) == (if f(x) == k then [x] else [])
    ensures OtherKey(f, [x], k) == (if f(x) == k then [] else [x])
  {
    assert [x][1..] == [];
  }

  /** `removeall` of the first element drops that first element. */
  lemma RemoveAllHead<T>(s: seq<T>)
    requires |s| > 0
    ensures RemoveAll(s, [s[0]]) == s[1..]
  {
    RemoveAllOne(s, s[0]);
  }

  /** `removeall` of one element present is `list.remove` of it. */
  lemma RemoveAllOne<T>(s: seq<T>, x: T)
    requires x in s
    ensures RemoveAll(s, [x]) == RemoveFirst(s, x)
  {
    assert [x][1..] == [];
    assert RemoveAll(s, [x]) == RemoveAll(RemoveFirst(s, x), []);
  }

  /** The groups of `[u, v, u]` are both copies of `u`, then `v`. */
  lemma GroupsOfRepeat<T, K>(f: T -> K, u: T, v: T)
    requires f(u) != f(v)
    ensures Groups(f, [u, v, u]) == [[u, u], [v]]
  {
    var s := [u, v, u];
    assert SameKey(f, [v, u], f(u)) == [u] && OtherKey(f, [v, u], f(u)) == [v] by {
      KeyFilterCons(f, v, [u], f(u));
      SameKeyOne(f, u, f(u));
      assert [] + [u] == [u] && [v] + [] == [v];
    }
    assert Groups(f, s) == [[u] + [u]] + Groups(f, [v]) by {
      TripleSlices(u, v, u);
      GroupsHead(f, s);
    }
    assert Groups(f, [v]) == [[v]] by {
      GroupsHead(f, [v]);
      SameKeyOne(f, v, f(v));
      SameKeyNone(f, [], f(v));
      assert [v][1..] == [] && [v] + [] == [v];
    }
    assert [u] + [u] == [u, u];
    assert [[u, u]] + [[v]] == [[u, u], [v]];
  }

  /** The first group, then the groups of what is not of its key. */
  lemma GroupsHead<T, K>(f: T -> K, s: seq<T>)
    requires |s| > 0
    ensures Groups(f, s) == [[s[0]] + SameKey(f, s[1..], f(s[0]))] + Groups(f, OtherKey(f, s[1..], f(s[0])))
  {
  }

  lemma PassPairSteps<T, K, P>(f: T -> K, merge: seq<T> -> P, s: seq<T>)
    requires |s| == 2 && f(s[0]) != f(s[1])
    ensures PassLoop(f, merge, s, 0, []) == [merge([s[0]]), merge([s[1]])]
  {
    var p1 := [merge([s[0]])];
    var p2 := p1 + [merge([s[1]])];
    assert SameKey(f, s[..0], f(s[0])) + SameKey(f, s[1..], f(s[0])) == [] by {
      assert s[..0] == [] && s[1..] == [s[1]];
      SameKeyOne(f, s[1], f(s[0]));
      SameKeyNone(f, [], f(s[0]));
    }
    PassNoMatch(f, merge, s, 0, []);
    assert [] + [merge([s[0]])] == p1;
    assert SameKey(f, s[..1], f(s[1])) + SameKey(f, s[2..], f(s[1])) == [] by {
      assert s[..1] == [s[0]] && s[2..] == [];
      SameKeyOne(f, s[0], f(s[1]));
      SameKeyNone(f, [], f(s[1]));
    }
    PassNoMatch(f, merge, s, 1, p1);
    PassDone(f, merge, s, 2, p2);
  }

  /** Two elements of different keys each get a pass of their own. */
  lemma PassLoopPair<T, K, P>(f: T -> K, merge: seq<T> -> P, u: T, v: T)
    requires f(u) != f(v)
    ensures PassLoop(f, merge, [u, v], 0, []) == [merge([u]), merge([v])]
  {
    PassPairSteps(f, merge, [u, v]);
  }

  /** Two elements of the same key are merged by the first pass, whether or
      not they are equal, and nothing is left for a second pass. */
  lemma PassLoopMergePair<T, K, P>(f: T -> K, merge: seq<T> -> P, u: T, v: T)
    requires f(u) == f(v)
    ensures PassLoop(f, merge, [u, v], 0, []) == [merge([u, v])]
  {
    var s := [u, v];
    FirstPassMerges(f, u, v);
    var ms := SameKey(f, s[..0], f(s[0])) + SameKey(f, s[1..], f(s[0]));
    var rest := RemoveAll(s, ms);
    assert [] + [merge([s[0]] + ms)] == [merge([u, v])];
    assert PassLoop(f, merge, s, 0, []) == PassLoop(f, merge, rest, 1, [merge([u, v])]);
  }

  /** The first pass over two elements of the same key: the second is the
      only match, and one element is left. */
  lemma FirstPassMerges<T, K>(f: T -> K, u: T, v: T)
    requires f(u) == f(v)
    ensures var s := [u, v];
      var ms := SameKey(f, s[..0], f(s[0])) + SameKey(f, s[1..], f(s[0]));
      ms == [v] && [s[0]] + ms == [u, v] && |RemoveAll(s, ms)| == 1
  {
    var s := [u, v];
    var ms := SameKey(f, s[..0], f(s[0])) + SameKey(f, s[1..], f(s[0]));
    assert ms == [v] by {
      PairSlices(u, v);
      SameKeyOne(f, v, f(u));
      SameKeyNone(f, [], f(u));
    }
    assert |RemoveAll(s, ms)| == 1 by {
      assert v in s;
      RemoveAllOne(s, v);
    }
  }
}
