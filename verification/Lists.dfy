/**
 Vocabulary shared by the models: options and results, sums and counts over lists, ranges, picking
 elements by position or by a test, and Python's `sorted(key=...)` for keys that are pairs of
 integers. The lemmas say how sums and counts behave under appending, splitting and reordering.
 */
module Lists {
  datatype Option<+T> = None | Some(value: T)

  datatype Result<+T> = Ok(value: T) | Err(error: string)

  /** The sum of `f` over the elements of `s`, left to right. */
  function SumBy<T>(s: seq<T>, f: T -> int): int {
    if |s| == 0 then 0 else f(s[0]) + SumBy(s[1..], f)
  }

  function Total(s: seq<int>): int {
    SumBy(s, (x: int) => x)
  }

  /** How many elements of `s` satisfy `p`. */
  function Count<T>(s: seq<T>, p: T -> bool): int {
    SumBy(s, Indicator(p))
  }

  function Indicator<T>(p: T -> bool): T -> int {
    (x: T) => if p(x) then 1 else 0
  }

  /** `range(lo, hi)`. */
  function Range(lo: nat, hi: nat): (r: seq<int>)
    requires lo <= hi
    ensures |r| == hi - lo
    ensures forall k :: 0 <= k < |r| ==> r[k] == lo + k
  {
    seq(hi - lo, k requires 0 <= k < hi - lo => lo + k)
  }

  /** The same as a list of natural numbers. */
  function RangeNat(lo: nat, hi: nat): (r: seq<nat>)
    requires lo <= hi
    ensures |r| == hi - lo && forall i :: 0 <= i < |r| ==> r[i] == lo + i
  {
    seq(hi - lo, i requires 0 <= i < hi - lo => lo + i)
  }

  /** `[x] * n`. */
  function Repeat<T>(x: T, n: nat): (r: seq<T>)
    ensures |r| == n && forall i :: 0 <= i < n ==> r[i] == x
  {
    seq(n, _ => x)
  }

  lemma RepeatAdds<T>(x: T, m: nat, n: nat)
    ensures Repeat(x, m) + Repeat(x, n) == Repeat(x, m + n)
  {
  }

  predicate NoDuplicates<T(==)>(s: seq<T>) {
    forall i, j :: 0 <= i < j < |s| ==> s[i] != s[j]
  }

  /** The numbers below the length, each once, in any order. */
  predicate IsPermutation(perm: seq<nat>) {
    (forall i :: 0 <= i < |perm| ==> perm[i] < |perm|) && NoDuplicates(perm)
  }

  lemma Twice(s: seq<int>, p: nat, q: nat)
    requires p < q < |s| && s[p] == s[q]
    ensures multiset(s)[s[p]] >= 2
  {
    assert s == s[..p] + [s[p]] + s[p + 1..q] + [s[q]] + s[q + 1..];
  }

  lemma {:induction false} OnceInRange(lo: nat, hi: nat, i: int)
    requires lo <= hi
    ensures multiset(Range(lo, hi))[i] <= 1
    decreases hi - lo
  {
    if lo < hi {
      OnceInRange(lo + 1, hi, i);
      assert Range(lo, hi) == [lo] + Range(lo + 1, hi);
    }
  }

  lemma {:induction false} SumByConcat<T>(s: seq<T>, t: seq<T>, f: T -> int)
    ensures SumBy(s + t, f) == SumBy(s, f) + SumBy(t, f)
  {
    if |s| == 0 {
      assert s + t == t;
    } else {
      assert (s + t)[1..] == s[1..] + t;
      SumByConcat(s[1..], t, f);
    }
  }

  lemma SumByAppend<T>(s: seq<T>, x: T, f: T -> int)
    ensures SumBy(s + [x], f) == SumBy(s, f) + f(x)
  {
    SumByConcat(s, [x], f);
  }

  /** Taking one element out of the middle of a list. */
  lemma SumBySplit<T>(s: seq<T>, j: nat, f: T -> int)
    requires j < |s|
    ensures SumBy(s, f) == f(s[j]) + SumBy(s[..j] + s[j + 1..], f)
  {
    assert s == s[..j] + ([s[j]] + s[j + 1..]);
    SumByConcat(s[..j], [s[j]] + s[j + 1..], f);
    SumByConcat([s[j]], s[j + 1..], f);
    SumByConcat(s[..j], s[j + 1..], f);
  }

  /** Taking the same element out of two lists with the same elements. */
  lemma WithoutOne<T>(s: seq<T>, t: seq<T>, j: nat)
    requires multiset(s) == multiset(t) && |s| > 0 && j < |t| && t[j] == s[0]
    ensures multiset(s[1..]) == multiset(t[..j] + t[j + 1..])
  {
    assert s == [s[0]] + s[1..];
    assert t == t[..j] + ([t[j]] + t[j + 1..]);
    assert multiset(s) - multiset{s[0]} == multiset(s[1..]);
    assert multiset(t) - multiset{t[j]} == multiset(t[..j]) + multiset(t[j + 1..]);
  }

  /** A sum depends on which elements a list has, not on their order. */
  lemma {:induction false} SumByPermutation<T>(s: seq<T>, t: seq<T>, f: T -> int)
    requires multiset(s) == multiset(t)
    ensures SumBy(s, f) == SumBy(t, f)
    decreases |s|
  {
    if |s| == 0 {
      assert |t| == |multiset(t)| == 0;
    } else {
      assert s[0] in multiset(t);
      var j :| 0 <= j < |t| && t[j] == s[0];
      var rest := t[..j] + t[j + 1..];
      WithoutOne(s, t, j);
      SumBySplit(t, j, f);
      SumByPermutation(s[1..], rest, f);
    }
  }

  lemma CountAppend<T>(s: seq<T>, x: T, p: T -> bool)
    ensures Count(s + [x], p) == Count(s, p) + Indicator(p)(x)
  {
    SumByAppend(s, x, Indicator(p));
  }

  lemma {:induction false} CountBounds<T>(s: seq<T>, p: T -> bool)
    ensures 0 <= Count(s, p) <= |s|
    ensures Count(s, p) == 0 <==> forall k :: 0 <= k < |s| ==> !p(s[k])
  {
    if |s| > 0 {
      CountBounds(s[1..], p);
      assert s == [s[0]] + s[1..];
    }
  }

  lemma CountConcat<T>(s: seq<T>, t: seq<T>, p: T -> bool)
    ensures Count(s + t, p) == Count(s, p) + Count(t, p)
  {
    SumByConcat(s, t, Indicator(p));
  }

  /** If something occurs in a list, it is counted; if it occurs twice, it is counted twice. */
  lemma CountTwo<T>(s: seq<T>, p: T -> bool, t: nat, u: nat)
    requires t < |s| && p(s[t])
    ensures Count(s, p) >= 1
    ensures t < u < |s| && p(s[u]) ==> Count(s, p) >= 2
  {
    CountBounds(s, p);
    if t < u < |s| && p(s[u]) {
      assert s == s[..u] + s[u..] && s[u..][0] == s[u] && s[..u][t] == s[t];
      CountConcat(s[..u], s[u..], p);
      CountBounds(s[..u], p);
      CountBounds(s[u..], p);
    }
  }

  lemma CountByPermutation<T>(s: seq<T>, t: seq<T>, p: T -> bool)
    requires multiset(s) == multiset(t)
    ensures Count(s, p) == Count(t, p)
  {
    SumByPermutation(s, t, Indicator(p));
  }

  lemma {:induction false} SumByEqual<T>(s: seq<T>, f: T -> int, g: T -> int)
    requires forall x :: x in s ==> f(x) == g(x)
    ensures SumBy(s, f) == SumBy(s, g)
  {
    if |s| > 0 {
      SumByEqual(s[1..], f, g);
    }
  }

  // ---------------------------------------------------------------- picking elements

  /** The elements at the given rows. */
  function Gather<T>(list: seq<T>, rows: seq<nat>): (s: seq<T>)
    requires forall i :: 0 <= i < |rows| ==> rows[i] < |list|
    ensures |s| == |rows| && forall i :: 0 <= i < |s| ==> s[i] == list[rows[i]]
  {
    seq(|rows|, i requires 0 <= i < |rows| => list[rows[i]])
  }

  /** `[x for x in s if p(x)]`. */
  function Filter<T>(s: seq<T>, p: T -> bool): seq<T> {
    if |s| == 0 then []
    else
      var last := |s| - 1;
      Filter(s[..last], p) + if p(s[last]) then [s[last]] else []
  }

  lemma {:induction false} FilterMembers<T>(s: seq<T>, p: T -> bool)
    ensures forall x :: x in Filter(s, p) <==> x in s && p(x)
    decreases |s|
  {
    if |s| > 0 {
      var last := |s| - 1;
      FilterMembers(s[..last], p);
      assert s == s[..last] + [s[last]];
    }
  }

  lemma {:induction false} FilterTwice<T>(s: seq<T>, p: T -> bool, q: T -> bool, both: T -> bool)
    requires forall x :: x in s ==> both(x) == (p(x) && q(x))
    ensures Filter(Filter(s, p), q) == Filter(s, both)
    decreases |s|
  {
    if |s| > 0 {
      var last := |s| - 1;
      FilterTwice(s[..last], p, q, both);
      if p(s[last]) {
        var kept := Filter(s[..last], p);
        assert (kept + [s[last]])[..|kept + [s[last]]| - 1] == kept;
      } else {
        assert Filter(s, p) == Filter(s[..last], p);
      }
    }
  }

  lemma FilterStep<T>(s: seq<T>, i: nat, p: T -> bool)
    requires i < |s|
    ensures Filter(s[..i + 1], p) == Filter(s[..i], p) + if p(s[i]) then [s[i]] else []
  {
    assert s[..i + 1][..i] == s[..i];
  }

  lemma {:induction false} FilterAll<T>(s: seq<T>, p: T -> bool)
    requires forall x :: x in s ==> p(x)
    ensures Filter(s, p) == s
    decreases |s|
  {
    if |s| > 0 {
      FilterAll(s[..|s| - 1], p);
    }
  }

  // ---------------------------------------------------------------- sorting

  predicate KeyLeq(a: (int, int), b: (int, int)) {
    a.0 < b.0 || (a.0 == b.0 && a.1 <= b.1)
  }

  ghost predicate SortedByKey<T>(s: seq<T>, key: T -> (int, int)) {
    forall i, j :: 0 <= i < j < |s| ==> KeyLeq(key(s[i]), key(s[j]))
  }

  lemma HeadBelow<T>(head: T, x: T, s: seq<T>, rest: seq<T>, key: T -> (int, int))
    requires multiset(rest) == multiset{x} + multiset(s)
    requires KeyLeq(key(head), key(x)) && forall y :: y in s ==> KeyLeq(key(head), key(y))
    requires SortedByKey(rest, key)
    ensures SortedByKey([head] + rest, key)
  {
    forall k | 0 <= k < |rest|
      ensures KeyLeq(key(head), key(rest[k]))
    {
      assert rest[k] in multiset(rest);
    }
  }

  function Insert<T>(x: T, s: seq<T>, key: T -> (int, int)): (r: seq<T>)
    requires SortedByKey(s, key)
    ensures SortedByKey(r, key)
    ensures multiset(r) == multiset{x} + multiset(s)
  {
    if |s| == 0 || KeyLeq(key(x), key(s[0])) then
      [x] + s
    else
      var rest := Insert(x, s[1..], key);
      HeadBelow(s[0], x, s[1..], rest, key);
      assert s == [s[0]] + s[1..];
      [s[0]] + rest
  }

  /** `sorted(s, key=key)` for keys that are pairs of integers. */
  function Sorted<T>(s: seq<T>, key: T -> (int, int)): (r: seq<T>)
    ensures SortedByKey(r, key)
    ensures multiset(r) == multiset(s)
  {
    if |s| == 0 then [] else
      assert s == [s[0]] + s[1..];
      Insert(s[0], Sorted(s[1..], key), key)
  }

  lemma Regroup<T>(a: seq<T>, b: seq<T>, c: seq<T>)
    ensures a + b + c == a + (b + c)
  {
  }

  lemma SameElements<T>(s: seq<T>, t: seq<T>)
    requires multiset(s) == multiset(t)
    ensures |s| == |t|
    ensures forall x :: x in s <==> x in t
  {
    assert |s| == |multiset(s)| == |multiset(t)| == |t|;
    assert forall x :: x in s <==> x in multiset(s);
    assert forall x :: x in t <==> x in multiset(t);
  }
}
