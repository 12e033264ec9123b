/** Lexicographic orders and sorting by an order. */
module Orders {
  import opened Lists

  ghost predicate Transitive<T(!new)>(less: (T, T) -> bool) {
    forall a, b, c :: less(a, b) && less(b, c) ==> less(a, c)
  }

  /** Nothing is below itself, and of two different elements one is below the other. */
  ghost predicate Linear<T(!new)>(less: (T, T) -> bool) {
    forall a, b :: (less(a, b) || less(b, a)) <==> a != b
  }

  // ---------------------------------------------------------------- lists in order

  ghost predicate Ascends<T>(less: (T, T) -> bool, s: seq<T>) {
    forall i, j :: 0 <= i < j < |s| ==> less(s[i], s[j])
  }

  /** Any two elements are in one order or the other. */
  ghost predicate Comparable<T>(less: (T, T) -> bool, s: seq<T>) {
    forall i, j :: 0 <= i < j < |s| ==> less(s[i], s[j]) || less(s[j], s[i])
  }

  lemma AscendingHead<T>(less: (T, T) -> bool, x: T, s: seq<T>)
    requires Ascends(less, s) && forall y :: y in s ==> less(x, y)
    ensures Ascends(less, [x] + s)
  {
    var all := [x] + s;
    forall i, j | 0 <= i < j < |all|
      ensures less(all[i], all[j])
    {
      assert all[j] == s[j - 1] && s[j - 1] in s;
    }
  }

  lemma InsertedFirst<T(!new)>(less: (T, T) -> bool, x: T, s: seq<T>)
    requires Transitive(less) && Ascends(less, s) && |s| > 0 && less(x, s[0])
    ensures Ascends(less, [x] + s)
  {
    forall y | y in s
      ensures less(x, y)
    {
      var i :| 0 <= i < |s| && s[i] == y;
      if i > 0 {
        assert less(x, s[0]) && less(s[0], y);
      }
    }
    AscendingHead(less, x, s);
  }

  function InsertInOrder<T(!new)>(less: (T, T) -> bool, x: T, s: seq<T>): (r: seq<T>)
    requires Transitive(less) && Ascends(less, s) && forall y :: y in s ==> less(x, y) || less(y, x)
    ensures Ascends(less, r)
    ensures forall y :: y in r <==> y == x || y in s
  {
    if |s| == 0 then [x]
    else if less(x, s[0]) then
      InsertedFirst(less, x, s);
      [x] + s
    else
      assert s == [s[0]] + s[1..];
      var rest := InsertInOrder(less, x, s[1..]);
      AscendingHead(less, s[0], rest);
      [s[0]] + rest
  }

  /** `sorted(s)`. */
  function SortBy<T(!new)>(less: (T, T) -> bool, s: seq<T>): (r: seq<T>)
    requires Transitive(less) && Comparable(less, s)
    ensures Ascends(less, r)
    ensures forall y :: y in r <==> y in s
  {
    if |s| == 0 then [] else
      assert s == [s[0]] + s[1..];
      InsertInOrder(less, s[0], SortBy(less, s[1..]))
  }

  lemma {:induction false} FilterAscends<T>(less: (T, T) -> bool, s: seq<T>, p: T -> bool)
    requires Ascends(less, s)
    ensures Ascends(less, Filter(s, p)) && forall i :: 0 <= i < |Filter(s, p)| ==> Filter(s, p)[i] in s
    decreases |s|
  {
    if |s| > 0 {
      var last := |s| - 1;
      FilterAscends(less, s[..last], p);
      var kept := Filter(s[..last], p);
      forall i | 0 <= i < |kept|
        ensures less(kept[i], s[last]) && kept[i] in s
      {
        assert kept[i] in s[..last];
      }
    }
  }

  lemma AscendingIsDistinct<T(!new)>(less: (T, T) -> bool, s: seq<T>)
    requires (forall a :: !less(a, a)) && Ascends(less, s)
    ensures NoDuplicates(s)
  {
  }

  /** The elements alone decide the list in order. */
  lemma {:induction false} AscendingIsUnique<T(!new)>(less: (T, T) -> bool, s: seq<T>, t: seq<T>)
    requires Transitive(less) && (forall a :: !less(a, a)) && Ascends(less, s) && Ascends(less, t)
    requires forall y :: y in s <==> y in t
    ensures s == t
  {
    assert (|s| > 0 ==> s[0] in s) && (|t| > 0 ==> t[0] in t);
    if |s| > 0 {
      SameLeast(less, s, t);
      AscendingIsUnique(less, s[1..], t[1..]);
      assert s == [s[0]] + s[1..] && t == [t[0]] + t[1..];
    }
  }

  lemma SameLeast<T(!new)>(less: (T, T) -> bool, s: seq<T>, t: seq<T>)
    requires Transitive(less) && (forall a :: !less(a, a)) && Ascends(less, s) && Ascends(less, t)
    requires |s| > 0 && |t| > 0 && forall y :: y in s <==> y in t
    ensures s[0] == t[0] && forall y :: y in s[1..] <==> y in t[1..]
  {
    LeastOf(less, s, t[0]);
    LeastOf(less, t, s[0]);
    TailElements(less, s);
    TailElements(less, t);
  }

  lemma LeastOf<T>(less: (T, T) -> bool, s: seq<T>, x: T)
    requires Ascends(less, s) && |s| > 0
    ensures s[0] in s && (x in s && x != s[0] ==> less(s[0], x))
  {
    if x in s {
      var i :| 0 <= i < |s| && s[i] == x;
    }
  }

  lemma TailElements<T>(less: (T, T) -> bool, s: seq<T>)
    requires (forall a :: !less(a, a)) && Ascends(less, s) && |s| > 0
    ensures forall y :: y in s[1..] <==> y in s && y != s[0]
  {
    assert forall i :: 0 <= i < |s[1..]| ==> less(s[0], s[1..][i]);
    assert s == [s[0]] + s[1..];
  }

  // ---------------------------------------------------------------- lexicographic order

  predicate ListLess<T(==)>(less: (T, T) -> bool, a: seq<T>, b: seq<T>) {
    |b| > 0 && (|a| == 0 || less(a[0], b[0]) || (a[0] == b[0] && ListLess(less, a[1..], b[1..])))
  }

  function Lexicographic<T(==)>(less: (T, T) -> bool): (seq<T>, seq<T>) -> bool {
    (a: seq<T>, b: seq<T>) => ListLess(less, a, b)
  }

  lemma {:induction false} ListLessIsTotal<T(!new)>(less: (T, T) -> bool, a: seq<T>, b: seq<T>)
    requires Linear(less)
    ensures (ListLess(less, a, b) || ListLess(less, b, a)) <==> a != b
  {
    if |a| > 0 && |b| > 0 {
      ListLessIsTotal(less, a[1..], b[1..]);
      assert a == [a[0]] + a[1..] && b == [b[0]] + b[1..];
    }
  }

  lemma {:induction false} ListLessIsTransitive<T(!new)>(less: (T, T) -> bool, a: seq<T>, b: seq<T>, c: seq<T>)
    requires Transitive(less) && ListLess(less, a, b) && ListLess(less, b, c)
    ensures ListLess(less, a, c)
  {
    if |a| > 0 {
      if a[0] == b[0] == c[0] && !less(a[0], c[0]) {
        ListLessIsTransitive(less, a[1..], b[1..], c[1..]);
      } else if a[0] != b[0] && b[0] != c[0] {
        assert less(a[0], b[0]) && less(b[0], c[0]);
      }
    }
  }

  lemma LexicographicIsOrder<T(!new)>(less: (T, T) -> bool)
    requires Transitive(less) && Linear(less)
    ensures Transitive(Lexicographic(less)) && Linear(Lexicographic(less))
  {
    forall a: seq<T>, b: seq<T>
      ensures (Lexicographic(less)(a, b) || Lexicographic(less)(b, a)) <==> a != b
    {
      ListLessIsTotal(less, a, b);
    }
    forall a: seq<T>, b: seq<T>, c: seq<T> | Lexicographic(less)(a, b) && Lexicographic(less)(b, c)
      ensures Lexicographic(less)(a, c)
    {
      ListLessIsTransitive(less, a, b, c);
    }
  }

  // ---------------------------------------------------------------- strings

  function CharLess(): (char, char) -> bool {
    (c: char, d: char) => c < d
  }

  /** Strings in the order of their characters. */
  function StringLess(): (string, string) -> bool {
    Lexicographic(CharLess())
  }

  lemma StringsAreOrdered()
    ensures Transitive(StringLess()) && Linear(StringLess())
  {
    LexicographicIsOrder(CharLess());
  }
}
