/** The array operations the listing relies on: `Array.from(new Set(a))`
    as first-occurrence deduplication, and `Array.prototype.sort(compareFn)`
    as ECMAScript 2019 specifies it: a stable sort by a consistent
    comparator. The host's algorithm is not
    visible, so this module realises the specification with an insertion
    sort and proves the three things callers rely on: the result is a
    permutation of the input, it is ordered by the comparator, and elements
    the comparator calls equal keep their input order. */
module Arrays {

  predicate NoDup<T(==)>(s: seq<T>) {
    forall i, j :: 0 <= i < j < |s| ==> s[i] != s[j]
  }

  // ------------------------------------------------------ deduplication

  /** The position of the first occurrence of `x` in `s`. */
  function FirstIndex<T(==)>(s: seq<T>, x: T): (i: nat)
    requires x in s
    ensures i < |s| && s[i] == x && x !in s[..i]
  {
    if s[0] == x then 0
    else
      assert s == [s[0]] + s[1..];
      var j := FirstIndex(s[1..], x);
      assert s[..j + 1] == [s[0]] + s[1..][..j];
      j + 1
  }

  /** Any index holding `x` with no earlier `x` is the first occurrence. */
  lemma FirstIndexIsUnique<T>(s: seq<T>, x: T, i: nat)
    requires i < |s| && s[i] == x && x !in s[..i]
    ensures FirstIndex(s, x) == i
  {
  }

  /** A value occurring in a prefix first occurs there. */
  lemma FirstIndexOfPrefix<T>(s: seq<T>, k: nat, x: T)
    requires k <= |s| && x in s[..k]
    ensures FirstIndex(s, x) == FirstIndex(s[..k], x)
  {
    var i := FirstIndex(s[..k], x);
    assert s[..k][..i] == s[..i];
    FirstIndexIsUnique(s, x, i);
  }

  /** `Array.from(new Set(s))`: the first occurrence of each value, in order. */
  function Dedup<T(==,!new)>(s: seq<T>): (r: seq<T>)
    ensures NoDup(r)
    ensures forall x :: x in r <==> x in s
    ensures forall i, j :: 0 <= i < j < |r| ==> FirstIndex(s, r[i]) < FirstIndex(s, r[j])
  {
    if |s| == 0 then []
    else
      var init := s[..|s| - 1];
      var d := Dedup(init);
      var x := s[|s| - 1];
      assert forall y :: y in s <==> y in init || y == x;
      assert forall y :: y in init ==> FirstIndex(s, y) == FirstIndex(init, y) by {
        forall y | y in init
          ensures FirstIndex(s, y) == FirstIndex(init, y)
        {
          FirstIndexOfPrefix(s, |s| - 1, y);
        }
      }
      if x in d then d
      else
        FirstIndexIsUnique(s, x, |s| - 1);
        d + [x]
  }

  /** A list without duplicates is its own deduplication. */
  lemma {:induction false} DedupOfNoDup<T(!new)>(s: seq<T>)
    requires NoDup(s)
    ensures Dedup(s) == s
  {
    if |s| > 0 {
      var init := s[..|s| - 1];
      DedupOfNoDup(init);
      assert s[|s| - 1] !in init;
      assert s == init + [s[|s| - 1]];
    }
  }


  function Sign(x: int): int {
    if x < 0 then -1 else if x > 0 then 1 else 0
  }

  /** A consistent comparator: `cmp(a, b)` and `cmp(b, a)` have opposite
      signs, and "not after" (`cmp <= 0`) is transitive. */
  ghost predicate IsComparator<T(!new)>(cmp: (T, T) -> int) {
    && (forall a, b :: Opposite(cmp, a, b))
    && (forall a, b, c :: Chain(cmp, a, b, c))
  }

  /* The two laws instance by instance, kept as predicates of their own so
     that the solver instantiates them only where a proof names them. */

  ghost predicate Opposite<T>(cmp: (T, T) -> int, a: T, b: T) {
    Sign(cmp(a, b)) == -Sign(cmp(b, a))
  }

  ghost predicate Chain<T>(cmp: (T, T) -> int, a: T, b: T, c: T) {
    cmp(a, b) <= 0 && cmp(b, c) <= 0 ==> cmp(a, c) <= 0
  }

  ghost predicate SortedBy<T>(s: seq<T>, cmp: (T, T) -> int) {
    forall i, j :: 0 <= i < j < |s| ==> cmp(s[i], s[j]) <= 0
  }

  /** Places `x` in front of the first element it is not after. */
  function Insert<T(!new)>(x: T, s: seq<T>, cmp: (T, T) -> int): (r: seq<T>)
    requires IsComparator(cmp) && SortedBy(s, cmp)
    ensures SortedBy(r, cmp)
    ensures multiset(r) == multiset(s) + multiset{x}
  {
    if |s| == 0 || cmp(x, s[0]) <= 0 then
      assert forall j :: 0 <= j < |s| ==> Chain(cmp, x, s[0], s[j]);
      SortedCons(x, s, cmp);
      [x] + s
    else
      var rest := Insert(x, s[1..], cmp);
      assert s == [s[0]] + s[1..];
      assert Opposite(cmp, x, s[0]);
      assert forall j :: 0 <= j < |rest| ==> cmp(s[0], rest[j]) <= 0 by {
        forall j | 0 <= j < |rest|
          ensures cmp(s[0], rest[j]) <= 0
        {
          var y := rest[j];
          assert y in multiset(rest);
          if y != x {
            assert y in multiset(s[1..]);
            var k :| 0 <= k < |s[1..]| && s[1..][k] == y;
            assert s[k + 1] == y;
          }
        }
      }
      SortedCons(s[0], rest, cmp);
      [s[0]] + rest
  }

  /** An element not after any element of a sorted list may go in front. */
  lemma SortedCons<T>(x: T, s: seq<T>, cmp: (T, T) -> int)
    requires SortedBy(s, cmp)
    requires forall j :: 0 <= j < |s| ==> cmp(x, s[j]) <= 0
    ensures SortedBy([x] + s, cmp)
  {
    var r := [x] + s;
    forall i, j | 0 <= i < j < |r|
      ensures cmp(r[i], r[j]) <= 0
    {
      assert r[j] == s[j - 1];
      if i > 0 {
        assert r[i] == s[i - 1];
      }
    }
  }

  /** The sorted copy `[...s].sort(cmp)`. */
  function SortBy<T(!new)>(s: seq<T>, cmp: (T, T) -> int): (r: seq<T>)
    requires IsComparator(cmp)
    ensures SortedBy(r, cmp)
    ensures multiset(r) == multiset(s)
  {
    if |s| == 0 then []
    else
      assert s == [s[0]] + s[1..];
      Insert(s[0], SortBy(s[1..], cmp), cmp)
  }

  /** The elements of `s` that `cmp` calls equal to `x`, in the order of `s`. */
  function Ties<T>(s: seq<T>, x: T, cmp: (T, T) -> int): seq<T> {
    if |s| == 0 then []
    else (if cmp(s[0], x) == 0 then [s[0]] else []) + Ties(s[1..], x, cmp)
  }

  lemma TiesOfCons<T>(h: T, t: seq<T>, x: T, cmp: (T, T) -> int)
    ensures Ties([h] + t, x, cmp) == (if cmp(h, x) == 0 then [h] else []) + Ties(t, x, cmp)
  {
    assert ([h] + t)[0] == h && ([h] + t)[1..] == t;
  }

  lemma {:induction false} TiesOfInsert<T(!new)>(y: T, s: seq<T>, x: T, cmp: (T, T) -> int)
    requires IsComparator(cmp) && SortedBy(s, cmp)
    ensures Ties(Insert(y, s, cmp), x, cmp) == (if cmp(y, x) == 0 then [y] else []) + Ties(s, x, cmp)
  {
    if |s| == 0 || cmp(y, s[0]) <= 0 {
      TiesOfCons(y, s, x, cmp);
    } else {
      var yTie := if cmp(y, x) == 0 then [y] else [];
      var headTie := if cmp(s[0], x) == 0 then [s[0]] else [];
      var rest := Insert(y, s[1..], cmp);
      var later := Ties(s[1..], x, cmp);
      TiesOfCons(s[0], rest, x, cmp);
      TiesOfInsert(y, s[1..], x, cmp);
      TiesOfCons(s[0], s[1..], x, cmp);
      assert [s[0]] + s[1..] == s;
      // y and s[0] cannot both tie with x: that would make them tie with
      // each other, while y was placed after s[0].
      assert Opposite(cmp, x, s[0]) && Chain(cmp, y, x, s[0]);
      assert yTie == [] || headTie == [];
      calc {
        Ties(Insert(y, s, cmp), x, cmp);
        Ties([s[0]] + rest, x, cmp);
        headTie + (yTie + later);
        yTie + (headTie + later);
      }
    }
  }

  /** Stability: the elements that tie with any `x` appear in the sorted
      result in the same order as in the input. */
  lemma {:induction false} SortByIsStable<T(!new)>(s: seq<T>, x: T, cmp: (T, T) -> int)
    requires IsComparator(cmp)
    ensures Ties(SortBy(s, cmp), x, cmp) == Ties(s, x, cmp)
  {
    if |s| > 0 {
      SortByIsStable(s[1..], x, cmp);
      TiesOfInsert(s[0], SortBy(s[1..], cmp), x, cmp);
    }
  }

  /** Sorting a list without duplicates gives a list without duplicates. */
  lemma {:induction false} SortByKeepsNoDup<T(!new)>(s: seq<T>, cmp: (T, T) -> int)
    requires IsComparator(cmp)
    requires NoDup(s)
    ensures NoDup(SortBy(s, cmp))
  {
    if |s| > 0 {
      var sorted := SortBy(s[1..], cmp);
      SortByKeepsNoDup(s[1..], cmp);
      assert s[0] !in multiset(s[1..]);
      assert s[0] !in sorted;
      InsertKeepsNoDup(s[0], sorted, cmp);
    }
  }

  lemma {:induction false} InsertKeepsNoDup<T(!new)>(x: T, s: seq<T>, cmp: (T, T) -> int)
    requires IsComparator(cmp) && SortedBy(s, cmp)
    requires x !in s && NoDup(s)
    ensures NoDup(Insert(x, s, cmp))
  {
    if |s| == 0 || cmp(x, s[0]) <= 0 {
      assert Insert(x, s, cmp) == [x] + s;
    } else {
      var rest := Insert(x, s[1..], cmp);
      assert Insert(x, s, cmp) == [s[0]] + rest;
      InsertKeepsNoDup(x, s[1..], cmp);
      assert s[0] != x && s[0] !in s[1..];
      assert s[0] !in multiset(rest);
    }
  }

  // ------------------------------------------------------------ removal

  /** `s.filter(y => y !== x)`: every copy of `x` removed, the rest in
      order. On a list without duplicates this is also `set.delete(x)`. */
  function Without<T(==,!new)>(s: seq<T>, x: T): (r: seq<T>)
    ensures forall y :: y in r <==> y in s && y != x
    ensures forall y :: multiset(r)[y] == if y == x then 0 else multiset(s)[y]
    ensures |s| == 1 ==> r == if s[0] == x then [] else s
    ensures NoDup(s) ==> NoDup(r)
    ensures x !in s ==> r == s
  {
    if |s| == 0 then []
    else
      var rest := Without(s[1..], x);
      assert s == [s[0]] + s[1..];
      assert NoDup(s) ==> NoDup(s[1..]) && s[0] !in s[1..];
      if s[0] == x then rest else [s[0]] + rest
  }

  /** The filter works element by element: removing from a concatenation
      removes from each part, so the kept elements stay in their order. */
  lemma {:induction false} WithoutAppend<T(!new)>(a: seq<T>, b: seq<T>, x: T)
    ensures Without(a + b, x) == Without(a, x) + Without(b, x)
  {
    if |a| == 0 {
      assert a + b == b;
    } else {
      assert (a + b)[1..] == a[1..] + b;
      WithoutAppend(a[1..], b, x);
    }
  }

  /** Appending a value that is absent and then removing it restores the
      list. */
  lemma {:induction false} WithoutAppended<T(!new)>(s: seq<T>, x: T)
    requires x !in s
    ensures Without(s + [x], x) == s
  {
    if |s| == 0 {
      assert Without([x], x) == Without([x][1..], x);
    } else {
      assert (s + [x])[1..] == s[1..] + [x];
      WithoutAppended(s[1..], x);
      assert s == [s[0]] + s[1..];
    }
  }
}
