/**
  Comparison functions of the shape `int compare(const void *, const void *)`, the orders that
  callers promise them to be, and what it means for a sequence to be sorted by one.

  A comparator is modelled as a function of two values; only the sign of its result matters.
*/
module Comparators {

  /** The sign is antisymmetric and "not greater" is transitive: distinct values may compare equal. */
  ghost predicate TotalPreorder<T(!new)>(cmp: (T, T) -> int) {
    && (forall a, b :: cmp(a, b) < 0 <==> cmp(b, a) > 0)
    && (forall a, b, c :: cmp(a, b) <= 0 && cmp(b, c) <= 0 ==> cmp(a, c) <= 0)
  }

  /** A total preorder that returns zero on equal values only. */
  ghost predicate TotalOrder<T(!new)>(cmp: (T, T) -> int) {
    && TotalPreorder(cmp)
    && (forall a, b :: cmp(a, b) == 0 ==> a == b)
  }

  predicate Ascending<T>(cmp: (T, T) -> int, s: seq<T>) {
    forall i, j :: 0 <= i < j < |s| ==> cmp(s[i], s[j]) <= 0
  }

  predicate StrictlyAscending<T>(cmp: (T, T) -> int, s: seq<T>) {
    forall i, j :: 0 <= i < j < |s| ==> cmp(s[i], s[j]) < 0
  }

  /** `t` is a result that sorting `s` may give; the order of elements that compare equal is free. */
  ghost predicate IsSortOf<T>(cmp: (T, T) -> int, s: seq<T>, t: seq<T>) {
    multiset(t) == multiset(s) && Ascending(cmp, t)
  }

  /** The elements of `s` that compare equal to `x`, in the order they have in `s`. */
  function Matching<T>(cmp: (T, T) -> int, s: seq<T>, x: T): (m: seq<T>)
    ensures |m| <= |s|
  {
    if s == [] then []
    else if cmp(s[0], x) == 0 then [s[0]] + Matching(cmp, s[1..], x)
    else Matching(cmp, s[1..], x)
  }

  /** `s` is `t` with some elements left out. */
  ghost predicate Subsequence<T>(s: seq<T>, t: seq<T>) {
    s == [] || (t != [] && ((s[0] == t[0] && Subsequence(s[1..], t[1..])) || Subsequence(s, t[1..])))
  }

  ghost function Elements<T>(s: seq<T>): set<T> {
    set x | x in s
  }

  lemma LessThrough<T(!new)>(cmp: (T, T) -> int, a: T, b: T, c: T)
    requires TotalPreorder(cmp)
    ensures cmp(a, b) < 0 && cmp(b, c) <= 0 ==> cmp(a, c) < 0
    ensures cmp(a, b) <= 0 && cmp(b, c) < 0 ==> cmp(a, c) < 0
  {
    assert cmp(b, c) <= 0 && cmp(c, a) <= 0 ==> cmp(b, a) <= 0;
    assert cmp(c, a) <= 0 && cmp(a, b) <= 0 ==> cmp(c, b) <= 0;
  }

  lemma AscendingTail<T>(cmp: (T, T) -> int, s: seq<T>)
    requires Ascending(cmp, s) && s != []
    ensures Ascending(cmp, s[1..]) && (|s| > 1 ==> cmp(s[0], s[1..][0]) <= 0)
  {
  }

  // ----- lemmas about Matching

  lemma {:induction false} MatchingNonempty<T>(cmp: (T, T) -> int, s: seq<T>, x: T)
    ensures Matching(cmp, s, x) != [] <==> exists k :: 0 <= k < |s| && cmp(s[k], x) == 0
  {
    if s != [] {
      MatchingNonempty(cmp, s[1..], x);
      if k :| 0 <= k < |s[1..]| && cmp(s[1..][k], x) == 0 {
        assert cmp(s[k + 1], x) == 0;
      }
      if k :| 0 <= k < |s| && cmp(s[k], x) == 0 {
        assert k == 0 || cmp(s[1..][k - 1], x) == 0;
      }
    }
  }

  lemma {:induction false} MatchingSnoc<T>(cmp: (T, T) -> int, s: seq<T>, last: T, x: T)
    ensures Matching(cmp, s + [last], x) == Matching(cmp, s, x) + if cmp(last, x) == 0 then [last] else []
  {
    if s == [] {
      assert s + [last] == [last];
    } else {
      MatchingSnoc(cmp, s[1..], last, x);
      assert (s + [last])[1..] == s[1..] + [last];
    }
  }

  /** With zero only on equal values, a class is the copies of one value. */
  lemma {:induction false} MatchingCounts<T(!new)>(cmp: (T, T) -> int, s: seq<T>, x: T)
    requires TotalOrder(cmp)
    ensures |Matching(cmp, s, x)| == multiset(s)[x]
  {
    if s != [] {
      assert s == [s[0]] + s[1..];
      MatchingCounts(cmp, s[1..], x);
    }
  }

  /** A sorted sequence is determined by its classes. */
  lemma {:induction false} AscendingDetermined<T(!new)>(cmp: (T, T) -> int, s: seq<T>, t: seq<T>)
    requires TotalPreorder(cmp) && Ascending(cmp, s) && Ascending(cmp, t)
    requires forall x :: Matching(cmp, s, x) == Matching(cmp, t, x)
    ensures s == t
  {
    if s != [] { MatchingNonempty(cmp, t, s[0]); }
    if t != [] { MatchingNonempty(cmp, s, t[0]); }
    if s != [] && t != [] {
      assert cmp(s[0], t[0]) == 0;
      assert s[0] == Matching(cmp, s, s[0])[0] == Matching(cmp, t, s[0])[0] == t[0];
      forall x ensures Matching(cmp, s[1..], x) == Matching(cmp, t[1..], x) {
        assert Matching(cmp, s, x) == Matching(cmp, t, x);
        if cmp(s[0], x) == 0 {
          assert Matching(cmp, s[1..], x) == Matching(cmp, s, x)[1..];
          assert Matching(cmp, t[1..], x) == Matching(cmp, t, x)[1..];
        }
      }
      AscendingDetermined(cmp, s[1..], t[1..]);
    }
  }

  /** A strictly ascending sequence is determined by its set of elements. */
  lemma {:induction false} StrictlyAscendingDetermined<T(!new)>(cmp: (T, T) -> int, s: seq<T>, t: seq<T>)
    requires TotalPreorder(cmp) && StrictlyAscending(cmp, s) && StrictlyAscending(cmp, t)
    requires Elements(s) == Elements(t)
    ensures s == t
  {
    if s != [] { assert s[0] in Elements(s); }
    if t != [] { assert t[0] in Elements(t); }
    if s != [] && t != [] {
      assert s[0] == t[0];
      forall x ensures x in s[1..] <==> x in t[1..] {
        StrictTail(cmp, s, x);
        StrictTail(cmp, t, x);
        assert x in s <==> x in t by { assert x in Elements(s) <==> x in Elements(t); }
      }
      StrictlyAscendingDetermined(cmp, s[1..], t[1..]);
    }
  }

  lemma StrictTail<T(!new)>(cmp: (T, T) -> int, s: seq<T>, x: T)
    requires TotalPreorder(cmp) && StrictlyAscending(cmp, s) && s != []
    ensures x in s[1..] <==> x in s && x != s[0]
  {
    if x in s[1..] {
      var k :| 0 <= k < |s[1..]| && s[1..][k] == x;
      assert x == s[k + 1] && cmp(s[0], s[k + 1]) < 0;
    }
  }

  /** Leaving elements out keeps a sequence sorted. */
  lemma {:induction false} SubsequenceElements<T>(s: seq<T>, t: seq<T>)
    requires Subsequence(s, t)
    ensures forall x :: x in s ==> x in t
  {
    if s != [] {
      if s[0] == t[0] && Subsequence(s[1..], t[1..]) {
        SubsequenceElements(s[1..], t[1..]);
        assert s == [s[0]] + s[1..];
      } else {
        SubsequenceElements(s, t[1..]);
      }
    }
  }

  lemma {:induction false} SubsequenceAscending<T>(cmp: (T, T) -> int, s: seq<T>, t: seq<T>)
    requires Subsequence(s, t)
    ensures Ascending(cmp, t) ==> Ascending(cmp, s)
    ensures StrictlyAscending(cmp, t) ==> StrictlyAscending(cmp, s)
  {
    if s != [] {
      if s[0] == t[0] && Subsequence(s[1..], t[1..]) {
        SubsequenceAscending(cmp, s[1..], t[1..]);
        SubsequenceElements(s[1..], t[1..]);
        forall j | 0 < j < |s|
          ensures exists k :: 0 < k < |t| && s[j] == t[k]
        {
          assert s[j] == s[1..][j - 1];
          assert s[j] in t[1..];
          var k :| 0 <= k < |t[1..]| && t[1..][k] == s[j];
          assert t[k + 1] == s[j];
        }
        forall i, j | 0 < i < j < |s|
          ensures Ascending(cmp, t) ==> cmp(s[i], s[j]) <= 0
          ensures StrictlyAscending(cmp, t) ==> cmp(s[i], s[j]) < 0
        {
          assert s[i] == s[1..][i - 1] && s[j] == s[1..][j - 1];
        }
      } else {
        SubsequenceAscending(cmp, s, t[1..]);
      }
    }
  }

  // ----- a sort that meets the libc contract

  function InsertInOrder<T>(cmp: (T, T) -> int, x: T, s: seq<T>): seq<T> {
    if s == [] || cmp(x, s[0]) <= 0 then [x] + s else [s[0]] + InsertInOrder(cmp, x, s[1..])
  }

  function SomeSort<T>(cmp: (T, T) -> int, s: seq<T>): seq<T> {
    if s == [] then [] else InsertInOrder(cmp, s[0], SomeSort(cmp, s[1..]))
  }

  lemma {:induction false} InsertInOrderMultiset<T>(cmp: (T, T) -> int, x: T, s: seq<T>)
    ensures multiset(InsertInOrder(cmp, x, s)) == multiset{x} + multiset(s)
  {
    if s != [] && cmp(x, s[0]) > 0 {
      InsertInOrderMultiset(cmp, x, s[1..]);
      assert s == [s[0]] + s[1..];
    }
  }

  lemma {:induction false} InsertInOrderAscending<T(!new)>(cmp: (T, T) -> int, x: T, s: seq<T>)
    requires TotalPreorder(cmp) && Ascending(cmp, s)
    ensures Ascending(cmp, InsertInOrder(cmp, x, s))
  {
    if s == [] || cmp(x, s[0]) <= 0 {
      forall k | 0 <= k < |s| ensures cmp(x, s[k]) <= 0 {
        assert k > 0 ==> cmp(s[0], s[k]) <= 0;
      }
      PrependAscending(cmp, x, s);
    } else {
      var rest := InsertInOrder(cmp, x, s[1..]);
      AscendingTail(cmp, s);
      InsertInOrderAscending(cmp, x, s[1..]);
      InsertInOrderMultiset(cmp, x, s[1..]);
      forall k | 0 <= k < |rest| ensures cmp(s[0], rest[k]) <= 0 {
        assert rest[k] in multiset{x} + multiset(s[1..]);
      }
      PrependAscending(cmp, s[0], rest);
    }
  }

  lemma PrependAscending<T>(cmp: (T, T) -> int, x: T, s: seq<T>)
    requires Ascending(cmp, s) && forall k :: 0 <= k < |s| ==> cmp(x, s[k]) <= 0
    ensures Ascending(cmp, [x] + s)
  {
  }

  lemma {:induction false} SomeSortSorts<T(!new)>(cmp: (T, T) -> int, s: seq<T>)
    requires TotalPreorder(cmp)
    ensures IsSortOf(cmp, s, SomeSort(cmp, s))
  {
    if s != [] {
      SomeSortSorts(cmp, s[1..]);
      InsertInOrderMultiset(cmp, s[0], SomeSort(cmp, s[1..]));
      InsertInOrderAscending(cmp, s[0], SomeSort(cmp, s[1..]));
      assert s == [s[0]] + s[1..];
    }
  }
}
