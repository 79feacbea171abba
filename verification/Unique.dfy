/**
  What `zbx_vector_*_uniq` computes, and the pipeline sort, uniq, setdiff that the vectors are used for.
  The in-place method is in Vector.dfy.
*/
module Unique {
  import opened Comparators
  import opened SetDiff

  /** Element 0 and every element that compares unequal to its left neighbour. */
  function Uniq<T>(cmp: (T, T) -> int, s: seq<T>): (u: seq<T>)
    ensures |u| <= |s|
    ensures s != [] ==> u != []
  {
    var n := |s|;
    if n <= 1 then s
    else if cmp(s[n - 2], s[n - 1]) != 0 then Uniq(cmp, s[..n - 1]) + [s[n - 1]]
    else Uniq(cmp, s[..n - 1])
  }

  // ----- for any comparator

  /** One more element. */
  lemma UniqNext<T>(cmp: (T, T) -> int, s: seq<T>, i: nat)
    requires 1 <= i < |s|
    ensures Uniq(cmp, s[..i + 1]) == Uniq(cmp, s[..i]) + if cmp(s[i - 1], s[i]) != 0 then [s[i]] else []
  {
    assert s[..i + 1][..i] == s[..i];
  }

  /** The indices of the elements that stay. */
  function KeptIndices<T>(cmp: (T, T) -> int, s: seq<T>): (ix: seq<nat>)
    ensures forall k :: 0 <= k < |ix| ==> ix[k] < |s|
  {
    var n := |s|;
    if n == 0 then []
    else KeptIndices(cmp, s[..n - 1]) + if n == 1 || cmp(s[n - 2], s[n - 1]) != 0 then [n - 1] else []
  }

  /** Element 0, or one that differs from its original left neighbour. */
  predicate Stays<T>(cmp: (T, T) -> int, s: seq<T>, i: nat) {
    i < |s| && (i == 0 || cmp(s[i - 1], s[i]) != 0)
  }

  /** `uniq` picks, in order, exactly the elements that are to stay. */
  lemma {:induction false} UniqPicks<T>(cmp: (T, T) -> int, s: seq<T>)
    ensures var u, ix := Uniq(cmp, s), KeptIndices(cmp, s);
            && |u| == |ix| && (forall k :: 0 <= k < |u| ==> u[k] == s[ix[k]])
            && (forall j, k :: 0 <= j < k < |ix| ==> ix[j] < ix[k])
            && (forall i: nat :: i in ix <==> Stays(cmp, s, i))
  {
    if s != [] {
      var n, front := |s|, s[..|s| - 1];
      UniqPicks(cmp, front);
      forall i: nat ensures i in KeptIndices(cmp, s) <==> Stays(cmp, s, i) {
        assert i < n - 1 ==> (Stays(cmp, front, i) <==> Stays(cmp, s, i));
      }
    }
  }

  lemma {:induction false} UniqElements<T>(cmp: (T, T) -> int, s: seq<T>)
    ensures forall x :: x in Uniq(cmp, s) ==> x in s
  {
    if |s| > 1 { UniqElements(cmp, s[..|s| - 1]); }
  }

  /** What makes a second pass pointless: an element equal to its left neighbour differs from
      everything to the right that the neighbour differs from. */
  ghost predicate ZeroCarriesDifference<T(!new)>(cmp: (T, T) -> int) {
    forall a, b, c :: cmp(a, b) == 0 && cmp(b, c) != 0 ==> cmp(a, c) != 0
  }

  lemma {:induction false} UniqLast<T(!new)>(cmp: (T, T) -> int, s: seq<T>, c: T)
    requires ZeroCarriesDifference(cmp) && s != [] && cmp(s[|s| - 1], c) != 0
    ensures var u := Uniq(cmp, s); cmp(u[|u| - 1], c) != 0
  {
    var n := |s|;
    if n > 1 && cmp(s[n - 2], s[n - 1]) == 0 {
      UniqLast(cmp, s[..n - 1], c);
    }
  }

  lemma {:induction false} UniqTwice<T(!new)>(cmp: (T, T) -> int, s: seq<T>)
    requires ZeroCarriesDifference(cmp)
    ensures Uniq(cmp, Uniq(cmp, s)) == Uniq(cmp, s)
  {
    var n := |s|;
    if n > 1 {
      UniqTwice(cmp, s[..n - 1]);
      if cmp(s[n - 2], s[n - 1]) != 0 {
        UniqLast(cmp, s[..n - 1], s[n - 1]);
        UniqSnoc(cmp, Uniq(cmp, s[..n - 1]), s[n - 1]);
      }
    }
  }

  lemma UniqSnoc<T>(cmp: (T, T) -> int, s: seq<T>, x: T)
    requires s != []
    ensures Uniq(cmp, s + [x]) == Uniq(cmp, s) + if cmp(s[|s| - 1], x) != 0 then [x] else []
  {
    assert (s + [x])[..|s|] == s;
  }

  /** `uniq` is idempotent on every sequence, sorted or not, exactly for the comparators whose zero
      carries difference. A comparator with a tolerance does not qualify. */
  lemma UniqIdempotentExactly<T(!new)>(cmp: (T, T) -> int)
    ensures (forall s :: Uniq(cmp, Uniq(cmp, s)) == Uniq(cmp, s)) <==> ZeroCarriesDifference(cmp)
  {
    if ZeroCarriesDifference(cmp) {
      forall s ensures Uniq(cmp, Uniq(cmp, s)) == Uniq(cmp, s) { UniqTwice(cmp, s); }
    } else {
      var a, b, c :| cmp(a, b) == 0 && cmp(b, c) != 0 && cmp(a, c) == 0;
      UniqTwiceShrinks(cmp, a, b, c);
    }
  }

  lemma UniqTwiceShrinks<T>(cmp: (T, T) -> int, a: T, b: T, c: T)
    requires cmp(a, b) == 0 && cmp(b, c) != 0 && cmp(a, c) == 0
    ensures Uniq(cmp, [a, b, c]) == [a, c] && Uniq(cmp, [a, c]) == [a]
  {
    assert [a, b, c][..2] == [a, b] && [a, b][..1] == [a] && [a, c][..1] == [a];
    assert Uniq(cmp, [a]) == [a];
    assert Uniq(cmp, [a, b]) == [a];
  }

  // ----- for sorted input

  lemma {:induction false} UniqStrict<T(!new)>(cmp: (T, T) -> int, s: seq<T>)
    requires TotalPreorder(cmp) && Ascending(cmp, s)
    ensures StrictlyAscending(cmp, Uniq(cmp, s))
  {
    hide TotalPreorder;
    var n := |s|;
    if n > 1 {
      var front := s[..n - 1];
      UniqStrict(cmp, front);
      if cmp(s[n - 2], s[n - 1]) != 0 {
        UniqElements(cmp, front);
        var u := Uniq(cmp, front);
        forall i | 0 <= i < |u| ensures cmp(u[i], s[n - 1]) < 0 {
          assert u[i] in front;
          BelowLast(cmp, s, u[i]);
        }
        SnocStrict(cmp, u, s[n - 1]);
      }
    }
  }

  lemma SnocStrict<T>(cmp: (T, T) -> int, s: seq<T>, x: T)
    requires StrictlyAscending(cmp, s) && forall i :: 0 <= i < |s| ==> cmp(s[i], x) < 0
    ensures StrictlyAscending(cmp, s + [x])
  {
  }

  lemma BelowLast<T(!new)>(cmp: (T, T) -> int, s: seq<T>, x: T)
    requires TotalPreorder(cmp) && Ascending(cmp, s) && |s| > 1 && x in s[..|s| - 1]
    requires cmp(s[|s| - 2], s[|s| - 1]) != 0
    ensures cmp(x, s[|s| - 1]) < 0
  {
    var n := |s|;
    var k :| 0 <= k < n - 1 && s[k] == x;
    assert cmp(s[n - 2], s[n - 1]) < 0;
    assert k == n - 2 || cmp(s[k], s[n - 2]) <= 0;
  }

  function FirstOnly<T>(m: seq<T>): seq<T> {
    if m == [] then [] else [m[0]]
  }

  /** Sorted input: of each class of elements that compare equal exactly the first one stays. */
  lemma {:induction false} UniqPerClass<T(!new)>(cmp: (T, T) -> int, s: seq<T>, x: T)
    requires TotalPreorder(cmp) && Ascending(cmp, s)
    ensures Matching(cmp, Uniq(cmp, s), x) == FirstOnly(Matching(cmp, s, x))
  {
    hide TotalPreorder;
    var n := |s|;
    if n > 1 {
      var front, last := s[..n - 1], s[n - 1];
      UniqPerClass(cmp, front, x);
      assert Matching(cmp, s, x) == Matching(cmp, front, x) + if cmp(last, x) == 0 then [last] else [] by {
        MatchingSnoc(cmp, front, last, x);
        assert s == front + [last];
      }
      if cmp(s[n - 2], last) != 0 {
        MatchingSnoc(cmp, Uniq(cmp, front), last, x);
        if cmp(last, x) == 0 { NoMatchBeforeLast(cmp, s, x); }
      } else if cmp(last, x) == 0 {
        MatchesBeforeLast(cmp, s, x);
      }
    }
  }

  lemma NoMatchBeforeLast<T(!new)>(cmp: (T, T) -> int, s: seq<T>, x: T)
    requires TotalPreorder(cmp) && Ascending(cmp, s) && |s| > 1
    requires cmp(s[|s| - 2], s[|s| - 1]) != 0 && cmp(s[|s| - 1], x) == 0
    ensures Matching(cmp, s[..|s| - 1], x) == []
  {
    var front := s[..|s| - 1];
    forall k | 0 <= k < |front| ensures cmp(front[k], x) != 0 {
      BelowLast(cmp, s, front[k]);
    }
    MatchingNonempty(cmp, front, x);
  }

  lemma MatchesBeforeLast<T(!new)>(cmp: (T, T) -> int, s: seq<T>, x: T)
    requires TotalPreorder(cmp) && |s| > 1
    requires cmp(s[|s| - 2], s[|s| - 1]) == 0 && cmp(s[|s| - 1], x) == 0
    ensures Matching(cmp, s[..|s| - 1], x) != []
  {
    var front := s[..|s| - 1];
    assert cmp(front[|front| - 1], x) == 0;
    MatchingNonempty(cmp, front, x);
  }

  // ----- sort, uniq, setdiff

  lemma InExactlyWhenMatching<T(!new)>(cmp: (T, T) -> int, s: seq<T>, x: T)
    requires TotalOrder(cmp)
    ensures x in s <==> Matching(cmp, s, x) != []
  {
    MatchingCounts(cmp, s, x);
  }

  /** Whatever order the sorts leave, the pipeline yields the set difference in strictly ascending
      order, and another `uniq` changes nothing. */
  lemma CanonicalDifference<T(!new)>(cmp: (T, T) -> int, a: seq<T>, b: seq<T>, sa: seq<T>, sb: seq<T>)
    requires TotalOrder(cmp) && IsSortOf(cmp, a, sa) && IsSortOf(cmp, b, sb)
    ensures var d := MergeDiff(cmp, Uniq(cmp, sa), Uniq(cmp, sb));
            StrictlyAscending(cmp, d) && Elements(d) == Elements(a) - Elements(b) && Uniq(cmp, d) == d
  {
    hide TotalPreorder;
    var ua, ub := Uniq(cmp, sa), Uniq(cmp, sb);
    var d := MergeDiff(cmp, ua, ub);
    UniqStrict(cmp, sa);
    UniqStrict(cmp, sb);
    MergeDiffSorted(cmp, ua, ub);
    forall x ensures x in d <==> x in a && x !in b {
      UniqPerClass(cmp, sa, x);
      UniqPerClass(cmp, sb, x);
      MergeDiffPerClass(cmp, ua, ub, x);
      InExactlyWhenMatching(cmp, sa, x);
      InExactlyWhenMatching(cmp, sb, x);
      InExactlyWhenMatching(cmp, d, x);
      SameElements(a, sa, x);
      SameElements(b, sb, x);
    }
    StrictlyAscendingUniq(cmp, d);
  }

  lemma SameElements<T>(s: seq<T>, t: seq<T>, x: T)
    requires multiset(s) == multiset(t)
    ensures x in s <==> x in t
  {
    assert x in s <==> x in multiset(s);
    assert x in t <==> x in multiset(t);
  }

  lemma {:induction false} StrictlyAscendingUniq<T>(cmp: (T, T) -> int, s: seq<T>)
    requires StrictlyAscending(cmp, s)
    ensures Uniq(cmp, s) == s
  {
    if |s| > 1 {
      StrictlyAscendingUniq(cmp, s[..|s| - 1]);
    }
  }

  /** The result depends on the two element sets alone: not on the order or multiplicity of the
      inputs, and not on the choices the sort makes. */
  lemma CanonicalDifferenceIndependent<T(!new)>(
      cmp: (T, T) -> int, a: seq<T>, b: seq<T>, sa: seq<T>, sb: seq<T>,
      a': seq<T>, b': seq<T>, sa': seq<T>, sb': seq<T>)
    requires TotalOrder(cmp) && IsSortOf(cmp, a, sa) && IsSortOf(cmp, b, sb)
    requires IsSortOf(cmp, a', sa') && IsSortOf(cmp, b', sb')
    requires Elements(a) == Elements(a') && Elements(b) == Elements(b')
    ensures MergeDiff(cmp, Uniq(cmp, sa), Uniq(cmp, sb)) == MergeDiff(cmp, Uniq(cmp, sa'), Uniq(cmp, sb'))
  {
    CanonicalDifference(cmp, a, b, sa, sb);
    CanonicalDifference(cmp, a', b', sa', sb');
    StrictlyAscendingDetermined(cmp, MergeDiff(cmp, Uniq(cmp, sa), Uniq(cmp, sb)),
                                MergeDiff(cmp, Uniq(cmp, sa'), Uniq(cmp, sb')));
  }

  /** Once the left side is free of repeats, repeats on the right change nothing. */
  lemma RightRepeatsIrrelevant<T(!new)>(cmp: (T, T) -> int, left: seq<T>, right: seq<T>)
    requires TotalPreorder(cmp) && Ascending(cmp, left) && Ascending(cmp, right)
    ensures MergeDiff(cmp, Uniq(cmp, left), right) == MergeDiff(cmp, Uniq(cmp, left), Uniq(cmp, right))
  {
    var u, v := Uniq(cmp, left), Uniq(cmp, right);
    UniqStrict(cmp, left);
    UniqStrict(cmp, right);
    MergeDiffSorted(cmp, u, right);
    var d := MergeDiff(cmp, u, right);
    forall x ensures var l, r := Matching(cmp, u, x), Matching(cmp, v, x);
                     Matching(cmp, d, x) == l[if |l| <= |r| then |l| else |r|..]
    {
      UniqPerClass(cmp, left, x);
      UniqPerClass(cmp, right, x);
      MergeDiffPerClass(cmp, u, right, x);
    }
    MergeDiffUnique(cmp, u, v, d);
  }
}
