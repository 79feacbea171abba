/**
  What `zbx_vector_*_setdiff` computes: the merge of two cursors that drops a left element each time
  the elements under the cursors compare equal. The in-place method is in Vector.dfy.
*/
module SetDiff {
  import opened Options
  import opened Comparators

  /** The merge difference, for any comparator and any two sequences. */
  function MergeDiff<T>(cmp: (T, T) -> int, left: seq<T>, right: seq<T>): (d: seq<T>)
    ensures |d| <= |left| <= |d| + |right|
    decreases |left| + |right|
  {
    if left == [] || right == [] then left
    else
      var c := cmp(left[0], right[0]);
      if c < 0 then [left[0]] + MergeDiff(cmp, left[1..], right)
      else if c > 0 then MergeDiff(cmp, left, right[1..])
      else MergeDiff(cmp, left[1..], right[1..])
  }

  /** The index of the first left element that the merge drops, or |left| if it drops none. */
  function FirstDropped<T>(cmp: (T, T) -> int, left: seq<T>, right: seq<T>): (k: nat)
    ensures k <= |left|
    ensures k <= |MergeDiff(cmp, left, right)|
    ensures k == |left| <==> |MergeDiff(cmp, left, right)| == |left|
    decreases |left| + |right|
  {
    if left == [] || right == [] then |left|
    else
      var c := cmp(left[0], right[0]);
      if c < 0 then 1 + FirstDropped(cmp, left[1..], right)
      else if c > 0 then FirstDropped(cmp, left, right[1..])
      else 0
  }

  // ----- for any comparator

  lemma {:induction false} MergeDiffIsSubsequence<T>(cmp: (T, T) -> int, left: seq<T>, right: seq<T>)
    ensures Subsequence(MergeDiff(cmp, left, right), left)
    decreases |left| + |right|
  {
    if left == [] || right == [] {
      SubsequenceReflexive(left);
    } else {
      var c := cmp(left[0], right[0]);
      if c < 0 {
        MergeDiffIsSubsequence(cmp, left[1..], right);
        assert ([left[0]] + MergeDiff(cmp, left[1..], right))[1..] == MergeDiff(cmp, left[1..], right);
      } else if c > 0 {
        MergeDiffIsSubsequence(cmp, left, right[1..]);
      } else {
        MergeDiffIsSubsequence(cmp, left[1..], right[1..]);
      }
    }
  }

  /** The longest prefix of left from which nothing is dropped; with one more element, that one is. */
  lemma {:induction false} FirstDroppedExact<T>(cmp: (T, T) -> int, left: seq<T>, right: seq<T>)
    ensures var k := FirstDropped(cmp, left, right);
            && MergeDiff(cmp, left[..k], right) == left[..k]
            && (k < |left| ==> MergeDiff(cmp, left[..k + 1], right) == left[..k])
    decreases |left| + |right|
  {
    var k := FirstDropped(cmp, left, right);
    if left == [] || right == [] {
      assert left[..k] == left;
    } else {
      var c := cmp(left[0], right[0]);
      if c < 0 {
        FirstDroppedExact(cmp, left[1..], right);
        assert left[..k][1..] == left[1..][..k - 1];
        assert k < |left| ==> left[..k + 1][1..] == left[1..][..k];
        assert left[..k] == [left[0]] + left[1..][..k - 1];
      } else if c > 0 {
        FirstDroppedExact(cmp, left, right[1..]);
      } else {
        assert left[..1][1..] == [];
      }
    }
  }

  /** Nothing is left of a sequence minus itself, sorted or not, if elements compare equal to themselves. */
  lemma {:induction false} MergeDiffSelf<T>(cmp: (T, T) -> int, s: seq<T>)
    requires forall k :: 0 <= k < |s| ==> cmp(s[k], s[k]) == 0
    ensures MergeDiff(cmp, s, s) == []
  {
    if s != [] { MergeDiffSelf(cmp, s[1..]); }
  }

  lemma {:induction false} SubsequenceReflexive<T>(s: seq<T>)
    ensures Subsequence(s, s)
  {
    if s != [] { SubsequenceReflexive(s[1..]); }
  }

  // ----- for sorted inputs

  /** Nothing in a sorted sequence equals a value that precedes its first element. */
  lemma NoMatchBefore<T(!new)>(cmp: (T, T) -> int, first: T, s: seq<T>, x: T)
    requires TotalPreorder(cmp) && Ascending(cmp, s) && s != []
    requires cmp(first, s[0]) < 0 && cmp(first, x) == 0
    ensures Matching(cmp, s, x) == []
  {
    forall k | 0 <= k < |s| ensures cmp(s[k], x) != 0 {
      assert k == 0 || cmp(s[0], s[k]) <= 0;
      assert cmp(first, s[k]) < 0;
    }
    MatchingNonempty(cmp, s, x);
  }

  /** In each class of elements that compare equal, exactly the first min(left, right) left members go,
      and the remaining ones keep their order. */
  lemma {:induction false} MergeDiffPerClass<T(!new)>(cmp: (T, T) -> int, left: seq<T>, right: seq<T>, x: T)
    requires TotalPreorder(cmp) && Ascending(cmp, left) && Ascending(cmp, right)
    ensures var l, r := Matching(cmp, left, x), Matching(cmp, right, x);
            Matching(cmp, MergeDiff(cmp, left, right), x) == l[if |l| <= |r| then |l| else |r|..]
    decreases |left| + |right|
  {
    if left != [] && right != [] {
      var c := cmp(left[0], right[0]);
      AscendingTail(cmp, left);
      AscendingTail(cmp, right);
      SameClass(cmp, left[0], right[0], x);
      if c < 0 && cmp(left[0], x) == 0 {
        NoMatchBefore(cmp, left[0], right, x);
      }
      if c > 0 && cmp(right[0], x) == 0 {
        NoMatchBefore(cmp, right[0], left, x);
      }
      hide TotalPreorder, Ascending;
      if c < 0 {
        MergeDiffPerClass(cmp, left[1..], right, x);
        var rest := MergeDiff(cmp, left[1..], right);
        assert ([left[0]] + rest)[1..] == rest;
      } else if c > 0 {
        MergeDiffPerClass(cmp, left, right[1..], x);
      } else {
        MergeDiffPerClass(cmp, left[1..], right[1..], x);
        DropTogether(left[0], right[0], Matching(cmp, left[1..], x), Matching(cmp, right[1..], x));
      }
    }
  }

  lemma DropTogether<T>(a: T, b: T, l: seq<T>, r: seq<T>)
    ensures var l', r' := [a] + l, [b] + r;
            l'[if |l'| <= |r'| then |l'| else |r'|..] == l[if |l| <= |r| then |l| else |r|..]
  {
  }

  lemma SameClass<T(!new)>(cmp: (T, T) -> int, a: T, b: T, x: T)
    requires TotalPreorder(cmp)
    ensures cmp(a, b) == 0 ==> (cmp(a, x) == 0 <==> cmp(b, x) == 0)
    ensures cmp(a, b) > 0 <==> cmp(b, a) < 0
  {
  }

  lemma MergeDiffSorted<T(!new)>(cmp: (T, T) -> int, left: seq<T>, right: seq<T>)
    ensures Ascending(cmp, left) ==> Ascending(cmp, MergeDiff(cmp, left, right))
    ensures StrictlyAscending(cmp, left) ==> StrictlyAscending(cmp, MergeDiff(cmp, left, right))
  {
    MergeDiffIsSubsequence(cmp, left, right);
    SubsequenceAscending(cmp, MergeDiff(cmp, left, right), left);
  }

  /** On sorted input the per-class rule is the whole truth: any sorted sequence that obeys it is the result. */
  lemma MergeDiffUnique<T(!new)>(cmp: (T, T) -> int, left: seq<T>, right: seq<T>, d: seq<T>)
    requires TotalPreorder(cmp) && Ascending(cmp, left) && Ascending(cmp, right) && Ascending(cmp, d)
    requires forall x :: var l, r := Matching(cmp, left, x), Matching(cmp, right, x);
                         Matching(cmp, d, x) == l[if |l| <= |r| then |l| else |r|..]
    ensures d == MergeDiff(cmp, left, right)
  {
    MergeDiffSorted(cmp, left, right);
    forall x ensures Matching(cmp, d, x) == Matching(cmp, MergeDiff(cmp, left, right), x) {
      MergeDiffPerClass(cmp, left, right, x);
    }
    AscendingDetermined(cmp, d, MergeDiff(cmp, left, right));
  }

  /** Under a total order, set difference with multiplicities. */
  lemma MergeDiffMultiset<T(!new)>(cmp: (T, T) -> int, left: seq<T>, right: seq<T>)
    requires TotalOrder(cmp) && Ascending(cmp, left) && Ascending(cmp, right)
    ensures multiset(MergeDiff(cmp, left, right)) == multiset(left) - multiset(right)
  {
    var d := MergeDiff(cmp, left, right);
    forall x ensures multiset(d)[x] == (multiset(left) - multiset(right))[x] {
      MergeDiffPerClass(cmp, left, right, x);
      MatchingCounts(cmp, left, x);
      MatchingCounts(cmp, right, x);
      MatchingCounts(cmp, d, x);
    }
  }

  // ----- the in-place computation

  /** The elements kept when `i` left elements have been passed and `deleted` of them dropped: those
      already moved into place, then those from the last dropped one on, which are still where they were. */
  ghost function Kept<T>(s: seq<T>, l: seq<T>, i: nat, deleted: nat, blockStart: Option<nat>): seq<T>
    requires Laid(s, l, i, deleted, blockStart)
  {
    match blockStart
    case None => l[..i]
    case Some(b) => s[..b - deleted] + l[b..i]
  }

  /** The array `s` during the computation: from the block start on nothing has been touched. */
  ghost predicate Laid<T>(s: seq<T>, l: seq<T>, i: nat, deleted: nat, blockStart: Option<nat>) {
    && |s| == |l| && i <= |l|
    && match blockStart
       case None => deleted == 0 && s == l
       case Some(b) => 0 < deleted <= b <= i && s[b..] == l[b..]
  }

  /** The whole loop invariant, cursors at `i` and `j`: what is kept and what is to come make up the
      merge difference, and the elements moved so far, together with those before the first dropped one,
      fill the array up to the place of the block in progress. */
  ghost predicate InProgress<T>(cmp: (T, T) -> int, s: seq<T>, l: seq<T>, r: seq<T>, i: nat, j: nat,
                                deleted: nat, blockStart: Option<nat>, moved: nat) {
    && j <= |r|
    && Laid(s, l, i, deleted, blockStart)
    && MergeDiff(cmp, l, r) == Kept(s, l, i, deleted, blockStart) + MergeDiff(cmp, l[i..], r[j..])
    && match blockStart
       case None => moved == 0 && FirstDropped(cmp, l, r) == i + FirstDropped(cmp, l[i..], r[j..])
       case Some(b) => moved + FirstDropped(cmp, l, r) == b - deleted
  }

  lemma InProgressInitially<T>(cmp: (T, T) -> int, l: seq<T>, r: seq<T>)
    ensures InProgress(cmp, l, l, r, 0, 0, 0, None, 0)
  {
    assert l[0..] == l && r[0..] == r;
  }

  lemma UntouchedAhead<T>(cmp: (T, T) -> int, s: seq<T>, l: seq<T>, r: seq<T>, i: nat, j: nat,
                          deleted: nat, blockStart: Option<nat>, moved: nat)
    requires InProgress(cmp, s, l, r, i, j, deleted, blockStart, moved) && i < |l|
    ensures |s| == |l| && s[i] == l[i]
  {
    if blockStart.Some? {
      assert s[i] == s[blockStart.value..][i - blockStart.value];
    }
  }

  lemma KeptGrows<T>(s: seq<T>, l: seq<T>, i: nat, deleted: nat, blockStart: Option<nat>)
    requires Laid(s, l, i, deleted, blockStart) && i < |l|
    ensures Kept(s, l, i + 1, deleted, blockStart) == Kept(s, l, i, deleted, blockStart) + [l[i]]
  {
    if blockStart.Some? {
      assert l[blockStart.value..i + 1] == l[blockStart.value..i] + [l[i]];
    }
  }

  /** One step of the merge, at cursors `i` and `j`. */
  lemma MergeAt<T>(cmp: (T, T) -> int, l: seq<T>, r: seq<T>, i: nat, j: nat)
    requires i < |l| && j < |r|
    ensures var c := cmp(l[i], r[j]);
            && MergeDiff(cmp, l[i..], r[j..]) ==
               (if c < 0 then [l[i]] + MergeDiff(cmp, l[i + 1..], r[j..])
                else MergeDiff(cmp, l[if c > 0 then i else i + 1..], r[j + 1..]))
            && FirstDropped(cmp, l[i..], r[j..]) ==
               (if c < 0 then 1 + FirstDropped(cmp, l[i + 1..], r[j..])
                else if c > 0 then FirstDropped(cmp, l[i..], r[j + 1..]) else 0)
  {
    assert l[i..][1..] == l[i + 1..] && r[j..][1..] == r[j + 1..];
  }

  lemma InProgressPass<T>(cmp: (T, T) -> int, s: seq<T>, l: seq<T>, r: seq<T>, i: nat, j: nat,
                          deleted: nat, blockStart: Option<nat>, moved: nat)
    requires InProgress(cmp, s, l, r, i, j, deleted, blockStart, moved) && i < |l| && j < |r|
    ensures cmp(l[i], r[j]) < 0 ==> InProgress(cmp, s, l, r, i + 1, j, deleted, blockStart, moved)
    ensures cmp(l[i], r[j]) > 0 ==> InProgress(cmp, s, l, r, i, j + 1, deleted, blockStart, moved)
  {
    hide MergeDiff, FirstDropped;
    MergeAt(cmp, l, r, i, j);
    if cmp(l[i], r[j]) < 0 {
      var kept, rest := Kept(s, l, i, deleted, blockStart), MergeDiff(cmp, l[i + 1..], r[j..]);
      KeptGrows(s, l, i, deleted, blockStart);
      assert kept + ([l[i]] + rest) == kept + [l[i]] + rest;
    }
  }

  /** `s` with the block that ends before `i` moved into its place. */
  ghost function BlockMoved<T>(s: seq<T>, i: nat, deleted: nat, blockStart: Option<nat>): seq<T>
    requires i <= |s| && (blockStart.Some? ==> deleted <= blockStart.value <= i)
  {
    if blockStart.None? then s
    else s[..blockStart.value - deleted] + s[blockStart.value..i] + s[i - deleted..]
  }

  lemma BlockMovedKeeps<T>(s: seq<T>, l: seq<T>, i: nat, deleted: nat, blockStart: Option<nat>)
    requires Laid(s, l, i, deleted, blockStart)
    ensures var s' := BlockMoved(s, i, deleted, blockStart);
            |s'| == |l| && s'[i..] == l[i..] && s'[..i - deleted] == Kept(s, l, i, deleted, blockStart) &&
            (blockStart.None? ==> s' == s)
  {
    if blockStart.Some? {
      var b := blockStart.value;
      assert s[b..i] == s[b..][..i - b] == l[b..i];
      assert BlockMoved(s, i, deleted, blockStart)[i..] == s[b..][i - b..];
    }
  }

  lemma InProgressDrop<T>(cmp: (T, T) -> int, s: seq<T>, l: seq<T>, r: seq<T>, i: nat, j: nat,
                          deleted: nat, blockStart: Option<nat>, moved: nat)
    requires InProgress(cmp, s, l, r, i, j, deleted, blockStart, moved) && i < |l| && j < |r|
    requires cmp(l[i], r[j]) == 0
    ensures InProgress(cmp, BlockMoved(s, i, deleted, blockStart), l, r, i + 1, j + 1, deleted + 1, Some(i + 1),
                       moved + if blockStart.None? then 0 else i - blockStart.value)
    ensures blockStart.None? ==> BlockMoved(s, i, deleted, blockStart) == s
  {
    hide MergeDiff, FirstDropped, BlockMoved;
    MergeAt(cmp, l, r, i, j);
    BlockMovedKeeps(s, l, i, deleted, blockStart);
    var s' := BlockMoved(s, i, deleted, blockStart);
    assert s'[i + 1..] == s'[i..][1..] == l[i..][1..] == l[i + 1..];
  }

  /** When one side is exhausted, the last block move completes the result. */
  lemma InProgressEnd<T>(cmp: (T, T) -> int, s: seq<T>, l: seq<T>, r: seq<T>, i: nat, j: nat,
                         deleted: nat, blockStart: Option<nat>, moved: nat)
    requires InProgress(cmp, s, l, r, i, j, deleted, blockStart, moved) && (i == |l| || j == |r|)
    ensures blockStart.None? ==> BlockMoved(s, |l|, deleted, blockStart) == s
    ensures var d := MergeDiff(cmp, l, r);
            && |d| == |l| - deleted
            && BlockMoved(s, |l|, deleted, blockStart)[..|l| - deleted] == d
            && moved + (if blockStart.None? then 0 else |l| - blockStart.value) == |d| - FirstDropped(cmp, l, r)
  {
    assert MergeDiff(cmp, l[i..], r[j..]) == l[i..] && FirstDropped(cmp, l[i..], r[j..]) == |l| - i;
    hide MergeDiff, FirstDropped, BlockMoved;
    BlockMovedKeeps(s, l, i, deleted, blockStart);
    BlockMovedKeeps(s, l, |l|, deleted, blockStart);
    KeptToEnd(s, l, i, deleted, blockStart);
  }

  lemma KeptToEnd<T>(s: seq<T>, l: seq<T>, i: nat, deleted: nat, blockStart: Option<nat>)
    requires Laid(s, l, i, deleted, blockStart)
    ensures Kept(s, l, |l|, deleted, blockStart) == Kept(s, l, i, deleted, blockStart) + l[i..]
    ensures |Kept(s, l, |l|, deleted, blockStart)| == |l| - deleted
  {
    if blockStart.Some? {
      assert l[blockStart.value..] == l[blockStart.value..i] + l[i..];
    }
  }
}
