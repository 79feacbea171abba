/**
  The four ways of looking a value up in a vector: `search`, `bsearch`, `nearestindex` and the
  resumable `lsearch`. The methods are in Vector.dfy; here is what their results mean.
*/
module Lookup {
  import opened Comparators

  /** The failure result. Its numeric value is not part of this model beyond being no index. */
  const FAIL: int := -1

  /** The elements of `s` are those below `v`, then those equal to it, then those above. */
  ghost predicate Partitioned<T>(cmp: (T, T) -> int, s: seq<T>, v: T) {
    forall i, j :: 0 <= i < j < |s| ==>
      && (cmp(s[j], v) <= 0 ==> cmp(s[i], v) <= 0)
      && (cmp(s[j], v) < 0 ==> cmp(s[i], v) < 0)
  }

  /** What libc demands of the array given to `bsearch`; the key is the first argument of the comparator. */
  ghost predicate KeyPartitioned<T>(cmp: (T, T) -> int, s: seq<T>, v: T) {
    forall i, j :: 0 <= i < j < |s| ==>
      && (cmp(v, s[j]) >= 0 ==> cmp(v, s[i]) >= 0)
      && (cmp(v, s[j]) > 0 ==> cmp(v, s[i]) > 0)
  }

  ghost predicate Present<T>(cmp: (T, T) -> int, s: seq<T>, v: T) {
    exists k :: 0 <= k < |s| && cmp(s[k], v) == 0
  }

  // ----- what each kind of lookup promises

  ghost predicate IsFirstMatch<T>(cmp: (T, T) -> int, s: seq<T>, v: T, r: int) {
    if r == FAIL then !Present(cmp, s, v)
    else 0 <= r < |s| && cmp(s[r], v) == 0 && forall k :: 0 <= k < r ==> cmp(s[k], v) != 0
  }

  /** The libc contract: some match if there is one, the key being the first argument. */
  ghost predicate IsAnyMatch<T>(cmp: (T, T) -> int, s: seq<T>, v: T, r: int) {
    if r == FAIL then forall k :: 0 <= k < |s| ==> cmp(v, s[k]) != 0
    else 0 <= r < |s| && cmp(v, s[r]) == 0
  }

  /** A match, or a place whose left neighbour is below `v` and whose right neighbour is above. */
  ghost predicate IsNearest<T>(cmp: (T, T) -> int, s: seq<T>, v: T, r: int) {
    && 0 <= r <= |s|
    && ((r < |s| && cmp(s[r], v) == 0) ||
        ((r > 0 ==> cmp(s[r - 1], v) < 0) && (r < |s| ==> cmp(s[r], v) > 0)))
  }

  lemma AscendingPartitioned<T(!new)>(cmp: (T, T) -> int, s: seq<T>, v: T)
    requires TotalPreorder(cmp) && Ascending(cmp, s)
    ensures Partitioned(cmp, s, v) && KeyPartitioned(cmp, s, v)
  {
    forall i, j | 0 <= i < j < |s|
      ensures (cmp(s[j], v) <= 0 ==> cmp(s[i], v) <= 0) && (cmp(s[j], v) < 0 ==> cmp(s[i], v) < 0)
      ensures (cmp(v, s[j]) >= 0 ==> cmp(v, s[i]) >= 0) && (cmp(v, s[j]) > 0 ==> cmp(v, s[i]) > 0)
    {
      assert cmp(s[i], s[j]) <= 0;
      LessThrough(cmp, s[i], s[j], v);
    }
  }

  /** On sorted input the local promise of `nearestindex` is global: a match when there is one,
      otherwise the one split with everything below before it and everything above from it on. */
  lemma NearestIsGlobal<T(!new)>(cmp: (T, T) -> int, s: seq<T>, v: T, r: int)
    requires Partitioned(cmp, s, v) && IsNearest(cmp, s, v, r)
    ensures (r < |s| && cmp(s[r], v) == 0) <==> Present(cmp, s, v)
    ensures !Present(cmp, s, v) ==>
              (forall k :: 0 <= k < r ==> cmp(s[k], v) < 0) && (forall k :: r <= k < |s| ==> cmp(s[k], v) > 0)
  {
    if !(r < |s| && cmp(s[r], v) == 0) {
      forall k | 0 <= k < |s| ensures if k < r then cmp(s[k], v) < 0 else cmp(s[k], v) > 0 {
        if k < r - 1 { assert cmp(s[r - 1], v) < 0; }
        if k > r { assert cmp(s[r], v) > 0; }
      }
    }
  }

  /** How often `n` can be halved until nothing is left: the logarithm, rounded down, plus one. */
  function Halvings(n: nat): nat {
    if n == 0 then 0 else 1 + Halvings(n / 2)
  }

  /** The search range left on either side of the middle costs one halving less. */
  lemma HalvingStep(lo: nat, hi: nat)
    requires lo < hi
    ensures var mid := (lo + hi) / 2;
            1 + Halvings(mid - lo) <= Halvings(hi - lo) && 1 + Halvings(hi - mid - 1) <= Halvings(hi - lo)
  {
    HalvingsMonotone((lo + hi) / 2 - lo, (hi - lo) / 2);
    HalvingsMonotone(hi - (lo + hi) / 2 - 1, (hi - lo) / 2);
  }

  lemma {:induction false} HalvingsMonotone(m: nat, n: nat)
    requires m <= n
    ensures Halvings(m) <= Halvings(n)
  {
    if m > 0 { HalvingsMonotone(m / 2, n / 2); }
  }

  function Pow2(n: nat): (p: nat)
    ensures p > 0
  {
    if n == 0 then 1 else 2 * Pow2(n - 1)
  }

  lemma {:induction false} HalvingsLogarithmic(n: nat, k: nat)
    ensures n < Pow2(k) <==> Halvings(n) <= k
  {
    if n > 0 && k > 0 { HalvingsLogarithmic(n / 2, k - 1); }
  }

  // ----- the resumable linear search

  /** One call: whether it succeeds, where it leaves the cursor, how many comparisons it makes. */
  datatype Probe = Probe(found: bool, index: nat, comparisons: nat)

  function LSearch<T>(cmp: (T, T) -> int, s: seq<T>, v: T, index: nat): (p: Probe)
    ensures index <= p.index && (p.index <= |s| || p.index == index)
    ensures p.comparisons == p.index - index + if p.index < |s| then 1 else 0
    decreases |s| - index
  {
    if index >= |s| then Probe(false, index, 0)
    else if cmp(s[index], v) < 0 then
      var p := LSearch(cmp, s, v, index + 1);
      p.(comparisons := p.comparisons + 1)
    else Probe(cmp(s[index], v) == 0, index, 1)
  }

  /** For any comparator: the cursor stops at the first element, from where it was, that is not below. */
  lemma {:induction false} LSearchStops<T>(cmp: (T, T) -> int, s: seq<T>, v: T, index: nat)
    ensures var p := LSearch(cmp, s, v, index);
            && (forall k :: index <= k < p.index ==> k < |s| && cmp(s[k], v) < 0)
            && (p.index < |s| ==> cmp(s[p.index], v) >= 0)
            && (p.found <==> p.index < |s| && cmp(s[p.index], v) == 0)
    decreases |s| - index
  {
    if index < |s| && cmp(s[index], v) < 0 {
      LSearchStops(cmp, s, v, index + 1);
    }
  }

  /** On sorted input, from any cursor: success exactly when a match is left at or after the cursor,
      and then the cursor is at the first such match. */
  lemma LSearchFindsExactly<T(!new)>(cmp: (T, T) -> int, s: seq<T>, v: T, index: nat)
    requires Partitioned(cmp, s, v)
    ensures var p := LSearch(cmp, s, v, index);
            && (p.found <==> exists k :: index <= k < |s| && cmp(s[k], v) == 0)
            && (p.found ==> p.index < |s| && cmp(s[p.index], v) == 0 &&
                            forall k :: index <= k < p.index ==> cmp(s[k], v) != 0)
  {
    LSearchStops(cmp, s, v, index);
    var p := LSearch(cmp, s, v, index);
    assert p.index < |s| && cmp(s[p.index], v) > 0 ==> forall k :: p.index < k < |s| ==> cmp(s[k], v) > 0;
  }

  /** The calls of a caller that keeps one cursor for all its queries. */
  datatype Probes = Probes(found: seq<bool>, index: nat, comparisons: nat)

  function LSearchRun<T>(cmp: (T, T) -> int, s: seq<T>, queries: seq<T>, index: nat): (r: Probes)
    ensures |r.found| == |queries|
  {
    if queries == [] then Probes([], index, 0)
    else
      var p := LSearch(cmp, s, queries[0], index);
      var rest := LSearchRun(cmp, s, queries[1..], p.index);
      Probes([p.found] + rest.found, rest.index, p.comparisons + rest.comparisons)
  }

  /** Any comparator, any queries: one pass over the vector plus at most one comparison a call. */
  lemma {:induction false} LSearchRunLinear<T>(cmp: (T, T) -> int, s: seq<T>, queries: seq<T>, index: nat)
    requires index <= |s|
    ensures var r := LSearchRun(cmp, s, queries, index);
            index <= r.index <= |s| && r.comparisons <= r.index - index + |queries|
  {
    if queries != [] {
      LSearchRunLinear(cmp, s, queries[1..], LSearch(cmp, s, queries[0], index).index);
    }
  }

  lemma {:induction false} LSearchRunFrom<T(!new)>(cmp: (T, T) -> int, s: seq<T>, queries: seq<T>, index: nat)
    requires TotalPreorder(cmp) && Ascending(cmp, s) && Ascending(cmp, queries) && index <= |s|
    requires queries != [] ==> forall k :: 0 <= k < index ==> cmp(s[k], queries[0]) < 0
    ensures var r := LSearchRun(cmp, s, queries, index);
            forall i :: 0 <= i < |queries| ==> (r.found[i] <==> Present(cmp, s, queries[i]))
  {
    hide TotalPreorder;
    if queries != [] {
      var q, rest := queries[0], queries[1..];
      var p := LSearch(cmp, s, q, index);
      ProbeAnswers(cmp, s, q, index);
      AscendingTail(cmp, queries);
      if rest != [] {
        StillBelow(cmp, s, p.index, q, rest[0]);
      }
      LSearchRunFrom(cmp, s, rest, p.index);
      var r, r' := LSearchRun(cmp, s, queries, index), LSearchRun(cmp, s, rest, p.index);
      forall i | 0 < i < |queries| ensures r.found[i] <==> Present(cmp, s, queries[i]) {
        assert queries[i] == rest[i - 1] && r.found[i] == r'.found[i - 1];
      }
    }
  }

  /** A cursor with only smaller elements behind it answers the query and keeps that state. */
  lemma ProbeAnswers<T(!new)>(cmp: (T, T) -> int, s: seq<T>, q: T, index: nat)
    requires TotalPreorder(cmp) && Ascending(cmp, s) && index <= |s|
    requires forall k :: 0 <= k < index ==> cmp(s[k], q) < 0
    ensures var p := LSearch(cmp, s, q, index);
            && (p.found <==> Present(cmp, s, q))
            && (forall k :: 0 <= k < p.index ==> cmp(s[k], q) < 0)
  {
    AscendingPartitioned(cmp, s, q);
    LSearchStops(cmp, s, q, index);
    LSearchFindsExactly(cmp, s, q, index);
  }

  lemma StillBelow<T(!new)>(cmp: (T, T) -> int, s: seq<T>, n: nat, q: T, q': T)
    requires TotalPreorder(cmp) && cmp(q, q') <= 0 && n <= |s|
    requires forall k :: 0 <= k < n ==> cmp(s[k], q) < 0
    ensures forall k :: 0 <= k < n ==> cmp(s[k], q') < 0
  {
    forall k | 0 <= k < n ensures cmp(s[k], q') < 0 {
      LessThrough(cmp, s[k], q, q');
    }
  }

  /** A run from a fresh cursor with non-decreasing queries, repeats included, answers every query
      correctly within |s| plus the number of calls comparisons. */
  lemma LSearchRunCorrect<T(!new)>(cmp: (T, T) -> int, s: seq<T>, queries: seq<T>)
    requires TotalPreorder(cmp) && Ascending(cmp, s) && Ascending(cmp, queries)
    ensures var r := LSearchRun(cmp, s, queries, 0);
            && (forall i :: 0 <= i < |queries| ==> (r.found[i] <==> Present(cmp, s, queries[i])))
            && r.comparisons <= |s| + |queries|
  {
    LSearchRunFrom(cmp, s, queries, 0);
    LSearchRunLinear(cmp, s, queries, 0);
  }

  // ----- agreement

  /** On sorted input the four lookups agree on membership, and `search` and `lsearch` on the index. */
  lemma LookupsAgree<T(!new)>(cmp: (T, T) -> int, s: seq<T>, v: T, first: int, any: int, near: int)
    requires TotalPreorder(cmp) && Ascending(cmp, s)
    requires IsFirstMatch(cmp, s, v, first) && IsAnyMatch(cmp, s, v, any) && IsNearest(cmp, s, v, near)
    ensures var p := LSearch(cmp, s, v, 0);
            && (Present(cmp, s, v) <==> first != FAIL)
            && (Present(cmp, s, v) <==> any != FAIL)
            && (Present(cmp, s, v) <==> near < |s| && cmp(s[near], v) == 0)
            && (Present(cmp, s, v) <==> p.found)
            && (p.found ==> p.index == first <= any && first <= near)
  {
    AscendingPartitioned(cmp, s, v);
    LSearchFindsExactly(cmp, s, v, 0);
    NearestIsGlobal(cmp, s, v, near);
    assert forall k :: 0 <= k < |s| ==> (cmp(v, s[k]) == 0 <==> cmp(s[k], v) == 0);
  }
}
