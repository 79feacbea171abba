/**
  A vector kept strictly sorted: values go in at `nearestindex` when absent and come out at the index
  where they are found. It behaves as a mathematical set.
*/
module SortedSet {
  import opened Comparators
  import opened Lookup

  datatype Op<T> = Put(value: T) | Drop(value: T)

  /** The number of leading elements below `v`. */
  function Rank<T>(cmp: (T, T) -> int, s: seq<T>, v: T): (r: nat)
    ensures r <= |s|
    ensures forall k :: 0 <= k < r ==> cmp(s[k], v) < 0
    ensures r < |s| ==> cmp(s[r], v) >= 0
  {
    if s == [] || cmp(s[0], v) >= 0 then 0 else 1 + Rank(cmp, s[1..], v)
  }

  function Apply<T>(cmp: (T, T) -> int, s: seq<T>, op: Op<T>): seq<T> {
    var r := Rank(cmp, s, op.value);
    var present := r < |s| && cmp(s[r], op.value) == 0;
    match op
    case Put(v) => if present then s else s[..r] + [v] + s[r..]
    case Drop(v) => if present then s[..r] + s[r + 1..] else s
  }

  function Run<T>(cmp: (T, T) -> int, s: seq<T>, ops: seq<Op<T>>): seq<T>
    decreases |ops|
  {
    if ops == [] then s else Run(cmp, Apply(cmp, s, ops[0]), ops[1..])
  }

  ghost function SetRun<T>(m: set<T>, ops: seq<Op<T>>): set<T>
    decreases |ops|
  {
    if ops == [] then m
    else SetRun(OnSet(m, ops[0]), ops[1..])
  }

  ghost function OnSet<T>(m: set<T>, op: Op<T>): set<T> {
    match op
    case Put(v) => m + {v}
    case Drop(v) => m - {v}
  }

  /** In a strictly sorted vector the answer of `nearestindex` is unique. */
  lemma NearestIsRank<T(!new)>(cmp: (T, T) -> int, s: seq<T>, v: T, r: int)
    requires TotalPreorder(cmp) && StrictlyAscending(cmp, s)
    ensures IsNearest(cmp, s, v, r) <==> r == Rank(cmp, s, v)
  {
    if IsNearest(cmp, s, v, r) {
      AscendingPartitioned(cmp, s, v);
      NearestIsGlobal(cmp, s, v, r);
      forall k | 0 <= k < r ensures cmp(s[k], v) < 0 {
        if r < |s| { LessThrough(cmp, s[k], s[r], v); }
      }
    }
  }

  /** What an operation does, given the answer of `nearestindex`. */
  lemma ApplyAt<T(!new)>(cmp: (T, T) -> int, s: seq<T>, op: Op<T>, k: int)
    requires TotalPreorder(cmp) && StrictlyAscending(cmp, s) && IsNearest(cmp, s, op.value, k)
    ensures Apply(cmp, s, op) ==
            var present := k < |s| && cmp(s[k], op.value) == 0;
            match op
            case Put(v) => if present then s else s[..k] + [v] + s[k..]
            case Drop(v) => if present then s[..k] + s[k + 1..] else s
  {
    NearestIsRank(cmp, s, op.value, k);
  }

  lemma RankSplits<T(!new)>(cmp: (T, T) -> int, s: seq<T>, v: T)
    requires TotalPreorder(cmp) && StrictlyAscending(cmp, s)
    ensures var r := Rank(cmp, s, v);
            && (forall k :: r < k < |s| ==> cmp(v, s[k]) < 0)
            && (r < |s| ==> cmp(v, s[r]) <= 0 && (cmp(v, s[r]) == 0 <==> cmp(s[r], v) == 0))
  {
    var r := Rank(cmp, s, v);
    forall k | r < k < |s| ensures cmp(v, s[k]) < 0 {
      LessThrough(cmp, v, s[r], s[k]);
    }
  }

  lemma ApplySorted<T(!new)>(cmp: (T, T) -> int, s: seq<T>, op: Op<T>)
    requires TotalPreorder(cmp) && StrictlyAscending(cmp, s)
    ensures StrictlyAscending(cmp, Apply(cmp, s, op))
  {
    hide TotalPreorder;
    var v, r := op.value, Rank(cmp, s, op.value);
    if r < |s| && cmp(s[r], v) == 0 {
      WithoutStaysStrict(cmp, s, r);
    } else {
      RankSplits(cmp, s, v);
      WithStaysStrict(cmp, s, r, v);
    }
  }

  lemma ApplyGrowsByOne<T>(cmp: (T, T) -> int, s: seq<T>, op: Op<T>)
    ensures |Apply(cmp, s, op)| <= |s| + 1
  {
  }

  lemma WithStaysStrict<T>(cmp: (T, T) -> int, s: seq<T>, r: nat, v: T)
    requires StrictlyAscending(cmp, s) && r <= |s|
    requires forall k :: 0 <= k < r ==> cmp(s[k], v) < 0
    requires forall k :: r <= k < |s| ==> cmp(v, s[k]) < 0
    ensures StrictlyAscending(cmp, s[..r] + [v] + s[r..])
  {
  }

  lemma WithoutStaysStrict<T>(cmp: (T, T) -> int, s: seq<T>, r: nat)
    requires StrictlyAscending(cmp, s) && r < |s|
    ensures StrictlyAscending(cmp, s[..r] + s[r + 1..])
  {
  }

  /** One operation changes the set of elements as the set operation of the same name does. */
  lemma ApplyElements<T(!new)>(cmp: (T, T) -> int, s: seq<T>, op: Op<T>)
    requires TotalOrder(cmp) && StrictlyAscending(cmp, s)
    ensures Elements(Apply(cmp, s, op)) == OnSet(Elements(s), op)
  {
    var v, r := op.value, Rank(cmp, s, op.value);
    OnlyAtRank(cmp, s, v);
    InElements(s, v);
    hide TotalOrder, StrictlyAscending, Rank, Elements;
    if r < |s| && cmp(s[r], v) == 0 {
      ElementsWithout(s, r);
    } else {
      ElementsWith(s, r, v);
    }
  }

  lemma InElements<T>(s: seq<T>, v: T)
    ensures v in Elements(s) <==> v in s
  {
  }

  lemma ElementsWith<T>(s: seq<T>, r: nat, v: T)
    requires r <= |s|
    ensures Elements(s[..r] + [v] + s[r..]) == Elements(s) + {v}
  {
    assert s == s[..r] + s[r..];
  }

  lemma ElementsWithout<T>(s: seq<T>, r: nat)
    requires r < |s| && s[r] !in s[..r] && s[r] !in s[r + 1..]
    ensures Elements(s[..r] + s[r + 1..]) == Elements(s) - {s[r]}
  {
    assert s == s[..r] + [s[r]] + s[r + 1..];
  }

  /** A value is in a strictly sorted vector at its rank or nowhere. */
  lemma OnlyAtRank<T(!new)>(cmp: (T, T) -> int, s: seq<T>, v: T)
    requires TotalOrder(cmp) && StrictlyAscending(cmp, s)
    ensures var r := Rank(cmp, s, v);
            && v !in s[..r]
            && (r < |s| ==> v !in s[r + 1..])
            && (r < |s| ==> (cmp(s[r], v) == 0 <==> s[r] == v))
            && (v in s <==> r < |s| && cmp(s[r], v) == 0)
  {
    RankSplits(cmp, s, v);
    assert cmp(v, v) == 0;
    assert forall k :: 0 <= k < |s| && k != Rank(cmp, s, v) ==> s[k] != v;
  }

  /** Every run keeps the vector strictly sorted and equal to the set the run describes. */
  lemma {:induction false} RunIsSet<T(!new)>(cmp: (T, T) -> int, s: seq<T>, ops: seq<Op<T>>)
    requires TotalOrder(cmp) && StrictlyAscending(cmp, s)
    ensures StrictlyAscending(cmp, Run(cmp, s, ops))
    ensures Elements(Run(cmp, s, ops)) == SetRun(Elements(s), ops)
    decreases |ops|
  {
    if ops != [] {
      ApplySorted(cmp, s, ops[0]);
      ApplyElements(cmp, s, ops[0]);
      RunIsSet(cmp, Apply(cmp, s, ops[0]), ops[1..]);
    }
  }

  /** Two runs that describe the same set leave the same vector. */
  lemma RunsConfluent<T(!new)>(cmp: (T, T) -> int, s: seq<T>, ops: seq<Op<T>>, ops': seq<Op<T>>)
    requires TotalOrder(cmp) && StrictlyAscending(cmp, s)
    requires SetRun(Elements(s), ops) == SetRun(Elements(s), ops')
    ensures Run(cmp, s, ops) == Run(cmp, s, ops')
  {
    RunIsSet(cmp, s, ops);
    RunIsSet(cmp, s, ops');
    StrictlyAscendingDetermined(cmp, Run(cmp, s, ops), Run(cmp, s, ops'));
  }
}
