/**
  The state a vector goes through, seen from outside: its elements, its capacity and what its
  reallocations have cost. The class in Vector.dfy moves from state to state exactly as `Step` says;
  the theorems here are about whole runs.
*/
module VectorModel {

  const INT_MAX: int := 0x7fff_ffff
  const INITIAL_ALLOC: nat := 32
  /** The largest capacity whose product with 3 is still an int. */
  const MAX_GROWABLE: int := 715_827_882

  /** `items` are the elements, `alloc` the capacity, `copied` the number of elements that reallocations
      have moved, and `ready` says that the memory functions are set. */
  datatype State<T> = State(items: seq<T>, alloc: nat, copied: nat, ready: bool)

  function Fresh<T>(): State<T> { State([], 0, 0, true) }

  datatype Op<T> =
    | Append(value: T)
    | Insert(value: T, before: nat)
    | AppendArray(values: seq<T>)
    | Remove(index: nat)
    | RemoveNoOrder(index: nat)
    | Reserve(size: nat)
    | Clear
    | Destroy
    | Create

  function Max(a: int, b: int): int { if a < b then b else a }

  /** The conversion of a size_t to an int keeps the low 32 bits. */
  function ToInt32(size: nat): int {
    var low := size % 0x1_0000_0000;
    if low <= INT_MAX then low else low - 0x1_0000_0000
  }

  /** What each operation does to a plain sequence. */
  function OnSequence<T>(items: seq<T>, op: Op<T>): seq<T>
    requires IndexOk(items, op)
  {
    match op
    case Append(v) => items + [v]
    case Insert(v, k) => items[..k] + [v] + items[k..]
    case AppendArray(vs) => items + vs
    case Remove(k) => items[..k] + items[k + 1..]
    case RemoveNoOrder(k) => items[k := items[|items| - 1]][..|items| - 1]
    case Reserve(_) => items
    case Clear | Destroy | Create => []
  }

  predicate IndexOk<T>(items: seq<T>, op: Op<T>) {
    match op
    case Insert(_, k) => k <= |items|
    case Remove(k) => k < |items|
    case RemoveNoOrder(k) => k < |items|
    case _ => true
  }

  /** The capacity after room is made for one more element. */
  function Grown(num: nat, alloc: nat): nat {
    if alloc == 0 then INITIAL_ALLOC
    else if num == alloc then Max(alloc + 1, alloc * 3 / 2)
    else alloc
  }

  function Resized<T>(s: State<T>, alloc: nat): State<T> {
    if alloc == s.alloc then s else s.(alloc := alloc, copied := s.copied + s.alloc)
  }

  /** The state in which an operation finds room, before it touches the elements. */
  function WithRoom<T>(s: State<T>, op: Op<T>): State<T> {
    match op
    case Append(_) => Resized(s, Grown(|s.items|, s.alloc))
    case Insert(_, _) => Resized(s, Grown(|s.items|, s.alloc))
    case AppendArray(vs) => if vs == [] then s else Resized(s, Max(s.alloc, |s.items| + |vs|))
    case Reserve(size) => Resized(s, Max(s.alloc, ToInt32(size)))
    case Destroy => s.(alloc := 0, ready := false)
    case Create => s.(alloc := 0, ready := true)
    case _ => s
  }

  function Step<T>(s: State<T>, op: Op<T>): State<T>
    requires IndexOk(s.items, op)
  {
    WithRoom(s, op).(items := OnSequence(s.items, op))
  }

  predicate Consistent<T>(s: State<T>) {
    && |s.items| <= s.alloc
    && (s.alloc > 0 ==> s.ready)
  }

  /** What an operation demands of its caller: a valid index, memory functions to allocate with, no
      signed overflow in the capacity arithmetic, and no `create` over live storage. */
  predicate Allowed<T>(s: State<T>, op: Op<T>) {
    && IndexOk(s.items, op)
    && match op
       case Append(_) => s.ready && Room(s)
       case Insert(_, _) => s.ready && Room(s)
       case AppendArray(vs) => vs == [] || (s.ready && |s.items| + |vs| <= INT_MAX)
       case Reserve(size) => ToInt32(size) > s.alloc ==> s.ready
       case Create => s.alloc == 0
       case _ => true
  }

  predicate Room<T>(s: State<T>) {
    |s.items| == s.alloc ==> s.alloc <= MAX_GROWABLE
  }

  function Run<T>(s: State<T>, ops: seq<Op<T>>): State<T>
    requires IndicesOk(s.items, ops)
    decreases |ops|
  {
    if ops == [] then s else Run(Step(s, ops[0]), ops[1..])
  }

  function RunOnSequence<T>(items: seq<T>, ops: seq<Op<T>>): seq<T>
    requires IndicesOk(items, ops)
    decreases |ops|
  {
    if ops == [] then items else RunOnSequence(OnSequence(items, ops[0]), ops[1..])
  }

  predicate IndicesOk<T>(items: seq<T>, ops: seq<Op<T>>)
    decreases |ops|
  {
    ops == [] || (IndexOk(items, ops[0]) && IndicesOk(OnSequence(items, ops[0]), ops[1..]))
  }

  predicate RunAllowed<T>(s: State<T>, ops: seq<Op<T>>)
    decreases |ops|
  {
    ops == [] || (Allowed(s, ops[0]) && RunAllowed(Step(s, ops[0]), ops[1..]))
  }

  // ----- every run

  lemma {:induction false} AllowedIndices<T>(s: State<T>, ops: seq<Op<T>>)
    requires RunAllowed(s, ops)
    ensures IndicesOk(s.items, ops)
    decreases |ops|
  {
    if ops != [] { AllowedIndices(Step(s, ops[0]), ops[1..]); }
  }

  lemma StepConsistent<T>(s: State<T>, op: Op<T>)
    requires Consistent(s) && Allowed(s, op)
    ensures Consistent(Step(s, op))
  {
  }

  /** Every run leaves the elements that a plain sequence would have, whatever the capacity did, and
      never more elements than capacity. */
  lemma {:induction false} RunRefinesSequence<T>(s: State<T>, ops: seq<Op<T>>)
    requires Consistent(s) && RunAllowed(s, ops) && IndicesOk(s.items, ops)
    ensures Run(s, ops).items == RunOnSequence(s.items, ops)
    ensures Consistent(Run(s, ops))
    decreases |ops|
  {
    if ops != [] {
      var t := Step(s, ops[0]);
      StepConsistent(s, ops[0]);
      assert t.items == OnSequence(s.items, ops[0]);
      RunRefinesSequence(t, ops[1..]);
    }
  }

  lemma RemoveMultiset<T>(items: seq<T>, k: nat)
    requires k < |items|
    ensures multiset(OnSequence(items, Remove(k))) == multiset(items) - multiset{items[k]}
  {
    assert items == items[..k] + [items[k]] + items[k + 1..];
  }

  /** The unordered removal takes out one copy of the element and only reorders the rest. */
  lemma RemoveNoOrderMultiset<T>(items: seq<T>, k: nat)
    requires k < |items|
    ensures multiset(OnSequence(items, RemoveNoOrder(k))) == multiset(OnSequence(items, Remove(k)))
  {
    var n, front := |items|, items[..k];
    if k < n - 1 {
      var middle, last := items[k + 1..n - 1], items[n - 1];
      assert OnSequence(items, Remove(k)) == front + (middle + [last]) by {
        assert items[k + 1..] == middle + [last];
      }
      assert OnSequence(items, RemoveNoOrder(k)) == front + ([last] + middle);
    } else {
      assert OnSequence(items, RemoveNoOrder(k)) == front == OnSequence(items, Remove(k));
    }
  }

  /** Inserting and removing at the same index cancel. */
  lemma InsertThenRemove<T>(items: seq<T>, v: T, k: nat)
    requires k <= |items|
    ensures OnSequence(OnSequence(items, Insert(v, k)), Remove(k)) == items
  {
    assert items == items[..k] + items[k..];
  }

  function Appends<T>(values: seq<T>): (ops: seq<Op<T>>)
    ensures |ops| == |values|
  {
    if values == [] then [] else [Append(values[0])] + Appends(values[1..])
  }

  /** Appending values one by one adds them in their order; `append_array` adds them at once. */
  lemma {:induction false} AppendsAccumulate<T>(items: seq<T>, values: seq<T>)
    ensures IndicesOk(items, Appends(values))
    ensures RunOnSequence(items, Appends(values)) == items + values == OnSequence(items, AppendArray(values))
    decreases |values|
  {
    if values == [] {
      assert items + values == items;
    } else {
      AppendsAccumulate(items + [values[0]], values[1..]);
      assert items + [values[0]] + values[1..] == items + values;
    }
  }

  // ----- the cost of growth

  /** The capacities that growth goes through: 32, 48, 72, 108, ... */
  function Capacity(k: nat): nat {
    if k == 0 then 32 else Capacity(k - 1) + Capacity(k - 1) / 2
  }

  /** `c` is the first of these capacities that is enough for `n` elements, the one with index `k`. */
  predicate IsLeastCapacity(c: nat, n: nat, k: nat) {
    c == Capacity(k) && n <= c && (k > 0 ==> Capacity(k - 1) < n)
  }

  lemma {:induction false} CapacityPositive(k: nat)
    ensures Capacity(k) >= 32
  {
    if k > 0 { CapacityPositive(k - 1); }
  }

  lemma {:induction false} AppendsCapacity<T>(s: State<T>, values: seq<T>, k: nat) returns (j: nat)
    requires IsLeastCapacity(s.alloc, |s.items|, k) && IndicesOk(s.items, Appends(values))
    ensures IsLeastCapacity(Run(s, Appends(values)).alloc, |s.items| + |values|, j)
    decreases |values|
  {
    j := k;
    if values != [] {
      CapacityPositive(k);
      var t := Step(s, Append(values[0]));
      j := AppendsCapacity(t, values[1..], if |s.items| == s.alloc then k + 1 else k);
    }
  }

  /** Appends to a fresh vector leave it with the first capacity that is enough for them. */
  lemma FreshAppendsCapacity<T>(values: seq<T>) returns (j: nat)
    requires values != []
    ensures IndicesOk([], Appends(values))
    ensures IsLeastCapacity(Run(Fresh(), Appends(values)).alloc, |values|, j)
  {
    AppendsAccumulate([], values);
    j := AppendsCapacity(Step(Fresh(), Append(values[0])), values[1..], 0);
  }


  /** The operations that add or take single elements. */
  predicate ByElement<T>(op: Op<T>) {
    op.Append? || op.Insert? || op.Remove? || op.RemoveNoOrder? || op.Clear?
  }

  predicate AllByElement<T>(ops: seq<Op<T>>) {
    forall i :: 0 <= i < |ops| ==> ByElement(ops[i])
  }

  function Added<T>(ops: seq<Op<T>>): nat {
    if ops == [] then 0 else (if ops[0].Append? || ops[0].Insert? then 1 else 0) + Added(ops[1..])
  }

  /** The invariant behind the amortised bound, `added` being the elements added so far. */
  ghost predicate PaidFor<T>(s: State<T>, added: nat) {
    && |s.items| <= added
    && s.copied <= 4 * added
    && (s.alloc == 0 ==> s.items == [] && s.copied == 0)
    && (s.alloc > 0 ==> s.alloc >= INITIAL_ALLOC && s.copied + 4 * |s.items| <= 4 * added + 3 * (s.alloc - INITIAL_ALLOC))
  }

  lemma StepPaidFor<T>(s: State<T>, op: Op<T>, added: nat)
    requires Consistent(s) && IndexOk(s.items, op) && ByElement(op) && PaidFor(s, added)
    ensures PaidFor(Step(s, op), added + Added([op]))
  {
    assert Added([op]) == if op.Append? || op.Insert? then 1 else 0;
  }

  lemma {:induction false} RunPaidFor<T>(s: State<T>, ops: seq<Op<T>>, added: nat)
    requires Consistent(s) && s.ready && IndicesOk(s.items, ops) && AllByElement(ops) && PaidFor(s, added)
    ensures PaidFor(Run(s, ops), added + Added(ops))
    decreases |ops|
  {
    if ops != [] {
      StepPaidFor(s, ops[0], added);
      assert Added([ops[0]]) + Added(ops[1..]) == Added(ops);
      RunPaidFor(Step(s, ops[0]), ops[1..], added + Added([ops[0]]));
    }
  }

  /** Reallocation moves at most 4 elements for each element added, removals and clears interleaved. */
  lemma AmortizedGrowth<T>(ops: seq<Op<T>>)
    requires IndicesOk<T>([], ops) && AllByElement(ops)
    ensures Run(Fresh(), ops).copied <= 4 * Added(ops)
  {
    RunPaidFor(Fresh(), ops, 0);
  }

  function Peak<T>(items: seq<T>, ops: seq<Op<T>>): (p: nat)
    requires IndicesOk(items, ops)
    ensures p >= |items|
    decreases |ops|
  {
    if ops == [] then |items| else Max(|items|, Peak(OnSequence(items, ops[0]), ops[1..]))
  }

  lemma {:induction false} CapacityFollowsPeak<T>(s: State<T>, ops: seq<Op<T>>, high: nat)
    requires Consistent(s) && s.ready && IndicesOk(s.items, ops) && AllByElement(ops)
    requires |s.items| <= high && s.alloc <= Max(INITIAL_ALLOC, 3 * high / 2) && s.alloc != 1
    ensures Run(s, ops).alloc <= Max(INITIAL_ALLOC, 3 * Max(high, Peak(s.items, ops)) / 2)
    decreases |ops|
  {
    if ops != [] {
      var t := Step(s, ops[0]);
      CapacityFollowsPeak(t, ops[1..], Max(high, |t.items|));
    }
  }

  /** The capacity never exceeds 32 or one and a half times the most elements the vector ever held. */
  lemma CapacityBound<T>(ops: seq<Op<T>>)
    requires IndicesOk<T>([], ops) && AllByElement(ops)
    ensures Run(Fresh(), ops).alloc <= Max(INITIAL_ALLOC, 3 * Peak<T>([], ops) / 2)
  {
    CapacityFollowsPeak(Fresh(), ops, 0);
  }

  lemma {:induction false} GrowthFits<T>(s: State<T>, ops: seq<Op<T>>)
    requires Consistent(s) && s.ready && IndicesOk(s.items, ops) && AllByElement(ops)
    requires Peak(s.items, ops) <= MAX_GROWABLE
    ensures RunAllowed(s, ops)
    decreases |ops|
  {
    if ops != [] { GrowthFits(Step(s, ops[0]), ops[1..]); }
  }

  /** `alloc * 3` is an int exactly up to MAX_GROWABLE, so a run from a fresh vector meets no signed
      overflow as long as it never holds more than that many elements. */
  lemma NoOverflow<T>(ops: seq<Op<T>>)
    requires IndicesOk<T>([], ops) && AllByElement(ops) && Peak<T>([], ops) <= MAX_GROWABLE
    ensures RunAllowed(Fresh<T>(), ops)
    ensures forall alloc: int :: alloc * 3 <= INT_MAX <==> alloc <= MAX_GROWABLE
  {
    GrowthFits(Fresh<T>(), ops);
  }

  function Repeat<T>(op: Op<T>, n: nat): (ops: seq<Op<T>>)
    ensures |ops| == n && forall i :: 0 <= i < n ==> ops[i] == op
  {
    if n == 0 then [] else [op] + Repeat(op, n - 1)
  }

  /** 0 + 1 + ... + (n - 1) */
  function SumBelow(n: nat): nat {
    if n == 0 then 0 else SumBelow(n - 1) + (n - 1)
  }

  lemma {:induction false} SumBelowClosed(n: nat)
    ensures 2 * SumBelow(n) == n * (n - 1)
  {
    if n > 0 {
      SumBelowClosed(n - 1);
      assert (n - 1) * (n - 2) + 2 * (n - 1) == n * (n - 1);
    }
  }

  /** Adding n single-element arrays to a full vector of k elements moves k + (k + 1) + ... + (k + n - 1). */
  lemma {:induction false} SingletonArraysQuadratic<T>(s: State<T>, v: T, n: nat)
    requires s.ready && |s.items| == s.alloc
    ensures IndicesOk(s.items, Repeat(AppendArray([v]), n))
    ensures var t := Run(s, Repeat(AppendArray([v]), n));
            && t.alloc == |t.items| == s.alloc + n
            && t.copied + SumBelow(s.alloc) == s.copied + SumBelow(s.alloc + n)
    decreases n
  {
    if n > 0 {
      var t := Step(s, AppendArray([v]));
      SingletonArraysQuadratic(t, v, n - 1);
      assert Repeat(AppendArray([v]), n)[1..] == Repeat(AppendArray([v]), n - 1);
    }
  }

  /** `append_array` reserves exactly what it needs, so the amortised bound does not extend to it: n
      single-element arrays cost n * (n - 1) / 2 moves in a fresh vector. */
  lemma SingletonArraysCost<T>(v: T, n: nat)
    ensures IndicesOk([], Repeat(AppendArray([v]), n))
    ensures 2 * Run(Fresh(), Repeat(AppendArray([v]), n)).copied == n * (n - 1)
  {
    SingletonArraysQuadratic(Fresh(), v, n);
    SumBelowClosed(n);
  }

  /** `reserve` provides the capacity asked for exactly when the size fits an int. */
  lemma ReserveProvides<T>(s: State<T>, size: nat)
    requires s.alloc <= INT_MAX
    ensures Step(s, Reserve(size)).alloc >= size <==> size <= INT_MAX
  {
  }

  lemma {:induction false} AppendsInPlace<T>(s: State<T>, ops: seq<Op<T>>)
    requires IndicesOk(s.items, ops) && AllByElement(ops) && s.alloc > 0
    requires Peak(s.items, ops) <= s.alloc
    ensures Run(s, ops).alloc == s.alloc && Run(s, ops).copied == s.copied
    decreases |ops|
  {
    if ops != [] {
      assert Peak(s.items, ops) >= Peak(OnSequence(s.items, ops[0]), ops[1..]) >= |OnSequence(s.items, ops[0])|;
      AppendsInPlace(Step(s, ops[0]), ops[1..]);
    }
  }

  /** After reserving for the most elements a run will hold, the run never reallocates. */
  lemma ReservedRunNeverCopies<T>(s: State<T>, size: nat, ops: seq<Op<T>>)
    requires 0 < size <= INT_MAX && IndicesOk(s.items, ops) && AllByElement(ops)
    requires Peak(s.items, ops) <= size
    ensures var r := Step(s, Reserve(size));
            Run(r, ops).alloc == r.alloc && Run(r, ops).copied == r.copied
  {
    AppendsInPlace(Step(s, Reserve(size)), ops);
  }
}
