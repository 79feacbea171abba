/**
  The generated vector: a growable array whose operations work in place.

  `values` is NULL exactly while the capacity is 0. The C functions take pointers into arrays; a pointer
  is a pair of an array and an offset. `memmove` is a simultaneous copy of possibly overlapping ranges.
*/
module Vectors {
  import opened Options
  import opened Comparators
  import opened SetDiff
  import opened Unique
  import opened Lookup
  import opened VectorModel
  import SortedSet

  /** memmove within one array. */
  method Move<T>(a: array<T>, to: nat, from: nat, n: nat)
    requires to + n <= a.Length && from + n <= a.Length
    modifies a
    ensures a[..] == old(a[..to] + a[from..from + n] + a[to + n..])
  {
    forall i | 0 <= i < n {
      a[to + i] := a[from + i];
    }
  }

  /** memcpy between arrays, or between ranges of one array that do not overlap. */
  method Copy<T>(from: array<T>, at: nat, to: array<T>, start: nat, n: nat)
    requires at + n <= from.Length && start + n <= to.Length
    requires from == to ==> at + n <= start || start + n <= at
    modifies to
    ensures to[..] == old(to[..start] + from[at..at + n] + to[start + n..])
    ensures to[start..start + n] == old(from[at..at + n])
  {
    forall i | 0 <= i < n {
      to[start + i] := from[at + i];
    }
  }

  lemma MovedPrefix<T>(s: seq<T>, num: nat, to: nat, from: nat, n: nat)
    requires to + n <= num && from + n <= num <= |s|
    ensures (s[..to] + s[from..from + n] + s[to + n..])[..num] ==
            s[..num][..to] + s[..num][from..from + n] + s[..num][to + n..]
  {
  }

  /** Shifts the range `from..end` of the first `num` elements down by `shift`. */
  method ShiftDown<T>(a: array<T>, num: nat, from: nat, end: nat, shift: nat)
    requires shift <= from <= end <= num <= a.Length
    modifies a
    ensures a[..num] == old(a[..num][..from - shift] + a[..num][from..end] + a[..num][end - shift..])
  {
    ghost var s := a[..];
    Move(a, from - shift, from, end - from);
    MovedPrefix(s, num, from - shift, from, end - from);
    assert s[..num] == old(a[..num]);
  }

  /** The loop of `uniq`: slot i - 1 still holds its original element when it is compared, for j <= i. */
  method Compact<T>(a: array<T>, n: nat, cmp: (T, T) -> int) returns (j: nat)
    requires 2 <= n <= a.Length
    modifies a
    ensures j <= n && a[..j] == Unique.Uniq(cmp, old(a[..n]))
  {
    ghost var s := a[..n];
    j := 1;
    assert s[..1] == [s[0]] && a[..1] == s[..1];
    for i := 1 to n
      invariant 1 <= j <= i
      invariant a[..j] == Unique.Uniq(cmp, s[..i])
      invariant forall k :: i - 1 <= k < n ==> a[k] == s[k]
    {
      hide Unique.Uniq;
      UniqNext(cmp, s, i);
      if 0 != cmp(a[i - 1], a[i]) {
        ghost var u := a[..j];
        a[j] := a[i];
        j := j + 1;
        assert a[..j] == u + [s[i]];
      }
    }
    assert s[..n] == s;
  }

  class Vector<T(0,!new)> {
    var values: array?<T>
    var valuesNum: int
    var valuesAlloc: int
    /** The malloc, realloc and free functions are set. */
    var ready: bool
    /** The elements that reallocations have moved so far. */
    ghost var copied: nat

    ghost predicate Valid()
      reads this, values
    {
      && 0 <= valuesNum <= valuesAlloc <= INT_MAX
      && (values == null <==> valuesAlloc == 0)
      && (values != null ==> values.Length == valuesAlloc && ready)
    }

    ghost function Items(): seq<T>
      requires Valid()
      reads this, values
    {
      if values == null then [] else values[..valuesNum]
    }

    ghost function State(): State<T>
      requires Valid()
      reads this, values
    {
      VectorModel.State(Items(), valuesAlloc, copied, ready)
    }

    ghost function Repr(): set<object>
      reads this
    {
      if values == null then {this} else {this, values}
    }

    constructor ()
      ensures Valid() && fresh(Repr())
      ensures State() == Fresh()
    {
      values := null;
      valuesNum := 0;
      valuesAlloc := 0;
      ready := true;
      copied := 0;
    }

    method Create()
      requires Valid() && Allowed(State(), VectorModel.Create)
      modifies this
      ensures Valid() && Repr() == {this}
      ensures State() == Step(old(State()), VectorModel.Create)
      ensures Items() == [] && values == null && ready
    {
      values := null;
      valuesNum := 0;
      valuesAlloc := 0;
      ready := true;
    }

    method Destroy()
      requires Valid()
      modifies this
      ensures Valid() && Repr() == {this}
      ensures State() == Step(old(State()), VectorModel.Destroy)
      ensures Items() == [] && values == null && !ready
    {
      if values != null {
        values := null;
        valuesNum := 0;
        valuesAlloc := 0;
      }
      ready := false;
    }

    /** malloc or realloc: a block of `alloc` elements that starts with the elements there are. */
    method Resize(alloc: int)
      requires Valid() && ready && valuesAlloc < alloc <= INT_MAX
      modifies this
      ensures Valid() && ready && fresh(values) && valuesAlloc == alloc
      ensures Items() == old(Items()) && copied == old(copied + valuesAlloc)
    {
      var block := new T[alloc];
      if values != null {
        forall i | 0 <= i < valuesAlloc {
          block[i] := values[i];
        }
      }
      copied := copied + valuesAlloc;
      values := block;
      valuesAlloc := alloc;
    }

    method EnsureFreeSpace()
      requires Valid() && ready && Room(State())
      modifies this
      ensures Valid() && ready && valuesNum < valuesAlloc
      ensures values == old(values) || fresh(values)
      ensures State() == Resized(old(State()), Grown(old(valuesNum), old(valuesAlloc)))
      ensures Items() == old(Items())
      ensures old(values) == null ==> valuesAlloc == 32
      ensures old(values) != null && old(valuesNum) < old(valuesAlloc) ==> valuesAlloc == old(valuesAlloc)
      ensures old(values) != null && old(valuesNum) == old(valuesAlloc) ==>
                valuesAlloc == old(valuesAlloc) + (if old(valuesAlloc) == 1 then 1 else old(valuesAlloc) / 2)
    {
      if values == null {
        valuesNum := 0;
        Resize(32);
      } else if valuesNum == valuesAlloc {
        Resize(Max(valuesAlloc + 1, valuesAlloc * 3 / 2));
      }
    }

    method Append(value: T)
      requires Valid() && Allowed(State(), VectorModel.Append(value))
      modifies Repr()
      ensures Valid() && fresh(Repr() - old(Repr()))
      ensures State() == Step(old(State()), VectorModel.Append(value))
      ensures Items() == old(Items()) + [value]
    {
      EnsureFreeSpace();
      values[valuesNum] := value;
      valuesNum := valuesNum + 1;
    }

    /** The value is behind a pointer, which is read after room has been made: it must not point into
        storage that the growth gives back. */
    method AppendPtr(block: array<T>, at: nat)
      requires at < block.Length
      requires Valid() && Allowed(State(), VectorModel.Append(block[at]))
      requires block == values ==> valuesNum < valuesAlloc
      modifies Repr()
      ensures Valid() && fresh(Repr() - old(Repr()))
      ensures State() == Step(old(State()), VectorModel.Append(old(block[at])))
      ensures Items() == old(Items() + [block[at]])
    {
      EnsureFreeSpace();
      values[valuesNum] := block[at];
      valuesNum := valuesNum + 1;
    }

    method Insert(value: T, before: nat)
      requires Valid() && Allowed(State(), VectorModel.Insert(value, before))
      modifies Repr()
      ensures Valid() && fresh(Repr() - old(Repr()))
      ensures State() == Step(old(State()), VectorModel.Insert(value, before))
      ensures Items() == old(Items())[..before] + [value] + old(Items())[before..]
    {
      EnsureFreeSpace();
      InsertInPlace(value, before);
    }

    method InsertInPlace(value: T, before: nat)
      requires Valid() && before <= valuesNum < valuesAlloc
      modifies values, this`valuesNum
      ensures Valid() && Items() == old(Items()[..before] + [value] + Items()[before..])
    {
      var a, num := values, valuesNum;
      ghost var all := a[..];
      if 0 < num - before {
        Move(a, before + 1, before, num - before);
        assert a[..before] == all[..before] && a[before + 1..num + 1] == all[before..num];
      }
      valuesNum := num + 1;
      a[before] := value;
      assert a[..before] == all[..before] && a[before + 1..num + 1] == all[before..num];
    }

    method Reserve(size: nat)
      requires Valid() && Allowed(State(), VectorModel.Reserve(size))
      modifies this
      ensures Valid() && (values == old(values) || fresh(values))
      ensures State() == Step(old(State()), VectorModel.Reserve(size))
      ensures Items() == old(Items())
      ensures size <= INT_MAX ==> valuesAlloc == if old(valuesAlloc) < size then size else old(valuesAlloc)
    {
      if ToInt32(size) > valuesAlloc {
        Resize(ToInt32(size));
      }
    }

    /** memcpy from `n` elements at `block + at`, which must survive the reservation and must not overlap
        the place they are copied to. */
    method AppendArray(block: array<T>, at: nat, n: nat)
      requires at + n <= block.Length
      requires Valid() && Allowed(State(), VectorModel.AppendArray(block[at..at + n]))
      requires block == values && n > 0 ==> valuesNum + n <= valuesAlloc && at + n <= valuesNum
      modifies Repr()
      ensures Valid() && fresh(Repr() - old(Repr()))
      ensures State() == Step(old(State()), VectorModel.AppendArray(old(block[at..at + n])))
      ensures Items() == old(Items() + block[at..at + n])
      ensures valuesAlloc == if n > 0 && old(valuesAlloc) < old(valuesNum) + n then old(valuesNum) + n else old(valuesAlloc)
    {
      if 0 == n {
        return;
      }
      Reserve(valuesNum + n);
      AppendInPlace(block, at, n);
    }

    method AppendInPlace(block: array<T>, at: nat, n: nat)
      requires at + n <= block.Length && Valid() && 0 < n <= valuesAlloc - valuesNum
      requires block == values ==> at + n <= valuesNum
      modifies values, this`valuesNum
      ensures Valid() && Items() == old(Items() + block[at..at + n])
    {
      var a, num := values, valuesNum;
      ghost var items := a[..num];
      Copy(block, at, a, num, n);
      valuesNum := num + n;
      assert a[..num] == items;
      assert a[..num + n] == a[..num] + a[num..num + n];
    }

    method RemoveNoOrder(index: nat)
      requires Valid() && Allowed(State(), VectorModel.RemoveNoOrder(index))
      modifies values, this`valuesNum
      ensures Valid() && values == old(values)
      ensures State() == Step(old(State()), VectorModel.RemoveNoOrder(index))
      ensures |Items()| == |old(Items())| - 1
      ensures forall k :: 0 <= k < |Items()| ==> Items()[k] == old(Items())[if k == index then |old(Items())| - 1 else k]
    {
      valuesNum := valuesNum - 1;
      values[index] := values[valuesNum];
    }

    method Remove(index: nat)
      requires Valid() && Allowed(State(), VectorModel.Remove(index))
      modifies values, this`valuesNum
      ensures Valid() && values == old(values)
      ensures State() == Step(old(State()), VectorModel.Remove(index))
      ensures |Items()| == |old(Items())| - 1
      ensures forall k :: 0 <= k < |Items()| ==> Items()[k] == old(Items())[if k < index then k else k + 1]
    {
      valuesNum := valuesNum - 1;
      Move(values, index, index + 1, valuesNum - index);
    }

    method Clear()
      requires Valid()
      modifies this`valuesNum
      ensures Valid()
      ensures State() == Step(old(State()), VectorModel.Clear)
      ensures Items() == []
    {
      valuesNum := 0;
    }

    /** The pointer vectors' clear: hands every element to the free function, once, in order. The calls
        are recorded in `freed`. */
    method ClearExt() returns (freed: seq<T>)
      requires Valid()
      modifies this`valuesNum
      ensures Valid() && Items() == [] && freed == old(Items())
      ensures State() == Step(old(State()), VectorModel.Clear)
    {
      freed := [];
      if 0 != valuesNum {
        for index := 0 to valuesNum
          invariant freed == values[..index]
        {
          freed := freed + [values[index]];
        }
        valuesNum := 0;
      }
    }

    /** qsort: some sorted permutation. Callers learn no more than that. */
    method Sort(cmp: (T, T) -> int)
      requires Valid() && TotalPreorder(cmp)
      modifies values
      ensures Valid() && values == old(values)
      ensures IsSortOf(cmp, old(Items()), Items())
      ensures State() == old(State()).(items := Items())
    {
      if 2 <= valuesNum {
        var sorted := SomeSort(cmp, values[..valuesNum]);
        SomeSortSorts(cmp, values[..valuesNum]);
        assert |multiset(sorted)| == |multiset(values[..valuesNum])|;
        forall i | 0 <= i < valuesNum {
          values[i] := sorted[i];
        }
        assert Items() == sorted;
      }
    }

    method Uniq(cmp: (T, T) -> int)
      requires Valid()
      modifies values, this`valuesNum
      ensures Valid() && values == old(values)
      ensures State() == old(State()).(items := Unique.Uniq(cmp, old(Items())))
    {
      if 2 <= valuesNum {
        valuesNum := Compact(values, valuesNum, cmp);
      }
    }

    /** Moves the block that ends before `end` down over the dropped elements. */
    method MoveBlock(blockStart: nat, deleted: nat, end: nat)
      requires Valid() && deleted <= blockStart <= end <= valuesNum
      modifies values
      ensures Valid() && Items() == BlockMoved(old(Items()), end, deleted, Some(blockStart))
    {
      if values != null {
        ShiftDown(values, valuesNum, blockStart, end, deleted);
      }
    }

    /** In place, with the survivors between two dropped elements moved as one block. The block start is
        only read once it has been assigned. */
    method SetDiff(right: Vector<T>, cmp: (T, T) -> int) returns (ghost comparisons: nat, ghost moved: nat)
      requires Valid() && right.Valid()
      requires right != this && (values != null ==> right.values != values)
      modifies values, this`valuesNum
      ensures Valid() && values == old(values)
      ensures State() == old(State()).(items := MergeDiff(cmp, old(Items()), old(right.Items())))
      ensures right.Valid() && right.State() == old(right.State())
      ensures comparisons <= |Items()| + |old(right.Items())|
      ensures moved == |Items()| - FirstDropped(cmp, old(Items()), old(right.Items()))
    {
      hide InProgress, Laid, Kept, BlockMoved, MergeDiff, FirstDropped;
      ghost var l, r := Items(), right.Items();
      var blockStart: Option<nat> := None;
      var deleted, leftIndex, rightIndex := 0, 0, 0;
      comparisons, moved := 0, 0;
      InProgressInitially(cmp, l, r);
      while leftIndex < valuesNum && rightIndex < right.valuesNum
        modifies values
        invariant Valid() && right.Valid() && right.Items() == r && right.State() == old(right.State())
        invariant deleted <= leftIndex <= |l| && rightIndex <= |r|
        invariant blockStart.Some? <==> 0 < deleted
        invariant blockStart.Some? ==> deleted <= blockStart.value <= leftIndex
        invariant InProgress(cmp, Items(), l, r, leftIndex, rightIndex, deleted, blockStart, moved)
        invariant comparisons + deleted <= leftIndex + rightIndex
      {
        ghost var i, j := leftIndex, rightIndex;
        UntouchedAhead(cmp, Items(), l, r, i, j, deleted, blockStart, moved);
        var c := cmp(values[leftIndex], right.values[rightIndex]);
        comparisons := comparisons + 1;
        if 0 >= c {
          leftIndex := leftIndex + 1;
        }
        if 0 <= c {
          rightIndex := rightIndex + 1;
        }
        if 0 != c {
          InProgressPass(cmp, Items(), l, r, i, j, deleted, blockStart, moved);
          continue;
        }
        InProgressDrop(cmp, Items(), l, r, i, j, deleted, blockStart, moved);
        deleted := deleted + 1;
        if 0 < deleted - 1 {
          MoveBlock(blockStart.value, deleted - 1, leftIndex - 1);
          moved := moved + (leftIndex - 1 - blockStart.value);
        }
        blockStart := Some(leftIndex);
      }
      InProgressEnd(cmp, Items(), l, r, leftIndex, rightIndex, deleted, blockStart, moved);
      if 0 < deleted {
        MoveBlock(blockStart.value, deleted, valuesNum);
        moved := moved + (valuesNum - blockStart.value);
        valuesNum := valuesNum - deleted;
      }
    }

    /** For any comparator. `comparisons` is logarithmic, and `largest` is the largest intermediate value
        that `lo + hi` takes. */
    method NearestIndex(value: T, cmp: (T, T) -> int) returns (r: int, ghost comparisons: nat, ghost largest: int)
      requires Valid()
      ensures IsNearest(cmp, Items(), value, r)
      ensures comparisons <= Halvings(|Items()|)
      ensures |Items()| <= 0x4000_0000 ==> largest <= INT_MAX
    {
      hide Halvings;
      var lo, hi := 0, valuesNum;
      comparisons, largest := 0, 0;
      while 1 <= hi - lo
        invariant 0 <= lo <= hi <= valuesNum
        invariant lo > 0 ==> cmp(values[lo - 1], value) < 0
        invariant hi < valuesNum ==> cmp(values[hi], value) > 0
        invariant comparisons + Halvings(hi - lo) <= Halvings(valuesNum)
        invariant largest < 2 * valuesNum || largest == 0
        decreases hi - lo
      {
        largest := Max(largest, lo + hi);
        var mid := (lo + hi) / 2;
        var c := cmp(values[mid], value);
        HalvingStep(lo, hi);
        comparisons := comparisons + 1;
        if 0 > c {
          lo := mid + 1;
        } else if 0 == c {
          return mid, comparisons, largest;
        } else {
          hi := mid;
        }
      }
      r := hi;
    }

    /** libc bsearch: any of the matches, on an array that is ordered around the key. */
    method BSearch(value: T, cmp: (T, T) -> int) returns (r: int)
      requires Valid() && KeyPartitioned(cmp, Items(), value)
      ensures IsAnyMatch(cmp, Items(), value, r)
    {
      if k :| 0 <= k < valuesNum && cmp(value, values[k]) == 0 {
        r := k;
      } else {
        r := FAIL;
      }
    }

    method LSearch(value: T, index: nat, cmp: (T, T) -> int) returns (found: bool, next: nat, ghost comparisons: nat)
      requires Valid()
      ensures Probe(found, next, comparisons) == Lookup.LSearch(cmp, Items(), value, index)
    {
      next, comparisons := index, 0;
      while next < valuesNum
        invariant index <= next
        invariant var p := Lookup.LSearch(cmp, Items(), value, next);
                  Lookup.LSearch(cmp, Items(), value, index) == p.(comparisons := p.comparisons + comparisons)
      {
        var c := cmp(values[next], value);
        comparisons := comparisons + 1;
        if 0 > c {
          next := next + 1;
          continue;
        }
        if 0 == c {
          return true, next, comparisons;
        }
        if 0 < c {
          break;
        }
      }
      found := false;
    }

    method Search(value: T, cmp: (T, T) -> int) returns (r: int)
      requires Valid()
      ensures IsFirstMatch(cmp, Items(), value, r)
    {
      for index := 0 to valuesNum
        invariant forall k :: 0 <= k < index ==> cmp(values[k], value) != 0
      {
        if 0 == cmp(values[index], value) {
          return index;
        }
      }
      r := FAIL;
    }
  }

  // ----- callers

  /** Every run of operations that stays within what each demands takes the object through the states of
      the model: with RunRefinesSequence, through the contents of a plain sequence. */
  method Execute<T(0,!new)>(v: Vector<T>, ops: seq<Op<T>>)
    requires v.Valid() && RunAllowed(v.State(), ops) && IndicesOk(v.Items(), ops)
    modifies v.Repr()
    ensures v.Valid() && fresh(v.Repr() - old(v.Repr()))
    ensures v.State() == Run(old(v.State()), ops)
    decreases |ops|
  {
    if ops != [] {
      Perform(v, ops[0]);
      AllowedIndices(v.State(), ops[1..]);
      Execute(v, ops[1..]);
    }
  }

  method Perform<T(0,!new)>(v: Vector<T>, op: Op<T>)
    requires v.Valid() && Allowed(v.State(), op)
    modifies v.Repr()
    ensures v.Valid() && fresh(v.Repr() - old(v.Repr()))
    ensures v.State() == Step(old(v.State()), op)
  {
    match op
    case Append(x) => v.Append(x);
    case Insert(x, k) => v.Insert(x, k);
    case AppendArray(xs) =>
      var block := new T[|xs|](i requires 0 <= i < |xs| => xs[i]);
      assert block[0..0 + |xs|] == xs;
      v.AppendArray(block, 0, |xs|);
    case Remove(k) => v.Remove(k);
    case RemoveNoOrder(k) => v.RemoveNoOrder(k);
    case Reserve(size) => v.Reserve(size);
    case Clear => v.Clear();
    case Destroy => v.Destroy();
    case Create => v.Create();
  }

  /** Keeping a vector a sorted set: in at the nearest index when absent. */
  method Include<T(0,!new)>(v: Vector<T>, value: T, cmp: (T, T) -> int)
    requires v.Valid() && v.ready && Room(v.State())
    requires TotalPreorder(cmp) && StrictlyAscending(cmp, v.Items())
    modifies v.Repr()
    ensures v.Valid() && fresh(v.Repr() - old(v.Repr()))
    ensures v.ready && v.Items() == SortedSet.Apply(cmp, old(v.Items()), SortedSet.Put(value))
  {
    hide TotalPreorder, StrictlyAscending, SortedSet.Apply, SortedSet.Rank;
    var k, _, _ := v.NearestIndex(value, cmp);
    SortedSet.ApplyAt(cmp, v.Items(), SortedSet.Put(value), k);
    hide IsNearest;
    if !(k < v.valuesNum && cmp(v.values[k], value) == 0) {
      v.Insert(value, k);
    }
  }

  /** Out again, when found. */
  method Exclude<T(0,!new)>(v: Vector<T>, value: T, cmp: (T, T) -> int)
    requires v.Valid()
    requires TotalPreorder(cmp) && StrictlyAscending(cmp, v.Items())
    modifies v.Repr()
    ensures v.Valid() && v.values == old(v.values) && v.ready == old(v.ready)
    ensures v.Items() == SortedSet.Apply(cmp, old(v.Items()), SortedSet.Drop(value))
  {
    hide TotalPreorder, StrictlyAscending, SortedSet.Apply, SortedSet.Rank;
    var k, _, _ := v.NearestIndex(value, cmp);
    SortedSet.ApplyAt(cmp, v.Items(), SortedSet.Drop(value), k);
    hide IsNearest;
    if k < v.valuesNum && cmp(v.values[k], value) == 0 {
      v.Remove(k);
    }
  }

  /** Any run of both keeps the vector strictly sorted and equal to the set the run describes. */
  method MaintainSet<T(0,!new)>(v: Vector<T>, ops: seq<SortedSet.Op<T>>, cmp: (T, T) -> int)
    requires v.Valid() && v.ready && |v.Items()| + |ops| <= MAX_GROWABLE
    requires TotalOrder(cmp) && StrictlyAscending(cmp, v.Items())
    modifies v.Repr()
    ensures v.Valid() && fresh(v.Repr() - old(v.Repr()))
    ensures StrictlyAscending(cmp, v.Items())
    ensures Elements(v.Items()) == SortedSet.SetRun(Elements(old(v.Items())), ops)
    decreases |ops|
  {
    hide TotalOrder, StrictlyAscending, Elements;
    if ops != [] {
      MaintainOne(v, ops[0], cmp);
      MaintainSet(v, ops[1..], cmp);
    }
  }

  method MaintainOne<T(0,!new)>(v: Vector<T>, op: SortedSet.Op<T>, cmp: (T, T) -> int)
    requires v.Valid() && v.ready && |v.Items()| < MAX_GROWABLE
    requires TotalOrder(cmp) && StrictlyAscending(cmp, v.Items())
    modifies v.Repr()
    ensures v.Valid() && v.ready && fresh(v.Repr() - old(v.Repr()))
    ensures StrictlyAscending(cmp, v.Items()) && |v.Items()| <= |old(v.Items())| + 1
    ensures Elements(v.Items()) ==
            match op { case Put(x) => old(Elements(v.Items())) + {x} case Drop(x) => old(Elements(v.Items())) - {x} }
  {
    SortedSet.ApplySorted(cmp, v.Items(), op);
    SortedSet.ApplyElements(cmp, v.Items(), op);
    SortedSet.ApplyGrowsByOne(cmp, v.Items(), op);
    hide TotalPreorder, StrictlyAscending, Elements, SortedSet.Apply;
    match op {
      case Put(x) => Include(v, x, cmp);
      case Drop(x) => Exclude(v, x, cmp);
    }
  }

  /** The pipeline on two vectors: a becomes the sorted set difference of their elements. */
  method Subtract<T(0,!new)>(a: Vector<T>, b: Vector<T>, cmp: (T, T) -> int)
    requires a.Valid() && b.Valid() && a != b && (a.values != null ==> a.values != b.values)
    requires TotalOrder(cmp)
    modifies a.Repr(), b.Repr()
    ensures a.Valid() && b.Valid()
    ensures StrictlyAscending(cmp, a.Items())
    ensures Elements(a.Items()) == Elements(old(a.Items())) - Elements(old(b.Items()))
    ensures Unique.Uniq(cmp, a.Items()) == a.Items()
  {
    ghost var xs, ys := a.Items(), b.Items();
    a.Sort(cmp);
    ghost var sa := a.Items();
    a.Uniq(cmp);
    b.Sort(cmp);
    ghost var sb := b.Items();
    b.Uniq(cmp);
    var _, _ := a.SetDiff(b, cmp);
    CanonicalDifference(cmp, xs, ys, sa, sb);
  }
}
