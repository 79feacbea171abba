/**
  Comparators written as a chain of ZBX_RETURN_IF_NOT_EQUAL over the keys of an element, ending in
  `return 0`: the first key that differs decides.
*/
module KeyOrder {
  import opened Comparators

  function CompareKeys(a: seq<int>, b: seq<int>): (c: int)
    ensures -1 <= c <= 1
  {
    if a == [] || b == [] then 0
    else if a[0] < b[0] then -1
    else if a[0] > b[0] then 1
    else CompareKeys(a[1..], b[1..])
  }

  lemma {:induction false} KeysSign(a: seq<int>, b: seq<int>)
    requires |a| == |b|
    ensures CompareKeys(a, b) == -CompareKeys(b, a)
    ensures CompareKeys(a, b) == 0 <==> a == b
  {
    if a != [] {
      KeysSign(a[1..], b[1..]);
      assert a == [a[0]] + a[1..] && b == [b[0]] + b[1..];
    }
  }

  lemma {:induction false} KeysTransitive(a: seq<int>, b: seq<int>, c: seq<int>)
    requires |a| == |b| == |c|
    requires CompareKeys(a, b) <= 0 && CompareKeys(b, c) <= 0
    ensures CompareKeys(a, c) <= 0
  {
    if a != [] && a[0] == b[0] == c[0] {
      KeysTransitive(a[1..], b[1..], c[1..]);
    }
  }

  /** At key `k` the first difference is, and `a` has the smaller one. */
  predicate SmallerAt(a: seq<int>, b: seq<int>, k: nat) {
    k < |a| && k < |b| && a[..k] == b[..k] && a[k] < b[k]
  }

  /** -1 exactly when the first key that differs is smaller on the left, +1 exactly when it is greater. */
  lemma {:induction false} KeysLexicographic(a: seq<int>, b: seq<int>)
    requires |a| == |b|
    ensures CompareKeys(a, b) == -1 <==> exists k :: SmallerAt(a, b, k)
    ensures CompareKeys(a, b) == 1 <==> exists k :: SmallerAt(b, a, k)
  {
    KeysSign(a, b);
    SmallerIsLess(a, b);
    SmallerIsLess(b, a);
    if CompareKeys(a, b) == -1 { var k := LessIsSmaller(a, b); }
    if CompareKeys(a, b) == 1 { var k := LessIsSmaller(b, a); }
  }

  lemma {:induction false} LessIsSmaller(a: seq<int>, b: seq<int>) returns (k: nat)
    requires |a| == |b| && CompareKeys(a, b) == -1
    ensures SmallerAt(a, b, k)
  {
    k := 0;
    if a[0] == b[0] {
      var j := LessIsSmaller(a[1..], b[1..]);
      k := j + 1;
      assert a[..k] == [a[0]] + a[1..][..j] && b[..k] == [b[0]] + b[1..][..j];
    }
  }

  lemma SmallerIsLess(a: seq<int>, b: seq<int>)
    requires |a| == |b|
    ensures (exists k :: SmallerAt(a, b, k)) ==> CompareKeys(a, b) == -1
  {
    forall k | SmallerAt(a, b, k) ensures CompareKeys(a, b) == -1 {
      SmallerAtIsLess(a, b, k);
    }
  }

  lemma {:induction false} SmallerAtIsLess(a: seq<int>, b: seq<int>, k: nat)
    requires |a| == |b| && SmallerAt(a, b, k)
    ensures CompareKeys(a, b) == -1
    decreases k
  {
    if k > 0 {
      assert a[0] == a[..k][0] == b[..k][0] == b[0];
      assert a[1..][..k - 1] == a[..k][1..] && b[1..][..k - 1] == b[..k][1..];
      SmallerAtIsLess(a[1..], b[1..], k - 1);
    }
  }

  function ByKeys<T>(keys: T -> seq<int>): (T, T) -> int {
    (x: T, y: T) => CompareKeys(keys(x), keys(y))
  }

  /** Whatever the keys, such a comparator is a total preorder; it is a total order exactly when no two
      elements share all their keys. */
  lemma ByKeysOrders<T(!new)>(keys: T -> seq<int>, n: nat)
    requires forall x :: |keys(x)| == n
    ensures TotalPreorder(ByKeys(keys))
    ensures TotalOrder(ByKeys(keys)) <==> forall x, y :: keys(x) == keys(y) ==> x == y
    ensures forall x, y :: ByKeys(keys)(x, y) < 0 <==> exists k :: SmallerAt(keys(x), keys(y), k)
  {
    var cmp := ByKeys(keys);
    forall x, y
      ensures cmp(x, y) < 0 <==> cmp(y, x) > 0
      ensures cmp(x, y) == 0 <==> keys(x) == keys(y)
      ensures cmp(x, y) < 0 <==> exists k :: SmallerAt(keys(x), keys(y), k)
    {
      KeysSign(keys(x), keys(y));
      KeysLexicographic(keys(x), keys(y));
    }
    forall x, y, z | cmp(x, y) <= 0 && cmp(y, z) <= 0 ensures cmp(x, z) <= 0 {
      KeysTransitive(keys(x), keys(y), keys(z));
    }
  }
}
