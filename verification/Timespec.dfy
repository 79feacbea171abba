/**
  `zbx_timespec_compare`: the difference of the seconds, or of the nanoseconds when the seconds are the
  same, as an int. Differences that do not fit wrap around.
*/
module Timespec {
  import opened Comparators
  import opened SetDiff
  import opened Unique

  const INT_MAX: int := 0x7fff_ffff
  const NS_PER_SEC: int := 1_000_000_000

  datatype Time = Time(sec: int, ns: int)

  function Difference(t1: Time, t2: Time): int {
    if t1.sec == t2.sec then t1.ns - t2.ns else t1.sec - t2.sec
  }

  function WrapInt(d: int): int {
    var low := d % 0x1_0000_0000;
    if low <= INT_MAX then low else low - 0x1_0000_0000
  }

  function Compare(t1: Time, t2: Time): int {
    WrapInt(Difference(t1, t2))
  }

  predicate Before(t1: Time, t2: Time) {
    t1.sec < t2.sec || (t1.sec == t2.sec && t1.ns < t2.ns)
  }

  /** Timestamps with seconds in `lo..hi`, both included. */
  predicate InRange(t: Time, lo: int, hi: int) {
    lo <= t.sec <= hi && 0 <= t.ns < NS_PER_SEC
  }

  ghost predicate OrdersRange(lo: int, hi: int) {
    forall t1, t2 | InRange(t1, lo, hi) && InRange(t2, lo, hi) ::
      (Compare(t1, t2) < 0 <==> Before(t1, t2)) && (Compare(t1, t2) == 0 <==> t1 == t2)
  }

  /** The comparator gives the lexicographic order on a range of timestamps, without wrap-around, exactly
      when the seconds in it are at most INT_MAX apart. */
  lemma OrdersExactly(lo: int, hi: int)
    requires lo <= hi
    ensures OrdersRange(lo, hi) <==> hi - lo <= INT_MAX
    ensures hi - lo <= INT_MAX ==> forall t1, t2 | InRange(t1, lo, hi) && InRange(t2, lo, hi) ::
              if t1.sec == t2.sec then t2.ns + Compare(t1, t2) == t1.ns else t2.sec + Compare(t1, t2) == t1.sec
  {
    if hi - lo <= INT_MAX {
      forall t1, t2 | InRange(t1, lo, hi) && InRange(t2, lo, hi)
        ensures Compare(t1, t2) == Difference(t1, t2)
      {
        assert -0x8000_0000 <= Difference(t1, t2) <= INT_MAX;
      }
    } else {
      var far := lo + INT_MAX + 1;
      var t1, t2 := Time(far, 0), Time(lo, 0);
      assert InRange(t1, lo, hi) && InRange(t2, lo, hi);
      assert Compare(t1, t2) == -0x8000_0000;
      assert !Before(t1, t2);
    }
  }

  /** Timestamps as the system produces them. */
  type Valid = t: Time | InRange(t, 0, INT_MAX) witness Time(0, 0)

  function CompareValid(t1: Valid, t2: Valid): int { Compare(t1, t2) }

  /** On these the comparator is a total order, so every theorem about sorted vectors applies to it. */
  lemma ValidTotalOrder()
    ensures TotalOrder(CompareValid)
    ensures forall t1: Valid, t2: Valid :: CompareValid(t1, t2) < 0 <==> Before(t1, t2)
  {
    OrdersExactly(0, INT_MAX);
    forall a: Valid, b: Valid ensures CompareValid(a, b) == Difference(a, b) {
      assert InRange(a, 0, INT_MAX) && InRange(b, 0, INT_MAX);
    }
  }

  /** For instance: two vectors of timestamps sorted, made unique and subtracted. */
  lemma TimestampDifference(a: seq<Valid>, b: seq<Valid>, sa: seq<Valid>, sb: seq<Valid>)
    requires IsSortOf(CompareValid, a, sa) && IsSortOf(CompareValid, b, sb)
    ensures var d := MergeDiff(CompareValid, Uniq(CompareValid, sa), Uniq(CompareValid, sb));
            && (forall i, j :: 0 <= i < j < |d| ==> Before(d[i], d[j]))
            && (forall t: Valid :: t in d <==> t in a && t !in b)
  {
    ValidTotalOrder();
    hide CompareValid, Before, MergeDiff, Uniq, IsSortOf, TotalOrder;
    CanonicalDifference(CompareValid, a, b, sa, sb);
    var d := MergeDiff(CompareValid, Uniq(CompareValid, sa), Uniq(CompareValid, sb));
    forall t: Valid ensures t in d <==> t in a && t !in b {
      assert t in Elements(d) <==> t in Elements(a) - Elements(b);
    }
  }
}
