/** Nearest-index scaling (client/apps/rtc_console/main.cpp). */
module NearestIndex {

  const UINT64: nat := 0x1_0000_0000_0000_0000

  /** Products and sums wrap as `uint64_t` does. */
  function ScaleIndexNearest(dstIndex: nat, dstCount: nat, srcCount: nat): nat {
    if srcCount <= 1 || dstCount <= 1 then 0
    else
      var numerator := dstIndex * (srcCount - 1) % UINT64;
      var denominator := dstCount - 1;
      (numerator + denominator / 2) % UINT64 / denominator
  }

  /** A count small enough that no product of two wraps. */
  type Count = x: nat | x <= 0x1_0000_0000

  lemma ProductBound(x: nat, y: nat)
    requires x <= 0xffff_ffff && y <= 0xffff_ffff
    ensures x * y <= 0xffff_ffff * 0xffff_ffff
  {
    MulMonotone(x, 0xffff_ffff, y);
    MulMonotone(y, 0xffff_ffff, 0xffff_ffff);
  }

  lemma ModSmall(x: nat)
    requires x < UINT64
    ensures x % UINT64 == x
  {
  }

  /** r is the index whose scaled position r * (dstCount - 1) is nearest to
      dstIndex * (srcCount - 1), ties going up. */
  predicate IsNearest(r: int, dstIndex: int, dstCount: int, srcCount: int) {
    Near(r * (dstCount - 1), dstIndex * (srcCount - 1), dstCount - 1)
  }

  predicate Near(position: int, target: int, step: int) {
    2 * position - step <= 2 * target < 2 * position + step
  }

  lemma Nearest(dstIndex: nat, dstCount: Count, srcCount: Count)
    requires dstIndex < dstCount && srcCount > 1 && dstCount > 1
    ensures IsNearest(ScaleIndexNearest(dstIndex, dstCount, srcCount), dstIndex, dstCount, srcCount)
  {
    ProductBound(dstIndex, srcCount - 1);
    NearestExact(dstIndex, dstCount - 1, srcCount, dstIndex * (srcCount - 1));
  }

  lemma NearestExact(dstIndex: nat, d: nat, srcCount: nat, n: nat)
    requires 0 < d <= 0xffff_ffff && srcCount > 1
    requires n == dstIndex * (srcCount - 1) && n <= 0xffff_ffff * 0xffff_ffff
    ensures IsNearest(ScaleIndexNearest(dstIndex, d + 1, srcCount), dstIndex, d + 1, srcCount)
  {
    ModSmall(n);
    ModSmall(n + d / 2);
    HalfStep(n, d, ScaleIndexNearest(dstIndex, d + 1, srcCount));
  }

  lemma HalfStep(n: nat, d: nat, r: nat)
    requires d > 0 && r == (n + d / 2) / d
    ensures Near(r * d, n, d)
  {
    var m := n + d / 2;
    assert m == r * d + m % d;
  }

  lemma MulMonotone(x: int, y: int, d: int)
    requires x <= y && d >= 0
    ensures x * d <= y * d
  {
  }

  lemma CompareByProduct(x: int, y: int, d: int)
    requires d > 0 && x * d < y * d
    ensures x < y
  {
    if y <= x { MulMonotone(y, x, d); }
  }

  /** Nearness alone orders the results: a later destination never gets an earlier index. */
  lemma NearestMonotone(r: int, t: int, i: int, j: int, dstCount: int, srcCount: int)
    requires dstCount > 1 && srcCount > 1 && i <= j
    requires IsNearest(r, i, dstCount, srcCount) && IsNearest(t, j, dstCount, srcCount)
    ensures r <= t
  {
    var d := dstCount - 1;
    MulMonotone(i, j, srcCount - 1);
    assert (t + 1) * d == t * d + d;
    CompareByProduct(r, t + 1, d);
  }

  lemma NearestAt(r: int, k: int, i: int, dstCount: int, srcCount: int)
    requires dstCount > 1 && srcCount > 1
    requires IsNearest(r, i, dstCount, srcCount) && i * (srcCount - 1) == k * (dstCount - 1)
    ensures r == k
  {
    var d := dstCount - 1;
    assert (k + 1) * d == k * d + d && (r + 1) * d == r * d + d;
    CompareByProduct(r, k + 1, d);
    CompareByProduct(k, r + 1, d);
  }

  lemma NearestStep(r: int, t: int, i: int, dstCount: int, srcCount: int)
    requires dstCount > 1 && 1 < srcCount <= dstCount
    requires IsNearest(r, i, dstCount, srcCount) && IsNearest(t, i + 1, dstCount, srcCount)
    ensures t <= r + 1
  {
    var d := dstCount - 1;
    assert (i + 1) * (srcCount - 1) == i * (srcCount - 1) + (srcCount - 1);
    assert (r + 2) * d == r * d + 2 * d;
    CompareByProduct(t, r + 2, d);
  }

  // ----- What holds of the function -----

  lemma Monotone(i: nat, j: nat, dstCount: Count, srcCount: Count)
    requires i <= j < dstCount
    ensures ScaleIndexNearest(i, dstCount, srcCount) <= ScaleIndexNearest(j, dstCount, srcCount)
  {
    if srcCount > 1 && dstCount > 1 {
      hide ScaleIndexNearest, IsNearest;
      Nearest(i, dstCount, srcCount);
      Nearest(j, dstCount, srcCount);
      NearestMonotone(ScaleIndexNearest(i, dstCount, srcCount), ScaleIndexNearest(j, dstCount, srcCount),
                      i, j, dstCount, srcCount);
    }
  }

  /** Both ends are fixed. */
  lemma Ends(dstCount: Count, srcCount: Count)
    requires dstCount > 0
    ensures ScaleIndexNearest(0, dstCount, srcCount) == 0
    ensures dstCount > 1 && srcCount > 0 ==> ScaleIndexNearest(dstCount - 1, dstCount, srcCount) == srcCount - 1
  {
    if srcCount > 1 && dstCount > 1 {
      hide ScaleIndexNearest, IsNearest;
      Nearest(0, dstCount, srcCount);
      Nearest(dstCount - 1, dstCount, srcCount);
      NearestAt(ScaleIndexNearest(0, dstCount, srcCount), 0, 0, dstCount, srcCount);
      NearestAt(ScaleIndexNearest(dstCount - 1, dstCount, srcCount), srcCount - 1, dstCount - 1, dstCount, srcCount);
    }
  }

  lemma InRange(i: nat, dstCount: Count, srcCount: Count)
    requires i < dstCount && srcCount > 0
    ensures ScaleIndexNearest(i, dstCount, srcCount) < srcCount
  {
    if dstCount > 1 {
      hide ScaleIndexNearest;
      Monotone(i, dstCount - 1, dstCount, srcCount);
      Ends(dstCount, srcCount);
    }
  }

  /** Enlarging never skips a source index. */
  lemma NoSkip(i: nat, dstCount: Count, srcCount: Count)
    requires i + 1 < dstCount && srcCount <= dstCount
    ensures ScaleIndexNearest(i + 1, dstCount, srcCount) <= ScaleIndexNearest(i, dstCount, srcCount) + 1
  {
    if srcCount > 1 {
      hide ScaleIndexNearest, IsNearest;
      Nearest(i, dstCount, srcCount);
      Nearest(i + 1, dstCount, srcCount);
      NearestStep(ScaleIndexNearest(i, dstCount, srcCount), ScaleIndexNearest(i + 1, dstCount, srcCount),
                  i, dstCount, srcCount);
    }
  }

  /** At equal counts nothing moves. */
  lemma Identity(i: nat, count: Count)
    requires i < count
    ensures ScaleIndexNearest(i, count, count) == i
  {
    if count > 1 {
      hide ScaleIndexNearest, IsNearest;
      Nearest(i, count, count);
      NearestAt(ScaleIndexNearest(i, count, count), i, i, count, count);
    }
  }

  ghost predicate Used(k: nat, dstCount: Count, srcCount: Count) {
    exists i: nat :: i < dstCount && ScaleIndexNearest(i, dstCount, srcCount) == k
  }

  ghost predicate Onto(dstCount: Count, srcCount: Count) {
    forall k: nat :: k < srcCount ==> Used(k, dstCount, srcCount)
  }

  /** Walks down from index i to one that is mapped to k. */
  lemma {:induction false} Hit(k: nat, i: nat, dstCount: Count, srcCount: Count)
    requires i < dstCount && k < srcCount <= dstCount
    requires k <= ScaleIndexNearest(i, dstCount, srcCount)
    ensures Used(k, dstCount, srcCount)
  {
    hide ScaleIndexNearest;
    Ends(dstCount, srcCount);
    if ScaleIndexNearest(i, dstCount, srcCount) != k {
      NoSkip(i - 1, dstCount, srcCount);
      Hit(k, i - 1, dstCount, srcCount);
    }
  }

  /** When nothing is skipped the index moves by at most one per step. */
  lemma {:induction false} OntoIsSlow(i: nat, dstCount: Count, srcCount: Count)
    requires i < dstCount && srcCount > 0 && Onto(dstCount, srcCount)
    ensures ScaleIndexNearest(i, dstCount, srcCount) <= i
  {
    hide ScaleIndexNearest;
    Ends(dstCount, srcCount);
    if i == 0 {
    } else {
      OntoIsSlow(i - 1, dstCount, srcCount);
      var r, t := ScaleIndexNearest(i - 1, dstCount, srcCount), ScaleIndexNearest(i, dstCount, srcCount);
      InRange(i, dstCount, srcCount);
      if r + 1 < srcCount {
        assert Used(r + 1, dstCount, srcCount);
        var j: nat :| j < dstCount && ScaleIndexNearest(j, dstCount, srcCount) == r + 1;
        if j < i { Monotone(j, i - 1, dstCount, srcCount); } else { Monotone(i, j, dstCount, srcCount); }
      }
    }
  }

  /** Every source index is used exactly when there are at least as many destinations. */
  lemma OntoIffNotShrinking(dstCount: Count, srcCount: Count)
    ensures Onto(dstCount, srcCount) <==> srcCount <= dstCount
  {
    hide ScaleIndexNearest;
    if srcCount <= dstCount {
      forall k: nat | k < srcCount ensures Used(k, dstCount, srcCount) {
        Ends(dstCount, srcCount);
        Hit(k, dstCount - 1, dstCount, srcCount);
      }
    }
    if Onto(dstCount, srcCount) && srcCount > 0 {
      assert Used(srcCount - 1, dstCount, srcCount);
      var j: nat :| j < dstCount && ScaleIndexNearest(j, dstCount, srcCount) == srcCount - 1;
      OntoIsSlow(j, dstCount, srcCount);
    }
  }
}
