/** The masked error map: the voxel-wise difference between the ground-truth
    and the synthetic CT, a display copy of it with air outside the mask, and
    the mean error (ME) and mean absolute error (MAE) over the voxels inside
    the mask. */
module ErrorMap {
  import opened Voxels

  /** Sum of xs over the voxels inside the mask (mask value not 0), taken from
      the front. */
  function MaskedSum(xs: seq<int>, mask: seq<int>): int
    requires |xs| == |mask|
  {
    if |xs| == 0 then 0
    else
      MaskedSum(xs[..|xs| - 1], mask[..|mask| - 1])
      + (if mask[|mask| - 1] != 0 then xs[|xs| - 1] else 0)
  }

  /** Number of voxels inside the mask. */
  function MaskedCount(mask: seq<int>): nat
  {
    if |mask| == 0 then 0
    else MaskedCount(mask[..|mask| - 1]) + (if mask[|mask| - 1] != 0 then 1 else 0)
  }

  /** The mean of xs with every voxel outside the mask left out, as numpy's
      `nanmean` gives it once those voxels hold not-a-number; `None` when no
      voxel is left. */
  function MaskedMean(xs: seq<int>, mask: seq<int>): Option<real>
    requires |xs| == |mask|
  {
    if MaskedCount(mask) == 0 then None
    else Some(MaskedSum(xs, mask) as real / MaskedCount(mask) as real)
  }

  /** The voxel-wise difference `gt - sct`. */
  function Differences(gt: seq<int>, sct: seq<int>): seq<int>
    requires |gt| == |sct|
  {
    seq(|gt|, i requires 0 <= i < |gt| => gt[i] - sct[i])
  }

  function Magnitudes(xs: seq<int>): seq<int>
  {
    seq(|xs|, i requires 0 <= i < |xs| => Abs(xs[i]))
  }

  predicate SameVolumes(gt: seq<int>, sct: seq<int>, mask: seq<int>)
  {
    |gt| == |sct| == |mask|
  }

  /** ME: the mean of `gt - sct` over the voxels inside the mask. */
  function MeanError(gt: seq<int>, sct: seq<int>, mask: seq<int>): Option<real>
    requires SameVolumes(gt, sct, mask)
  {
    MaskedMean(Differences(gt, sct), mask)
  }

  /** MAE: the mean of `|gt - sct|` over the voxels inside the mask. */
  function MeanAbsoluteError(gt: seq<int>, sct: seq<int>, mask: seq<int>): Option<real>
    requires SameVolumes(gt, sct, mask)
  {
    MaskedMean(Magnitudes(Differences(gt, sct)), mask)
  }

  predicate MaskNonEmpty(mask: seq<int>)
  {
    exists i :: 0 <= i < |mask| && mask[i] != 0
  }

  lemma {:induction false} MaskedCountPositive(mask: seq<int>)
    ensures MaskedCount(mask) > 0 <==> MaskNonEmpty(mask)
  {
    if |mask| > 0 {
      var init := mask[..|mask| - 1];
      MaskedCountPositive(init);
      assert forall i :: 0 <= i < |init| ==> init[i] == mask[i];
      if MaskNonEmpty(init) {
        var i :| 0 <= i < |init| && init[i] != 0;
        assert mask[i] != 0;
      }
    }
  }

  /** The sum of magnitudes bounds the magnitude of the sum. */
  lemma {:induction false} MaskedSumBoundedByMagnitudes(xs: seq<int>, mask: seq<int>)
    requires |xs| == |mask|
    ensures 0 <= MaskedSum(Magnitudes(xs), mask)
    ensures Abs(MaskedSum(xs, mask)) <= MaskedSum(Magnitudes(xs), mask)
  {
    if |xs| > 0 {
      var n := |xs|;
      assert Magnitudes(xs)[..n - 1] == Magnitudes(xs[..n - 1]);
      MaskedSumBoundedByMagnitudes(xs[..n - 1], mask[..n - 1]);
    }
  }

  /** A quantity equal to c on every in-mask voxel sums to c times the count. */
  lemma {:induction false} MaskedSumOfConstant(xs: seq<int>, mask: seq<int>, c: int)
    requires |xs| == |mask|
    requires forall i :: 0 <= i < |xs| && mask[i] != 0 ==> xs[i] == c
    ensures MaskedSum(xs, mask) == MaskedCount(mask) * c
  {
    if |xs| > 0 {
      var n := |xs|;
      MaskedSumOfConstant(xs[..n - 1], mask[..n - 1], c);
      assert MaskedCount(mask) * c == MaskedCount(mask[..n - 1]) * c + (if mask[n - 1] != 0 then c else 0);
    }
  }

  /** Voxels outside the mask do not enter the sum, whatever they hold. */
  lemma {:induction false} MaskedSumIgnoresOutside(xs: seq<int>, ys: seq<int>, mask: seq<int>)
    requires |xs| == |ys| == |mask|
    requires forall i :: 0 <= i < |xs| && mask[i] != 0 ==> xs[i] == ys[i]
    ensures MaskedSum(xs, mask) == MaskedSum(ys, mask)
  {
    if |xs| > 0 {
      var n := |xs|;
      MaskedSumIgnoresOutside(xs[..n - 1], ys[..n - 1], mask[..n - 1]);
    }
  }

  /** Dividing by a positive count keeps |s| <= a. */
  lemma QuotientBound(s: int, a: int, c: int)
    requires c > 0 && Abs(s) <= a
    ensures 0.0 <= a as real / c as real
    ensures -(a as real / c as real) <= s as real / c as real <= a as real / c as real
  {

  }

  lemma QuotientOfMultiple(x: int, c: int)
    requires c > 0
    ensures (c * x) as real / c as real == x as real
  {

  }

  /** ME and MAE are defined exactly when the mask holds a voxel. */
  lemma ErrorDefinedIffMaskNonEmpty(gt: seq<int>, sct: seq<int>, mask: seq<int>)
    requires SameVolumes(gt, sct, mask)
    ensures MeanError(gt, sct, mask).Some? <==> MaskNonEmpty(mask)
    ensures MeanAbsoluteError(gt, sct, mask).Some? <==> MaskNonEmpty(mask)
  {
    MaskedCountPositive(mask);
  }

  /** MAE is never negative and bounds the magnitude of ME. */
  lemma MeanAbsoluteErrorBoundsMeanError(gt: seq<int>, sct: seq<int>, mask: seq<int>)
    requires SameVolumes(gt, sct, mask) && MaskNonEmpty(mask)
    ensures MeanError(gt, sct, mask).Some? && MeanAbsoluteError(gt, sct, mask).Some?
    ensures MeanAbsoluteError(gt, sct, mask).value >= 0.0
    ensures -MeanAbsoluteError(gt, sct, mask).value <= MeanError(gt, sct, mask).value
    ensures MeanError(gt, sct, mask).value <= MeanAbsoluteError(gt, sct, mask).value
  {
    MaskedCountPositive(mask);
    var d := Differences(gt, sct);
    MaskedSumBoundedByMagnitudes(d, mask);
    QuotientBound(MaskedSum(d, mask), MaskedSum(Magnitudes(d), mask), MaskedCount(mask));
  }

  /** When every in-mask voxel of gt differs from sct by the same offset, ME
      is that offset and MAE its magnitude (a ground truth of 1000 HU against a
      synthetic CT of 800 HU gives ME = MAE = 200). */
  lemma ConstantOffsetError(gt: seq<int>, sct: seq<int>, mask: seq<int>, offset: int)
    requires SameVolumes(gt, sct, mask) && MaskNonEmpty(mask)
    requires forall i :: 0 <= i < |mask| && mask[i] != 0 ==> gt[i] - sct[i] == offset
    ensures MeanError(gt, sct, mask) == Some(offset as real)
    ensures MeanAbsoluteError(gt, sct, mask) == Some(Abs(offset) as real)
  {
    MaskedCountPositive(mask);
    var d := Differences(gt, sct);
    var c := MaskedCount(mask);
    MaskedSumOfConstant(d, mask, offset);
    MaskedSumOfConstant(Magnitudes(d), mask, Abs(offset));
    QuotientOfMultiple(offset, c);
    QuotientOfMultiple(Abs(offset), c);
  }

  /** Identical volumes on the mask give ME = MAE = 0. */
  lemma ZeroErrorWhenEqualOnMask(gt: seq<int>, sct: seq<int>, mask: seq<int>)
    requires SameVolumes(gt, sct, mask) && MaskNonEmpty(mask)
    requires forall i :: 0 <= i < |mask| && mask[i] != 0 ==> gt[i] == sct[i]
    ensures MeanError(gt, sct, mask) == Some(0.0)
    ensures MeanAbsoluteError(gt, sct, mask) == Some(0.0)
  {
    ConstantOffsetError(gt, sct, mask, 0);
  }

  /** The statistics depend only on the in-mask voxels: changing either volume
      outside the mask leaves ME and MAE as they were. */
  lemma ErrorIgnoresOutsideVoxels(gt: seq<int>, sct: seq<int>, gt': seq<int>, sct': seq<int>, mask: seq<int>)
    requires SameVolumes(gt, sct, mask) && SameVolumes(gt', sct', mask)
    requires forall i :: 0 <= i < |mask| && mask[i] != 0 ==> gt[i] == gt'[i] && sct[i] == sct'[i]
    ensures MeanError(gt, sct, mask) == MeanError(gt', sct', mask)
    ensures MeanAbsoluteError(gt, sct, mask) == MeanAbsoluteError(gt', sct', mask)
  {
    var d, d' := Differences(gt, sct), Differences(gt', sct');
    MaskedSumIgnoresOutside(d, d', mask);
    MaskedSumIgnoresOutside(Magnitudes(d), Magnitudes(d'), mask);
  }

  /** The means of the magnitudes and of the values themselves, taken once
      every voxel outside the mask holds not-a-number: those voxels are
      skipped. */
  method NanMeans(img: array<int>, mask: seq<int>) returns (mae: Option<real>, me: Option<real>)
    requires img.Length == |mask|
    ensures mae == MaskedMean(Magnitudes(img[..]), mask)
    ensures me == MaskedMean(img[..], mask)
  {
    ghost var d := img[..];
    ghost var a := Magnitudes(d);
    var sum, absSum, count := 0, 0, 0;
    for i := 0 to img.Length
      invariant sum == MaskedSum(d[..i], mask[..i])
      invariant absSum == MaskedSum(a[..i], mask[..i])
      invariant count == MaskedCount(mask[..i])
    {
      assert d[..i + 1][..i] == d[..i] && a[..i + 1][..i] == a[..i] && mask[..i + 1][..i] == mask[..i];
      if mask[i] != 0 {
        sum := sum + img[i];
        absSum := absSum + Abs(img[i]);
        count := count + 1;
      }
    }
    assert d[..img.Length] == d && a[..img.Length] == a && mask[..img.Length] == mask;
    if count == 0 {
      mae, me := None, None;
    } else {
      mae := Some(absSum as real / count as real);
      me := Some(sum as real / count as real);
    }
  }

  /** The difference section of the evaluation as the source runs it: the
      difference volume is computed and overwritten with air outside the mask
      for display; the means are then taken with the voxels outside the mask
      left out. */
  method ErrorStatistics(gt: seq<int>, sct: seq<int>, mask: seq<int>)
    returns (display: seq<int>, mae: Option<real>, me: Option<real>)
    requires SameVolumes(gt, sct, mask)
    ensures |display| == |gt|
    ensures forall i :: 0 <= i < |gt| ==>
      display[i] == if mask[i] == 0 then OutsideValue else gt[i] - sct[i]
    ensures mae == MeanAbsoluteError(gt, sct, mask)
    ensures me == MeanError(gt, sct, mask)
  {
    var n := |gt|;
    // voxel-wise difference of the two volumes
    var diff := new int[n];
    for i := 0 to n
      invariant forall k :: 0 <= k < i ==> diff[k] == gt[k] - sct[k]
    {
      diff[i] := gt[i] - sct[i];
    }
    // write air outside the mask
    for i := 0 to n
      invariant forall k :: 0 <= k < i ==> diff[k] == if mask[k] == 0 then OutsideValue else gt[k] - sct[k]
      invariant forall k :: i <= k < n ==> diff[k] == gt[k] - sct[k]
    {
      if mask[i] == 0 {
        diff[i] := OutsideValue;
      }
    }
    display := diff[..];

    // the means skip every voxel outside the mask
    mae, me := NanMeans(diff, mask);
    ghost var d := Differences(gt, sct);
    MaskedSumIgnoresOutside(display, d, mask);
    MaskedSumIgnoresOutside(Magnitudes(display), Magnitudes(d), mask);
  }
}
