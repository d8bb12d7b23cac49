/** The bone-threshold overlap sweep: for each Hounsfield threshold both CT
    volumes are masked, segmented into bone by a threshold window, and the two
    segmentations are compared with the Sørensen–Dice coefficient. */
module OverlapSweep {
  import opened Voxels

  /** Upper end of the bone window, in HU. */
  const UpperThreshold: int := 1500

  /** The values start, start + step, ... below stop, as numpy's `arange`
      gives them for a positive step. */
  function Arange(start: int, stop: int, step: int): (r: seq<int>)
    requires step > 0
    ensures forall i :: 0 <= i < |r| ==> r[i] == start + i * step && r[i] < stop
    ensures start + |r| * step >= stop
    decreases stop - start
  {
    if start >= stop then []
    else
      var rest := Arange(start + step, stop, step);
      assert forall i :: 1 <= i <= |rest| ==> (start + step) + (i - 1) * step == start + i * step;
      assert (start + step) + |rest| * step == start + (|rest| + 1) * step;
      [start] + rest
  }

  /** The thresholds of the sweep: from 100 HU in steps of 100 below 1100 HU. */
  function BoneThresholds(): seq<int>
  {
    Arange(100, 1100, 100)
  }

  /** The sweep runs over the ten thresholds 100, 200, ..., 1000 HU in
      ascending order. */
  lemma BoneThresholdValues()
    ensures |BoneThresholds()| == 10
    ensures forall i :: 0 <= i < 10 ==> BoneThresholds()[i] == 100 * (i + 1)
  {
  }

  /** A binary image that is 1 where lower <= v[i] <= upper (SimpleITK's
      BinaryThreshold with insideValue 1 and outsideValue 0). */
  function ThresholdVolume(v: seq<int>, lower: int, upper: int): (r: seq<int>)
    ensures |r| == |v| && IsBinary(r)
  {
    seq(|v|, i requires 0 <= i < |v| => if lower <= v[i] <= upper then 1 else 0)
  }

  /** The bone segmentation of one CT volume at threshold thr: air outside the
      mask, then the window [thr, 1500]. */
  function BoneSegmentation(v: seq<int>, mask: seq<int>, thr: int): (r: seq<int>)
    requires |v| == |mask|
    ensures |r| == |v| && IsBinary(r)
  {
    ThresholdVolume(MaskVolume(v, mask), thr, UpperThreshold)
  }

  /** A voxel is bone exactly when it lies inside the mask and its value lies
      in the window; so for a positive threshold a voxel outside the mask,
      forced to -1000 HU, is never bone. */
  lemma BoneSegmentationVoxels(v: seq<int>, mask: seq<int>, thr: int)
    requires |v| == |mask| && thr > OutsideValue
    ensures |BoneSegmentation(v, mask, thr)| == |v|
    ensures IsBinary(BoneSegmentation(v, mask, thr))
    ensures forall i :: 0 <= i < |v| ==>
      (BoneSegmentation(v, mask, thr)[i] == 1 <==> mask[i] != 0 && thr <= v[i] <= UpperThreshold)
  {
  }

  /** Number of voxels equal to 1. */
  function CountOnes(a: seq<int>): nat
  {
    if |a| == 0 then 0
    else CountOnes(a[..|a| - 1]) + (if a[|a| - 1] == 1 then 1 else 0)
  }

  /** Number of voxels equal to 1 in both images: the size of the intersection. */
  function CountCommon(a: seq<int>, b: seq<int>): nat
    requires |a| == |b|
  {
    if |a| == 0 then 0
    else CountCommon(a[..|a| - 1], b[..|b| - 1]) + (if a[|a| - 1] == 1 && b[|b| - 1] == 1 then 1 else 0)
  }

  /** The Sørensen–Dice coefficient 2|A ∩ B| / (|A| + |B|) of the foregrounds
      of two binary images, as SimpleITK's LabelOverlapMeasuresImageFilter
      reports it. `None` when both foregrounds are empty: the value the library
      reports then is not part of this model. */
  function Dice(a: seq<int>, b: seq<int>): Option<real>
    requires |a| == |b|
  {
    var total := CountOnes(a) + CountOnes(b);
    if total == 0 then None
    else Some((2 * CountCommon(a, b)) as real / total as real)
  }

  /** The Dice coefficient of the two bone segmentations at threshold thr. */
  function BoneDice(gt: seq<int>, sct: seq<int>, mask: seq<int>, thr: int): Option<real>
    requires |gt| == |sct| == |mask|
  {
    Dice(BoneSegmentation(gt, mask, thr), BoneSegmentation(sct, mask, thr))
  }

  lemma {:induction false} CountOnesZero(a: seq<int>)
    ensures CountOnes(a) == 0 <==> forall i :: 0 <= i < |a| ==> a[i] != 1
  {
    if |a| > 0 {
      var init := a[..|a| - 1];
      CountOnesZero(init);
      assert forall i :: 0 <= i < |init| ==> init[i] == a[i];
    }
  }

  /** The intersection is no larger than either foreground. */
  lemma {:induction false} CommonBounded(a: seq<int>, b: seq<int>)
    requires |a| == |b|
    ensures CountCommon(a, b) <= CountOnes(a) && CountCommon(a, b) <= CountOnes(b)
  {
    if |a| > 0 {
      CommonBounded(a[..|a| - 1], b[..|b| - 1]);
    }
  }

  lemma {:induction false} CommonSymmetric(a: seq<int>, b: seq<int>)
    requires |a| == |b|
    ensures CountCommon(a, b) == CountCommon(b, a)
  {
    if |a| > 0 {
      CommonSymmetric(a[..|a| - 1], b[..|b| - 1]);
    }
  }

  lemma {:induction false} CommonWithItself(a: seq<int>)
    ensures CountCommon(a, a) == CountOnes(a)
  {
    if |a| > 0 {
      CommonWithItself(a[..|a| - 1]);
    }
  }

  /** Two binary images whose intersection is as large as each foreground are
      the same image. */
  lemma {:induction false} FullOverlapMeansEqual(a: seq<int>, b: seq<int>)
    requires |a| == |b| && IsBinary(a) && IsBinary(b)
    requires CountCommon(a, b) == CountOnes(a) == CountOnes(b)
    ensures a == b
  {
    if |a| > 0 {
      var n := |a|;
      var a', b' := a[..n - 1], b[..n - 1];
      CommonBounded(a', b');
      assert IsBinary(a') && IsBinary(b') by {
        assert forall i :: 0 <= i < n - 1 ==> a'[i] == a[i] && b'[i] == b[i];
      }
      FullOverlapMeansEqual(a', b');
      assert a[n - 1] == b[n - 1];
      assert a == a' + [a[n - 1]] && b == b' + [b[n - 1]];
    }
  }

  lemma Ratio(x: nat, y: nat)
    requires y > 0
    ensures 0.0 <= x as real / y as real
    ensures x <= y ==> x as real / y as real <= 1.0
    ensures x as real / y as real == 1.0 <==> x == y
  {
    var q := x as real / y as real;
    assert q * y as real == x as real;
  }

  /** A defined Dice coefficient lies in [0, 1]. */
  lemma DiceInUnitInterval(a: seq<int>, b: seq<int>)
    requires |a| == |b|
    ensures Dice(a, b).Some? ==> 0.0 <= Dice(a, b).value <= 1.0
  {
    CommonBounded(a, b);
    var total := CountOnes(a) + CountOnes(b);
    if total > 0 {
      Ratio(2 * CountCommon(a, b), total);
    }
  }

  /** The Dice coefficient does not depend on which image is the ground truth. */
  lemma DiceSymmetric(a: seq<int>, b: seq<int>)
    requires |a| == |b|
    ensures Dice(a, b) == Dice(b, a)
  {
    CommonSymmetric(a, b);
  }

  /** The Dice coefficient is undefined exactly when neither image has a
      foreground voxel. */
  lemma DiceUndefinedIffBothEmpty(a: seq<int>, b: seq<int>)
    requires |a| == |b|
    ensures Dice(a, b).None? <==> forall i :: 0 <= i < |a| ==> a[i] != 1 && b[i] != 1
  {
    CountOnesZero(a);
    CountOnesZero(b);
  }

  /** For binary images with some foreground, the Dice coefficient is 1
      exactly when the two images are identical. */
  lemma DicePerfectIffIdentical(a: seq<int>, b: seq<int>)
    requires |a| == |b| && IsBinary(a) && IsBinary(b)
    ensures Dice(a, b) == Some(1.0) <==> a == b && CountOnes(a) > 0
  {
    CommonBounded(a, b);
    var total := CountOnes(a) + CountOnes(b);
    if total > 0 {
      Ratio(2 * CountCommon(a, b), total);
    }
    if Dice(a, b) == Some(1.0) {
      FullOverlapMeansEqual(a, b);
    }
    if a == b {
      CommonWithItself(a);
    }
  }

  /** Volumes that agree on every in-mask voxel give identical segmentations,
      hence a Dice coefficient of 1 (or none, when neither has bone). */
  lemma PerfectDiceWhenEqualOnMask(gt: seq<int>, sct: seq<int>, mask: seq<int>, thr: int)
    requires |gt| == |sct| == |mask|
    requires forall i :: 0 <= i < |mask| && mask[i] != 0 ==> gt[i] == sct[i]
    ensures BoneDice(gt, sct, mask, thr) == Some(1.0) || BoneDice(gt, sct, mask, thr) == None
  {
    var a, b := BoneSegmentation(gt, mask, thr), BoneSegmentation(sct, mask, thr);
    assert a == b;
    CommonWithItself(a);
    if CountOnes(a) > 0 {
      Ratio(2 * CountOnes(a), CountOnes(a) + CountOnes(a));
    }
  }

  /** Two volumes that both hold the value hu on every in-mask voxel, with a
      mask that is not empty: the Dice coefficient is 1 for thresholds up to
      hu (when hu is within the window) and undefined above. */
  lemma UniformVolumeDice(gt: seq<int>, sct: seq<int>, mask: seq<int>, hu: int, thr: int)
    requires |gt| == |sct| == |mask| && thr > OutsideValue
    requires exists i :: 0 <= i < |mask| && mask[i] != 0
    requires forall i :: 0 <= i < |mask| && mask[i] != 0 ==> gt[i] == hu && sct[i] == hu
    ensures BoneDice(gt, sct, mask, thr) == if thr <= hu <= UpperThreshold then Some(1.0) else None
  {
    var a := BoneSegmentation(gt, mask, thr);
    BoneSegmentationVoxels(gt, mask, thr);
    BoneSegmentationVoxels(sct, mask, thr);
    assert a == BoneSegmentation(sct, mask, thr);
    DicePerfectIffIdentical(a, a);
    DiceUndefinedIffBothEmpty(a, a);
    var j :| 0 <= j < |mask| && mask[j] != 0;
    if thr <= hu <= UpperThreshold {
      assert a[j] == 1;
      CountOnesZero(a);
    }
  }

  /** One row of the overlap table: a threshold and its Dice coefficient. */
  datatype Row = Row(threshold: int, dice: Option<real>)

  /** The table-filling loop: one row per threshold, in the order given. */
  method DiceSweep(gt: seq<int>, sct: seq<int>, mask: seq<int>, thrs: seq<int>) returns (rows: seq<Row>)
    requires |gt| == |sct| == |mask|
    ensures |rows| == |thrs|
    ensures forall i :: 0 <= i < |rows| ==>
      rows[i].threshold == thrs[i] && rows[i].dice == BoneDice(gt, sct, mask, thrs[i])
    ensures forall i :: 0 <= i < |rows| && rows[i].dice.Some? ==> 0.0 <= rows[i].dice.value <= 1.0
  {
    var table := new Row[|thrs|](_ => Row(0, None));
    for i := 0 to |thrs|
      invariant forall k :: 0 <= k < i ==>
        table[k].threshold == thrs[k] && table[k].dice == BoneDice(gt, sct, mask, thrs[k])
      invariant forall k :: 0 <= k < i && table[k].dice.Some? ==> 0.0 <= table[k].dice.value <= 1.0
    {
      var gtBin := BoneSegmentation(gt, mask, thrs[i]);
      var sctBin := BoneSegmentation(sct, mask, thrs[i]);
      var dsc := Dice(gtBin, sctBin);
      DiceInUnitInterval(gtBin, sctBin);
      table[i] := Row(thrs[i], dsc);
    }
    rows := table[..];
  }
}
