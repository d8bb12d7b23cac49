/** One run of the synthetic-CT evaluation: the label volume is binarized, the
    masked error map and its means are computed, and the bone-threshold Dice
    table is filled. The three volumes arrive as flat, co-registered voxel
    sequences. */
module Evaluation {
  import opened Voxels
  import MaskBinarizer
  import ErrorMap
  import OverlapSweep

  /** The evaluation as the source's `run` performs it, with the mask of the
      error map taken from `RoiMask`: the source's binarizer whenever the
      labels hold at least two distinct values, the non-zero voxels when they
      are constant.
      The Dice sweep masks with the label volume itself (a voxel is outside
      when its label is 0). */
  method Run(gtCT: seq<int>, sCT: seq<int>, labels: seq<int>)
    returns (display: seq<int>, mae: Option<real>, me: Option<real>, rows: seq<OverlapSweep.Row>)
    requires |gtCT| == |sCT| == |labels| > 0
    ensures |display| == |gtCT|
    ensures forall i :: 0 <= i < |gtCT| ==>
      display[i] == if MaskBinarizer.RoiMask(labels)[i] == 0 then OutsideValue else gtCT[i] - sCT[i]
    ensures mae == ErrorMap.MeanAbsoluteError(gtCT, sCT, MaskBinarizer.RoiMask(labels))
    ensures me == ErrorMap.MeanError(gtCT, sCT, MaskBinarizer.RoiMask(labels))
    ensures mae.Some? <==> exists i :: 0 <= i < |labels| && labels[i] != 0
    ensures me.Some? <==> mae.Some?
    ensures mae.Some? ==> -mae.value <= me.value <= mae.value
    ensures |rows| == 10
    ensures forall i :: 0 <= i < 10 ==> rows[i].threshold == 100 * (i + 1)
    ensures forall i :: 0 <= i < 10 ==> rows[i].dice == OverlapSweep.BoneDice(gtCT, sCT, labels, 100 * (i + 1))
    ensures forall i :: 0 <= i < 10 && rows[i].dice.Some? ==> 0.0 <= rows[i].dice.value <= 1.0
  {
    var mask := MaskBinarizer.BinarizeRoi(labels);
    display, mae, me := ErrorMap.ErrorStatistics(gtCT, sCT, mask);
    MaskBinarizer.RoiMaskNonEmpty(labels);
    ErrorMap.ErrorDefinedIffMaskNonEmpty(gtCT, sCT, mask);
    if ErrorMap.MaskNonEmpty(mask) {
      ErrorMap.MeanAbsoluteErrorBoundsMeanError(gtCT, sCT, mask);
    }
    var thrs := OverlapSweep.BoneThresholds();
    OverlapSweep.BoneThresholdValues();
    rows := OverlapSweep.DiceSweep(gtCT, sCT, labels, thrs);
  }

  /** For a label volume holding 0 and a single positive label (a binary label
      map exported as {0, 255}), the error map's mask and the label volume mark
      the same voxels, so the Dice sweep sees exactly the region the error map
      uses; when both values occur the source's binarizer alone decides the
      mask. */
  lemma SweepRegionMatchesErrorRegion(gtCT: seq<int>, sCT: seq<int>, labels: seq<int>, k: int, thr: int)
    requires |gtCT| == |sCT| == |labels| > 0 && k > 0
    requires forall i :: 0 <= i < |labels| ==> labels[i] == 0 || labels[i] == k
    ensures 0 in labels && k in labels ==> MaskBinarizer.NonConstant(labels)
    ensures OverlapSweep.BoneDice(gtCT, sCT, MaskBinarizer.RoiMask(labels), thr)
         == OverlapSweep.BoneDice(gtCT, sCT, labels, thr)
  {
    if 0 in labels && k in labels {
      MaskBinarizer.BinarizeTwoLevelLabels(labels, k);
    } else {
      assert forall i :: 0 <= i < |labels| ==> labels[i] == labels[0];
      assert Min(labels) == labels[0] == Max(labels);
    }
    var mask := MaskBinarizer.RoiMask(labels);
    assert MaskVolume(gtCT, mask) == MaskVolume(gtCT, labels);
    assert MaskVolume(sCT, mask) == MaskVolume(sCT, labels);
  }

  /** Evaluating a CT volume against itself with an ROI that covers some
      voxel: ME = MAE = 0, and every Dice entry is 1 or undefined. */
  lemma SelfEvaluation(ct: seq<int>, labels: seq<int>, thr: int)
    requires |ct| == |labels| > 0
    requires exists i :: 0 <= i < |labels| && labels[i] != 0
    ensures ErrorMap.MeanError(ct, ct, MaskBinarizer.RoiMask(labels)) == Some(0.0)
    ensures ErrorMap.MeanAbsoluteError(ct, ct, MaskBinarizer.RoiMask(labels)) == Some(0.0)
    ensures OverlapSweep.BoneDice(ct, ct, labels, thr) in {Some(1.0), None}
  {
    var mask := MaskBinarizer.RoiMask(labels);
    MaskBinarizer.RoiMaskNonEmpty(labels);
    ErrorMap.ZeroErrorWhenEqualOnMask(ct, ct, mask);
    OverlapSweep.PerfectDiceWhenEqualOnMask(ct, ct, labels, thr);
  }

  /** As written, an ROI that covers the whole volume, exported as the label
      255 on every voxel, leaves ME and MAE undefined although every voxel is
      inside it; the Dice sweep, which masks with the labels, still sees every
      voxel. */
  lemma WholeVolumeRoiLosesErrors()
    ensures ErrorMap.MeanError([210, 320], [200, 300], MaskBinarizer.BinarizedAsWritten([255, 255])) == None
    ensures ErrorMap.MeanAbsoluteError([210, 320], [200, 300], MaskBinarizer.BinarizedAsWritten([255, 255])) == None
    ensures OverlapSweep.BoneDice([210, 320], [200, 300], [255, 255], 100) == Some(1.0)
  {
    MaskBinarizer.ConstantLabelsGiveEmptyMask([255, 255]);
    ErrorMap.ErrorDefinedIffMaskNonEmpty([210, 320], [200, 300], MaskBinarizer.BinarizedAsWritten([255, 255]));
    var bone := OverlapSweep.BoneSegmentation([210, 320], [255, 255], 100);
    OverlapSweep.BoneSegmentationVoxels([210, 320], [255, 255], 100);
    OverlapSweep.BoneSegmentationVoxels([200, 300], [255, 255], 100);
    assert bone == OverlapSweep.BoneSegmentation([200, 300], [255, 255], 100);
    OverlapSweep.CountOnesZero(bone);
    OverlapSweep.DicePerfectIffIdentical(bone, bone);
  }

  /** With the corrected mask an ROI that covers every voxel is evaluated over
      every voxel, and in general ME and MAE are defined exactly when the ROI
      covers some voxel. */
  lemma WholeVolumeRoiKeepsErrors(gtCT: seq<int>, sCT: seq<int>, labels: seq<int>)
    requires |gtCT| == |sCT| == |labels| > 0
    ensures (forall i :: 0 <= i < |labels| ==> labels[i] == labels[0] != 0) ==>
      forall i :: 0 <= i < |labels| ==> MaskBinarizer.RoiMask(labels)[i] == 1
    ensures ErrorMap.MeanError(gtCT, sCT, MaskBinarizer.RoiMask(labels)).Some?
        <==> exists i :: 0 <= i < |labels| && labels[i] != 0
    ensures ErrorMap.MeanAbsoluteError(gtCT, sCT, MaskBinarizer.RoiMask(labels)).Some?
        <==> exists i :: 0 <= i < |labels| && labels[i] != 0
  {
    if forall i :: 0 <= i < |labels| ==> labels[i] == labels[0] {
      assert Min(labels) == labels[0] == Max(labels);
    }
    MaskBinarizer.RoiMaskNonEmpty(labels);
    ErrorMap.ErrorDefinedIffMaskNonEmpty(gtCT, sCT, MaskBinarizer.RoiMask(labels));
  }
}
