# Synthetic CT evaluation core, in Dafny

This project models the evaluation logic of the SyntheticCTEvaluation module of
SlicerImageCompare (`SyntheticCTEvaluationLogic`). The module compares a synthetic
CT volume with a ground-truth CT volume inside a region of interest given by a
label volume. It reports:

- the mean error (ME) and mean absolute error (MAE) in Hounsfield Units;
- a difference volume for display, with air (-1000 HU) outside the mask;
- a table of Dice coefficients between bone segmentations of the two volumes,
  one row for each threshold 100, 200, ..., 1000 HU.

Volumes are flat, co-registered `seq<int>`s of voxel values. Index i names the same
voxel in all three volumes. Means and Dice coefficients are exact `real` quotients.
A missing value (`Option.None`) stands for the not-a-number result that the
original produces or that its library leaves open.

Modules, leaf first:

- `Voxels` (`voxels.dfy`): shared vocabulary. It holds `Option`, `Min`/`Max`, the
  -1000 HU sentinel and `MaskVolume` (the SimpleITK Mask filter).
- `MaskBinarizer` (`mask_binarizer.dfy`): `binarizeNumpyMask`. The specification
  function is `Binarized`, the integer midpoint rule `2*(v-min) > max-min`. The
  imperative method `BinarizeMask` follows the source step by step. It works on a
  floating copy of the labels: `-= min()`, `/= max()` and the two masked
  assignments, each an in-place array method, and then the `uint8` cast into a
  new sequence. It is proved equal to `Binarized`.
- `ErrorMap` (`error_map.dfy`): the difference and ME/MAE section of `run`.
  `ErrorStatistics` builds the difference array and overwrites it with -1000
  outside the mask, in place. `NanMeans` then takes the means with the
  out-of-mask voxels skipped.
- `OverlapSweep` (`overlap_sweep.dfy`): the bone-threshold Dice loop. It covers
  `np.arange`, the mask-then-threshold segmentation, the Dice coefficient and
  the loop that fills the table.
- `Evaluation` (`evaluation.dfy`): `run` as the composition of the three parts.
  The error map's mask comes from `RoiMask`, which corrects the binarizer on
  constant label volumes (see the findings below).

Two details of the code shape the model:

- The Dice sweep masks with the label volume itself. A voxel is outside when
  its label is 0 (`sitk.Mask(..., mask_sitk, ...)`). The error map uses the
  binarized mask instead. `Evaluation.SweepRegionMatchesErrorRegion` proves the
  two regions are the same when the labels hold 0 and one positive value.
- The threshold list is fixed in the code. `DiceSweep` takes any list, and
  `Run` passes the fixed ten.

## Model

| member | source | states |
|---|---|---|
| Voxels.Min | SyntheticCTEvaluation/SyntheticCTEvaluation.py:181 | `img_np.min()`: the result is a voxel value and no voxel is smaller |
| Voxels.Max | SyntheticCTEvaluation/SyntheticCTEvaluation.py:182 | `img_np.max()`: the result is a voxel value and no voxel is larger |
| Voxels.MaskVolume | SyntheticCTEvaluation/SyntheticCTEvaluation.py:254-255 | the SimpleITK Mask filter with outsideValue -1000: a voxel keeps its value where the mask is not 0 and becomes -1000 where it is 0 |
| MaskBinarizer.Binarized | SyntheticCTEvaluation/SyntheticCTEvaluation.py:179-185 | the binarized mask has the length of the labels and every voxel is 0 or 1 |
| MaskBinarizer.AsReals | SyntheticCTEvaluation/SyntheticCTEvaluation.py:180 | the cast of the labels to floating point, voxel by voxel |
| MaskBinarizer.Shifted | SyntheticCTEvaluation/SyntheticCTEvaluation.py:181 | every value minus c: the array after the in-place subtraction |
| MaskBinarizer.Scaled | SyntheticCTEvaluation/SyntheticCTEvaluation.py:182 | every value divided by d: the array after the in-place division |
| MaskBinarizer.Thresholded | SyntheticCTEvaluation/SyntheticCTEvaluation.py:183-184 | the array after both masked assignments has the input's length and holds only 0.0 and 1.0 (1.0 where the value was above one half) |
| MaskBinarizer.NormalizedAboveHalf | SyntheticCTEvaluation/SyntheticCTEvaluation.py:181-184 | for min < max, `(v-min)/(max-min) > 0.5` holds exactly when `2*(v-min) > max-min` (both directions) |
| MaskBinarizer.BinarizedIsNormalizedThreshold | SyntheticCTEvaluation/SyntheticCTEvaluation.py:181-184 | a mask voxel is 1 exactly when its min-max normalised label exceeds 0.5 |
| MaskBinarizer.BinarizedExtremes | SyntheticCTEvaluation/SyntheticCTEvaluation.py:181-184 | voxels holding the largest label map to 1 and voxels holding the smallest map to 0, so the mask holds both |
| MaskBinarizer.BinarizeFixesBinaryMask | SyntheticCTEvaluation/SyntheticCTEvaluation.py:180-185 | a label volume holding only 0 and 1, both present, comes back unchanged |
| MaskBinarizer.BinarizeIdempotent | SyntheticCTEvaluation/SyntheticCTEvaluation.py:179-185 | binarizing a binarized mask gives the same mask |
| MaskBinarizer.BinarizeAffineInvariant | SyntheticCTEvaluation/SyntheticCTEvaluation.py:181-182 | replacing every label v by c*v+b with c > 0 moves min and max the same way and leaves the mask unchanged |
| MaskBinarizer.BinarizeTwoLevelLabels | SyntheticCTEvaluation/SyntheticCTEvaluation.py:179-185 | labels in {0, k} with k > 0, both present, binarize to 1 exactly at the non-zero voxels ({0,255} behaves like {0,1}) |
| MaskBinarizer.MinimumOf | SyntheticCTEvaluation/SyntheticCTEvaluation.py:181 | returns an element of the float array that no element is below |
| MaskBinarizer.MaximumOf | SyntheticCTEvaluation/SyntheticCTEvaluation.py:182 | returns an element of the float array that no element exceeds |
| MaskBinarizer.SubtractInPlace | SyntheticCTEvaluation/SyntheticCTEvaluation.py:181 | `-=`: the new array is the old one with c subtracted from every element |
| MaskBinarizer.DivideInPlace | SyntheticCTEvaluation/SyntheticCTEvaluation.py:182 | `/=`: the new array is the old one with every element divided by d |
| MaskBinarizer.ThresholdAtHalf | SyntheticCTEvaluation/SyntheticCTEvaluation.py:183-184 | after both masked assignments, each element is 1 where it was above 0.5 and 0 elsewhere |
| MaskBinarizer.CastToBytes | SyntheticCTEvaluation/SyntheticCTEvaluation.py:185 | `astype(np.uint8)` on values in [0, 256): each result is its value truncated |
| MaskBinarizer.CastMinimum | SyntheticCTEvaluation/SyntheticCTEvaluation.py:180-181 | the minimum of the labels after the float cast is the cast of their integer minimum |
| MaskBinarizer.ShiftedMaximum | SyntheticCTEvaluation/SyntheticCTEvaluation.py:181-182 | the maximum of the labels shifted by their minimum is max - min, which is not zero for non-constant labels |
| MaskBinarizer.PipelineIsBinarized | SyntheticCTEvaluation/SyntheticCTEvaluation.py:180-185 | shifting, scaling, thresholding and truncating the cast labels gives exactly `Binarized` |
| MaskBinarizer.NormalizeInPlace | SyntheticCTEvaluation/SyntheticCTEvaluation.py:181-182 | the float array afterwards holds `(v-min)/(max-min)` for every label v |
| MaskBinarizer.BinarizeMask | SyntheticCTEvaluation/SyntheticCTEvaluation.py:179-185 | the in-place pipeline returns exactly `Binarized(labels)` |
| MaskBinarizer.BinarizedAsWritten | SyntheticCTEvaluation/SyntheticCTEvaluation.py:179-185 | for every non-empty label volume, constant ones included, the mask as written is a binary image of the labels' length |
| MaskBinarizer.ConstantLabelsGiveEmptyMask | SyntheticCTEvaluation/SyntheticCTEvaluation.py:181-185 | as written, a label volume holding one value everywhere, even a non-zero one, gives a mask with no voxel inside |
| MaskBinarizer.RoiMask | SyntheticCTEvaluation/SyntheticCTEvaluation.py:179-185 | the corrected mask is a binary image of the labels' length for every non-empty label volume |
| MaskBinarizer.RoiMaskNonEmpty | SyntheticCTEvaluation/SyntheticCTEvaluation.py:179-185 | the corrected mask marks some voxel exactly when some label is not 0 (both directions) |
| MaskBinarizer.BinarizeRoi | SyntheticCTEvaluation/SyntheticCTEvaluation.py:179-185 | returns exactly `RoiMask(labels)`: the source's pipeline on labels with at least two distinct values, the non-zero voxels on constant ones |
| ErrorMap.Differences | SyntheticCTEvaluation/SyntheticCTEvaluation.py:204 | the voxel-wise difference gt - sct |
| ErrorMap.MaskedMean | SyntheticCTEvaluation/SyntheticCTEvaluation.py:210-212 | numpy's nanmean once the out-of-mask voxels hold NaN: the sum over in-mask voxels divided by their number; `None` when no voxel is in the mask |
| ErrorMap.MeanError | SyntheticCTEvaluation/SyntheticCTEvaluation.py:212 | ME: the in-mask mean of gt - sct |
| ErrorMap.MeanAbsoluteError | SyntheticCTEvaluation/SyntheticCTEvaluation.py:211 | MAE: the in-mask mean of abs(gt - sct) |
| ErrorMap.MaskedCountPositive | SyntheticCTEvaluation/SyntheticCTEvaluation.py:210-212 | the in-mask count is positive exactly when some mask voxel is non-zero |
| ErrorMap.MaskedSumBoundedByMagnitudes | SyntheticCTEvaluation/SyntheticCTEvaluation.py:211-212 | over the mask, the sum of magnitudes is non-negative and bounds the magnitude of the sum |
| ErrorMap.MaskedSumOfConstant | SyntheticCTEvaluation/SyntheticCTEvaluation.py:211-212 | a quantity equal to c on every in-mask voxel sums to count * c |
| ErrorMap.MaskedSumIgnoresOutside | SyntheticCTEvaluation/SyntheticCTEvaluation.py:210 | values outside the mask do not enter the in-mask sum |
| ErrorMap.ErrorDefinedIffMaskNonEmpty | SyntheticCTEvaluation/SyntheticCTEvaluation.py:210-212 | ME and MAE are defined exactly when the mask holds a voxel (an all-NaN mean otherwise) |
| ErrorMap.MeanAbsoluteErrorBoundsMeanError | SyntheticCTEvaluation/SyntheticCTEvaluation.py:211-212 | for a non-empty mask MAE >= 0 and -MAE <= ME <= MAE |
| ErrorMap.ConstantOffsetError | SyntheticCTEvaluation/SyntheticCTEvaluation.py:204-212 | if gt - sct equals d on every in-mask voxel, ME = d and MAE = abs(d) (so 1000 vs 800 HU gives 200) |
| ErrorMap.ZeroErrorWhenEqualOnMask | SyntheticCTEvaluation/SyntheticCTEvaluation.py:204-212 | gt equal to sct on a non-empty mask gives ME = MAE = 0 |
| ErrorMap.ErrorIgnoresOutsideVoxels | SyntheticCTEvaluation/SyntheticCTEvaluation.py:210-212 | changing either volume outside the mask leaves ME and MAE unchanged |
| ErrorMap.NanMeans | SyntheticCTEvaluation/SyntheticCTEvaluation.py:210-212 | returns the means of abs(value) and of value over the in-mask voxels of the array, `None` when there are none |
| ErrorMap.ErrorStatistics | SyntheticCTEvaluation/SyntheticCTEvaluation.py:204-212 | each display voxel is gt - sct inside the mask and -1000 outside; MAE and ME are the in-mask means of abs(gt - sct) and gt - sct |
| OverlapSweep.Arange | SyntheticCTEvaluation/SyntheticCTEvaluation.py:248 | `np.arange`: element i is start + i*step, every element is below stop, and no further step fits below stop |
| OverlapSweep.BoneThresholds | SyntheticCTEvaluation/SyntheticCTEvaluation.py:248 | the thresholds of the sweep, `Arange(100, 1100, 100)` |
| OverlapSweep.ThresholdVolume | SyntheticCTEvaluation/SyntheticCTEvaluation.py:255 | SimpleITK's BinaryThreshold with inside value 1 and outside value 0: a binary image of the input's length, 1 where lower <= v <= upper |
| OverlapSweep.BoneSegmentation | SyntheticCTEvaluation/SyntheticCTEvaluation.py:254-255 | Mask with -1000 outside, then BinaryThreshold over [thr, 1500]: a binary image of the volume's length |
| OverlapSweep.Dice | SyntheticCTEvaluation/SyntheticCTEvaluation.py:257-258 | 2·|A∩B| / (|A|+|B|) over the voxels equal to 1; `None` when neither image has one |
| OverlapSweep.BoneDice | SyntheticCTEvaluation/SyntheticCTEvaluation.py:254-258 | the Dice coefficient of the two bone segmentations at one threshold, both masked with the same mask |
| OverlapSweep.BoneThresholdValues | SyntheticCTEvaluation/SyntheticCTEvaluation.py:248-249 | the sweep has exactly 10 thresholds, and threshold i is 100*(i+1) |
| OverlapSweep.BoneSegmentationVoxels | SyntheticCTEvaluation/SyntheticCTEvaluation.py:254-255 | for a threshold above -1000, a voxel is bone exactly when it is in the mask and thr <= v <= 1500, so out-of-mask voxels are never bone |
| OverlapSweep.CountOnesZero | SyntheticCTEvaluation/SyntheticCTEvaluation.py:257-258 | a segmentation has no foreground count exactly when no voxel is 1 |
| OverlapSweep.CommonBounded | SyntheticCTEvaluation/SyntheticCTEvaluation.py:257-258 | the intersection is no larger than either foreground |
| OverlapSweep.FullOverlapMeansEqual | SyntheticCTEvaluation/SyntheticCTEvaluation.py:257-258 | two binary images whose intersection equals both foregrounds are identical |
| OverlapSweep.DiceInUnitInterval | SyntheticCTEvaluation/SyntheticCTEvaluation.py:257-258 | a defined Dice coefficient lies in [0, 1] |
| OverlapSweep.DiceSymmetric | SyntheticCTEvaluation/SyntheticCTEvaluation.py:257-258 | Dice(a, b) = Dice(b, a) |
| OverlapSweep.DiceUndefinedIffBothEmpty | SyntheticCTEvaluation/SyntheticCTEvaluation.py:257-258 | Dice is left to the library's convention exactly when neither image has a foreground voxel |
| OverlapSweep.DicePerfectIffIdentical | SyntheticCTEvaluation/SyntheticCTEvaluation.py:257-258 | for binary images, Dice = 1 exactly when they are identical and not empty (both directions) |
| OverlapSweep.PerfectDiceWhenEqualOnMask | SyntheticCTEvaluation/SyntheticCTEvaluation.py:254-258 | volumes equal on the mask give Dice 1, or none when there is no bone, at every threshold |
| OverlapSweep.UniformVolumeDice | SyntheticCTEvaluation/SyntheticCTEvaluation.py:254-258 | two volumes both at hu on a non-empty mask give Dice 1 when thr <= hu <= 1500 and none otherwise |
| OverlapSweep.DiceSweep | SyntheticCTEvaluation/SyntheticCTEvaluation.py:249-262 | one row per threshold, in the given order; row i holds threshold i and the Dice of the two bone segmentations there, within [0, 1] |
| Evaluation.Run | SyntheticCTEvaluation/SyntheticCTEvaluation.py:187-262 | display and ME/MAE come from `RoiMask`; ME and MAE are defined exactly when some label is not 0, and then -MAE <= ME <= MAE; 10 rows with thresholds 100..1000 and their Dice values from the label mask |
| Evaluation.SweepRegionMatchesErrorRegion | SyntheticCTEvaluation/SyntheticCTEvaluation.py:195-201 | for labels in {0, k}, masking with the error map's mask or with the labels gives the same Dice at every threshold; when both values occur that mask is the binarizer's |
| Evaluation.SelfEvaluation | SyntheticCTEvaluation/SyntheticCTEvaluation.py:204-262 | a CT against itself, with an ROI covering some voxel, gives ME = MAE = 0, and every Dice value is 1 or undefined |
| Evaluation.WholeVolumeRoiLosesErrors | SyntheticCTEvaluation/SyntheticCTEvaluation.py:181-212 | as written, labels 255 on both voxels leave ME and MAE undefined while the Dice at 100 HU is 1 |
| Evaluation.WholeVolumeRoiKeepsErrors | SyntheticCTEvaluation/SyntheticCTEvaluation.py:181-212 | with the corrected mask, an ROI covering every voxel marks every voxel, and ME and MAE are defined exactly when some label is not 0 |

## Left out

- The widget, its selectors, labels and apply button (SyntheticCTEvaluation.py:38-160) and the module metadata (:16-32). They are user interface.
- The `hasTable` flag and the creation of the table, plot series and chart nodes (:214-245). These are session state of the host application. The sweep returns a fresh sequence of rows instead.
- Layout switching, plot view selection, pushing the difference volume back to the scene, and the colour table (:264-278). These are display and I/O.
- `PullVolumeFromSlicer`, the SimpleITK casts, `LabelMapToBinary` and `CopyInformation` (:193-201, :207-208). These are foreign library calls. Their outputs are taken as given equal-length integer sequences, and spatial metadata is not modelled.
- float32 rounding. Voxel values and thresholds are integers, and quotients are exact reals.
- The in-place overwrite with NaN (:210). `NanMeans` skips the out-of-mask voxels instead of reading NaN values.
- MaskBinarizer.BinarizeMask: requires a label volume with at least two distinct values. A constant volume makes the source divide by zero (:182) and cast NaN to uint8, which has no defined result. An empty volume makes `min()` raise.
- MaskBinarizer.Binarized: same precondition as `BinarizeMask`, for the same reason.
- Evaluation.Run: requires a non-empty volume, since `min()` raises on an empty one. On a constant label volume it takes the corrected mask `RoiMask`, not the source's empty mask (see the findings below).
- The value SimpleITK reports for Dice when both segmentations are empty. `Dice` returns `None` there.
- The test class (:282-327). It downloads sample data and calls a method that the logic class does not define.

## Findings

| source | as written | input that shows it | evidently intended | confidence | as-written member | corrected member |
|---|---|---|---|---|---|---|
| SyntheticCTEvaluation/SyntheticCTEvaluation.py:181-185 | on a constant label volume the normalisation divides 0 by 0; the not-a-number values pass neither threshold and cast to 0, so the mask is empty and ME and MAE (:210-212) are not-a-number, while the Dice sweep masks with the labels and is unaffected | labels 255 on every voxel (an ROI covering the whole volume), gtCT [210, 320], sCT [200, 300] | the voxels with a non-zero label form the mask, so ME and MAE are taken over both voxels | medium, not executed (the cast of not-a-number to 8 bits is platform-dependent) | Evaluation.WholeVolumeRoiLosesErrors | Evaluation.WholeVolumeRoiKeepsErrors |
