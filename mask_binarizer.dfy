/** Reduction of a label volume to a strict 0/1 mask by min-max normalisation
    followed by a hard threshold at one half. */
module MaskBinarizer {
  import opened Voxels

  /** Where v sits on the range [lo, hi] once that range is scaled to [0, 1]:
      the value a voxel holds after the minimum is subtracted and the result is
      divided by the shifted maximum. */
  function Normalized(v: int, lo: int, hi: int): real
    requires lo < hi
  {
    (v - lo) as real / (hi - lo) as real
  }

  /** The midpoint rule in integers: v lies strictly above the middle of [lo, hi]. */
  predicate AboveMidpoint(v: int, lo: int, hi: int)
  {
    2 * (v - lo) > hi - lo
  }

  /** A label volume that holds at least two distinct values, so that the
      shifted maximum the source divides by is not zero. */
  predicate NonConstant(labels: seq<int>)
  {
    |labels| > 0 && Min(labels) < Max(labels)
  }

  /** The mask the binarizer produces, stated voxel by voxel on the integer
      labels. */
  function Binarized(labels: seq<int>): (mask: seq<int>)
    requires NonConstant(labels)
    ensures |mask| == |labels| && IsBinary(mask)
  {
    var lo, hi := Min(labels), Max(labels);
    seq(|labels|, i requires 0 <= i < |labels| => if AboveMidpoint(labels[i], lo, hi) then 1 else 0)
  }

  /** Scaling a range to [0, 1] and comparing with one half is the same as
      comparing twice the offset with the width of the range. */
  lemma NormalizedAboveHalf(v: int, lo: int, hi: int)
    requires lo < hi
    ensures Normalized(v, lo, hi) > 0.5 <==> AboveMidpoint(v, lo, hi)
  {
    var d := (hi - lo) as real;
    var q := Normalized(v, lo, hi);
    assert q * d == (v - lo) as real;
    if q > 0.5 {
      assert q * d > 0.5 * d;
    } else {
      assert q * d <= 0.5 * d;
    }
  }

  /** A voxel of the binarized mask is 1 exactly when its normalised label
      exceeds one half, which is how the source computes it. */
  lemma BinarizedIsNormalizedThreshold(labels: seq<int>)
    requires NonConstant(labels)
    ensures forall i :: 0 <= i < |labels| ==>
      (Binarized(labels)[i] == 1 <==> Normalized(labels[i], Min(labels), Max(labels)) > 0.5)
  {
    forall i | 0 <= i < |labels|
      ensures Binarized(labels)[i] == 1 <==> Normalized(labels[i], Min(labels), Max(labels)) > 0.5
    {
      NormalizedAboveHalf(labels[i], Min(labels), Max(labels));
    }
  }

  /** Voxels holding the largest label are inside the mask, voxels holding the
      smallest label are outside it; so the mask holds both a 0 and a 1. */
  lemma BinarizedExtremes(labels: seq<int>)
    requires NonConstant(labels)
    ensures forall i :: 0 <= i < |labels| && labels[i] == Max(labels) ==> Binarized(labels)[i] == 1
    ensures forall i :: 0 <= i < |labels| && labels[i] == Min(labels) ==> Binarized(labels)[i] == 0
    ensures 0 in Binarized(labels) && 1 in Binarized(labels)
  {

  }

  /** A label volume that already holds 0 and 1 and nothing else comes back
      unchanged. */
  lemma BinarizeFixesBinaryMask(s: seq<int>)
    requires IsBinary(s) && 0 in s && 1 in s
    ensures Min(s) == 0 && Max(s) == 1
    ensures Binarized(s) == s
  {

  }

  /** Binarizing twice gives what binarizing once gives. */
  lemma BinarizeIdempotent(labels: seq<int>)
    requires NonConstant(labels)
    ensures NonConstant(Binarized(labels))
    ensures Binarized(Binarized(labels)) == Binarized(labels)
  {
    BinarizedExtremes(labels);
    BinarizeFixesBinaryMask(Binarized(labels));
  }

  /** The label volume with every value v replaced by c * v + b. */
  function Affine(labels: seq<int>, c: int, b: int): (r: seq<int>)
  {
    seq(|labels|, i requires 0 <= i < |labels| => c * labels[i] + b)
  }

  lemma ScaleOrder(c: int, x: int, y: int)
    requires c > 0
    ensures x <= y <==> c * x <= c * y
    ensures x < y <==> c * x < c * y
  {

  }

  /** The binarizer is label-scale invariant: a positive rescaling and any
      shift of the labels gives the same mask, so a {0, 255} label volume and
      a {0, 1} one with the same zeros are binarized alike. */
  lemma BinarizeAffineInvariant(labels: seq<int>, c: int, b: int)
    requires NonConstant(labels) && c > 0
    ensures Min(Affine(labels, c, b)) == c * Min(labels) + b
    ensures Max(Affine(labels, c, b)) == c * Max(labels) + b
    ensures NonConstant(Affine(labels, c, b))
    ensures Binarized(Affine(labels, c, b)) == Binarized(labels)
  {
    var t := Affine(labels, c, b);
    var lo, hi := Min(labels), Max(labels);
    forall i | 0 <= i < |labels|
      ensures c * lo + b <= t[i] <= c * hi + b
    {
      ScaleOrder(c, lo, labels[i]);
      ScaleOrder(c, labels[i], hi);
    }
    var i :| 0 <= i < |labels| && labels[i] == lo;
    var j :| 0 <= j < |labels| && labels[j] == hi;
    assert Min(t) <= t[i] && t[i] == c * lo + b;
    assert t[j] <= Max(t) && t[j] == c * hi + b;
    var k :| 0 <= k < |t| && t[k] == Min(t);
    var l :| 0 <= l < |t| && t[l] == Max(t);
    ScaleOrder(c, lo, hi);
    forall n | 0 <= n < |labels|
      ensures Binarized(t)[n] == Binarized(labels)[n]
    {
      AffineMidpoint(c, b, labels[n], lo, hi);
    }
  }

  lemma AffineMidpoint(c: int, b: int, v: int, lo: int, hi: int)
    requires c > 0
    ensures AboveMidpoint(c * v + b, c * lo + b, c * hi + b) <==> AboveMidpoint(v, lo, hi)
  {

  }

  /** A label volume holding only 0 and one positive label k, both present, is
      binarized to the indicator of its non-zero voxels. */
  lemma BinarizeTwoLevelLabels(labels: seq<int>, k: int)
    requires k > 0
    requires forall i :: 0 <= i < |labels| ==> labels[i] == 0 || labels[i] == k
    requires 0 in labels && k in labels
    ensures NonConstant(labels)
    ensures forall i :: 0 <= i < |labels| ==> Binarized(labels)[i] == (if labels[i] == 0 then 0 else 1)
  {

  }

  // The floating-point pipeline the source runs, one step per function.

  /** The labels cast to floating point. */
  function AsReals(labels: seq<int>): seq<real>
  {
    seq(|labels|, i requires 0 <= i < |labels| => labels[i] as real)
  }

  /** Every value minus c. */
  function Shifted(xs: seq<real>, c: real): seq<real>
  {
    seq(|xs|, i requires 0 <= i < |xs| => xs[i] - c)
  }

  /** Every value divided by d. */
  function Scaled(xs: seq<real>, d: real): seq<real>
    requires d != 0.0
  {
    seq(|xs|, i requires 0 <= i < |xs| => xs[i] / d)
  }

  /** Every value above one half set to 1, then every value at or below one
      half set to 0. */
  function Thresholded(xs: seq<real>): (r: seq<real>)
    ensures |r| == |xs|
    ensures forall i :: 0 <= i < |r| ==> r[i] == 0.0 || r[i] == 1.0
  {
    seq(|xs|, i requires 0 <= i < |xs| => if xs[i] > 0.5 then 1.0 else 0.0)
  }

  /** m is a value of xs and no value of xs is smaller. */
  predicate IsLeast(xs: seq<real>, m: real)
  {
    (exists j :: 0 <= j < |xs| && xs[j] == m) && forall k :: 0 <= k < |xs| ==> m <= xs[k]
  }

  /** m is a value of xs and no value of xs is larger. */
  predicate IsGreatest(xs: seq<real>, m: real)
  {
    (exists j :: 0 <= j < |xs| && xs[j] == m) && forall k :: 0 <= k < |xs| ==> xs[k] <= m
  }

  /** Each integer is its value truncated towards zero, for non-negative values. */
  predicate Truncates(xs: seq<real>, bytes: seq<int>)
  {
    |bytes| == |xs| && forall k :: 0 <= k < |xs| ==> bytes[k] as real <= xs[k] < bytes[k] as real + 1.0
  }

  /** The least element of an array of floats, found by a scan. */
  method MinimumOf(img: array<real>) returns (m: real)
    requires img.Length > 0
    ensures IsLeast(img[..], m)
  {
    var at := 0;
    for i := 1 to img.Length
      invariant 0 <= at < i
      invariant forall k :: 0 <= k < i ==> img[at] <= img[k]
    {
      if img[i] < img[at] {
        at := i;
      }
    }
    m := img[at];
  }

  /** The greatest element of an array of floats, found by a scan. */
  method MaximumOf(img: array<real>) returns (m: real)
    requires img.Length > 0
    ensures IsGreatest(img[..], m)
  {
    var at := 0;
    for i := 1 to img.Length
      invariant 0 <= at < i
      invariant forall k :: 0 <= k < i ==> img[k] <= img[at]
    {
      if img[at] < img[i] {
        at := i;
      }
    }
    m := img[at];
  }

  /** Subtracts c from every element, in place. */
  method SubtractInPlace(img: array<real>, c: real)
    modifies img
    ensures img[..] == Shifted(old(img[..]), c)
  {
    for i := 0 to img.Length
      invariant forall k :: 0 <= k < i ==> img[k] == old(img[k]) - c
      invariant forall k :: i <= k < img.Length ==> img[k] == old(img[k])
    {
      img[i] := img[i] - c;
    }
  }

  /** Divides every element by d, in place. */
  method DivideInPlace(img: array<real>, d: real)
    requires d != 0.0
    modifies img
    ensures img[..] == Scaled(old(img[..]), d)
  {
    for i := 0 to img.Length
      invariant forall k :: 0 <= k < i ==> img[k] == old(img[k]) / d
      invariant forall k :: i <= k < img.Length ==> img[k] == old(img[k])
    {
      img[i] := img[i] / d;
    }
  }

  /** Thresholds at one half in place, in two passes: values above one half
      become 1, then the values not above it become 0. */
  method ThresholdAtHalf(img: array<real>)
    modifies img
    ensures img[..] == Thresholded(old(img[..]))
  {
    var n := img.Length;
    for i := 0 to n
      invariant forall k :: 0 <= k < i ==> img[k] == if old(img[k]) > 0.5 then 1.0 else old(img[k])
      invariant forall k :: i <= k < n ==> img[k] == old(img[k])
    {
      if img[i] > 0.5 {
        img[i] := 1.0;
      }
    }
    for i := 0 to n
      invariant forall k :: 0 <= k < i ==> img[k] == if old(img[k]) > 0.5 then 1.0 else 0.0
      invariant forall k :: i <= k < n ==> img[k] == if old(img[k]) > 0.5 then 1.0 else old(img[k])
    {
      if img[i] <= 0.5 {
        img[i] := 0.0;
      }
    }
  }

  /** The cast to 8-bit integers on non-negative values below 256: each
      value is truncated to an integer. */
  method CastToBytes(img: array<real>) returns (bytes: seq<int>)
    requires forall k :: 0 <= k < img.Length ==> 0.0 <= img[k] < 256.0
    ensures Truncates(img[..], bytes)
  {
    var out := new int[img.Length];
    for i := 0 to img.Length
      invariant forall k :: 0 <= k < i ==> out[k] as real <= img[k] < out[k] as real + 1.0
    {
      out[i] := img[i].Floor;
    }
    bytes := out[..];
  }

  /** The minimum of the labels cast to floating point is the cast of their
      integer minimum. */
  lemma CastMinimum(labels: seq<int>, m: real)
    requires IsLeast(AsReals(labels), m)
    ensures |labels| > 0 && m == Min(labels) as real
  {
    var xs := AsReals(labels);
    var j :| 0 <= j < |xs| && xs[j] == m;
    var i :| 0 <= i < |labels| && labels[i] == Min(labels);
    assert Min(labels) <= labels[j];
    assert m <= xs[i];
  }

  /** The maximum of the labels shifted by lo is the distance from lo to
      their largest value hi. */
  lemma ShiftedMaximum(labels: seq<int>, lo: int, hi: int, m: real)
    requires hi in labels && forall k :: 0 <= k < |labels| ==> labels[k] <= hi
    requires IsGreatest(Shifted(AsReals(labels), lo as real), m)
    ensures m == (hi - lo) as real
  {
    var xs := Shifted(AsReals(labels), lo as real);
    var j :| 0 <= j < |xs| && xs[j] == m;
    var i :| 0 <= i < |labels| && labels[i] == hi;
    assert xs[j] == (labels[j] - lo) as real;
    assert xs[i] == (hi - lo) as real;
  }

  /** Shifting, scaling, thresholding and truncating the cast labels yields
      the binarized mask. */
  lemma PipelineIsBinarized(labels: seq<int>, bytes: seq<int>)
    requires NonConstant(labels)
    requires Truncates(Thresholded(Scaled(Shifted(AsReals(labels), Min(labels) as real),
                                          (Max(labels) - Min(labels)) as real)), bytes)
    ensures bytes == Binarized(labels)
  {
    var lo, hi := Min(labels), Max(labels);
    var norm := Scaled(Shifted(AsReals(labels), lo as real), (hi - lo) as real);
    var bits := Thresholded(norm);
    var spec := Binarized(labels);
    forall k | 0 <= k < |labels|
      ensures bytes[k] == spec[k]
    {
      assert norm[k] == Normalized(labels[k], lo, hi);
      NormalizedAboveHalf(labels[k], lo, hi);
    }
  }

  /** Normalises the floating copy of the labels in place: shift so the least
      value is 0, then divide by the new greatest value. */
  method NormalizeInPlace(img: array<real>, ghost labels: seq<int>)
    requires NonConstant(labels) && img[..] == AsReals(labels)
    modifies img
    ensures img[..] == Scaled(Shifted(AsReals(labels), Min(labels) as real), (Max(labels) - Min(labels)) as real)
  {
    var least := MinimumOf(img);
    CastMinimum(labels, least);
    SubtractInPlace(img, least);
    var greatest := MaximumOf(img);
    ShiftedMaximum(labels, Min(labels), Max(labels), greatest);
    DivideInPlace(img, greatest);
  }

  /** The binarizer as the source runs it: a floating copy of the labels is
      normalised to [0, 1] and thresholded at one half in place, then cast
      back to 8-bit integers. */
  method BinarizeMask(labels: seq<int>) returns (mask: seq<int>)
    requires NonConstant(labels)
    ensures mask == Binarized(labels)
  {
    var n := |labels|;
    // a floating copy of the labels
    var img := new real[n](i requires 0 <= i < n => labels[i] as real);
    assert img[..] == AsReals(labels);
    NormalizeInPlace(img, labels);
    ThresholdAtHalf(img);
    // back to 8-bit integers
    mask := CastToBytes(img);
    PipelineIsBinarized(labels, mask);
  }

  // A constant label volume: an ROI that covers no voxel, or every voxel.

  /** The mask the source produces for any non-empty label volume. On a
      constant volume the shift leaves every value 0, the division 0/0 gives
      not-a-number, neither threshold assignment matches it, and the cast to
      8 bits turns it into 0 (the usual result of that undefined conversion):
      the mask is empty whatever the label. */
  function BinarizedAsWritten(labels: seq<int>): (mask: seq<int>)
    requires |labels| > 0
    ensures |mask| == |labels| && IsBinary(mask)
  {
    if NonConstant(labels) then Binarized(labels) else seq(|labels|, _ => 0)
  }

  /** As written, a label volume that holds one value everywhere, even a
      non-zero one, yields a mask with no voxel inside. */
  lemma ConstantLabelsGiveEmptyMask(labels: seq<int>)
    requires |labels| > 0
    requires forall i :: 0 <= i < |labels| ==> labels[i] == labels[0]
    ensures forall i :: 0 <= i < |labels| ==> BinarizedAsWritten(labels)[i] == 0
  {
    assert Min(labels) == labels[0] == Max(labels);
  }

  /** The mask intended for every non-empty label volume: the binarizer's mask
      when the labels hold at least two distinct values, and otherwise 1
      exactly at the voxels whose label is not 0, the inside of the ROI. */
  function RoiMask(labels: seq<int>): (mask: seq<int>)
    requires |labels| > 0
    ensures |mask| == |labels| && IsBinary(mask)
  {
    if NonConstant(labels) then Binarized(labels)
    else seq(|labels|, i requires 0 <= i < |labels| => if labels[i] != 0 then 1 else 0)
  }

  /** The corrected mask marks some voxel exactly when some label is not 0:
      an ROI that covers a voxel leaves a voxel to evaluate. */
  lemma RoiMaskNonEmpty(labels: seq<int>)
    requires |labels| > 0
    ensures (exists i :: 0 <= i < |labels| && RoiMask(labels)[i] != 0)
        <==> (exists i :: 0 <= i < |labels| && labels[i] != 0)
  {
    if NonConstant(labels) {
      BinarizedExtremes(labels);
      var j :| 0 <= j < |labels| && labels[j] == Max(labels);
      var k :| 0 <= k < |labels| && labels[k] == Min(labels);
      assert RoiMask(labels)[j] == 1;
      assert labels[j] != 0 || labels[k] != 0;
    } else {
      assert forall i :: 0 <= i < |labels| ==> (RoiMask(labels)[i] != 0 <==> labels[i] != 0);
    }
  }

  /** The binarizer with the constant volume handled: the source's pipeline
      when the labels hold at least two distinct values, the non-zero voxels
      otherwise. */
  method BinarizeRoi(labels: seq<int>) returns (mask: seq<int>)
    requires |labels| > 0
    ensures mask == RoiMask(labels)
  {
    if NonConstant(labels) {
      mask := BinarizeMask(labels);
    } else {
      mask := seq(|labels|, i requires 0 <= i < |labels| => if labels[i] != 0 then 1 else 0);
    }
  }
}
