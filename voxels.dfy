/** Shared vocabulary for volumes flattened to sequences of voxel values.
    A volume of Hounsfield Units (or of mask labels) is a `seq<int>`; the three
    volumes of one evaluation are co-registered, so they have equal lengths and
    index i names the same voxel in each of them. */
module Voxels {

  /** A value that may be missing; `None` stands for the not-a-number result of
      a mean over no voxels or of a Dice coefficient over two empty sets. */
  datatype Option<T> = None | Some(value: T)

  /** HU value of air; the sentinel written into voxels outside the mask. */
  const OutsideValue: int := -1000

  function Abs(x: int): (r: nat)
    ensures r == x || r == -x
  {
    if x < 0 then -x else x
  }

  /** Every voxel is 0 or 1. */
  predicate IsBinary(s: seq<int>)
  {
    forall i :: 0 <= i < |s| ==> s[i] == 0 || s[i] == 1
  }

  /** The smallest voxel value (numpy's `min()`), accumulated from the front. */
  function Min(s: seq<int>): (m: int)
    requires |s| > 0
    ensures m in s
    ensures forall i :: 0 <= i < |s| ==> m <= s[i]
  {
    if |s| == 1 then s[0]
    else
      var init := s[..|s| - 1];
      var m := Min(init);
      assert forall i :: 0 <= i < |s| - 1 ==> s[i] == init[i];
      if s[|s| - 1] < m then s[|s| - 1] else m
  }

  /** The largest voxel value (numpy's `max()`), accumulated from the front. */
  function Max(s: seq<int>): (m: int)
    requires |s| > 0
    ensures m in s
    ensures forall i :: 0 <= i < |s| ==> s[i] <= m
  {
    if |s| == 1 then s[0]
    else
      var init := s[..|s| - 1];
      var m := Max(init);
      assert forall i :: 0 <= i < |s| - 1 ==> s[i] == init[i];
      if m < s[|s| - 1] then s[|s| - 1] else m
  }

  /** A volume with each voxel replaced by `OutsideValue` where the mask is 0
      (SimpleITK's Mask filter with outsideValue -1000). */
  function MaskVolume(v: seq<int>, mask: seq<int>): (r: seq<int>)
    requires |v| == |mask|
  {
    seq(|v|, i requires 0 <= i < |v| => if mask[i] == 0 then OutsideValue else v[i])
  }
}
