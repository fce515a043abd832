/**
 * Bit planes of a one-channel 8-bit image: `getBitPlane` turns bit `plane` of
 * every sample into a 0/255 sample, and `mergeBitPlanes` packs eight such
 * planes back into bytes, plane 7 as the most significant bit.
 */
module Planes {
  import opened Images

  /** Bit `plane` of a sample, against the int mask `1 << plane`: planes 8 and up select
      nothing of an 8-bit sample. */
  predicate HasBit(p: bv8, plane: nat) {
    plane < 8 && (p >> plane) & 1 == 1
  }

  /** A sample of bit plane `plane`: 255 where the bit is set, 0 elsewhere. */
  function PlaneSample(p: bv8, plane: nat): (q: bv8)
    ensures q == 0 || q == 255
    ensures q == 255 <==> HasBit(p, plane)
  {
    if HasBit(p, plane) then 255 else 0
  }

  /** The mask test of `getBitPlane` on the sample widened to an int. */
  lemma MaskTest(p: bv8, plane: bv32)
    requires plane < 31
    ensures ((p as bv32) & (1 << plane) != 0) == HasBit(p, plane as nat)
  {
  }

  /** `getBitPlane(img, plane)`: a copy of a one-channel image holding bit plane `plane`, or a
      default image for any other channel count. */
  method GetBitPlane(img: Mat, plane: int) returns (res: Mat)
    requires 0 <= plane < 31
    ensures img.channels != 1 ==> res == Empty
    ensures img.channels == 1 ==> res.rows == img.rows && res.cols == img.cols && res.channels == 1
    ensures img.channels == 1 ==> |res.data| == |img.data| && Binary(res.data)
    ensures img.channels == 1 ==> forall x :: 0 <= x < |img.data| ==> res.data[x] == PlaneSample(img.data[x], plane)
  {
    if img.channels != 1 {
      return Empty;
    }
    var px := img.data;
    var a := new bv8[|px|](k requires 0 <= k < |px| => px[k]);
    var mask: bv32 := 1 << plane as bv32;
    for x := 0 to |px|
      invariant forall k :: 0 <= k < x ==> a[k] == PlaneSample(px[k], plane)
    {
      MaskTest(px[x], plane as bv32);
      a[x] := if (px[x] as bv32) & mask != 0 then 255 else 0;
    }
    res := Mat(img.rows, img.cols, 1, a[..]);
  }

  /** Sample x of the eight planes, packed from plane 7 down to plane j: the value the inner loop
      of `mergeBitPlanes` holds once it has shifted in planes 7 .. j. */
  function Gather(samples: seq<bv8>, j: nat): bv8
    requires |samples| == 8 && j <= 8
    decreases 8 - j
  {
    if j == 8 then 0 else (Gather(samples, j + 1) << 1) + (if samples[j] > 0 then 1 else 0)
  }

  /** The samples at x of each of the planes. */
  function Column(planes: seq<Mat>, x: nat): (s: seq<bv8>)
    requires |planes| == 8 && forall i :: 0 <= i < 8 ==> x < |planes[i].data|
    ensures |s| == 8
  {
    seq(8, i requires 0 <= i < 8 => planes[i].data[x])
  }

  /** What `mergeBitPlanes` computes: every pixel packed from the eight planes. */
  function Merged(planes: seq<Mat>, n: nat): (r: seq<bv8>)
    requires |planes| == 8 && forall i :: 0 <= i < 8 ==> n <= |planes[i].data|
    ensures |r| == n
  {
    seq(n, x requires 0 <= x < n => Gather(Column(planes, x), 0))
  }

  /** `mergeBitPlanes(planes)`: a default image unless there are exactly eight planes; the result
      has the first plane's shape. */
  method MergeBitPlanes(planes: seq<Mat>) returns (res: Mat)
    requires |planes| == 8 ==> forall i :: 0 <= i < 8 ==> planes[i].channels == 1 && |planes[i].data| == |planes[0].data|
    ensures |planes| != 8 ==> res == Empty
    ensures |planes| == 8 ==> res == Mat(planes[0].rows, planes[0].cols, 1, Merged(planes, |planes[0].data|))
  {
    if |planes| != 8 {
      return Empty;
    }
    var n := |planes[0].data|;
    var a := new bv8[n](k requires 0 <= k < n => planes[0].data[k]);
    for x := 0 to n
      invariant forall k :: 0 <= k < x ==> a[k] == Gather(Column(planes, k), 0)
    {
      var val: bv8 := 0;
      var i := 8;
      while i > 0
        invariant 0 <= i <= 8 && val == Gather(Column(planes, x), i)
      {
        val := val << 1;
        val := val + if planes[i - 1].data[x] > 0 then 1 else 0;
        i := i - 1;
      }
      a[x] := val;
    }
    res := Mat(planes[0].rows, planes[0].cols, 1, a[..]);
  }

  /** The planes of a sample packed from plane 7 down to plane j give its bits from j up. */
  lemma {:induction false} GatherPlanes(p: bv8, j: nat)
    requires j <= 8
    ensures Gather(seq(8, i requires 0 <= i < 8 => PlaneSample(p, i)), j) == if j == 8 then 0 else p >> j
    decreases 8 - j
  {
    if j < 8 {
      GatherPlanes(p, j + 1);
      ShiftStep(p, j);
    }
  }

  lemma ShiftStep(p: bv8, j: nat)
    requires j < 8
    ensures ((if j == 7 then 0 else p >> (j + 1)) << 1) + (if HasBit(p, j) then 1 else 0) == p >> j
  {
  }

  /** `mergeBitPlanes` of the eight planes of an image is the image. */
  lemma MergeSplit(img: Mat, planes: seq<Mat>)
    requires |planes| == 8 && img.channels == 1
    requires forall i :: 0 <= i < 8 ==> |planes[i].data| == |img.data|
    requires forall i, x :: 0 <= i < 8 && 0 <= x < |img.data| ==> planes[i].data[x] == PlaneSample(img.data[x], i)
    ensures Merged(planes, |img.data|) == img.data
  {
    forall x | 0 <= x < |img.data|
      ensures Merged(planes, |img.data|)[x] == img.data[x]
    {
      var p := img.data[x];
      assert Column(planes, x) == seq(8, i requires 0 <= i < 8 => PlaneSample(p, i));
      GatherPlanes(p, 0);
    }
  }

  /** The bit-plane split of the encoder followed by the merge of the decoder: planes 0 .. 7 of a
      one-channel image merge back into the image. */
  method SplitMerge(img: Mat) returns (res: Mat)
    requires img.channels == 1
    ensures res == img
  {
    var planes: seq<Mat> := [];
    for p := 0 to 8
      invariant |planes| == p
      invariant forall i :: 0 <= i < p ==> planes[i].rows == img.rows && planes[i].cols == img.cols
      invariant forall i :: 0 <= i < p ==> planes[i].channels == 1 && |planes[i].data| == |img.data|
      invariant forall i, x :: 0 <= i < p && 0 <= x < |img.data| ==> planes[i].data[x] == PlaneSample(img.data[x], i)
    {
      var bp := GetBitPlane(img, p);
      planes := planes + [bp];
    }
    res := MergeBitPlanes(planes);
    MergeSplit(img, planes);
  }
}
