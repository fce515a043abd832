/**
 * The Gray-code transform of 8-bit samples: `graycode` replaces every bit by
 * its xor with the bit above it, `graydecode` undoes that with a prefix xor
 * from the top bit down, and `nkb2gray` applies either one to every sample of
 * a one-channel image.
 */
module Gray {
  import opened Images

  /** Bit k of a sample. */
  predicate Bit(b: bv8, k: nat)
    requires k < 8
  {
    (b >> k) & 1 == 1
  }

  /** `graycode`, the closed form: the sample xored with itself shifted right by one. */
  function GrayCode(b: bv8): (g: bv8)
    ensures forall k :: 0 <= k < 7 ==> (Bit(g, k) <==> Bit(b, k) != Bit(b, k + 1))
    ensures Bit(g, 7) == Bit(b, 7)
  {
    b ^ (b >> 1)
  }

  /** `graydecode`: the xor of all the shifts of the sample, in three doubling steps. */
  function GrayDecode(g: bv8): bv8 {
    var b1 := g ^ (g >> 1);
    var b2 := b1 ^ (b1 >> 2);
    b2 ^ (b2 >> 4)
  }

  /** Decoding undoes coding. */
  lemma DecodeCode(b: bv8)
    ensures GrayDecode(GrayCode(b)) == b
  {
  }

  /** Coding undoes decoding. */
  lemma CodeDecode(g: bv8)
    ensures GrayCode(GrayDecode(g)) == g
  {
  }

  /** `graycode` is a bijection on the 256 sample values: no two samples share a code and
      every value is the code of some sample. */
  lemma GrayBijective(a: bv8, b: bv8, g: bv8)
    ensures GrayCode(a) == GrayCode(b) ==> a == b
    ensures GrayCode(GrayDecode(g)) == g
  {
    DecodeCode(a);
    DecodeCode(b);
    CodeDecode(g);
  }

  lemma GrayZero()
    ensures GrayCode(0) == 0 && GrayDecode(0) == 0
  {
  }

  /** A value with exactly one bit set: non-zero, and clearing its lowest set bit leaves zero. */
  predicate SingleBit(x: bv8) {
    x != 0 && x & (x - 1) == 0
  }

  /** The Gray-code property: the codes of consecutive values differ in exactly one bit. */
  lemma Adjacent(i: bv8)
    requires i < 255
    ensures SingleBit(GrayCode(i) ^ GrayCode(i + 1))
  {
  }

  /** The low k bits set. */
  function LowMask(k: bv8): bv8
    requires k <= 8
  {
    if k == 8 then 0xFF else (1 << k) - 1
  }

  /** One turn of the loop of the stand-alone `graycode`: bit `bit - 1` is xored with bit `bit`. */
  function Step(i: bv8, bit: nat): bv8
    requires bit < 8
  {
    i ^ ((i & (1 << bit)) >> 1)
  }

  /** The sample after the turns for bits 1 .. k - 1. */
  function Turns(b: bv8, k: nat): bv8
    requires 1 <= k <= 8
  {
    if k == 1 then b else Step(Turns(b, k - 1), k - 1)
  }

  /** `graycode` of the stand-alone converter. */
  method GrayCodeLoop(b: bv8) returns (i: bv8)
    ensures i == GrayCode(b)
  {
    i := b;
    var bit := 1;
    while bit < 8
      invariant 1 <= bit <= 8 && i == Turns(b, bit)
    {
      i := i ^ ((i & (1 << bit)) >> 1);
      bit := bit + 1;
    }
    TurnsGray(b);
  }

  /** After the turns for bits 1 .. k - 1 the bits from k - 1 up are still those of b, and each
      bit below them has taken in the bit above it from b, which no earlier turn has changed. */
  lemma {:induction false} TurnsForm(b: bv8, k: nat)
    requires 1 <= k <= 8
    ensures Form(b, Turns(b, k), k)
  {
    if k > 1 {
      TurnsForm(b, k - 1);
      GrayStep(b, Turns(b, k - 1), k - 1);
    }
  }

  /** The seven turns give the closed form. */
  lemma TurnsGray(b: bv8)
    ensures Turns(b, 8) == GrayCode(b)
  {
    TurnsForm(b, 8);
    GrayDone(b, Turns(b, 8));
  }

  /** The sample i after the turns for bits 1 .. k - 1 of b. */
  predicate Form(b: bv8, i: bv8, k: nat)
    requires 1 <= k <= 8
  {
    FormAt(b, i, k as bv8)
  }

  predicate FormAt(b: bv8, i: bv8, k: bv8)
    requires 1 <= k <= 8
  {
    i >> (k - 1) == b >> (k - 1) && i == b ^ ((b >> 1) & LowMask(k - 1))
  }

  lemma GrayStep(b: bv8, i: bv8, bit: nat)
    requires 1 <= bit < 8 && Form(b, i, bit)
    ensures Form(b, Step(i, bit), bit + 1)
  {
    var k := bit as bv8;
    assert Step(i, bit) == i ^ ((i & (1 << k)) >> 1);
    assert (bit + 1) as bv8 == k + 1;
    StepAt(b, i, k);
  }

  /** A turn changes only bit `bit - 1`, which takes in bit `bit` of b. */
  lemma StepAt(b: bv8, i: bv8, bit: bv8)
    requires 1 <= bit < 8 && FormAt(b, i, bit)
    ensures FormAt(b, i ^ ((i & (1 << bit)) >> 1), bit + 1)
  {
  }

  lemma GrayDone(b: bv8, i: bv8)
    requires i == b ^ ((b >> 1) & LowMask(7))
    ensures i == GrayCode(b)
  {
  }

  /** `nkb2gray(img, reverse)`: a copy of a one-channel image with every sample coded, or
      decoded when `reverse` is set; a default image for any other channel count. */
  method ToGray(img: Mat, reverse: bool) returns (res: Mat)
    ensures img.channels != 1 ==> res == Empty
    ensures img.channels == 1 ==> res.rows == img.rows && res.cols == img.cols && res.channels == 1
    ensures img.channels == 1 ==> |res.data| == |img.data|
    ensures img.channels == 1 ==> forall x :: 0 <= x < |img.data| ==>
      res.data[x] == if reverse then GrayDecode(img.data[x]) else GrayCode(img.data[x])
  {
    if img.channels != 1 {
      return Empty;
    }
    var px := img.data;
    var a := new bv8[|px|](k requires 0 <= k < |px| => px[k]);
    for x := 0 to |px|
      invariant forall k :: 0 <= k < x ==> a[k] == if reverse then GrayDecode(px[k]) else GrayCode(px[k])
    {
      if reverse {
        a[x] := GrayDecode(px[x]);
      } else {
        a[x] := GrayCode(px[x]);
      }
    }
    res := Mat(img.rows, img.cols, 1, a[..]);
  }

  /** `nkb2gray` of the stand-alone converter: the same per-sample coding, each sample through
      the loop form of `graycode`. */
  method ToGrayByLoop(img: Mat) returns (res: Mat)
    ensures img.channels != 1 ==> res == Empty
    ensures img.channels == 1 ==> res.rows == img.rows && res.cols == img.cols && res.channels == 1
    ensures img.channels == 1 ==> |res.data| == |img.data|
    ensures img.channels == 1 ==> forall x :: 0 <= x < |img.data| ==> res.data[x] == GrayCode(img.data[x])
  {
    if img.channels != 1 {
      return Empty;
    }
    var px := img.data;
    var a := new bv8[|px|](k requires 0 <= k < |px| => px[k]);
    for x := 0 to |px|
      invariant forall k :: 0 <= k < x ==> a[k] == GrayCode(px[k])
    {
      a[x] := GrayCodeLoop(px[x]);
    }
    res := Mat(img.rows, img.cols, 1, a[..]);
  }

  /** Decoding a coded image gives the image back. */
  lemma ImageRoundTrip(img: Mat, coded: Mat, decoded: Mat)
    requires img.channels == 1 && coded.channels == 1 && decoded.channels == 1
    requires |coded.data| == |img.data| && |decoded.data| == |coded.data|
    requires forall x :: 0 <= x < |img.data| ==> coded.data[x] == GrayCode(img.data[x])
    requires forall x :: 0 <= x < |coded.data| ==> decoded.data[x] == GrayDecode(coded.data[x])
    ensures decoded.data == img.data
  {
    forall x | 0 <= x < |img.data|
      ensures decoded.data[x] == img.data[x]
    {
      DecodeCode(img.data[x]);
    }
  }
}
