/**
 * The xor predictive filter of a one-channel plane. `en_xor` keeps the first
 * pixel of every row and replaces every other pixel by its xor with its left
 * neighbour; `de_xor` undoes that by xoring each of its own outputs into the
 * next input. The codec's filter works row by row; the older stand-alone coder
 * first flattens a continuous image into one row, so its chain runs across row
 * boundaries.
 */
module Xor {
  import opened Images

  /** The column of pixel k in rows of `cols` pixels: k mod cols. */
  function Col(k: nat, cols: nat): (c: nat)
    requires cols > 0
    ensures c < cols
  {
    if k < cols then k else Col(k - cols, cols)
  }

  /** Pixel k starts a row of `cols` pixels. */
  predicate RowStart(k: nat, cols: nat) {
    cols == 0 || Col(k, cols) == 0
  }

  /** What `en_xor` computes over rows of `cols` pixels. */
  function XorDiff(d: seq<bv8>, cols: nat): (r: seq<bv8>)
    ensures |r| == |d|
  {
    seq(|d|, k requires 0 <= k < |d| => if RowStart(k, cols) then d[k] else d[k - 1] ^ d[k])
  }

  /** Pixel k of what `de_xor` computes: the xor of the row's pixels up to k. */
  function XorSum(d: seq<bv8>, cols: nat, k: nat): bv8
    requires k < |d|
  {
    if RowStart(k, cols) then d[k] else XorSum(d, cols, k - 1) ^ d[k]
  }

  /** What `de_xor` computes over rows of `cols` pixels. */
  function XorUndo(d: seq<bv8>, cols: nat): (r: seq<bv8>)
    ensures |r| == |d|
  {
    seq(|d|, k requires 0 <= k < |d| => XorSum(d, cols, k))
  }

  // ---------------------------------------------------------------------------
  // The filter's properties
  // ---------------------------------------------------------------------------

  lemma {:induction false} UndoDiffAt(d: seq<bv8>, cols: nat, k: nat)
    requires k < |d|
    ensures XorSum(XorDiff(d, cols), cols, k) == d[k]
  {
    if !RowStart(k, cols) {
      UndoDiffAt(d, cols, k - 1);
    }
  }

  /** `de_xor(en_xor(img)) == img`. */
  lemma UndoDiff(d: seq<bv8>, cols: nat)
    ensures XorUndo(XorDiff(d, cols), cols) == d
  {
    forall k | 0 <= k < |d|
      ensures XorUndo(XorDiff(d, cols), cols)[k] == d[k]
    {
      UndoDiffAt(d, cols, k);
    }
  }

  /** `en_xor(de_xor(img)) == img`. */
  lemma DiffUndo(d: seq<bv8>, cols: nat)
    ensures XorDiff(XorUndo(d, cols), cols) == d
  {
  }

  /** Both passes keep a plane of 0 and 255 samples a plane of 0 and 255 samples. */
  lemma DiffBinary(d: seq<bv8>, cols: nat)
    requires Binary(d)
    ensures Binary(XorDiff(d, cols))
  {
  }

  lemma {:induction false} SumBinary(d: seq<bv8>, cols: nat, k: nat)
    requires Binary(d) && k < |d|
    ensures XorSum(d, cols, k) == 0 || XorSum(d, cols, k) == 255
  {
    if !RowStart(k, cols) {
      SumBinary(d, cols, k - 1);
    }
  }

  lemma UndoBinary(d: seq<bv8>, cols: nat)
    requires Binary(d)
    ensures Binary(XorUndo(d, cols))
  {
    forall k | 0 <= k < |d|
      ensures XorUndo(d, cols)[k] == 0 || XorUndo(d, cols)[k] == 255
    {
      SumBinary(d, cols, k);
    }
  }

  /** A single row of all the pixels: only the first pixel starts a row. */
  lemma FlatRow(d: seq<bv8>, k: nat)
    requires k < |d|
    ensures RowStart(k, |d|) <==> k == 0
  {
  }

  // ---------------------------------------------------------------------------
  // The pixel loops
  // ---------------------------------------------------------------------------

  /** A plane of `rows` rows of `cols` pixels has one row fewer after its first row. */
  lemma RowStep(rows: nat, cols: nat)
    requires rows > 0
    ensures rows * cols == cols + (rows - 1) * cols
  {
  }

  /** Within a row that starts at `base`, pixel `base + x` is column x. */
  lemma {:induction false} ColShift(base: nat, cols: nat, x: nat)
    requires x < cols && Col(base, cols) == 0
    ensures Col(base + x, cols) == x
    decreases base
  {
    if base >= cols {
      ColShift(base - cols, cols, x);
    }
  }

  /** The next row starts `cols` pixels later. */
  lemma NextRow(base: nat, cols: nat)
    requires cols > 0 && Col(base, cols) == 0
    ensures Col(base + cols, cols) == 0
  {
  }

  /** The loops of `en_xor` over `rows` rows of `cols` pixels. */
  method EnXorPass(d: seq<bv8>, rows: nat, cols: nat) returns (r: seq<bv8>)
    requires |d| == rows * cols
    ensures r == XorDiff(d, cols)
  {
    var a := new bv8[|d|](k requires 0 <= k < |d| => d[k]);
    var y, base := 0, 0;
    while y < rows
      invariant y <= rows && base + (rows - y) * cols == |d|
      invariant cols > 0 ==> Col(base, cols) == 0
      invariant forall k :: 0 <= k < base ==> a[k] == XorDiff(d, cols)[k]
    {
      RowStep(rows - y, cols);
      if cols > 0 {
        EnXorRow(a, d, base, cols);
        NextRow(base, cols);
      }
      y, base := y + 1, base + cols;
    }
    r := a[..];
  }

  /** One row of `en_xor`: the first pixel is copied, every other one xored with its left
      neighbour in the input. */
  method EnXorRow(a: array<bv8>, d: seq<bv8>, base: nat, cols: nat)
    requires a.Length == |d| && 0 < cols && base + cols <= |d| && Col(base, cols) == 0
    requires forall k :: 0 <= k < base ==> a[k] == XorDiff(d, cols)[k]
    modifies a
    ensures forall k :: 0 <= k < base + cols ==> a[k] == XorDiff(d, cols)[k]
    ensures forall k :: base + cols <= k < a.Length ==> a[k] == old(a[k])
  {
    ColShift(base, cols, 0);
    a[base] := d[base];
    var x := 1;
    while x < cols
      invariant 1 <= x <= cols
      invariant forall k :: 0 <= k < base + x ==> a[k] == XorDiff(d, cols)[k]
      invariant forall k :: base + cols <= k < a.Length ==> a[k] == old(a[k])
    {
      ColShift(base, cols, x);
      a[base + x] := d[base + x - 1] ^ d[base + x];
      x := x + 1;
    }
  }

  /** The loops of `de_xor` over `rows` rows of `cols` pixels. */
  method DeXorPass(d: seq<bv8>, rows: nat, cols: nat) returns (r: seq<bv8>)
    requires |d| == rows * cols
    ensures r == XorUndo(d, cols)
  {
    var a := new bv8[|d|](k requires 0 <= k < |d| => d[k]);
    var y, base := 0, 0;
    while y < rows
      invariant y <= rows && base + (rows - y) * cols == |d|
      invariant cols > 0 ==> Col(base, cols) == 0
      invariant forall k :: 0 <= k < base ==> a[k] == XorSum(d, cols, k)
    {
      RowStep(rows - y, cols);
      if cols > 0 {
        DeXorRow(a, d, base, cols);
        NextRow(base, cols);
      }
      y, base := y + 1, base + cols;
    }
    r := a[..];
  }

  /** One row of `de_xor`: each pixel after the first is its input xored with the output just
      written. */
  method DeXorRow(a: array<bv8>, d: seq<bv8>, base: nat, cols: nat)
    requires a.Length == |d| && 0 < cols && base + cols <= |d| && Col(base, cols) == 0
    requires forall k :: 0 <= k < base ==> a[k] == XorSum(d, cols, k)
    modifies a
    ensures forall k :: 0 <= k < base + cols ==> a[k] == XorSum(d, cols, k)
    ensures forall k :: base + cols <= k < a.Length ==> a[k] == old(a[k])
  {
    ColShift(base, cols, 0);
    a[base] := d[base];
    var x := 1;
    while x < cols
      invariant 1 <= x <= cols
      invariant forall k :: 0 <= k < base + x ==> a[k] == XorSum(d, cols, k)
      invariant forall k :: base + cols <= k < a.Length ==> a[k] == old(a[k])
    {
      ColShift(base, cols, x);
      a[base + x] := a[base + x - 1] ^ d[base + x];
      x := x + 1;
    }
  }

  /** `en_xor` of the codec: row by row; a default image unless the input has one channel. */
  method EnXor(img: Mat) returns (res: Mat)
    requires WellSized(img)
    ensures img.channels != 1 ==> res == Empty
    ensures img.channels == 1 ==> res == Mat(img.rows, img.cols, 1, XorDiff(img.data, img.cols))
  {
    if img.channels != 1 {
      return Empty;
    }
    var r := EnXorPass(img.data, img.rows, img.cols);
    res := Mat(img.rows, img.cols, 1, r);
  }

  /** `de_xor` of the codec: row by row. */
  method DeXor(img: Mat) returns (res: Mat)
    requires WellSized(img)
    ensures img.channels != 1 ==> res == Empty
    ensures img.channels == 1 ==> res == Mat(img.rows, img.cols, 1, XorUndo(img.data, img.cols))
  {
    if img.channels != 1 {
      return Empty;
    }
    var r := DeXorPass(img.data, img.rows, img.cols);
    res := Mat(img.rows, img.cols, 1, r);
  }

  /** `en_xor` of the older coder: the continuous image is one row of rows * cols pixels. */
  method EnXorFlat(img: Mat) returns (res: Mat)
    requires WellSized(img)
    ensures img.channels != 1 ==> res == Empty
    ensures img.channels == 1 ==> res == Mat(img.rows, img.cols, 1, XorDiff(img.data, |img.data|))
  {
    if img.channels != 1 {
      return Empty;
    }
    var r := EnXorPass(img.data, 1, img.rows * img.cols);
    res := Mat(img.rows, img.cols, 1, r);
  }

  /** `de_xor` of the older coder: one row of rows * cols pixels. */
  method DeXorFlat(img: Mat) returns (res: Mat)
    requires WellSized(img)
    ensures img.channels != 1 ==> res == Empty
    ensures img.channels == 1 ==> res == Mat(img.rows, img.cols, 1, XorUndo(img.data, |img.data|))
  {
    if img.channels != 1 {
      return Empty;
    }
    var r := DeXorPass(img.data, 1, img.rows * img.cols);
    res := Mat(img.rows, img.cols, 1, r);
  }
}
