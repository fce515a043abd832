/**
 * The run-length codebook: seven buckets of run lengths, each coded as a
 * unary-like prefix followed by a fixed-width payload.  Bucket i holds the
 * runs dataMin[i]..dataMax[i]; its prefix is i one-bits and a zero-bit.
 */
module RleCodebook {
  import opened Bits

  const Intervals: nat := 7

  const Prefixes: seq<nat> := [0x00, 0x02, 0x06, 0x0E, 0x1E, 0x3E, 0x7E]
  const PrefMsk: seq<nat> := [0x80, 0xC0, 0xE0, 0xF0, 0xF8, 0xFC, 0xFE]
  const PrefRes: seq<nat> := [0x00, 0x80, 0xC0, 0xE0, 0xF0, 0xF8, 0xFC]
  const PrefLen: seq<nat> := [1, 2, 3, 4, 5, 6, 7]

  datatype Codebook = Codebook(
    kind: int,
    dataLen: seq<nat>,
    dataMsk: seq<nat>,
    dataMin: seq<nat>,
    dataMax: seq<nat>)

  /** Payload widths of the six codebook types. */
  function DataLens(kind: int): (r: seq<nat>)
    requires 0 <= kind <= 5
    ensures |r| == Intervals && r[6] == 25
    ensures forall i :: 0 <= i < Intervals ==> r[i] <= 25
  {
    if kind == 0 then [0, 1, 2, 3, 4, 10, 25]
    else if kind == 1 then [0, 0, 1, 2, 4, 10, 25]
    else if kind == 2 then [1, 2, 3, 4, 5, 10, 25]
    else if kind == 3 then [1, 3, 5, 7, 9, 11, 25]
    else if kind == 4 then [2, 3, 4, 5, 6, 7, 25]
    else [1, 4, 5, 6, 7, 8, 25]
  }

  predicate Sized(cb: Codebook) {
    && |cb.dataLen| == Intervals && |cb.dataMsk| == Intervals
    && |cb.dataMin| == Intervals && |cb.dataMax| == Intervals
  }

  /** Bucket i + 1 starts one past the end of bucket i. */
  predicate Follows(cb: Codebook, i: nat)
    requires Sized(cb) && i < Intervals - 1
  {
    cb.dataMin[i + 1] == cb.dataMax[i] + 1
  }

  /** Bucket i holds 2^dataLen[i] runs and its mask has dataLen[i] one-bits. */
  predicate Spans(cb: Codebook, i: nat)
    requires Sized(cb) && i < Intervals
  {
    cb.dataMax[i] + 1 == cb.dataMin[i] + Pow2(cb.dataLen[i]) && cb.dataMsk[i] + 1 == Pow2(cb.dataLen[i])
  }

  /** Buckets tile 1..dataMax[6] without gaps: each one follows the previous and holds 2^len runs. */
  predicate Contiguous(cb: Codebook) {
    && Sized(cb)
    && cb.dataMin[0] == 1
    && (forall i: nat :: i < Intervals - 1 ==> Follows(cb, i))
    && (forall i: nat :: i < Intervals ==> Spans(cb, i))
  }

  /** A contiguous codebook whose codewords fit in one 32-bit read window. */
  predicate WellFormed(cb: Codebook) {
    Contiguous(cb) && forall i :: 0 <= i < Intervals ==> cb.dataLen[i] <= 25
  }

  /** Number of runs held by the first `i` buckets. */
  function Capacity(lens: seq<nat>, i: nat): nat
    requires i <= |lens|
  {
    if i == 0 then 0 else Capacity(lens, i - 1) + Pow2(lens[i - 1])
  }

  /** Masks of the first n buckets: dataLen[j] one-bits each. */
  function Masks(lens: seq<nat>, n: nat): (r: seq<nat>)
    requires n <= |lens|
    ensures |r| == n
  {
    if n == 0 then [] else Masks(lens, n - 1) + [Pow2(lens[n - 1]) - 1]
  }

  /** Lower bounds of the first n buckets: one past the capacity of the buckets before. */
  function Mins(lens: seq<nat>, n: nat): (r: seq<nat>)
    requires n <= |lens|
    ensures |r| == n
  {
    if n == 0 then [] else Mins(lens, n - 1) + [Capacity(lens, n - 1) + 1]
  }

  /** Upper bounds of the first n buckets: the capacity up to and including the bucket. */
  function Maxs(lens: seq<nat>, n: nat): (r: seq<nat>)
    requires n <= |lens|
    ensures |r| == n
  {
    if n == 0 then [] else Maxs(lens, n - 1) + [Capacity(lens, n)]
  }

  /** The bucket ranges laid out from the payload widths. */
  function Layout(kind: int, lens: seq<nat>): (cb: Codebook)
    requires |lens| == Intervals
    ensures Sized(cb)
  {
    Codebook(kind, lens, Masks(lens, Intervals), Mins(lens, Intervals), Maxs(lens, Intervals))
  }

  lemma {:induction false} RangesAt(lens: seq<nat>, n: nat, j: nat)
    requires j < n <= |lens|
    ensures Masks(lens, n)[j] == Pow2(lens[j]) - 1
    ensures Mins(lens, n)[j] == Capacity(lens, j) + 1
    ensures Maxs(lens, n)[j] == Capacity(lens, j + 1)
  {
    if j < n - 1 {
      RangesAt(lens, n - 1, j);
    }
  }

  function CodebookFor(kind: int): Codebook
    requires 0 <= kind <= 5
  {
    Layout(kind, DataLens(kind))
  }

  lemma LayoutContiguous(kind: int, lens: seq<nat>)
    requires |lens| == Intervals
    ensures Contiguous(Layout(kind, lens))
  {
    var cb := Layout(kind, lens);
    forall i: nat | i < Intervals
      ensures Spans(cb, i)
    {
      RangesAt(lens, Intervals, i);
    }
    forall i: nat | i < Intervals - 1
      ensures Follows(cb, i)
    {
      RangesAt(lens, Intervals, i);
      RangesAt(lens, Intervals, i + 1);
    }
    RangesAt(lens, Intervals, 0);
  }

  /** The codebook constructor: picks the payload widths of the type, then lays out the ranges. */
  method NewCodebook(kind: int) returns (cb: Codebook)
    requires 0 <= kind <= 5
    ensures cb == CodebookFor(kind)
    ensures WellFormed(cb) && cb.kind == kind && cb.dataLen == DataLens(kind)
  {
    cb := AccumulateRanges(kind, DataLens(kind));
  }

  /** The range loop of the constructor: each bucket starts one past the end of the previous one. */
  method AccumulateRanges(kind: int, lens: seq<nat>) returns (cb: Codebook)
    requires |lens| == Intervals
    ensures cb == Layout(kind, lens) && Contiguous(cb)
  {
    var msk: seq<nat>, mn: seq<nat>, mx: seq<nat> := [], [], [];
    var last: nat := 0;
    for i := 0 to Intervals
      invariant last == Capacity(lens, i)
      invariant msk == Masks(lens, i) && mn == Mins(lens, i) && mx == Maxs(lens, i)
    {
      var range := Pow2(lens[i]);
      msk := msk + [range - 1];
      mn := mn + [last + 1];
      mx := mx + [last + range];
      last := last + range;
    }
    cb := Codebook(kind, lens, msk, mn, mx);
    LayoutContiguous(kind, lens);
  }

  lemma CodebookForWellFormed(kind: int)
    requires 0 <= kind <= 5
    ensures WellFormed(CodebookFor(kind))
  {
    LayoutContiguous(kind, DataLens(kind));
  }

  /** Bucket i of a contiguous codebook starts just past the capacity of the buckets before it. */
  lemma {:induction false} ContiguousAt(cb: Codebook, i: nat)
    requires Contiguous(cb) && i < Intervals
    ensures cb.dataMin[i] == Capacity(cb.dataLen, i) + 1
    ensures cb.dataMax[i] == Capacity(cb.dataLen, i + 1)
  {
    var lens := cb.dataLen;
    assert Spans(cb, i);
    assert Capacity(lens, i + 1) == Capacity(lens, i) + Pow2(lens[i]);
    if i == 0 {
      assert Capacity(lens, 0) == 0;
    } else {
      ContiguousAt(cb, i - 1);
      assert Follows(cb, i - 1);
    }
  }

  /** The contiguous codebooks are exactly the layouts of their payload widths. */
  lemma ContiguousIsLayout(cb: Codebook)
    requires Contiguous(cb)
    ensures cb == Layout(cb.kind, cb.dataLen)
  {
    MasksOf(cb);
    MinsOf(cb);
    MaxsOf(cb);
  }

  lemma MasksOf(cb: Codebook)
    requires Contiguous(cb)
    ensures cb.dataMsk == Masks(cb.dataLen, Intervals)
  {
    forall j | 0 <= j < Intervals
      ensures cb.dataMsk[j] == Masks(cb.dataLen, Intervals)[j]
    {
      assert Spans(cb, j);
      RangesAt(cb.dataLen, Intervals, j);
    }
  }

  lemma MinsOf(cb: Codebook)
    requires Contiguous(cb)
    ensures cb.dataMin == Mins(cb.dataLen, Intervals)
  {
    forall j | 0 <= j < Intervals
      ensures cb.dataMin[j] == Mins(cb.dataLen, Intervals)[j]
    {
      ContiguousAt(cb, j);
      RangesAt(cb.dataLen, Intervals, j);
    }
  }

  lemma MaxsOf(cb: Codebook)
    requires Contiguous(cb)
    ensures cb.dataMax == Maxs(cb.dataLen, Intervals)
  {
    forall j | 0 <= j < Intervals
      ensures cb.dataMax[j] == Maxs(cb.dataLen, Intervals)[j]
    {
      ContiguousAt(cb, j);
      RangesAt(cb.dataLen, Intervals, j);
    }
  }

  /** Two contiguous codebooks with the same payload widths are the same codebook. */
  lemma ContiguousDetermined(a: Codebook, b: Codebook)
    requires Contiguous(a) && Contiguous(b) && a.dataLen == b.dataLen
    ensures a.dataMsk == b.dataMsk && a.dataMin == b.dataMin && a.dataMax == b.dataMax
  {
    ContiguousIsLayout(a);
    ContiguousIsLayout(b);
    LayoutKind(a.kind, b.kind, a.dataLen);
  }

  lemma LayoutKind(k1: int, k2: int, lens: seq<nat>)
    requires |lens| == Intervals
    ensures Layout(k1, lens).dataMsk == Layout(k2, lens).dataMsk
    ensures Layout(k1, lens).dataMin == Layout(k2, lens).dataMin
    ensures Layout(k1, lens).dataMax == Layout(k2, lens).dataMax
  {
  }

  // ---------------------------------------------------------------------------
  // The fixed tables of the older stand-alone coder, which only had type 0
  // ---------------------------------------------------------------------------

  const LegacyDataLen: seq<nat> := [0, 1, 2, 3, 4, 10, 25]
  const LegacyDataMsk: seq<nat> := [0, 1, 3, 7, 0xF, 0x3FF, 0x1FFFFFF]
  const LegacyDataMin: seq<nat> := [1, 2, 4, 8, 16, 32, 1056]
  const LegacyDataMax: seq<nat> := [1, 3, 7, 15, 31, 1055, 33555487]

  const Legacy: Codebook := Codebook(0, LegacyDataLen, LegacyDataMsk, LegacyDataMin, LegacyDataMax)

  lemma LegacySpan(i: nat)
    requires i < Intervals
    ensures Spans(Legacy, i)
  {
    if i == 0 {
      assert Pow2(0) == 1;
    } else if i == 1 {
      assert Pow2(1) == 2;
    } else if i == 2 {
      assert Pow2(2) == 4;
    } else if i == 3 {
      assert Pow2(3) == 8;
    } else if i == 4 {
      assert Pow2(4) == 16;
    } else if i == 5 {
      Pow2Add(8, 2);
      Pow2Byte();
      assert Shl(256, 2) == 1024;
    } else {
      Pow2Word();
    }
  }

  lemma LegacyContiguous()
    ensures Contiguous(Legacy)
  {
    forall i: nat | i < Intervals
      ensures Spans(Legacy, i)
    {
      LegacySpan(i);
    }
  }

  /** The hard-coded tables are exactly what the constructor computes for type 0. */
  lemma LegacyTablesAreType0()
    ensures CodebookFor(0) == Legacy
    ensures CodebookFor(0).dataMax[6] == 33555487
  {
    LegacyContiguous();
    assert Legacy.dataLen == DataLens(0);
    ContiguousIsLayout(Legacy);
  }

  // ---------------------------------------------------------------------------
  // Prefix codes
  // ---------------------------------------------------------------------------

  /** The prefix of bucket i as bits: i ones followed by a zero. */
  function PrefixCode(i: nat): (r: seq<bool>)
    ensures |r| == i + 1 && !r[i] && forall k :: 0 <= k < i ==> r[k]
  {
    seq(i, _ => true) + [false]
  }

  /** The prefix table read as bit strings of the prefix lengths. */
  lemma PrefixCodeTable(i: nat)
    requires i < Intervals
    ensures PrefLen[i] == i + 1
    ensures NatToBits(Prefixes[i], PrefLen[i]) == PrefixCode(i)
  {
    if i == 0 {
      assert NatToBits(0x00, 1) == PrefixCode(0);
    } else if i == 1 {
      assert NatToBits(0x02, 2) == PrefixCode(1);
    } else if i == 2 {
      assert NatToBits(0x06, 3) == PrefixCode(2);
    } else if i == 3 {
      assert NatToBits(0x0E, 4) == PrefixCode(3);
    } else if i == 4 {
      assert NatToBits(0x1E, 5) == PrefixCode(4);
    } else if i == 5 {
      assert NatToBits(0x3E, 6) == PrefixCode(5);
    } else {
      assert NatToBits(0x7E, 7) == PrefixCode(6);
    }
  }

  /** The mask and result tables select the top PrefLen[i] bits of a byte and compare them with the prefix. */
  lemma PrefixMaskTable(i: nat)
    requires i < Intervals
    ensures PrefLen[i] == i + 1
    ensures Prefixes[i] < Pow2(PrefLen[i])
    ensures PrefMsk[i] == Pow2(8) - Pow2(8 - PrefLen[i])
    ensures PrefRes[i] == Shl(Prefixes[i], 8 - PrefLen[i])
  {
    Pow2Byte();
    if i == 0 {
      assert Pow2(7) == 128 && Pow2(1) == 2;
      assert Shl(0x00, 7) == 0x00;
    } else if i == 1 {
      assert Pow2(6) == 64 && Pow2(2) == 4;
      assert Shl(0x02, 6) == 0x80;
    } else if i == 2 {
      assert Pow2(5) == 32 && Pow2(3) == 8;
      assert Shl(0x06, 5) == 0xC0;
    } else if i == 3 {
      assert Pow2(4) == 16 && Pow2(4) == 16;
      assert Shl(0x0E, 4) == 0xE0;
    } else if i == 4 {
      assert Pow2(3) == 8 && Pow2(5) == 32;
      assert Shl(0x1E, 3) == 0xF0;
    } else if i == 5 {
      assert Pow2(2) == 4 && Pow2(6) == 64;
      assert Shl(0x3E, 2) == 0xF8;
    } else {
      assert Pow2(1) == 2 && Pow2(7) == 128;
      assert Shl(0x7E, 1) == 0xFC;
    }
  }

  lemma PrefixTables(i: nat)
    requires i < Intervals
    ensures PrefLen[i] == i + 1
    ensures NatToBits(Prefixes[i], PrefLen[i]) == PrefixCode(i)
    ensures Prefixes[i] < Pow2(PrefLen[i])
    ensures PrefMsk[i] == Pow2(8) - Pow2(8 - PrefLen[i])
    ensures PrefRes[i] == Shl(Prefixes[i], 8 - PrefLen[i])
  {
    PrefixCodeTable(i);
    PrefixMaskTable(i);
  }

  /** A codeword, prefix and offset together, fits one 32-bit word. */
  lemma CodewordWidth(cb: Codebook, i: nat)
    requires WellFormed(cb) && i < Intervals
    ensures PrefLen[i] <= cb.dataLen[i] + PrefLen[i] <= 32
  {
    PrefixTables(i);
  }

  /** No prefix code begins another one. */
  lemma PrefixCodesPrefixFree(i: nat, j: nat)
    requires i < j < Intervals
    ensures PrefixCode(j)[..i + 1] != PrefixCode(i)
  {
    assert PrefixCode(j)[i] != PrefixCode(i)[i];
  }

  /** The test the decoder applies to the top byte of its window. */
  predicate BucketMatches(top: nat, i: nat)
    requires i < Intervals
  {
    BitAnd(top, PrefMsk[i]) == PrefRes[i]
  }

  /** Masking a byte with PrefMsk[i] keeps its top i + 1 bits in place. */
  lemma MaskedTop(b: seq<bool>, i: nat)
    requires |b| == 8 && i < Intervals
    ensures BitAnd(BitsToNat(b), PrefMsk[i]) == Shl(BitsToNat(b[..i + 1]), 7 - i)
  {
    PrefixMaskTable(i);
    Pow2Byte();
    BitAndHighMask(BitsToNat(b), 8, 7 - i);
    BitsToNatPrefix(b, i + 1);
  }

  /** The mask test on a byte holds exactly when the byte starts with the bucket's prefix code. */
  lemma BucketMatchesIff(b: seq<bool>, i: nat)
    requires |b| == 8 && i < Intervals
    ensures BucketMatches(BitsToNat(b), i) <==> b[..PrefLen[i]] == PrefixCode(i)
  {
    PrefixTables(i);
    MaskedTop(b, i);
    var hi := BitsToNat(b[..i + 1]);
    NatToBitsSmall(Prefixes[i], i + 1);
    assert BitsToNat(PrefixCode(i)) == Prefixes[i];
    if BucketMatches(BitsToNat(b), i) {
      ShrShl(hi, 7 - i);
      ShrShl(Prefixes[i], 7 - i);
      BitsToNatInjective(b[..i + 1], PrefixCode(i));
    }
  }

  /** A stream that starts with prefix code i has i ones and then a zero. */
  lemma PrefixCodeAt(b: seq<bool>, i: nat)
    requires i < |b| && b[..i + 1] == PrefixCode(i)
    ensures !b[i] && forall k :: 0 <= k < i ==> b[k]
  {
    assert b[i] == b[..i + 1][i];
    forall k | 0 <= k < i
      ensures b[k]
    {
      assert b[k] == b[..i + 1][k];
    }
  }

  /** At most one bucket accepts any byte. */
  lemma BucketMatchUnique(top: nat, i: nat, j: nat)
    requires top < 256 && i < Intervals && j < Intervals
    requires BucketMatches(top, i) && BucketMatches(top, j)
    ensures i == j
  {
    Pow2Byte();
    var b := NatToBits(top, 8);
    NatToBitsSmall(top, 8);
    BucketMatchesIff(b, i);
    BucketMatchesIff(b, j);
    PrefixTables(i);
    PrefixTables(j);
    PrefixCodeAt(b, i);
    PrefixCodeAt(b, j);
  }

  // ---------------------------------------------------------------------------
  // Encoding one run
  // ---------------------------------------------------------------------------

  /** The first bucket, from `i` on, whose upper bound admits `len`; Intervals if none does. */
  function BucketFrom(cb: Codebook, len: int, i: nat): (r: nat)
    requires Contiguous(cb) && i <= Intervals
    ensures i <= r <= Intervals
    ensures r < Intervals ==> len <= cb.dataMax[r]
    ensures forall j :: i <= j < r ==> len > cb.dataMax[j]
    decreases Intervals - i
  {
    if i == Intervals then Intervals
    else if len <= cb.dataMax[i] then i
    else BucketFrom(cb, len, i + 1)
  }

  function Bucket(cb: Codebook, len: int): nat
    requires Contiguous(cb)
  {
    BucketFrom(cb, len, 0)
  }

  lemma {:induction false} MaxIncreasing(cb: Codebook, i: nat, j: nat)
    requires Contiguous(cb) && i <= j < Intervals
    ensures cb.dataMin[i] <= cb.dataMax[i] <= cb.dataMax[j]
    decreases j - i
  {
    assert Spans(cb, i);
    if i < j {
      assert Follows(cb, i);
      MaxIncreasing(cb, i + 1, j);
    }
  }

  /** The bucket search stops at the first bucket whose maximum reaches the run. */
  lemma {:induction false} BucketFromFirst(cb: Codebook, len: int, k: nat, i: nat)
    requires Contiguous(cb) && k <= i <= Intervals
    requires forall j :: k <= j < i ==> len > cb.dataMax[j]
    requires i < Intervals ==> len <= cb.dataMax[i]
    ensures BucketFrom(cb, len, k) == i
    decreases i - k
  {
    if k < i {
      BucketFromFirst(cb, len, k + 1, i);
    }
  }

  /** A run lands in bucket i exactly when it lies in that bucket's range. */
  lemma BucketIff(cb: Codebook, len: int, i: nat)
    requires Contiguous(cb) && 1 <= len && i < Intervals
    ensures Bucket(cb, len) == i <==> cb.dataMin[i] <= len <= cb.dataMax[i]
  {
    var b := Bucket(cb, len);
    if i > 0 {
      assert Follows(cb, i - 1);
    }
    if b == i {
      if i > 0 {
        assert len > cb.dataMax[i - 1];
      }
    }
    if cb.dataMin[i] <= len <= cb.dataMax[i] {
      if b < i {
        MaxIncreasing(cb, b, i - 1);
      }
    }
  }

  lemma BucketBounds(cb: Codebook, len: int)
    requires Contiguous(cb) && (1 <= len || cb.dataLen[0] == 0)
    ensures var i := Bucket(cb, len);
      i < Intervals && cb.dataLen[i] > 0 ==> cb.dataMin[i] <= len
  {
    var i := Bucket(cb, len);
    if 0 < i < Intervals {
      assert Follows(cb, i - 1);
    }
  }

  /** The bits the encoder appends for one run; nothing for a run longer than the last bucket. */
  function RunCode(cb: Codebook, len: int): (r: seq<bool>)
    requires Contiguous(cb) && (1 <= len || cb.dataLen[0] == 0)
  {
    var i := Bucket(cb, len);
    if i == Intervals then []
    else
      BucketBounds(cb, len);
      NatToBits(Prefixes[i], PrefLen[i])
        + (if cb.dataLen[i] == 0 then [] else NatToBits(len - cb.dataMin[i], cb.dataLen[i]))
  }

  /** A run that fits costs its bucket's prefix and payload widths. */
  lemma RunCodeShape(cb: Codebook, len: int)
    requires Contiguous(cb) && 1 <= len <= cb.dataMax[Intervals - 1]
    ensures var i := Bucket(cb, len);
      && i < Intervals && cb.dataMin[i] <= len <= cb.dataMax[i]
      && RunCode(cb, len) == PrefixCode(i) + NatToBits(len - cb.dataMin[i], cb.dataLen[i])
      && |RunCode(cb, len)| == PrefLen[i] + cb.dataLen[i]
  {
    var i := Bucket(cb, len);
    assert i < Intervals;
    BucketIff(cb, len, i);
    PrefixTables(i);
  }

  // ---------------------------------------------------------------------------
  // Decoding one run from the bit stream
  // ---------------------------------------------------------------------------

  /** The 32-bit read window over a stream: its first 32 bits, zero-padded past the end. */
  function Take32(s: seq<bool>): (r: seq<bool>)
    ensures |r| == 32
    ensures |s| >= 32 ==> r == s[..32]
    ensures |s| < 32 ==> r == s + Zeros(32 - |s|)
  {
    if |s| >= 32 then s[..32] else s + Zeros(32 - |s|)
  }

  /** The first bucket, from `i` on, whose prefix code begins `t`; Intervals if none does. */
  function MatchFrom(t: seq<bool>, i: nat): (r: nat)
    requires |t| >= 8 && i <= Intervals
    ensures i <= r <= Intervals
    decreases Intervals - i
  {
    if i == Intervals then Intervals
    else if t[..i + 1] == PrefixCode(i) then i
    else MatchFrom(t, i + 1)
  }

  datatype Run = Run(len: nat, used: nat)

  /** The run the decoder reads from the front of a stream and how many bits it consumes;
      length 0 and nothing consumed when no prefix matches. */
  function DecodeRun(cb: Codebook, s: seq<bool>): Run
    requires WellFormed(cb)
  {
    var t := Take32(s);
    var i := MatchFrom(t, 0);
    if i == Intervals then Run(0, 0)
    else
      var w := i + 1 + cb.dataLen[i];
      Run(BitsToNat(t[i + 1..w]) + cb.dataMin[i], w)
  }

  lemma {:induction false} MatchFromCode(t: seq<bool>, i: nat, j: nat)
    requires |t| >= 8 && i < Intervals && j <= i && t[..i + 1] == PrefixCode(i)
    ensures MatchFrom(t, j) == i
    decreases i - j
  {
    if j < i {
      PrefixCodeAt(t, i);
      assert t[..j + 1][j] != PrefixCode(j)[j];
      MatchFromCode(t, i, j + 1);
    }
  }

  lemma {:induction false} MatchFromNone(t: seq<bool>, j: nat)
    requires |t| >= 8 && j <= Intervals
    requires forall i :: j <= i < Intervals ==> t[..i + 1] != PrefixCode(i)
    ensures MatchFrom(t, j) == Intervals
    decreases Intervals - j
  {
    if j < Intervals {
      MatchFromNone(t, j + 1);
    }
  }

  /** A decoded codeword fits in the 32-bit read window. */
  lemma DecodeRunUsed(cb: Codebook, s: seq<bool>)
    requires WellFormed(cb)
    ensures DecodeRun(cb, s).used <= 32
  {
    var i := MatchFrom(Take32(s), 0);
    if i < Intervals {
      assert cb.dataLen[i] <= 25;
    }
  }

  /** The first i + 1 buckets hold at most (i + 1) * 2^25 runs. */
  lemma {:induction false} MaxBound(cb: Codebook, i: nat)
    requires WellFormed(cb) && i < Intervals
    ensures cb.dataMax[i] <= (i + 1) * 0x200_0000
  {
    assert Spans(cb, i);
    Pow2Word();
    Pow2Monotone(cb.dataLen[i], 25);
    if i > 0 {
      assert Follows(cb, i - 1);
      MaxBound(cb, i - 1);
    }
  }

  /** Every decoded run is below 2^28, so the decoder's 32-bit arithmetic never wraps. */
  lemma DecodeRunLen(cb: Codebook, s: seq<bool>)
    requires WellFormed(cb)
    ensures DecodeRun(cb, s).len < 0x1000_0000
  {
    var t := Take32(s);
    var i := MatchFrom(t, 0);
    if i < Intervals {
      assert Spans(cb, i);
      MaxBound(cb, i);
    }
  }

  lemma Take32Prefix(s: seq<bool>, k: nat)
    requires k <= 32 && k <= |s|
    ensures Take32(s)[..k] == s[..k]
  {
  }

  lemma SameValue(a: seq<bool>, b: seq<bool>)
    requires a == b
    ensures BitsToNat(a) == BitsToNat(b)
  {
  }

  /** The run decoded once the prefix of bucket i has matched: its payload field plus the bucket's minimum. */
  lemma DecodeRunMatched(cb: Codebook, s: seq<bool>, i: nat, x: nat, w: nat)
    requires WellFormed(cb) && i < Intervals && MatchFrom(Take32(s), 0) == i
    requires w == i + 1 + cb.dataLen[i] && w <= 32 && x == BitsToNat(Take32(s)[i + 1..w])
    ensures DecodeRun(cb, s) == Run(x + cb.dataMin[i], w)
  {
  }

  /** Decoding a codeword given by its bucket and payload value. */
  lemma DecodeCodeword(cb: Codebook, i: nat, x: nat, code: seq<bool>, rest: seq<bool>)
    requires WellFormed(cb) && i < Intervals && x < Pow2(cb.dataLen[i])
    requires code == PrefixCode(i) + NatToBits(x, cb.dataLen[i])
    ensures DecodeRun(cb, code + rest) == Run(x + cb.dataMin[i], |code|)
  {
    var dl := cb.dataLen[i];
    var payload := NatToBits(x, dl);
    var s := code + rest;
    var w := i + 1 + dl;
    assert |code| == w <= 32;
    assert s[..w] == code;
    Take32Prefix(s, w);
    var t := Take32(s);
    assert t[..w] == code;
    assert t[..i + 1] == code[..i + 1] == PrefixCode(i);
    MatchFromCode(t, i, 0);
    assert t[i + 1..w] == code[i + 1..] == payload;
    NatToBitsSmall(x, dl);
    SameValue(t[i + 1..w], payload);
    DecodeRunMatched(cb, s, i, x, w);
  }

  /** Decoding the codeword of a run gives back that run and consumes exactly the codeword. */
  lemma DecodeRunCode(cb: Codebook, len: int, rest: seq<bool>)
    requires WellFormed(cb) && 1 <= len <= cb.dataMax[Intervals - 1]
    ensures DecodeRun(cb, RunCode(cb, len) + rest) == Run(len, |RunCode(cb, len)|)
  {
    RunCodeShape(cb, len);
    var i := Bucket(cb, len);
    var x: nat := len - cb.dataMin[i];
    assert Spans(cb, i);
    DecodeCodeword(cb, i, x, RunCode(cb, len), rest);
  }
}
