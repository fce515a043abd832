/**
 * The two registers of the run-length buffer, as values: the write
 * accumulator, whose low `size` bits are the bits not yet emitted as a word,
 * and the read window, whose top `size` bits are the bits not yet consumed.
 * The lemmas here say what the buffer's shifts, masks and ors do to the bit
 * streams those registers stand for.  They are stated for a register of any
 * width `n` (the buffer's are 64 bits wide), with `Low(Shl(x, k), n)` for the
 * n-bit `x << k` that drops the bits shifted out at the top.
 */
module RleStream {
  import opened Bits
  import opened RleCodebook

  /** The bits of a sequence of 32-bit words, each most significant bit first. */
  function WordsBits(ws: seq<nat>): (r: seq<bool>)
    ensures |r| == 32 * |ws|
  {
    if ws == [] then [] else NatToBits(ws[0], 32) + WordsBits(ws[1..])
  }

  /** The bits of a written stream that whole 32-bit words already hold. */
  function Settled(bits: seq<bool>): (r: seq<bool>)
    ensures |r| == |bits| / 32 * 32 && r <= bits
  {
    bits[..|bits| / 32 * 32]
  }

  lemma {:induction false} WordsBitsAppend(a: seq<nat>, b: seq<nat>)
    ensures WordsBits(a + b) == WordsBits(a) + WordsBits(b)
    decreases |a|
  {
    if a == [] {
      assert a + b == b;
    } else {
      assert (a + b)[0] == a[0];
      assert (a + b)[1..] == a[1..] + b;
      WordsBitsAppend(a[1..], b);
    }
  }

  lemma WordsBitsFront(ws: seq<nat>, k: nat)
    requires k < |ws|
    ensures WordsBits(ws[k..]) == NatToBits(ws[k], 32) + WordsBits(ws[k + 1..])
  {
    assert ws[k..][0] == ws[k];
    assert ws[k..][1..] == ws[k + 1..];
  }

  // ---------------------------------------------------------------------------
  // Registers of width n
  // ---------------------------------------------------------------------------

  /** The register holds `size` unread bits at its top and zeros below them. */
  predicate Clean(buf: nat, size: nat, n: nat) {
    buf < Pow2(n) && size <= n && Low(buf, n - size) == 0
  }

  /** The top `size` bits of an n-bit register. */
  function Window(buf: nat, size: nat, n: nat): (r: seq<bool>)
    requires size <= n
    ensures |r| == size
  {
    NatToBits(Shr(buf, n - size), size)
  }

  lemma AppendValue(tmp: nat, symb: nat, len: nat, n: nat)
    requires len <= n && symb < Pow2(len)
    ensures BitOr(Low(Shl(tmp, len), n), symb) == Shl(Low(tmp, n - len), len) + symb
  {
    LowShl(tmp, len, n);
    BitOrShifted(Low(tmp, n - len), symb, len);
  }

  lemma AppendBits(tmp: nat, size: nat, symb: nat, len: nat, n: nat)
    requires size + len <= n && symb < Pow2(len)
    ensures NatToBits(BitOr(Low(Shl(tmp, len), n), symb), size + len) == NatToBits(tmp, size) + NatToBits(symb, len)
  {
    AppendValue(tmp, symb, len, n);
    NatToBitsConcat(Low(tmp, n - len), size, symb, len);
    NatToBitsLow(tmp, size, n - len);
  }

  /** A clean register is its top `size` bits shifted back into place. */
  lemma CleanValue(buf: nat, size: nat, n: nat)
    requires Clean(buf, size, n)
    ensures Shr(buf, n - size) < Pow2(size)
    ensures buf == Shl(Shr(buf, n - size), n - size)
  {
    ShrLow(buf, n - size);
    ShrBound(buf, size, n - size);
  }

  lemma WindowValue(buf: nat, size: nat, n: nat)
    requires Clean(buf, size, n)
    ensures BitsToNat(Window(buf, size, n)) == Shr(buf, n - size)
  {
    CleanValue(buf, size, n);
    NatToBitsSmall(Shr(buf, n - size), size);
  }

  /** These `len` bits, placed at the top of the register. */
  lemma CleanOf(bits: seq<bool>, len: nat, buf: nat, n: nat)
    requires |bits| == len <= n && buf == Shl(BitsToNat(bits), n - len)
    ensures Clean(buf, len, n) && Window(buf, len, n) == bits
  {
    var k := n - len;
    SplitParts(buf, BitsToNat(bits), 0, k);
    ShlBound(BitsToNat(bits), len, k);
    NatToBitsOfValue(bits);
  }

  lemma FillValue(buf: nat, size: nat, word: nat, h: nat, k: nat, n: nat)
    requires Clean(buf, size, n) && k == n - size - h && size + h <= n && word < Pow2(h)
    ensures BitOr(buf, Low(Shl(word, k), n)) == Shl(Shl(Shr(buf, n - size), h) + word, k)
  {
    var v := Shr(buf, n - size);
    CleanValue(buf, size, n);
    assert n - size == h + k;
    var t := Shl(word, k);
    ShlBound(word, h, k);
    Pow2Monotone(h + k, n);
    LowSmall(t, n);
    BitOrShifted(v, t, h + k);
    ShlAdd(v, h, k);
    ShlDistrib(Shl(v, h), word, k);
  }

  lemma AppendWord(a: seq<bool>, v: nat, word: nat, h: nat)
    requires BitsToNat(a) == v && word < Pow2(h)
    ensures BitsToNat(a + NatToBits(word, h)) == Shl(v, h) + word
  {
    BitsToNatAppend(a, NatToBits(word, h));
    NatToBitsSmall(word, h);
  }

  lemma CleanFill(buf: nat, size: nat, word: nat, h: nat, k: nat, n: nat)
    requires Clean(buf, size, n) && k == n - size - h && size + h <= n && word < Pow2(h)
    ensures Clean(BitOr(buf, Low(Shl(word, k), n)), size + h, n)
    ensures Window(BitOr(buf, Low(Shl(word, k), n)), size + h, n)
      == Window(buf, size, n) + NatToBits(word, h)
  {
    var x := Shl(Shr(buf, n - size), h) + word;
    var b := BitOr(buf, Low(Shl(word, k), n));
    var bits := Window(buf, size, n) + NatToBits(word, h);
    FillValue(buf, size, word, h, k, n);
    FillBits(buf, size, word, h, n);
    CleanOfValue(bits, size + h, b, x, k, n);
  }

  lemma FillBits(buf: nat, size: nat, word: nat, h: nat, n: nat)
    requires Clean(buf, size, n) && word < Pow2(h)
    ensures BitsToNat(Window(buf, size, n) + NatToBits(word, h)) == Shl(Shr(buf, n - size), h) + word
  {
    WindowValue(buf, size, n);
    AppendWord(Window(buf, size, n), Shr(buf, n - size), word, h);
  }

  lemma CleanOfValue(bits: seq<bool>, len: nat, buf: nat, x: nat, k: nat, n: nat)
    requires |bits| == len && BitsToNat(bits) == x && buf == Shl(x, k) && k + len == n
    ensures Clean(buf, len, n) && Window(buf, len, n) == bits
  {
    CleanOf(bits, len, buf, n);
  }

  lemma ConsumeValue(buf: nat, size: nat, w: nat, n: nat)
    requires Clean(buf, size, n) && w <= size
    ensures Low(Shl(buf, w), n) == Shl(Low(Shr(buf, n - size), size - w), n - (size - w))
  {
    var v := Shr(buf, n - size);
    CleanValue(buf, size, n);
    LowShl(buf, w, n);
    LowShl(v, n - size, n - w);
    ShlAdd(Low(v, size - w), n - size, w);
  }

  lemma CleanConsume(buf: nat, size: nat, w: nat, n: nat)
    requires Clean(buf, size, n) && w <= size
    ensures Clean(Low(Shl(buf, w), n), size - w, n)
    ensures Window(Low(Shl(buf, w), n), size - w, n) == Window(buf, size, n)[w..]
  {
    var bits := Window(buf, size, n);
    WindowValue(buf, size, n);
    SuffixValue(bits, size, w, Shr(buf, n - size));
    ConsumeValue(buf, size, w, n);
    CleanOf(bits[w..], size - w, Low(Shl(buf, w), n), n);
  }

  lemma SuffixValue(bits: seq<bool>, len: nat, w: nat, v: nat)
    requires |bits| == len && w <= len && BitsToNat(bits) == v
    ensures Low(v, len - w) == BitsToNat(bits[w..])
  {
    BitsToNatPrefix(bits, w);
  }

  lemma CleanOverrun(buf: nat, size: nat, w: nat, n: nat)
    requires Clean(buf, size, n) && size < w
    ensures Low(Shl(buf, w), n) == 0
  {
    var v := Shr(buf, n - size);
    CleanValue(buf, size, n);
    ShlAdd(v, n - size, w);
    LowShlAll(v, n - size + w, n);
  }

  /** The top h bits of the register: the first h unread bits, padded with zeros. */
  lemma CleanTop(buf: nat, size: nat, h: nat, n: nat)
    requires Clean(buf, size, n) && h <= n
    ensures h <= size ==> Shr(buf, n - h) == BitsToNat(Window(buf, size, n)[..h])
    ensures size < h ==> Shr(buf, n - h) == BitsToNat(Window(buf, size, n) + Zeros(h - size))
  {
    var bits := Window(buf, size, n);
    var v := Shr(buf, n - size);
    WindowValue(buf, size, n);
    if h <= size {
      ShrAdd(buf, n - size, size - h);
      BitsToNatPrefix(bits, h);
    } else {
      CleanValue(buf, size, n);
      ShlAdd(v, h - size, n - h);
      ShrShl(Shl(v, h - size), n - h);
      BitsToNatAppend(bits, Zeros(h - size));
      BitsToNatZeros(h - size);
    }
  }

  /** The top 32 bits of the register are the 32-bit read window over the unread stream. */
  lemma WindowTop(buf: nat, size: nat, rest: seq<bool>, n: nat)
    requires Clean(buf, size, n) && 32 <= n && (32 <= size || rest == [])
    ensures Shr(buf, n - 32) == BitsToNat(Take32(Window(buf, size, n) + rest))
  {
    var bits := Window(buf, size, n);
    CleanTop(buf, size, 32, n);
    if 32 <= size {
      assert Take32(bits + rest) == bits[..32];
    } else {
      assert bits + rest == bits;
    }
  }

  // ---------------------------------------------------------------------------
  // The write accumulator
  // ---------------------------------------------------------------------------

  /** The word `reduce` emits from a full accumulator is its oldest 32 pending bits. */
  lemma AccumulatorSplit(tmp: nat, size: nat)
    requires 32 <= size
    ensures BitAnd(Shr(tmp, size - 32), 0xFFFF_FFFF) < 0x1_0000_0000
    ensures NatToBits(tmp, size)
      == NatToBits(BitAnd(Shr(tmp, size - 32), 0xFFFF_FFFF), 32) + NatToBits(tmp, size - 32)
  {
    Pow2Word();
    var hi := Shr(tmp, size - 32);
    BitAndLowMask(hi, 32);
    NatToBitsLow(hi, 32, 32);
    NatToBitsSplit(tmp, 32, size - 32);
  }

  // ---------------------------------------------------------------------------
  // Decoding one run from the read window
  // ---------------------------------------------------------------------------

  /** The low `w - p` bits of the top `w` bits of a 32-bit window are its bits p..w. */
  lemma WindowField(t: seq<bool>, p: nat, w: nat)
    requires |t| == 32 && p <= w <= 32
    ensures Low(Shr(BitsToNat(t), 32 - w), w - p) == BitsToNat(t[p..w])
  {
    var head := t[..w];
    BitsToNatPrefix(t, w);
    BitsToNatPrefix(head, p);
    assert head[p..] == t[p..w];
  }

  lemma MaskIsLow(y: nat, msk: nat, n: nat)
    requires msk == Pow2(n) - 1
    ensures BitAnd(y, msk) == Low(y, n)
  {
    BitAndLowMask(y, n);
  }

  /** `getNextLength` on a match in bucket i: the run it computes is the run the stream codes. */
  lemma WindowDecode(cb: Codebook, buf: nat, size: nat, rest: seq<bool>, i: nat, n: nat)
    requires WellFormed(cb) && Clean(buf, size, n) && 32 <= n && (32 <= size || rest == [])
    requires i < Intervals && BucketMatches(Shr(buf, n - 8), i)
    ensures DecodeRun(cb, Window(buf, size, n) + rest)
      == Run(BitAnd(Shr(Shr(buf, n - 32), 32 - (cb.dataLen[i] + PrefLen[i])), cb.dataMsk[i]) + cb.dataMin[i],
             cb.dataLen[i] + PrefLen[i])
  {
    var s := Window(buf, size, n) + rest;
    WindowTop(buf, size, rest, n);
    TopByte(buf, Take32(s), n);
    DecodeAt(cb, s, Shr(buf, n - 32), i);
  }

  /** A 32-bit window `y` over a stream whose first byte matches bucket i decodes as `getNextLength` does. */
  lemma DecodeAt(cb: Codebook, s: seq<bool>, y: nat, i: nat)
    requires WellFormed(cb) && i < Intervals
    requires y == BitsToNat(Take32(s)) && BucketMatches(BitsToNat(Take32(s)[..8]), i)
    ensures DecodeRun(cb, s)
      == Run(BitAnd(Shr(y, 32 - (cb.dataLen[i] + PrefLen[i])), cb.dataMsk[i]) + cb.dataMin[i],
             cb.dataLen[i] + PrefLen[i])
  {
    var t := Take32(s);
    TopMatch(t, i);
    var w := cb.dataLen[i] + PrefLen[i];
    FieldValue(cb, t, y, i);
    DecodeRunMatched(cb, s, i, BitAnd(Shr(y, 32 - w), cb.dataMsk[i]), w);
  }

  /** The masked field of the window is the codeword's offset bits. */
  lemma FieldValue(cb: Codebook, t: seq<bool>, y: nat, i: nat)
    requires WellFormed(cb) && i < Intervals && |t| == 32 && y == BitsToNat(t)
    ensures cb.dataLen[i] + PrefLen[i] == i + 1 + cb.dataLen[i] <= 32
    ensures BitAnd(Shr(y, 32 - (cb.dataLen[i] + PrefLen[i])), cb.dataMsk[i])
      == BitsToNat(t[i + 1..cb.dataLen[i] + PrefLen[i]])
  {
    PrefixTables(i);
    var dl := cb.dataLen[i];
    var w := dl + PrefLen[i];
    assert Spans(cb, i);
    var x := Shr(y, 32 - w);
    MaskIsLow(x, cb.dataMsk[i], dl);
    WindowField(t, i + 1, w);
  }

  lemma TopMatch(t: seq<bool>, i: nat)
    requires |t| == 32 && i < Intervals && BucketMatches(BitsToNat(t[..8]), i)
    ensures MatchFrom(t, 0) == i
  {
    BucketMatchesIff(t[..8], i);
    PrefixTables(i);
    assert t[..8][..i + 1] == t[..i + 1];
    MatchFromCode(t, i, 0);
  }

  /** `getNextLength` when no bucket matches: the stream codes no run and nothing is consumed. */
  lemma WindowNoMatch(cb: Codebook, buf: nat, size: nat, rest: seq<bool>, n: nat, top: nat)
    requires WellFormed(cb) && Clean(buf, size, n) && 32 <= n && (32 <= size || rest == [])
    requires top == Shr(buf, n - 8) && forall i :: 0 <= i < Intervals ==> !BucketMatches(top, i)
    ensures DecodeRun(cb, Window(buf, size, n) + rest) == Run(0, 0)
  {
    var s := Window(buf, size, n) + rest;
    var t := Take32(s);
    WindowTop(buf, size, rest, n);
    TopByte(buf, t, n);
    forall i | 0 <= i < Intervals
      ensures t[..i + 1] != PrefixCode(i)
    {
      BucketMatchesIff(t[..8], i);
      PrefixTables(i);
      assert t[..8][..i + 1] == t[..i + 1];
    }
    MatchFromNone(t, 0);
  }

  lemma TopByte(buf: nat, t: seq<bool>, n: nat)
    requires |t| == 32 && 32 <= n && Shr(buf, n - 32) == BitsToNat(t)
    ensures Shr(buf, n - 8) == BitsToNat(t[..8])
  {
    ShrAdd(buf, n - 32, 24);
    BitsToNatPrefix(t, 8);
  }

  /** The words `finish` leaves for a stream of `bits` bits: the tail is zero-padded to a word. */
  function WordCount(bits: nat): nat {
    (bits + 31) / 32
  }

  /** The zero bits `finish` appends to a stream of n bits. */
  function Padding(n: nat): nat {
    if n % 32 == 0 then 0 else 32 - n % 32
  }

  /** A stream padded by `finish` fills exactly `WordCount` words. */
  lemma PaddingWords(n: nat)
    ensures n + Padding(n) == 32 * WordCount(n)
    ensures Padding(n) < 32
  {
    var q, r := n / 32, n % 32;
    assert n == 32 * q + r;
    if r == 0 {
      assert (n + 31) / 32 == q;
    } else {
      assert n + 31 == 32 * (q + 1) + (r - 1);
      assert (n + 31) / 32 == q + 1;
    }
  }

  /** With q whole words behind it, a partial word of r bits needs 32 - r bits of padding. */
  lemma PaddingOf(q: nat, r: nat)
    requires r < 32
    ensures Padding(32 * q + r) == if r > 0 then 32 - r else 0
  {
    assert (32 * q + r) % 32 == r;
  }

  /** The arithmetic of `finish`: q words and r pending bits become whole words. */
  lemma PaddedWords(n: nat, q: nat, r: nat, words: nat)
    requires n == 32 * q + r && r < 32
    requires 32 * words == n + (if r > 0 then 32 - r else 0)
    ensures Padding(n) == (if r > 0 then 32 - r else 0)
    ensures words == WordCount(n)
  {
    PaddingOf(q, r);
    PaddingWords(n);
  }
}
