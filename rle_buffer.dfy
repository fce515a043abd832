/**
 * The run-length buffer: a growing vector of 32-bit words written through a
 * 64-bit accumulator, and read back through a 64-bit window, one codeword at
 * a time.  The class keeps the source's registers and counters; its ghost
 * view is the bit stream written so far and the bit stream not yet read.
 */
module RleBuffers {
  import opened Bits
  import opened RleCodebook
  import opened RleStream

  const U32: nat := 0x1_0000_0000
  const U64: nat := 0x1_0000_0000_0000_0000

  /** A coded-stream element: the source's `uint32`. */
  type Word = x: nat | x < U32

  /** A header dimension: the source's `uint16`. */
  type U16 = x: nat | x < 0x1_0000

  // ---------------------------------------------------------------------------
  // The read side as values: register `buf`, counter `size` (an n-bit unsigned
  // value that wraps when a codeword runs past the end), and the unread words'
  // bits `rest`.
  // ---------------------------------------------------------------------------

  /** The bits still to be read: the window's, then the unread words'; none once the counter has wrapped. */
  function PendingOf(buf: nat, size: nat, rest: seq<bool>, n: nat): seq<bool> {
    if size <= n then Window(buf, size, n) + rest else []
  }

  /** `a - b` on n-bit unsigned values: wraps around below zero. */
  function SubWrap(a: nat, b: nat, n: nat): nat
    requires b <= Pow2(n)
  {
    if b <= a then a - b else a + Pow2(n) - b
  }

  /** A wrapped counter only follows a codeword read past the end: the register is then empty. */
  predicate ReadOk(buf: nat, size: nat, n: nat) {
    && size < Pow2(n)
    && (size <= n ==> Clean(buf, size, n))
    && (size > n ==> buf == 0)
  }

  lemma {:induction false} Pow2Gap(n: nat)
    requires 6 <= n
    ensures 2 * n + 2 <= Pow2(n)
  {
    if n > 6 {
      Pow2Gap(n - 1);
    }
  }

  /** Reading a codeword of w bits from a window that holds at least w. */
  lemma ConsumeFits(buf: nat, size: nat, rest: seq<bool>, w: nat, n: nat)
    requires ReadOk(buf, size, n) && w <= size <= n
    ensures ReadOk(Low(Shl(buf, w), n), SubWrap(size, w, n), n)
    ensures PendingOf(Low(Shl(buf, w), n), SubWrap(size, w, n), rest, n) == Drop(PendingOf(buf, size, rest, n), w)
  {
    CleanConsume(buf, size, w, n);
    var bits := Window(buf, size, n);
    assert (bits + rest)[w..] == bits[w..] + rest;
  }

  /** Reading a codeword longer than what is left: the counter wraps and the register empties. */
  lemma ConsumeOverrun(buf: nat, size: nat, w: nat, n: nat)
    requires ReadOk(buf, size, n) && size < w <= 32 <= n && w < Pow2(n)
    ensures ReadOk(Low(Shl(buf, w), n), SubWrap(size, w, n), n)
    ensures PendingOf(Low(Shl(buf, w), n), SubWrap(size, w, n), [], n) == Drop(PendingOf(buf, size, [], n), w) == []
  {
    CleanOverrun(buf, size, w, n);
    Pow2Gap(n);
  }

  /** Reading from an empty register with a wrapped counter: the register stays empty. */
  lemma ConsumeBlank(size: nat, w: nat, n: nat)
    requires ReadOk(0, size, n) && n < size && w <= 32 <= n && w < Pow2(n)
    ensures ReadOk(Low(Shl(0, w), n), SubWrap(size, w, n), n)
  {
    ShlZero(w);
    LowSmall(0, n);
    var size' := size - w;
    if size' <= n {
      LowSmall(0, n - size');
      assert Clean(0, size', n);
    }
  }

  /** `getNextLength` after a prefix match: the run the window's first codeword stands for. */
  lemma StepDecode(cb: Codebook, buf: nat, size: nat, rest: seq<bool>, i: nat, n: nat, w: nat)
    requires WellFormed(cb) && 32 <= n && i < Intervals && w == cb.dataLen[i] + PrefLen[i] <= 32
    requires ReadOk(buf, size, n) && (32 <= size || rest == [])
    requires BucketMatches(Shr(buf, n - 8), i)
    ensures DecodeRun(cb, PendingOf(buf, size, rest, n)) == Run(BitAnd(Shr(Shr(buf, n - 32), 32 - w), cb.dataMsk[i]) + cb.dataMin[i], w)
  {
    if size <= n {
      WindowDecode(cb, buf, size, rest, i, n);
    } else {
      LowSmall(0, n);
      WindowDecode(cb, 0, 0, [], i, n);
      assert Window(0, 0, n) + [] == [];
    }
  }

  /** `getNextLength` after a prefix match: dropping a codeword of w bits from the window.  Once the
      counter has wrapped, the stream stays empty while the counter stays above the register width. */
  lemma StepAdvance(buf: nat, size: nat, rest: seq<bool>, w: nat, n: nat)
    requires ReadOk(buf, size, n) && (32 <= size || rest == []) && w <= 32 <= n && w < Pow2(n)
    ensures ReadOk(Low(Shl(buf, w), n), SubWrap(size, w, n), n)
    ensures size <= n || size > n + w ==>
      PendingOf(Low(Shl(buf, w), n), SubWrap(size, w, n), rest, n) == Drop(PendingOf(buf, size, rest, n), w)
  {
    if size > n {
      ConsumeBlank(size, w, n);
    } else if w <= size {
      ConsumeFits(buf, size, rest, w, n);
    } else {
      ConsumeOverrun(buf, size, w, n);
    }
  }

  /** `fillRead` on values: loading word `pos` below a window of fewer than 32 bits keeps the unread stream. */
  lemma FillStep(buf: nat, size: nat, ws: seq<nat>, pos: nat, n: nat)
    requires ReadOk(buf, size, n) && size < 32 && n == 64 && pos < |ws| && ws[pos] < 0x1_0000_0000
    ensures ReadOk(BitOr(buf, Low(Shl(ws[pos], 32 - size), n)), size + 32, n)
    ensures PendingOf(BitOr(buf, Low(Shl(ws[pos], 32 - size), n)), size + 32, WordsBits(ws[pos + 1..]), n)
      == PendingOf(buf, size, WordsBits(ws[pos..]), n)
  {
    WordsBitsFront(ws, pos);
    FillWindow(buf, size, ws[pos], 32 - size, n);
    AppendAssoc(Window(buf, size, n), NatToBits(ws[pos], 32), WordsBits(ws[pos + 1..]));
  }

  /** Loading a word below the window's bits appends its 32 bits to the window. */
  lemma FillWindow(buf: nat, size: nat, word: nat, k: nat, n: nat)
    requires ReadOk(buf, size, n) && size < 32 && 64 <= n && k == n - size - 32 && word < 0x1_0000_0000
    ensures ReadOk(BitOr(buf, Low(Shl(word, k), n)), size + 32, n)
    ensures Window(BitOr(buf, Low(Shl(word, k), n)), size + 32, n) == Window(buf, size, n) + NatToBits(word, 32)
  {
    Pow2Gap(n);
    Pow2Word();
    CleanFill(buf, size, word, 32, k, n);
  }

  /** An empty window holds no bits. */
  lemma EmptyWindow(n: nat)
    ensures Window(0, 0, n) == []
  {
  }

  lemma AppendAssoc<T>(a: seq<T>, b: seq<T>, c: seq<T>)
    ensures (a + b) + c == a + (b + c)
  {
  }

  /** `getNextLength` when no prefix matches: there is no codeword at the front of the stream. */
  lemma NoMatchStep(cb: Codebook, buf: nat, size: nat, rest: seq<bool>, n: nat, top: nat)
    requires WellFormed(cb) && 32 <= n
    requires ReadOk(buf, size, n) && (32 <= size || rest == [])
    requires top == Shr(buf, n - 8) && forall i :: 0 <= i < Intervals ==> !BucketMatches(top, i)
    ensures DecodeRun(cb, PendingOf(buf, size, rest, n)) == Run(0, 0)
  {
    if size <= n {
      WindowNoMatch(cb, buf, size, rest, n, top);
    } else {
      ShrZero(n - 8);
      assert BucketMatches(top, 0);
      assert false;
    }
  }

  // ---------------------------------------------------------------------------
  // The buffer
  // ---------------------------------------------------------------------------

  class RleBuffer {
    /** The codebook named by the header's type. */
    const cb: Codebook
    var firstSymbol: bv8
    /** Header dimensions, 16-bit unsigned. */
    const width: U16
    const height: U16
    /** The coded stream, as 32-bit words. */
    var buffer: seq<Word>
    /** Write accumulator: its low `tmpSize` bits are written but not yet emitted. */
    var tmp: nat
    var tmpSize: nat
    /** Read state: next word to load, window register, and the count of unread window bits (a register-wide unsigned value). */
    var readPos: nat
    var readBuf: nat
    var readSize: nat
    /** Bit width of the accumulator and the window register: the source's `uint64`. */
    const reg: nat

    /** Everything but the bound the write side keeps between calls. */
    ghost predicate Inv()
      reads this
    {
      && WellFormed(cb)
      && readPos <= |buffer|
      && reg == 64 && Pow2(reg) == U64
      && ReadOk(readBuf, readSize, reg)
    }

    ghost predicate Valid()
      reads this
    {
      Inv() && tmpSize < 32
    }

    /** Every bit added so far, in order: the emitted words, then the accumulator's pending bits. */
    ghost function WrittenBits(): seq<bool>
      reads this
    {
      WordsBits(buffer) + NatToBits(tmp, tmpSize)
    }

    /** The bits `getNextLength` has still to read from the emitted words. */
    ghost function Pending(): seq<bool>
      reads this
      requires readPos <= |buffer|
    {
      PendingOf(readBuf, readSize, WordsBits(buffer[readPos..]), reg)
    }

    /** The byte size of the coded stream. */
    function Size(): nat
      reads this
    {
      4 * |buffer|
    }

    /** A buffer for a codebook; the header takes the dimensions truncated to 16 bits. */
    constructor (codebook: Codebook, w: int, h: int)
      requires WellFormed(codebook)
      ensures Valid() && cb == codebook && width == w % 0x1_0000 && height == h % 0x1_0000
      ensures firstSymbol == 0 && buffer == [] && tmpSize == 0 && readPos == 0 && readBuf == 0 && readSize == 0
      ensures WrittenBits() == [] && Pending() == []
    {
      cb := codebook;
      firstSymbol := 0;
      width := w % 0x1_0000;
      height := h % 0x1_0000;
      buffer := [];
      tmp := 0;
      tmpSize := 0;
      readPos := 0;
      readBuf := 0;
      readSize := 0;
      reg := 64;
      new;
      Pow2Window();
      LowSmall(0, reg);
      assert Window(0, 0, reg) + WordsBits([]) == [];
    }

    method SetFirstSymbol(s: bv8)
      modifies this
      ensures firstSymbol == s
      ensures buffer == old(buffer)
      ensures tmp == old(tmp) && tmpSize == old(tmpSize)
      ensures readPos == old(readPos) && readBuf == old(readBuf) && readSize == old(readSize)
    {
      firstSymbol := s;
    }

    /** `reduce`: emits the oldest 32 pending bits as a word once there are at least 32. */
    method Reduce()
      requires Inv() && tmpSize < reg
      modifies this
      ensures Valid() && WrittenBits() == old(WrittenBits())
      ensures tmpSize == if old(tmpSize) >= 32 then old(tmpSize) - 32 else old(tmpSize)
      ensures old(tmpSize) < 32 ==> buffer == old(buffer)
      ensures old(tmpSize) >= 32 ==> buffer == old(buffer) + [BitAnd(Shr(old(tmp), old(tmpSize) - 32), 0xFFFF_FFFF)]
      ensures firstSymbol == old(firstSymbol) && tmp == old(tmp) && readPos == old(readPos) && readBuf == old(readBuf) && readSize == old(readSize)
    {
      if tmpSize >= 32 {
        var word := BitAnd(Shr(tmp, tmpSize - 32), 0xFFFF_FFFF);
        AccumulatorSplit(tmp, tmpSize);
        EmitWord(buffer, word, tmp, tmpSize);
        ReadAppend(buffer, [word], readPos);
        buffer := buffer + [word];
        tmpSize := tmpSize - 32;
      }
    }

    /** `addSymbol`: shifts the `len` low bits of `symb` into the accumulator; nothing when len < 1. */
    method AddSymbol(symb: int, len: int)
      requires Valid() && len <= 32
      modifies this
      ensures Valid()
      ensures len < 1 ==> unchanged(this) && WrittenBits() == old(WrittenBits())
      ensures len >= 0 && 0 <= symb < Pow2(len) ==> WrittenBits() == old(WrittenBits()) + NatToBits(symb, len)
      ensures len >= 1 && symb == -1 ==>
        WrittenBits() == Settled(old(WrittenBits())) + Ones(|old(WrittenBits())| % 32 + len)
      ensures len >= 1 ==> |WrittenBits()| == |old(WrittenBits())| + len
      ensures old(buffer) <= buffer && |buffer| <= |old(buffer)| + 1
      ensures firstSymbol == old(firstSymbol) && readPos == old(readPos) && readBuf == old(readBuf) && readSize == old(readSize)
    {
      if len >= 1 {
        ghost var before := WrittenBits();
        var s := symb % Pow2(reg);
        var t := BitOr(Low(Shl(tmp, len), reg), s);
        ShiftIn(buffer, tmp, tmpSize, symb, s, len, reg, before, t);
        Store(t, tmpSize + len);
      } else {
        assert WrittenBits() + [] == WrittenBits();
      }
    }

    /** The accumulator takes a new value and width; then `reduce`. */
    method Store(t: nat, size: nat)
      requires Inv() && size < reg
      modifies this
      ensures Valid() && WrittenBits() == old(WordsBits(buffer)) + NatToBits(t, size)
      ensures old(buffer) <= buffer && |buffer| <= |old(buffer)| + 1
      ensures firstSymbol == old(firstSymbol) && readPos == old(readPos) && readBuf == old(readBuf) && readSize == old(readSize)
    {
      tmp, tmpSize := t, size;
      Reduce();
    }

    /** `add`: appends the codeword of a run; nothing for a run beyond the last bucket. */
    method Add(len: int)
      requires Valid()
      modifies this
      ensures Valid()
      ensures (1 <= len || cb.dataLen[0] == 0) ==> WrittenBits() == old(WrittenBits()) + RunCode(cb, len)
      ensures len == 0 && cb.dataLen[0] > 0 ==> WrittenBits() == EmptyRunBits(cb, old(WrittenBits()))
      ensures var i := Bucket(cb, len);
        |WrittenBits()| == |old(WrittenBits())| + (if i == Intervals then 0 else PrefLen[i] + cb.dataLen[i])
      ensures old(buffer) <= buffer
      ensures firstSymbol == old(firstSymbol) && readPos == old(readPos) && readBuf == old(readBuf) && readSize == old(readSize)
    {
      var i := 0;
      while i < Intervals
        invariant i <= Intervals
        invariant forall j :: 0 <= j < i ==> len > cb.dataMax[j]
        invariant Valid() && unchanged(this)
      {
        if len <= cb.dataMax[i] {
          BucketFromFirst(cb, len, 0, i);
          AddCodeword(i, len);
          return;
        }
        i := i + 1;
      }
      BucketFromFirst(cb, len, 0, Intervals);
    }

    /** The two `addSymbol` calls of `add` for a run in bucket i. */
    method AddCodeword(i: nat, len: int)
      requires Valid() && i < Intervals && Bucket(cb, len) == i
      modifies this
      ensures Valid()
      ensures (1 <= len || cb.dataLen[0] == 0) ==> WrittenBits() == old(WrittenBits()) + RunCode(cb, len)
      ensures len == 0 && cb.dataLen[0] > 0 ==> WrittenBits() == EmptyRunBits(cb, old(WrittenBits()))
      ensures |WrittenBits()| == |old(WrittenBits())| + PrefLen[i] + cb.dataLen[i]
      ensures old(buffer) <= buffer
      ensures firstSymbol == old(firstSymbol) && readPos == old(readPos) && readBuf == old(readBuf) && readSize == old(readSize)
    {
      ghost var before := WrittenBits();
      CodewordFields(cb, len, i);
      var pf, pl, dm, dl := Prefixes[i], PrefLen[i], cb.dataMin[i], cb.dataLen[i];
      AddSymbol(pf, pl);
      ghost var mid := WrittenBits();
      AddSymbol(len - dm, dl);
      CodewordWritten(cb, len, i, pf, pl, dm, dl, before, mid, WrittenBits());
    }

    /** `finish`: pads the accumulator with zeros up to a whole word and emits it. */
    method Finish()
      requires Valid()
      modifies this
      ensures Valid() && tmpSize == 0
      ensures WordsBits(buffer) == old(WrittenBits()) + Zeros(Padding(|old(WrittenBits())|))
      ensures |buffer| == WordCount(|old(WrittenBits())|)
      ensures WrittenBits() == WordsBits(buffer)
      ensures firstSymbol == old(firstSymbol) && readPos == old(readPos) && readBuf == old(readBuf) && readSize == old(readSize)
    {
      ghost var n, q, r := |WrittenBits()|, |buffer|, tmpSize;
      if tmpSize > 0 {
        AddSymbol(0, 32 - tmpSize);
        NatToBitsZero(32 - old(tmpSize));
      }
      PaddedWords(n, q, r, |buffer|);
    }

    /** `fillRead`: loads the next word below the unread window bits when fewer than 32 are left. */
    method FillRead()
      requires Valid()
      modifies this
      ensures Valid() && Pending() == old(Pending())
      ensures readSize >= 32 || readPos == |buffer|
      ensures old(readSize) >= 32 ==> readSize == old(readSize)
      ensures old(readSize) < 32 ==> readSize <= reg
      ensures firstSymbol == old(firstSymbol) && buffer == old(buffer) && tmp == old(tmp) && tmpSize == old(tmpSize)
    {
      if readSize < 32 && readPos < |buffer| {
        FillStep(readBuf, readSize, buffer, readPos, reg);
        var win := BitOr(readBuf, Low(Shl(buffer[readPos], 32 - readSize), reg));
        readBuf, readPos, readSize := win, readPos + 1, readSize + 32;
      }
    }

    /** `getNextLength`: decodes the next run and consumes its codeword; 0 when no prefix matches. */
    method GetNextLength() returns (r: nat)
      requires Valid()
      modifies this
      ensures Valid()
      ensures r == DecodeRun(cb, old(Pending())).len
      ensures old(readSize) <= reg || old(readSize) > reg + 32 ==>
        Pending() == Drop(old(Pending()), DecodeRun(cb, old(Pending())).used)
      ensures old(readSize) > reg ==> old(readSize) - 32 <= readSize <= old(readSize)
      ensures old(readSize) <= reg ==> readSize <= reg || readSize + 32 >= U64
      ensures firstSymbol == old(firstSymbol) && buffer == old(buffer) && tmp == old(tmp) && tmpSize == old(tmpSize)
    {
      FillRead();
      var top := Shr(readBuf, reg - 8);
      var i := MatchPrefix(top);
      if i == Intervals {
        NoMatchStep(cb, readBuf, readSize, WordsBits(buffer[readPos..]), reg, top);
        return 0;
      }
      r := Consume(i);
    }

    /** The branch of `getNextLength` for a matching bucket i: the run is read off the window
        and its codeword dropped. */
    method Consume(i: nat) returns (r: nat)
      requires Valid() && i < Intervals && BucketMatches(Shr(readBuf, reg - 8), i)
      requires readSize >= 32 || readPos == |buffer|
      modifies this
      ensures Valid()
      ensures r == DecodeRun(cb, old(Pending())).len
      ensures old(readSize) <= reg || old(readSize) > reg + 32 ==>
        Pending() == Drop(old(Pending()), DecodeRun(cb, old(Pending())).used)
      ensures old(readSize) > reg ==> readSize == old(readSize) - DecodeRun(cb, old(Pending())).used
      ensures DecodeRun(cb, old(Pending())).used <= 32
      ensures old(readSize) <= reg ==> readSize <= reg || readSize + 32 >= U64
      ensures firstSymbol == old(firstSymbol) && buffer == old(buffer) && tmp == old(tmp) && tmpSize == old(tmpSize)
    {
      ghost var p := Pending();
      r := Extract(i);
      ghost var run := DecodeRun(cb, p);
      assert run.used == cb.dataLen[i] + PrefLen[i];
      CodewordWidth(cb, i);
      Advance(i);
    }

    /** The run the codeword of bucket i at the front of the window stands for, and the codeword's width. */
    method Extract(i: nat) returns (r: nat)
      requires Valid() && i < Intervals && BucketMatches(Shr(readBuf, reg - 8), i)
      requires readSize >= 32 || readPos == |buffer|
      ensures DecodeRun(cb, Pending()) == Run(r, cb.dataLen[i] + PrefLen[i])
    {
      CodewordWidth(cb, i);
      var w := cb.dataLen[i] + PrefLen[i];
      StepDecode(cb, readBuf, readSize, WordsBits(buffer[readPos..]), i, reg, w);
      var data := Shr(readBuf, reg - 32);
      data := Shr(data, 32 - w);
      data := BitAnd(data, cb.dataMsk[i]);
      // The source adds in `uint32`; the sum stays below 2^28 (`DecodeRunLen`), so it never wraps.
      r := data + cb.dataMin[i];
    }

    /** Drops the codeword of bucket i from the window; the counter wraps if the codeword ran past the end. */
    method Advance(i: nat)
      requires Valid() && i < Intervals && BucketMatches(Shr(readBuf, reg - 8), i)
      requires readSize >= 32 || readPos == |buffer|
      modifies this
      ensures Valid()
      ensures old(readSize) <= reg || old(readSize) > reg + 32 ==> Pending() == Drop(old(Pending()), cb.dataLen[i] + PrefLen[i])
      ensures old(readSize) > reg ==> readSize == old(readSize) - (cb.dataLen[i] + PrefLen[i])
      ensures old(readSize) <= reg ==> readSize <= reg || readSize + 32 >= U64
      ensures firstSymbol == old(firstSymbol) && buffer == old(buffer) && tmp == old(tmp) && tmpSize == old(tmpSize) && readPos == old(readPos)
    {
      CodewordWidth(cb, i);
      var w := cb.dataLen[i] + PrefLen[i];
      StepAdvance(readBuf, readSize, WordsBits(buffer[readPos..]), w, reg);
      readBuf := Low(Shl(readBuf, w), reg);
      readSize := SubWrap(readSize, w, reg);
    }
  }

  /** The prefix search of `getNextLength`: the first bucket whose prefix the top byte carries, Intervals if none. */
  method MatchPrefix(top: nat) returns (i: nat)
    ensures i <= Intervals
    ensures forall j :: 0 <= j < i ==> !BucketMatches(top, j)
    ensures i < Intervals ==> BucketMatches(top, i)
  {
    i := 0;
    while i < Intervals && BitAnd(top, PrefMsk[i]) != PrefRes[i]
      invariant i <= Intervals
      invariant forall j :: 0 <= j < i ==> !BucketMatches(top, j)
    {
      i := i + 1;
    }
  }

  // ---------------------------------------------------------------------------
  // Helpers for the buffer's proofs
  // ---------------------------------------------------------------------------

  /** Emitting the top word of the accumulator leaves the written stream as it was. */
  lemma EmitWord(buffer: seq<nat>, word: nat, tmp: nat, size: nat)
    requires 32 <= size && word == BitAnd(Shr(tmp, size - 32), 0xFFFF_FFFF)
    requires NatToBits(tmp, size) == NatToBits(word, 32) + NatToBits(tmp, size - 32)
    ensures WordsBits(buffer + [word]) + NatToBits(tmp, size - 32) == WordsBits(buffer) + NatToBits(tmp, size)
  {
    WordsBitsAppend(buffer, [word]);
    assert WordsBits([word]) == NatToBits(word, 32) + WordsBits([]);
  }

  /** Shifting `len` bits into the accumulator appends them to the written stream. */
  lemma PushBits(ws: seq<nat>, tmp: nat, size: nat, symb: nat, len: nat, n: nat)
    requires size + len <= n && symb < Pow2(len)
    ensures WordsBits(ws) + NatToBits(BitOr(Low(Shl(tmp, len), n), symb), size + len)
      == (WordsBits(ws) + NatToBits(tmp, size)) + NatToBits(symb, len)
  {
    AppendBits(tmp, size, symb, len, n);
  }

  /** What `addSymbol` does to the written stream: appends the `len` bits of a symbol that fits
      them; for the symbol -1, whose 64-bit image is all ones, turns every pending bit into a one. */
  lemma ShiftIn(ws: seq<nat>, tmp: nat, size: nat, symb: int, s: int, len: nat, n: nat, bits: seq<bool>, t: nat)
    requires size < 32 && 1 <= len <= 32 < n && size + len <= n && s == symb % Pow2(n)
    requires bits == WordsBits(ws) + NatToBits(tmp, size) && t == BitOr(Low(Shl(tmp, len), n), s)
    ensures 0 <= symb < Pow2(len) ==> WordsBits(ws) + NatToBits(t, size + len) == bits + NatToBits(symb, len)
    ensures symb == -1 ==> WordsBits(ws) + NatToBits(t, size + len) == Settled(bits) + Ones(|bits| % 32 + len)
    ensures |WordsBits(ws) + NatToBits(t, size + len)| == |bits| + len
  {
    if 0 <= symb < Pow2(len) {
      Pow2Monotone(len, n);
      ModSmall(symb, Pow2(n));
      PushBits(ws, tmp, size, symb, len, n);
    } else if symb == -1 {
      FlushOnes(ws, tmp, size, s, len, n);
    }
  }

  /** Or-ing the all-ones value into the accumulator turns every pending bit into a one; the
      emitted words stay. */
  lemma FlushOnes(ws: seq<nat>, tmp: nat, size: nat, s: int, len: nat, n: nat)
    requires size < 32 && size + len <= n && s == -1 % Pow2(n)
    ensures var bits := WordsBits(ws) + NatToBits(tmp, size);
      WordsBits(ws) + NatToBits(BitOr(Low(Shl(tmp, len), n), s), size + len) == Settled(bits) + Ones(|bits| % 32 + len)
  {
    ModWrap(-1, Pow2(n));
    BitOrAllOnes(Low(Shl(tmp, len), n), n);
    NatToBitsAllOnes(n, size + len);
    var bits := WordsBits(ws) + NatToBits(tmp, size);
    WholeWords(|ws|, size);
    assert bits[..32 * |ws|] == WordsBits(ws);
  }

  lemma WholeWords(q: nat, r: nat)
    requires r < 32
    ensures (32 * q + r) / 32 * 32 == 32 * q && (32 * q + r) % 32 == r
  {
  }

  /** Appending words after the read position extends the unread words. */
  lemma ReadAppend(buffer: seq<nat>, more: seq<nat>, pos: nat)
    requires pos <= |buffer|
    ensures WordsBits((buffer + more)[pos..]) == WordsBits(buffer[pos..]) + WordsBits(more)
  {
    assert (buffer + more)[pos..] == buffer[pos..] + more;
    WordsBitsAppend(buffer[pos..], more);
  }

  /** The two fields of a codeword in bucket i fit their widths and one word together. */
  lemma CodewordFields(cb: Codebook, len: int, i: nat)
    requires WellFormed(cb) && i < Intervals && Bucket(cb, len) == i
    ensures Prefixes[i] < Pow2(PrefLen[i]) && 1 <= PrefLen[i] && PrefLen[i] + cb.dataLen[i] <= 32
    ensures (1 <= len || cb.dataLen[0] == 0) && cb.dataLen[i] > 0 ==> 0 <= len - cb.dataMin[i] < Pow2(cb.dataLen[i])
  {
    PrefixTables(i);
    CodewordWidth(cb, i);
    assert Spans(cb, i);
    if 1 <= len || cb.dataLen[0] == 0 {
      BucketBounds(cb, len);
    }
  }

  /** The two `addSymbol` calls of `add` in bucket i, as the stream sees them. */
  lemma CodewordWritten(cb: Codebook, len: int, i: nat, pf: nat, pl: nat, dm: nat, dl: nat,
                        before: seq<bool>, mid: seq<bool>, after: seq<bool>)
    requires WellFormed(cb) && i < Intervals && Bucket(cb, len) == i
    requires pf == Prefixes[i] && pl == PrefLen[i] && dm == cb.dataMin[i] && dl == cb.dataLen[i]
    requires pl >= 0 && 0 <= pf < Pow2(pl) ==> mid == before + NatToBits(pf, pl)
    requires dl < 1 ==> after == mid
    requires dl >= 0 && 0 <= len - dm < Pow2(dl) ==> after == mid + NatToBits(len - dm, dl)
    requires dl >= 1 && len - dm == -1 ==> after == Settled(mid) + Ones(|mid| % 32 + dl)
    ensures (1 <= len || cb.dataLen[0] == 0) ==> after == before + RunCode(cb, len)
    ensures len == 0 && cb.dataLen[0] > 0 ==> after == EmptyRunBits(cb, before)
  {
    CodewordFields(cb, len, i);
    if 1 <= len || cb.dataLen[0] == 0 {
      assert dl > 0 ==> after == mid + NatToBits(len - dm, dl);
      CodewordSplice(cb, len, i, before, mid, after);
    } else if len == 0 {
      EmptyRunSplice(cb, i, before, mid, after);
    }
  }

  /** What `add(0)` leaves for a codebook with a payload in bucket 0: the prefix bit goes in,
      then the payload `0 - dataMin[0] = -1` is or-ed in as 64 one-bits, so every bit not yet
      emitted in a whole word, the prefix bit included, reads as a one. */
  ghost function EmptyRunBits(cb: Codebook, bits: seq<bool>): (r: seq<bool>)
    requires Contiguous(cb)
    ensures |r| == |bits| + PrefLen[0] + cb.dataLen[0]
  {
    var mid := bits + [false];
    Settled(mid) + Ones(|mid| % 32 + cb.dataLen[0])
  }

  /** The two fields of `add(0)` in bucket 0 when that bucket has a payload. */
  lemma EmptyRunSplice(cb: Codebook, i: nat, before: seq<bool>, mid: seq<bool>, after: seq<bool>)
    requires Contiguous(cb) && i < Intervals && Bucket(cb, 0) == i && cb.dataLen[0] > 0
    requires mid == before + NatToBits(Prefixes[i], PrefLen[i])
    requires cb.dataLen[i] >= 1 && cb.dataMin[i] == 1 ==> after == Settled(mid) + Ones(|mid| % 32 + cb.dataLen[i])
    ensures after == EmptyRunBits(cb, before)
  {
    assert Spans(cb, 0);
    assert NatToBits(0, 1) == [false];
  }

  /** The codeword of a run in bucket i is its prefix code, then its offset in the bucket. */
  lemma CodewordSplice(cb: Codebook, len: int, i: nat, before: seq<bool>, mid: seq<bool>, after: seq<bool>)
    requires Contiguous(cb) && i < Intervals && Bucket(cb, len) == i && (1 <= len || cb.dataLen[0] == 0)
    requires cb.dataLen[i] > 0 ==> cb.dataMin[i] <= len
    requires mid == before + NatToBits(Prefixes[i], PrefLen[i])
    requires cb.dataLen[i] == 0 ==> after == mid
    requires cb.dataLen[i] > 0 ==> after == mid + NatToBits(len - cb.dataMin[i], cb.dataLen[i])
    ensures after == before + RunCode(cb, len)
  {
    if cb.dataLen[i] == 0 {
      assert after == before + (NatToBits(Prefixes[i], PrefLen[i]) + []);
    }
  }
}
