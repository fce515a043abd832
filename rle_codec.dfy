/**
 * The plane coder on top of the buffer: `rle(img, type)` writes the
 * alternating run lengths of a one-channel plane, `rle(buf)` expands the runs
 * it reads back into a plane, and the encoder's type search keeps the
 * codebook that gives the smallest buffer.
 */
module RleCodec {
  import opened Bits
  import opened Wrappers
  import opened Images
  import opened RleCodebook
  import opened RleStream
  import opened RleBuffers
  import opened RleRuns

  // ---------------------------------------------------------------------------
  // Sizes
  // ---------------------------------------------------------------------------

  /** What `size()` reports after `rle(img, kind)`: the padded stream's words, 4 bytes each;
      a buffer with no words for an image of other than one channel. */
  function EncodedSize(img: Mat, kind: int): nat
    requires 0 <= kind <= 5
  {
    if img.channels != 1 then 0
    else
      CodebookForWellFormed(kind);
      4 * WordCount(BitLen(CodebookFor(kind), Runs(img.data)))
  }

  /** The plane `rle(buf)` returns: the header's dimensions, one channel, the decoded pixels. */
  function AsPlane(rows: nat, cols: nat, r: Result<seq<bv8>>): (m: Result<Mat>)
    ensures r.Ok? <==> m.Ok?
    ensures m.Ok? ==> m.value.rows == rows && m.value.cols == cols && m.value.channels == 1 && m.value.data == r.value
    ensures r.Err? ==> m == Err(r.error)
  {
    match r
    case Ok(px) => Ok(Mat(rows, cols, 1, px))
    case Err(e) => Err(e)
  }

  // ---------------------------------------------------------------------------
  // The encoder
  // ---------------------------------------------------------------------------

  /** The one word an empty plane is coded as when bucket 0 has a payload: `add(0)` turns its
      prefix bit and payload into ones, and `finish` pads them with zeros. */
  function EmptyPlaneBits(cb: Codebook): (r: seq<bool>)
    requires WellFormed(cb)
    ensures |r| == 32 && (forall k :: 0 <= k <= cb.dataLen[0] ==> r[k]) && forall k :: PrefLen[0] + cb.dataLen[0] <= k < 32 ==> !r[k]
  {
    CodewordWidth(cb, 0);
    Ones(PrefLen[0] + cb.dataLen[0]) + Zeros(Padding(PrefLen[0] + cb.dataLen[0]))
  }

  /** What `rle(img, kind)` leaves in `buf` for a one-channel image: the header, the padded
      codewords of the image's runs (exactly determined when they all have a codeword), the
      byte size, and a read side positioned at the first word. */
  ghost predicate Encoded(buf: RleBuffer, img: Mat, kind: int)
    requires 0 <= kind <= 5
    reads buf
  {
    CodebookForWellFormed(kind);
    var cb := CodebookFor(kind);
    var bits := RunsBits(cb, Runs(img.data));
    && buf.cb == cb
    && buf.width == img.cols % 0x1_0000 && buf.height == img.rows % 0x1_0000
    && buf.firstSymbol == FirstSymbol(img.data, 0)
    && buf.readPos <= |buf.buffer| && buf.readSize == 0
    && buf.Pending() == WordsBits(buf.buffer)
    && (|img.data| > 0 || cb.dataLen[0] == 0 ==> WordsBits(buf.buffer) == bits + Zeros(Padding(|bits|)))
    && (|img.data| == 0 && cb.dataLen[0] > 0 ==> WordsBits(buf.buffer) == EmptyPlaneBits(cb))
    && buf.Size() == EncodedSize(img, kind)
  }

  /** `rle(img, type)`. */
  method Encode(img: Mat, kind: int) returns (buf: RleBuffer)
    requires 0 <= kind <= 5
    ensures fresh(buf) && buf.Valid()
    ensures img.channels != 1 ==> buf.cb == CodebookFor(0) && buf.width == 0 && buf.height == 0 && buf.buffer == []
    ensures img.channels == 1 ==> Encoded(buf, img, kind)
  {
    if img.channels != 1 {
      CodebookForWellFormed(0);
      buf := new RleBuffer(CodebookFor(0), 0, 0);
      return;
    }
    CodebookForWellFormed(kind);
    buf := new RleBuffer(CodebookFor(kind), img.cols, img.rows);
    var cur, ctr, runs := ScanPlane(buf, img.data);
    CloseStream(buf, img.data, ctr, runs);
  }

  /** The pixel loop of `rle(img, type)`: every run it closes is added to `buf`. */
  method ScanPlane(buf: RleBuffer, px: seq<bv8>) returns (cur: bv8, ctr: nat, ghost runs: seq<nat>)
    requires buf.Valid() && buf.WrittenBits() == [] && buf.firstSymbol == 0
    modifies buf
    ensures Scan(px).cur == cur && Scan(px).ctr == ctr && Scan(px).runs == runs
    ensures buf.firstSymbol == FirstSymbol(px, 0)
    ensures buf.Valid() && buf.WrittenBits() == RunsBits(buf.cb, runs) && |buf.WrittenBits()| == BitLen(buf.cb, runs)
    ensures buf.readPos == old(buf.readPos) && buf.readBuf == old(buf.readBuf) && buf.readSize == old(buf.readSize)
  {
    cur, ctr, runs := Unset, 0, [];
    var x := 0;
    ghost var pre: seq<bv8> := [];
    while x < |px|
      invariant x <= |px| && pre == px[..x]
      invariant Scan(pre).cur == cur && Scan(pre).ctr == ctr && Scan(pre).runs == runs
      invariant buf.firstSymbol == FirstSymbol(pre, 0)
      invariant buf.Valid() && buf.WrittenBits() == RunsBits(buf.cb, runs) && |buf.WrittenBits()| == BitLen(buf.cb, runs)
      invariant buf.readPos == old(buf.readPos) && buf.readBuf == old(buf.readBuf) && buf.readSize == old(buf.readSize)
    {
      cur, ctr, runs := PushPixel(buf, pre, px[x], cur, ctr, runs);
      TakeSnoc(px, x);
      pre := pre + [px[x]];
      x := x + 1;
    }
    assert pre == px;
  }

  lemma TakeSnoc(px: seq<bv8>, x: nat)
    requires x < |px|
    ensures px[..x + 1] == px[..x] + [px[x]]
  {
  }

  lemma SnocTake(pre: seq<bv8>, p: bv8)
    ensures (pre + [p])[..|pre|] == pre
  {
  }

  /** One turn of the pixel loop: takes the first symbol from an unset current symbol, then
      extends the open run or adds it and opens the next. */
  method PushPixel(buf: RleBuffer, ghost pre: seq<bv8>, p: bv8, cur: bv8, ctr: nat, ghost runs: seq<nat>)
      returns (cur': bv8, ctr': nat, ghost runs': seq<nat>)
    requires Scan(pre).cur == cur && Scan(pre).ctr == ctr && Scan(pre).runs == runs
    requires buf.firstSymbol == FirstSymbol(pre, 0)
    requires buf.Valid() && buf.WrittenBits() == RunsBits(buf.cb, runs) && |buf.WrittenBits()| == BitLen(buf.cb, runs)
    modifies buf
    ensures Scan(pre + [p]).cur == cur' && Scan(pre + [p]).ctr == ctr' && Scan(pre + [p]).runs == runs'
    ensures buf.firstSymbol == FirstSymbol(pre + [p], 0)
    ensures buf.Valid() && buf.WrittenBits() == RunsBits(buf.cb, runs') && |buf.WrittenBits()| == BitLen(buf.cb, runs')
    ensures buf.readPos == old(buf.readPos) && buf.readBuf == old(buf.readBuf) && buf.readSize == old(buf.readSize)
  {
    ScanPositive(pre);
    SnocTake(pre, p);
    cur', ctr', runs' := cur, ctr, runs;
    if cur' == Unset {
      cur' := p;
      buf.SetFirstSymbol(cur');
    }
    if p != cur' {
      AddRun(buf, runs, ctr);
      runs' := runs + [ctr];
      ctr' := 1;
      cur' := Flip(cur');
    } else {
      ctr' := ctr + 1;
    }
  }

  /** `add(ctr)` for a run of the pixel loop, which is never empty. */
  method AddRun(buf: RleBuffer, ghost runs: seq<nat>, ctr: nat)
    requires buf.Valid() && buf.WrittenBits() == RunsBits(buf.cb, runs) && |buf.WrittenBits()| == BitLen(buf.cb, runs)
    requires ctr >= 1
    modifies buf
    ensures buf.Valid() && buf.WrittenBits() == RunsBits(buf.cb, runs + [ctr]) && |buf.WrittenBits()| == BitLen(buf.cb, runs + [ctr])
    ensures buf.firstSymbol == old(buf.firstSymbol)
    ensures buf.readPos == old(buf.readPos) && buf.readBuf == old(buf.readBuf) && buf.readSize == old(buf.readSize)
  {
    RunsBitsSnoc(buf.cb, runs, ctr);
    BitLenSnoc(buf.cb, runs, ctr);
    buf.Add(ctr);
  }

  /** After the loop: `add(ctr)` for the open run, then `finish`. */
  method CloseStream(buf: RleBuffer, ghost px: seq<bv8>, ctr: nat, ghost runs: seq<nat>)
    requires Scan(px).ctr == ctr && Scan(px).runs == runs
    requires buf.Valid() && buf.WrittenBits() == RunsBits(buf.cb, runs) && |buf.WrittenBits()| == BitLen(buf.cb, runs)
    requires buf.readPos == 0 && buf.readBuf == 0 && buf.readSize == 0
    modifies buf
    ensures buf.Valid() && buf.readPos == 0 && buf.readSize == 0
    ensures buf.Pending() == WordsBits(buf.buffer)
    ensures var bits := RunsBits(buf.cb, Runs(px));
      |px| > 0 || buf.cb.dataLen[0] == 0 ==> WordsBits(buf.buffer) == bits + Zeros(Padding(|bits|))
    ensures |px| == 0 && buf.cb.dataLen[0] > 0 ==> WordsBits(buf.buffer) == EmptyPlaneBits(buf.cb)
    ensures buf.Size() == 4 * WordCount(BitLen(buf.cb, Runs(px)))
    ensures buf.firstSymbol == old(buf.firstSymbol)
  {
    ScanPositive(px);
    RunsBitsSnoc(buf.cb, runs, ctr);
    BitLenSnoc(buf.cb, runs, ctr);
    ghost var before := buf.WrittenBits();
    buf.Add(ctr);
    ghost var bits := buf.WrittenBits();
    assert Runs(px) == runs + [ctr];
    assert |bits| == BitLen(buf.cb, Runs(px)) by {
      assert |bits| == BitLen(buf.cb, runs) + CodeLen(buf.cb, ctr);
    }
    buf.Finish();
    FreshPending(buf);
    if |px| == 0 && buf.cb.dataLen[0] > 0 {
      EmptyClose(buf.cb, px, ctr, runs, before, bits, WordsBits(buf.buffer));
    }
  }

  /** An empty plane: the closing `add(0)` over an empty stream, padded by `finish`. */
  lemma EmptyClose(cb: Codebook, px: seq<bv8>, ctr: nat, runs: seq<nat>, before: seq<bool>, bits: seq<bool>, words: seq<bool>)
    requires WellFormed(cb) && |px| == 0 && cb.dataLen[0] > 0
    requires Scan(px).ctr == ctr && Scan(px).runs == runs && before == RunsBits(cb, runs)
    requires ctr == 0 ==> bits == EmptyRunBits(cb, before)
    requires words == bits + Zeros(Padding(|bits|))
    ensures words == EmptyPlaneBits(cb)
  {
    assert runs == [] && ctr == 0;
    assert before == [];
    assert Settled([] + [false]) == [];
  }

  /** Before any read, the bits still to read are all the words. */
  lemma FreshPending(buf: RleBuffer)
    requires buf.Valid() && buf.readPos == 0 && buf.readBuf == 0 && buf.readSize == 0
    ensures buf.Pending() == WordsBits(buf.buffer)
  {
    assert buf.buffer[0..] == buf.buffer;
    EmptyWindow(buf.reg);
  }

  // ---------------------------------------------------------------------------
  // The decoder
  // ---------------------------------------------------------------------------

  /** `rle(buf)`: the pixel loop over a `height * width` plane, run by run. The source loops
      forever when `getNextLength` returns 0 and writes past the plane when a run overruns it;
      both are errors here. The result follows the stream exactly while the read counter has
      not wrapped around, as it has not for a buffer whose reading has not begun. */
  method Decode(buf: RleBuffer) returns (res: Result<Mat>)
    requires buf.Valid()
    modifies buf
    ensures old(buf.readSize) <= buf.reg ==>
      res == AsPlane(buf.height, buf.width, DecodeFrom(buf.cb, old(buf.Pending()), old(buf.firstSymbol), buf.height * buf.width))
  {
    PlaneBound(buf.height, buf.width);
    var n := buf.height * buf.width;
    var a := new bv8[n](_ => 0);
    ghost var pend := buf.Pending();
    ghost var whole := DecodeFrom(buf.cb, pend, buf.firstSymbol, n);
    PrependEmpty(whole);
    var px := DecodeLoop(buf, a, buf.firstSymbol, buf.readSize <= buf.reg, whole, pend);
    res := if px.Ok? then Ok(Mat(buf.height, buf.width, 1, px.value)) else Err(px.error);
  }

  /** The pixel loop of `rle(buf)` over the plane `a`, from symbol `s`. */
  method DecodeLoop(buf: RleBuffer, a: array<bv8>, s: bv8, ghost tracked: bool, ghost whole: Result<seq<bv8>>, ghost p: seq<bool>)
      returns (res: Result<seq<bv8>>)
    requires buf.Valid() && a.Length < 0x1_0000_0000 && p == buf.Pending()
    requires tracked ==> buf.readSize <= buf.reg
    requires tracked ==> whole == Prepend([], DecodeFrom(buf.cb, p, s, a.Length))
    modifies buf, a
    ensures tracked ==> res == whole
  {
    var cur, x := s, 0;
    ghost var calls, pend, m, done := 0, p, a.Length, [];
    while x < a.Length
      invariant x <= a.Length && m == a.Length - x && done == a[..x]
      invariant calls <= x && buf.Valid() && pend == buf.Pending()
      invariant tracked ==> buf.readSize <= buf.reg || buf.readSize + 32 * calls >= U64
      invariant tracked ==> whole == Prepend(done, DecodeFrom(buf.cb, pend, cur, m))
    {
      var ctr, stop;
      ctr, stop, pend, m, done := Turn(buf, a, x, cur, calls, tracked, whole, pend, m, done);
      if stop.Some? {
        return Err(stop.value);
      }
      cur := Flip(cur);
      x := x + ctr;
      calls := calls + 1;
    }
    assert done == a[..];
    if tracked {
      PrependDone(buf.cb, pend, cur, done);
    }
    res := Ok(a[..]);
  }

  /** One turn of the pixel loop of `rle(buf)`: reads a run and writes it at `x`, or stops. */
  method Turn(buf: RleBuffer, a: array<bv8>, x: nat, cur: bv8, ghost calls: nat, ghost tracked: bool,
               ghost whole: Result<seq<bv8>>, ghost p: seq<bool>, ghost m: nat, ghost done: seq<bv8>)
      returns (ctr: nat, stop: Option<string>, ghost p': seq<bool>, ghost m': nat, ghost done': seq<bv8>)
    requires buf.Valid() && x < a.Length < 0x1_0000_0000 && calls <= x && p == buf.Pending()
    requires m == a.Length - x && done == a[..x]
    requires tracked ==> buf.readSize <= buf.reg || buf.readSize + 32 * calls >= U64
    requires tracked ==> whole == Prepend(done, DecodeFrom(buf.cb, p, cur, m))
    modifies buf, a
    ensures buf.Valid() && p' == buf.Pending()
    ensures stop.Some? && tracked ==> whole == Err(stop.value)
    ensures stop.None? ==> 1 <= ctr && x + ctr <= a.Length && m' == a.Length - (x + ctr) && done' == a[..x + ctr]
    ensures stop.None? && tracked ==> buf.readSize <= buf.reg || buf.readSize + 32 * (calls + 1) >= U64
    ensures stop.None? && tracked ==> whole == Prepend(done', DecodeFrom(buf.cb, p', Flip(cur), m'))
  {
    ctr := buf.GetNextLength();
    p' := buf.Pending();
    if ctr == 0 || x + ctr > a.Length {
      if tracked {
        DecodeStops(buf.cb, p, cur, m, done);
      }
      stop := Some(if ctr == 0 then Stalled else Overrun);
      m', done' := m, done;
      return;
    }
    stop := None;
    m' := m - ctr;
    FillRun(a, x, ctr, cur);
    done' := a[..x + ctr];
    assert done' == done + Fill(cur, ctr) by {
      assert a[..x + ctr] == a[..][..x + ctr];
    }
    if tracked {
      DecodeStep(buf.cb, p, cur, m, ctr, DecodeRun(buf.cb, p).used);
      PrependPrepend(done, Fill(cur, ctr), DecodeFrom(buf.cb, p', Flip(cur), m'));
    }
  }

  lemma PrependEmpty(r: Result<seq<bv8>>)
    ensures Prepend([], r) == r
  {
    if r.Ok? {
      assert [] + r.value == r.value;
    }
  }

  /** With no pixels left the decoder's result is what it has written. */
  lemma PrependDone(cb: Codebook, p: seq<bool>, s: bv8, done: seq<bv8>)
    requires WellFormed(cb)
    ensures Prepend(done, DecodeFrom(cb, p, s, 0)) == Ok(done)
  {
    assert done + [] == done;
  }

  /** The decoder stops at a zero length or at a run longer than the `m` pixels left. */
  lemma DecodeStops(cb: Codebook, p: seq<bool>, s: bv8, m: nat, done: seq<bv8>)
    requires WellFormed(cb) && m > 0
    ensures DecodeRun(cb, p).len == 0 ==> Prepend(done, DecodeFrom(cb, p, s, m)) == Err(Stalled)
    ensures DecodeRun(cb, p).len > m ==> Prepend(done, DecodeFrom(cb, p, s, m)) == Err(Overrun)
  {
  }

  /** A plane of 16-bit dimensions has fewer than 2^32 pixels. */
  lemma PlaneBound(h: U16, w: U16)
    ensures 0 <= h * w < 0x1_0000_0000
  {
    MulLe(h, 0xFFFF, w);
    MulLe(w, 0xFFFF, 0xFFFF);
    assert h * w <= 0xFFFF * w == w * 0xFFFF;
  }

  lemma {:induction false} MulLe(a: nat, b: nat, c: nat)
    requires a <= b
    ensures 0 <= a * c <= b * c
  {
    if c > 0 {
      MulLe(a, b, c - 1);
      assert a * c == a * (c - 1) + a;
      assert b * c == b * (c - 1) + b;
    }
  }

  /** The inner loop of `rle(buf)`: writes `ctr` pixels of symbol `s` from index `x`. */
  method FillRun(a: array<bv8>, x: nat, ctr: nat, s: bv8)
    requires x + ctr <= a.Length
    modifies a
    ensures a[..] == old(a[..x]) + Fill(s, ctr) + old(a[x + ctr..])
  {
    var i := 0;
    while i < ctr
      invariant i <= ctr
      invariant forall j :: 0 <= j < x ==> a[j] == old(a[j])
      invariant forall j :: x <= j < x + i ==> a[j] == s
      invariant forall j :: x + ctr <= j < a.Length ==> a[j] == old(a[j])
    {
      a[x + i] := s;
      i := i + 1;
    }
    assert a[..] == old(a[..x]) + Fill(s, ctr) + old(a[x + ctr..]);
  }

  // ---------------------------------------------------------------------------
  // The type search and the plane round trip
  // ---------------------------------------------------------------------------

  /** The type search of `encode`: every type is tried and the first of the smallest buffers wins. */
  method BestType(bp: Mat) returns (best: nat, bestt: int)
    ensures 0 <= bestt <= 5 && best == EncodedSize(bp, bestt)
    ensures forall t :: 0 <= t <= 5 ==> best <= EncodedSize(bp, t)
    ensures forall t :: 0 <= t < bestt ==> best < EncodedSize(bp, t)
  {
    best, bestt := 0, -1;
    for kind := 0 to 6
      invariant (kind == 0 && bestt == -1) || (0 <= bestt < kind && best == EncodedSize(bp, bestt))
      invariant forall t :: 0 <= t < kind ==> best <= EncodedSize(bp, t)
      invariant forall t :: 0 <= t < bestt ==> best < EncodedSize(bp, t)
    {
      var size := SizeOf(bp, kind);
      if bestt < 0 || size < best {
        LowerBound(bp, kind, best, size);
        best, bestt := size, kind;
      } else {
        KeepBound(bp, kind, best, size);
      }
    }
  }

  lemma KeepBound(bp: Mat, kind: int, best: nat, size: nat)
    requires 0 <= kind <= 5 && size == EncodedSize(bp, kind) && best <= size
    requires forall t :: 0 <= t < kind ==> best <= EncodedSize(bp, t)
    ensures forall t :: 0 <= t < kind + 1 ==> best <= EncodedSize(bp, t)
  {
  }

  lemma LowerBound(bp: Mat, kind: int, best: nat, size: nat)
    requires 0 <= kind <= 5 && size == EncodedSize(bp, kind)
    requires kind == 0 || size < best
    requires forall t :: 0 <= t < kind ==> best <= EncodedSize(bp, t)
    ensures forall t :: 0 <= t <= kind ==> size <= EncodedSize(bp, t)
    ensures forall t :: 0 <= t < kind ==> size < EncodedSize(bp, t)
  {
  }

  /** `rle(bp, kind).size()`. */
  method SizeOf(bp: Mat, kind: int) returns (size: nat)
    requires 0 <= kind <= 5
    ensures size == EncodedSize(bp, kind)
  {
    var buf := Encode(bp, kind);
    size := buf.Size();
  }

  /** `rle(bp, bestt)` after the type search: the plane coded with its best type. */
  method CompressPlane(bp: Mat) returns (buf: RleBuffer, bestt: int)
    ensures 0 <= bestt <= 5 && fresh(buf) && buf.Valid()
    ensures forall t :: 0 <= t <= 5 ==> buf.Size() <= EncodedSize(bp, t)
    ensures bp.channels == 1 ==> Encoded(buf, bp, bestt)
  {
    var best;
    best, bestt := BestType(bp);
    buf := Encode(bp, bestt);
  }

  /** A one-channel 0/255 plane whose runs all have a codeword comes back from
      `rle(rle(img, kind))` unchanged, whatever the type. */
  method PlaneRoundTrip(img: Mat, kind: int) returns (res: Result<Mat>)
    requires 0 <= kind <= 5 && img.channels == 1 && WellSized(img) && Binary(img.data)
    requires img.rows < 0x1_0000 && img.cols < 0x1_0000
    requires |img.data| > 0 ==> Fits(CodebookFor(kind), Runs(img.data))
    ensures res == Ok(img)
  {
    var buf := Encode(img, kind);
    ghost var p, s := buf.Pending(), buf.firstSymbol;
    EncodedStream(buf, img, kind);
    res := Decode(buf);
    PlaneDecodes(img, CodebookFor(kind), buf.height, buf.width, s, p);
  }

  /** What the decoder needs of an encoded buffer: its header, an unwrapped read counter, and
      the bits still to read. */
  lemma EncodedStream(buf: RleBuffer, img: Mat, kind: int)
    requires 0 <= kind <= 5 && img.channels == 1
    requires img.rows < 0x1_0000 && img.cols < 0x1_0000
    requires Encoded(buf, img, kind)
    ensures buf.cb == CodebookFor(kind) && WellFormed(buf.cb)
    ensures buf.height == img.rows && buf.width == img.cols && buf.readSize <= buf.reg
    ensures buf.firstSymbol == FirstSymbol(img.data, 0) && buf.readPos <= |buf.buffer|
    ensures var bits := RunsBits(buf.cb, Runs(img.data));
      |img.data| > 0 || buf.cb.dataLen[0] == 0 ==> buf.Pending() == bits + Zeros(Padding(|bits|))
    ensures |img.data| == 0 && buf.cb.dataLen[0] > 0 ==> buf.Pending() == EmptyPlaneBits(buf.cb)
  {
    CodebookForWellFormed(kind);
    Below16(img.rows);
    Below16(img.cols);
  }

  lemma Below16(x: nat)
    requires x < 0x1_0000
    ensures x % 0x1_0000 == x
  {
  }

  /** The arithmetic behind `PlaneRoundTrip`: the header gives the plane's pixel count back, and
      an empty plane decodes to no pixels whatever its stream holds. */
  lemma PlaneDecodes(img: Mat, cb: Codebook, h: nat, w: nat, s: bv8, p: seq<bool>)
    requires img.channels == 1 && WellSized(img) && Binary(img.data)
    requires WellFormed(cb) && (|img.data| > 0 ==> Fits(cb, Runs(img.data)))
    requires h == img.rows && w == img.cols && s == FirstSymbol(img.data, 0)
    requires var bits := RunsBits(cb, Runs(img.data)); |img.data| > 0 ==> p == bits + Zeros(Padding(|bits|))
    ensures AsPlane(h, w, DecodeFrom(cb, p, s, h * w)) == Ok(img)
  {
    assert h * w == |img.data|;
    if |img.data| > 0 {
      RoundTrip(cb, img.data, Zeros(Padding(|RunsBits(cb, Runs(img.data))|)));
    }
  }

  /** `rle(img)` of the older stand-alone coder: the type-0 coder over its fixed tables. */
  method LegacyEncode(img: Mat) returns (buf: RleBuffer)
    ensures fresh(buf) && buf.Valid() && buf.cb == Legacy
    ensures img.channels == 1 ==> Encoded(buf, img, 0)
  {
    LegacyTablesAreType0();
    buf := Encode(img, 0);
  }

  /** The older coder's round trip: every run up to 33555487 pixels has a codeword. */
  method LegacyRoundTrip(img: Mat) returns (res: Result<Mat>)
    requires img.channels == 1 && WellSized(img) && Binary(img.data)
    requires img.rows < 0x1_0000 && img.cols < 0x1_0000
    requires forall k :: 0 <= k < |Runs(img.data)| ==> Runs(img.data)[k] <= 33555487
    ensures res == Ok(img)
  {
    LegacyTablesAreType0();
    if |img.data| > 0 {
      RunsPositive(img.data);
      assert Fits(CodebookFor(0), Runs(img.data));
    }
    var buf := LegacyEncode(img);
    ghost var p, s := buf.Pending(), buf.firstSymbol;
    EncodedStream(buf, img, 0);
    res := Decode(buf);
    PlaneDecodes(img, Legacy, buf.height, buf.width, s, p);
  }
}
