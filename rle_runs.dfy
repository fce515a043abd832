/**
 * The run-length coder of a bit plane, as values: the runs the encoder's
 * pixel loop hands to `add`, the bits they become, and what the decoder's
 * pixel loop makes of a bit stream.  The image is flat: a continuous plane
 * is one row of rows * cols pixels.
 */
module RleRuns {
  import opened Bits
  import opened RleCodebook
  import opened Wrappers
  import opened Images

  // ---------------------------------------------------------------------------
  // The encoder's scan
  // ---------------------------------------------------------------------------

  /** The encoder's "no symbol yet" value of `current_symbol`. */
  const Unset: bv8 := 128

  /** `255 - s` on `uchar`: the other symbol of a 0/255 plane. */
  function Flip(s: bv8): (r: bv8)
    ensures s == 0 ==> r == 255
    ensures s == 255 ==> r == 0
  {
    255 - s
  }

  /** The encoder loop's variables: the current symbol, the open run, the runs passed to `add`,
      and the last value given to `setFirstSymbol`. */
  datatype ScanState = ScanState(cur: bv8, ctr: nat, runs: seq<nat>, first: Option<bv8>)

  const ScanStart: ScanState := ScanState(Unset, 0, [], None)

  /** One iteration of the encoder's pixel loop. */
  function ScanStep(s: ScanState, p: bv8): ScanState {
    var cur := if s.cur == Unset then p else s.cur;
    var first := if s.cur == Unset then Some(p) else s.first;
    if p != cur then ScanState(Flip(cur), 1, s.runs + [s.ctr], first)
    else ScanState(cur, s.ctr + 1, s.runs, first)
  }

  /** The loop's variables after the pixels `px`. */
  function Scan(px: seq<bv8>): ScanState {
    if |px| == 0 then ScanStart else ScanStep(Scan(px[..|px| - 1]), px[|px| - 1])
  }

  /** Every run length the encoder passes to `add`, the closing `add(ctr)` included. */
  function Runs(px: seq<bv8>): seq<nat> {
    Scan(px).runs + [Scan(px).ctr]
  }

  /** The header's first symbol after encoding `px`; `initial` if it was never set. */
  function FirstSymbol(px: seq<bv8>, initial: bv8): bv8 {
    match Scan(px).first
    case None => initial
    case Some(s) => s
  }

  predicate Positive(runs: seq<nat>) {
    forall k :: 0 <= k < |runs| ==> runs[k] >= 1
  }

  /** Every run fits the codebook: none is dropped by `add`. */
  predicate Fits(cb: Codebook, runs: seq<nat>)
    requires Sized(cb)
  {
    forall k :: 0 <= k < |runs| ==> 1 <= runs[k] <= cb.dataMax[Intervals - 1]
  }

  // ---------------------------------------------------------------------------
  // Runs as pixels and as bits
  // ---------------------------------------------------------------------------

  /** `n` pixels of value `s`. */
  function Fill(s: bv8, n: nat): (r: seq<bv8>)
    ensures |r| == n
  {
    seq(n, _ => s)
  }

  /** The pixels of alternating runs, the first of symbol `s`. */
  function Expand(runs: seq<nat>, s: bv8): seq<bv8> {
    if runs == [] then [] else Fill(s, runs[0]) + Expand(runs[1..], Flip(s))
  }

  function Sum(runs: seq<nat>): nat {
    if runs == [] then 0 else runs[0] + Sum(runs[1..])
  }

  /** The symbol of the run after `k` alternations from `s`. */
  function FlipN(s: bv8, k: nat): bv8 {
    if k % 2 == 0 then s else Flip(s)
  }

  /** The codeword of a run; an empty run has one only when bucket 0 carries no payload. */
  function Code(cb: Codebook, len: nat): seq<bool>
    requires Contiguous(cb)
  {
    if 1 <= len || cb.dataLen[0] == 0 then RunCode(cb, len) else []
  }

  /** The codeword of each run. */
  function Codes(cb: Codebook, runs: seq<nat>): (r: seq<seq<bool>>)
    requires Contiguous(cb)
    ensures |r| == |runs|
  {
    if runs == [] then [] else [Code(cb, runs[0])] + Codes(cb, runs[1..])
  }

  function Concat(parts: seq<seq<bool>>): seq<bool> {
    if parts == [] then [] else parts[0] + Concat(parts[1..])
  }

  /** The codewords of the runs, in order. */
  function RunsBits(cb: Codebook, runs: seq<nat>): seq<bool>
    requires Contiguous(cb)
  {
    Concat(Codes(cb, runs))
  }

  /** The number of bits `add` appends for a run (its codeword's width; none past the last bucket). */
  function CodeLen(cb: Codebook, len: int): nat
    requires Contiguous(cb)
  {
    var i := Bucket(cb, len);
    if i == Intervals then 0 else PrefLen[i] + cb.dataLen[i]
  }

  function BitLen(cb: Codebook, runs: seq<nat>): nat
    requires Contiguous(cb)
  {
    if runs == [] then 0 else CodeLen(cb, runs[0]) + BitLen(cb, runs[1..])
  }

  // ---------------------------------------------------------------------------
  // The decoder's pixel loop
  // ---------------------------------------------------------------------------

  /** The decoder's `getNextLength` returned 0: the source's pixel loop then never advances. */
  const Stalled := "no codeword prefix matches: the decoder never advances"
  /** A run longer than the pixels left: the source writes past the image. */
  const Overrun := "a run overruns the image"

  /** The pixels the decoder writes for `remaining` pixels from stream `p`, starting with symbol `s`.
      A zero length never advances the loop, and a run longer than the pixels left writes past the image. */
  function DecodeFrom(cb: Codebook, p: seq<bool>, s: bv8, remaining: nat): Result<seq<bv8>>
    requires WellFormed(cb)
    decreases remaining
  {
    if remaining == 0 then Ok([])
    else
      var r := DecodeRun(cb, p);
      if r.len == 0 then Err(Stalled)
      else if r.len > remaining then Err(Overrun)
      else Prepend(Fill(s, r.len), DecodeFrom(cb, Drop(p, r.used), Flip(s), remaining - r.len))
  }

  // ---------------------------------------------------------------------------
  // Lemmas
  // ---------------------------------------------------------------------------

  lemma FlipTwice(s: bv8)
    ensures Flip(Flip(s)) == s
  {
  }

  lemma FlipNNext(s: bv8, k: nat)
    ensures FlipN(s, k + 1) == Flip(FlipN(s, k))
    ensures FlipN(Flip(s), k) == FlipN(s, k + 1)
  {
    FlipTwice(s);
  }

  lemma {:induction false} ExpandSnoc(runs: seq<nat>, r: nat, s: bv8)
    ensures Expand(runs + [r], s) == Expand(runs, s) + Fill(FlipN(s, |runs|), r)
    decreases |runs|
  {
    if runs == [] {
      assert [] + [r] == [r];
      assert Expand([r], s) == Fill(s, r) + Expand([], Flip(s));
    } else {
      assert (runs + [r])[0] == runs[0];
      assert (runs + [r])[1..] == runs[1..] + [r];
      ExpandSnoc(runs[1..], r, Flip(s));
      FlipNNext(s, |runs| - 1);
    }
  }

  lemma {:induction false} ExpandLength(runs: seq<nat>, s: bv8)
    ensures |Expand(runs, s)| == Sum(runs)
    decreases |runs|
  {
    if runs != [] {
      ExpandLength(runs[1..], Flip(s));
    }
  }

  lemma {:induction false} ConcatSnoc(parts: seq<seq<bool>>, x: seq<bool>)
    ensures Concat(parts + [x]) == Concat(parts) + x
    decreases |parts|
  {
    if parts == [] {
      assert [] + [x] == [x];
      assert Concat([x]) == x + Concat([]);
    } else {
      assert (parts + [x])[0] == parts[0];
      assert (parts + [x])[1..] == parts[1..] + [x];
      ConcatSnoc(parts[1..], x);
    }
  }

  lemma {:induction false} CodesSnoc(cb: Codebook, runs: seq<nat>, r: nat)
    requires Contiguous(cb)
    ensures Codes(cb, runs + [r]) == Codes(cb, runs) + [Code(cb, r)]
    decreases |runs|
  {
    if runs == [] {
      assert [] + [r] == [r];
    } else {
      assert (runs + [r])[0] == runs[0];
      assert (runs + [r])[1..] == runs[1..] + [r];
      CodesSnoc(cb, runs[1..], r);
    }
  }

  lemma RunsBitsSnoc(cb: Codebook, runs: seq<nat>, r: nat)
    requires Contiguous(cb)
    ensures RunsBits(cb, runs + [r]) == RunsBits(cb, runs) + Code(cb, r)
  {
    CodesSnoc(cb, runs, r);
    ConcatSnoc(Codes(cb, runs), Code(cb, r));
  }

  /** The codewords of runs, front first. */
  lemma RunsBitsFront(cb: Codebook, runs: seq<nat>)
    requires Contiguous(cb) && runs != []
    ensures RunsBits(cb, runs) == Code(cb, runs[0]) + RunsBits(cb, runs[1..])
  {
  }

  lemma {:induction false} BitLenSnoc(cb: Codebook, runs: seq<nat>, r: nat)
    requires Contiguous(cb)
    ensures BitLen(cb, runs + [r]) == BitLen(cb, runs) + CodeLen(cb, r)
    decreases |runs|
  {
    if runs == [] {
      assert [] + [r] == [r];
    } else {
      assert (runs + [r])[0] == runs[0];
      assert (runs + [r])[1..] == runs[1..] + [r];
      BitLenSnoc(cb, runs[1..], r);
    }
  }

  /** Every run the scan closes, and the open one once a pixel has been seen, is at least 1 long. */
  lemma {:induction false} ScanPositive(px: seq<bv8>)
    ensures Positive(Scan(px).runs)
    ensures |px| > 0 <==> Scan(px).ctr >= 1
  {
    if |px| > 0 {
      ScanPositive(px[..|px| - 1]);
    }
  }

  lemma RunsPositive(px: seq<bv8>)
    requires |px| > 0
    ensures Positive(Runs(px))
  {
    ScanPositive(px);
  }

  /** A pixel equal to the current symbol extends the open run. */
  lemma ExtendRun(runs: seq<nat>, f: bv8, cur: bv8, ctr: nat, pre: seq<bv8>)
    requires Expand(runs, f) + Fill(cur, ctr) == pre
    ensures Expand(runs, f) + Fill(cur, ctr + 1) == pre + [cur]
  {
    assert Fill(cur, ctr + 1) == Fill(cur, ctr) + [cur];
  }

  /** A pixel of the other symbol closes the open run and opens one of length 1. */
  lemma CloseRun(runs: seq<nat>, f: bv8, cur: bv8, ctr: nat, pre: seq<bv8>)
    requires cur == FlipN(f, |runs|) && Expand(runs, f) + Fill(cur, ctr) == pre
    ensures Flip(cur) == FlipN(f, |runs| + 1)
    ensures Expand(runs + [ctr], f) + Fill(Flip(cur), 1) == pre + [Flip(cur)]
  {
    ExpandSnoc(runs, ctr, f);
    FlipNNext(f, |runs|);
    assert Fill(Flip(cur), 1) == [Flip(cur)];
  }

  /** The scan of a 0/255 plane: the current symbol is the last pixel, it alternates with each
      closed run from the first pixel, and the closed runs then the open one spell the pixels. */
  lemma {:induction false} ScanBinary(px: seq<bv8>)
    requires Binary(px) && |px| > 0
    ensures var st := Scan(px);
      && st.first == Some(px[0])
      && st.cur == px[|px| - 1] == FlipN(px[0], |st.runs|)
      && Expand(st.runs, px[0]) + Fill(st.cur, st.ctr) == px
  {
    var pre := px[..|px| - 1];
    var p := px[|px| - 1];
    assert px == pre + [p];
    assert Scan(px) == ScanStep(Scan(pre), p);
    if |pre| == 0 {
      assert Fill(p, 1) == [p];
    } else {
      assert Binary(pre);
      ScanBinary(pre);
      var st := Scan(pre);
      assert pre[0] == px[0];
      if p == st.cur {
        ExtendRun(st.runs, px[0], st.cur, st.ctr, pre);
      } else {
        assert p == Flip(st.cur);
        CloseRun(st.runs, px[0], st.cur, st.ctr, pre);
      }
    }
  }

  /** Expanding the runs of a 0/255 plane from its first pixel gives the plane back. */
  lemma RunsExpand(px: seq<bv8>)
    requires Binary(px) && |px| > 0
    ensures Expand(Runs(px), px[0]) == px
    ensures Sum(Runs(px)) == |px|
    ensures FirstSymbol(px, 0) == px[0]
  {
    var st := Scan(px);
    ScanBinary(px);
    ExpandSnoc(st.runs, st.ctr, px[0]);
    ExpandLength(Runs(px), px[0]);
  }

  /** One turn of the decoder's loop, for a run that fits the pixels left. */
  lemma DecodeStep(cb: Codebook, p: seq<bool>, s: bv8, n: nat, len: nat, used: nat)
    requires WellFormed(cb) && DecodeRun(cb, p) == Run(len, used) && 1 <= len <= n
    ensures DecodeFrom(cb, p, s, n) == Prepend(Fill(s, len), DecodeFrom(cb, Drop(p, used), Flip(s), n - len))
  {
  }

  lemma SplitHead(whole: seq<bool>, head: seq<bool>, body: seq<bool>, rest: seq<bool>)
    requires whole == head + body
    ensures whole + rest == head + (body + rest)
    ensures Drop(head + (body + rest), |head|) == body + rest
  {
    assert (head + (body + rest))[|head|..] == body + rest;
  }

  /** The codeword of a run that fits, in front of any stream, reads back as that run. */
  lemma CodeHead(cb: Codebook, len: nat, tail: seq<bool>)
    requires WellFormed(cb) && 1 <= len <= cb.dataMax[Intervals - 1]
    ensures DecodeRun(cb, Code(cb, len) + tail) == Run(len, |Code(cb, len)|)
    ensures Drop(Code(cb, len) + tail, |Code(cb, len)|) == tail
  {
    var code := RunCode(cb, len);
    assert Code(cb, len) == code;
    DecodeRunCode(cb, len, tail);
    assert (code + tail)[|code|..] == tail;
  }

  /** A run in front of a stream that decodes to `px` decodes to that run followed by `px`. */
  lemma DecodeHead(cb: Codebook, p: seq<bool>, tail: seq<bool>, s: bv8, len: nat, used: nat, m: nat, px: seq<bv8>)
    requires WellFormed(cb) && 1 <= len && DecodeRun(cb, p) == Run(len, used) && Drop(p, used) == tail
    requires DecodeFrom(cb, tail, Flip(s), m) == Ok(px)
    ensures DecodeFrom(cb, p, s, len + m) == Ok(Fill(s, len) + px)
  {
    var n := len + m;
    DecodeStep(cb, p, s, n, len, used);
    assert n - len == m;
    assert DecodeFrom(cb, p, s, n) == Prepend(Fill(s, len), Ok(px));
  }

  /** Decoding the codewords of runs that fit gives back their pixels, whatever follows them. */
  lemma {:induction false} DecodeRuns(cb: Codebook, runs: seq<nat>, rest: seq<bool>, s: bv8)
    requires WellFormed(cb) && Fits(cb, runs)
    ensures DecodeFrom(cb, RunsBits(cb, runs) + rest, s, Sum(runs)) == Ok(Expand(runs, s))
    decreases |runs|
  {
    if runs == [] {
      assert RunsBits(cb, runs) == [];
    } else {
      assert Fits(cb, runs[1..]);
      DecodeRuns(cb, runs[1..], rest, Flip(s));
      var code, body := Code(cb, runs[0]), RunsBits(cb, runs[1..]);
      RunsBitsFront(cb, runs);
      SplitHead(RunsBits(cb, runs), code, body, rest);
      CodeHead(cb, runs[0], body + rest);
      DecodeHead(cb, RunsBits(cb, runs) + rest, body + rest, s, runs[0], |code|, Sum(runs[1..]), Expand(runs[1..], Flip(s)));
    }
  }

  lemma RoundTrip(cb: Codebook, px: seq<bv8>, rest: seq<bool>)
    requires WellFormed(cb) && Binary(px) && |px| > 0 && Fits(cb, Runs(px))
    ensures DecodeFrom(cb, RunsBits(cb, Runs(px)) + rest, FirstSymbol(px, 0), |px|) == Ok(px)
  {
    RunsExpand(px);
    DecodeRuns(cb, Runs(px), rest, px[0]);
  }

  /** The codewords of runs that all code take exactly their widths. */
  lemma {:induction false} RunsBitsLength(cb: Codebook, runs: seq<nat>)
    requires Contiguous(cb) && (Positive(runs) || cb.dataLen[0] == 0)
    ensures |RunsBits(cb, runs)| == BitLen(cb, runs)
    decreases |runs|
  {
    if runs != [] {
      RunsBitsLength(cb, runs[1..]);
      var i := Bucket(cb, runs[0]);
      if i < Intervals {
        PrefixTables(i);
      }
    }
  }
}
