/**
 * The Huffman coder's round trip: what `dechuf` reads back from the bytes `enchuf` writes is
 * the input. The decoder meets the header's fields in the order the encoder put them, places
 * the pairs in the slots of the encoder's table, rebuilds the tree's shape with `build`, and
 * walks each byte's string to that byte's leaf.
 */
module HuffmanRoundTrip {
  import opened Bits
  import opened Wrappers
  import opened BitFiles
  import opened Huffman
  import opened HuffmanCodec
  import opened HuffmanDecoder

  // ---------------------------------------------------------------------------
  // The pairs
  // ---------------------------------------------------------------------------

  /** What the header's pairs need of the table: two entries or more and at most 257, the
      marker at e with a non-empty string, every other value a byte, every length below
      2^lw. */
  predicate TableOk(t: seq<Encoding>, e: nat, lw: nat) {
    2 <= |t| <= 257 && e < |t| && t[e].code == -1 && |t[e].str| >= 1 && |t[e].str| < Pow2(lw) &&
    forall k :: 0 <= k < |t| && k != e ==> 0 <= t[k].code < 256 && |t[k].str| < Pow2(lw)
  }

  /** The slot array once the pairs before slot j are in: the marker's slot and the slots below
      j hold the table's (value, length) pairs, the others are blank. */
  function Expected(t: seq<Encoding>, e: nat, j: nat): (d: seq<Slot>)
    ensures |d| == 257
  {
    seq(257, k requires 0 <= k < 257 => if k < |t| && (k < j || k == e) then Slot(t[k].code, |t[k].str|) else Slot(0, 0))
  }

  /** How many pairs are still to be read once slot j is next: the entries from j on, the
      marker's not among them. */
  function Left(n: nat, e: nat, j: nat): nat
    requires e < n && j <= n
  {
    if j <= e then n - j - 1 else n - j
  }

  /** One turn of the pair loop reads the next entry's pair into its slot, past the marker's. */
  lemma FillStep(t: seq<Encoding>, e: nat, lw: nat, j: nat, j': nat, rest: seq<bool>)
    requires TableOk(t, e, lw) && j < |t| && Left(|t|, e, j) > 0 && j' == if j == e then j + 2 else j + 1
    ensures j' <= |t| && Left(|t|, e, j') == Left(|t|, e, j) - 1
    ensures Fill(Expected(t, e, j), j, Left(|t|, e, j), EntriesFrom(t, j, lw) + rest, 8, lw) ==
      Fill(Expected(t, e, j'), j', Left(|t|, e, j'), EntriesFrom(t, j', lw) + rest, 8, lw)
  {
    var at := j' - 1;
    EntryAt(t, e, lw, j, at, rest);
    ExpectedStep(t, e, j, at);
    FillOne(Expected(t, e, j), Expected(t, e, j'), j, at, j', Left(|t|, e, j), Left(|t|, e, j'),
      t[at].code, |t[at].str|, EntriesFrom(t, j, lw) + rest, EntriesFrom(t, j', lw) + rest, lw);
  }

  /** The entry read at slot j: the next one that is not the marker's. */
  lemma EntryAt(t: seq<Encoding>, e: nat, lw: nat, j: nat, at: nat, rest: seq<bool>)
    requires TableOk(t, e, lw) && j < |t| && Left(|t|, e, j) > 0 && at == if j == e then j + 1 else j
    ensures at < |t| && at != e && 0 <= t[at].code < 256 && |t[at].str| < Pow2(lw)
    ensures EntriesFrom(t, j, lw) + rest ==
      IntBits(t[at].code, 8) + (IntBits(|t[at].str|, lw) + (EntriesFrom(t, at + 1, lw) + rest))
  {
    if j == e {
      assert EntriesFrom(t, j, lw) == EntriesFrom(t, at, lw);
    }
    assert EntriesFrom(t, at, lw) == Item(t[at], lw) + EntriesFrom(t, at + 1, lw);
    Cat(IntBits(t[at].code, 8), IntBits(|t[at].str|, lw), EntriesFrom(t, at + 1, lw));
    Cat(IntBits(t[at].code, 8) + IntBits(|t[at].str|, lw), EntriesFrom(t, at + 1, lw), rest);
    Cat(IntBits(t[at].code, 8), IntBits(|t[at].str|, lw), EntriesFrom(t, at + 1, lw) + rest);
  }

  /** The slot taken is the marker's exactly, and writing the pair at `at` gives the slot array
      of the next turn. */
  lemma ExpectedStep(t: seq<Encoding>, e: nat, j: nat, at: nat)
    requires e < |t| <= 257 && |t[e].str| >= 1 && j < |t| && at == (if j == e then j + 1 else j) && at < |t| && at != e
    ensures Expected(t, e, j)[j].size != 0 <==> j == e
    ensures Expected(t, e, j)[at := Slot(t[at].code, |t[at].str|)] == Expected(t, e, at + 1)
  {
  }

  /** One turn of `Fill` on a pair of fields that fits its widths. */
  lemma FillOne(d: seq<Slot>, d': seq<Slot>, j: nat, at: nat, j': nat, left: nat, left': nat,
                code: int, len: nat, u: seq<bool>, r: seq<bool>, lw: nat)
    requires left > 0 && j < |d| && at < |d| && at == (if d[j].size != 0 then j + 1 else j)
    requires 0 <= code < 256 && len < Pow2(lw) && j' == at + 1 && left' == left - 1
    requires u == IntBits(code, 8) + (IntBits(len, lw) + r) && d' == d[at := Slot(code, len)]
    ensures Fill(d, j, left, u, 8, lw) == Fill(d', j', left', r, 8, lw)
  {
    Pow2Byte();
    FieldOfString(code, 8, IntBits(len, lw) + r);
    LowSmall(code, 8);
    FieldOfString(len, lw, r);
    LowSmall(len, lw);
  }

  /** The pair loop, from slot j to the end: the slots end up holding every pair of the table,
      and the loop stops right after the last pair. */
  lemma {:induction false} FillFrom(t: seq<Encoding>, e: nat, lw: nat, j: nat, rest: seq<bool>)
    requires TableOk(t, e, lw) && j <= |t|
    ensures Fill(Expected(t, e, j), j, Left(|t|, e, j), EntriesFrom(t, j, lw) + rest, 8, lw) ==
      Ok((Expected(t, e, |t|), rest))
    decreases |t| - j
  {
    if Left(|t|, e, j) == 0 {
      if j < |t| {
        assert EntriesFrom(t, j, lw) == EntriesFrom(t, j + 1, lw);
      }
      assert EntriesFrom(t, j, lw) == [];
      assert [] + rest == rest;
      assert Expected(t, e, j) == Expected(t, e, |t|);
    } else {
      FillStep(t, e, lw, j, if j == e then j + 2 else j + 1, rest);
      FillFrom(t, e, lw, if j == e then j + 2 else j + 1, rest);
    }
  }

  // ---------------------------------------------------------------------------
  // The encoder's table
  // ---------------------------------------------------------------------------

  /** The table's values are the tree's leaf values, in the same order. */
  lemma TableCodesOfTree(root: Node)
    ensures TableCodes(CodeTable(root, [])) == Codes(Leaves(root))
  {
    var t := CodeTable(root, []);
    forall k | 0 <= k < |t|
      ensures TableCodes(t)[k] == Codes(Leaves(root))[k]
    {
      CodeTableAt(root, [], k);
    }
  }

  /** The flags of the 8-bit encoder without a trailing byte: bit 0 for a long string, bit 1 for
      a long table, and neither bit 2 nor bit 3; read back, they select the same widths. */
  lemma FlagFacts(t: seq<Encoding>)
    ensures var big := Flags(t, -1);
      big & 4 == 0 && !FlagSet(big as int, 4) && !FlagSet(big as int, 8) &&
      Width(big as int, 1) == LenWidth(big) && Width(big as int, 2) == CountWidth(big) &&
      (LenWidth(big) == 16 <==> LongString(t)) && (CountWidth(big) == 16 <==> |t| - 1 >= 256)
  {
  }

  /** The table of a tree that meets the format's needs meets the header's. */
  lemma TableOfTree(root: Node, input: seq<Byte>)
    requires Codable(root, input)
    ensures var t := CodeTable(root, []);
      TableOk(t, Lookup(t, -1), LenWidth(Flags(t, -1))) && Distinct(TableCodes(t)) &&
      forall x :: 0 <= x < |input| ==> input[x] in TableCodes(t)
  {
    var t := CodeTable(root, []);
    var e := Lookup(t, -1);
    var lw := LenWidth(Flags(t, -1));
    TableCodesOfTree(root);
    FlagFacts(t);
    Pow2Byte();
    Pow2Word();
    forall k | 0 <= k < |t|
      ensures |t[k].str| < Pow2(lw) && (k != e ==> 0 <= t[k].code < 256)
    {
      CodeTableAt(root, [], k);
      PathLength(root, k);
      DepthBound(root, k);
      assert |t[k].str| == Depth(root, k);
      if k != e {
        assert TableCodes(t)[k] != TableCodes(t)[e];
      }
    }
    CodeTableAt(root, [], e);
    InteriorDepth(root, e);
  }

  // ---------------------------------------------------------------------------
  // The header
  // ---------------------------------------------------------------------------

  /** The encoded bits of a tree, field by field: the flags, the count less one, the marker's
      position and length, the pairs, the payload and the marker's string. */
  lemma Layout(t: seq<Encoding>, input: seq<Byte>, z: seq<bool>)
    requires |t| >= 2
    ensures var e := Lookup(t, -1); var big := Flags(t, -1);
      Header(t, -1) + PayloadFrom(t, input, 0) + t[e].str + z ==
        IntBits(big as int, 8) + (IntBits(|t| - 2, CountWidth(big)) + (IntBits(e, 32) +
        (IntBits(|t[e].str|, LenWidth(big)) + (EntriesFrom(t, 0, LenWidth(big)) +
        (PayloadFrom(t, input, 0) + (t[e].str + z))))))
  {
    var e := Lookup(t, -1);
    var big := Flags(t, -1);
    var lw := LenWidth(big);
    var A, C, D, L := IntBits(big as int, 8), IntBits(|t| - 2, CountWidth(big)), IntBits(e, 32), IntBits(|t[e].str|, lw);
    var E, P, M := EntriesFrom(t, 0, lw), PayloadFrom(t, input, 0), t[e].str;
    Nest3(Header(t, -1), P, M, z);
    LeadingOf(t);
    Cat(A + (C + (D + L)), E, P + (M + z));
    Nest4(A, C, D, L, E + (P + (M + z)));
  }

  /** The leading fields of the 8-bit encoder without a trailing byte, for two entries or
      more: bit 2 is clear and the count is written. */
  lemma LeadingOf(t: seq<Encoding>)
    requires |t| >= 2
    ensures var e := Lookup(t, -1); var big := Flags(t, -1);
      Leading(big, -1, |t| - 1, e, |t[e].str|) ==
        IntBits(big as int, 8) + (IntBits(|t| - 2, CountWidth(big)) + (IntBits(e, 32) + IntBits(|t[e].str|, LenWidth(big))))
  {
    FlagFacts(t);
    var big := Flags(t, -1);
    assert Optional(big & 4 != 0, -1, 8) == [];
    assert Optional(|t| - 1 > 0, |t| - 1 - 1, CountWidth(big)) == IntBits(|t| - 2, CountWidth(big));
    var R := IntBits(|t| - 2, CountWidth(big)) + (IntBits(Lookup(t, -1), 32) + IntBits(|t[Lookup(t, -1)].str|, LenWidth(big)));
    assert [] + R == R;
  }

  lemma Nest3(a: seq<bool>, b: seq<bool>, c: seq<bool>, z: seq<bool>)
    ensures a + b + c + z == a + (b + (c + z))
  {
    Cat(a + b, c, z);
    Cat(a, b, c + z);
  }

  lemma Nest4(a: seq<bool>, c: seq<bool>, d: seq<bool>, l: seq<bool>, r: seq<bool>)
    ensures (a + (c + (d + l))) + r == a + (c + (d + (l + r)))
  {
    Cat(a, c + (d + l), r);
    Cat(c, d + l, r);
    Cat(d, l, r);
  }

  /** `read_bits(n)` of a field `make_string(v, n)` that fits gives v back. */
  lemma ReadOf(v: nat, n: nat, rest: seq<bool>)
    requires v < Pow2(n)
    ensures Read(IntBits(v, n) + rest, n) == Ok((v, rest))
  {
    FieldOfString(v, n, rest);
    LowSmall(v, n);
  }

  /** A value below 256 read back from a field of 8 or 16 bits, or of 32. */
  lemma ReadSmall(v: nat, n: nat, rest: seq<bool>)
    requires v < 256 && (n == 8 || n == 16 || n == 32)
    ensures Read(IntBits(v, n) + rest, n) == Ok((v, rest))
  {
    Pow2Byte();
    Pow2Word();
    ReadOf(v, n, rest);
  }

  /** The leading fields read back: the flags, no trailing byte, the count of pairs and the
      marker's position. */
  lemma FieldsOf(big: bv8, c: nat, e: nat, cw: nat, rest: seq<bool>)
    requires !FlagSet(big as int, 4) && Width(big as int, 2) == cw && c < 256 && e < 257
    requires cw == 8 || cw == 16
    ensures ReadFields(IntBits(big as int, 8) + (IntBits(c, cw) + (IntBits(e, 32) + rest))) ==
      Ok((Fields(big as int, -1, c + 1, e), rest))
  {
    var r1 := IntBits(c, cw) + (IntBits(e, 32) + rest);
    ReadSmall(big as int, 8, r1);
    PlacesOf(big as int, c, e, cw, rest);
    FieldsRead(big as int, IntBits(big as int, 8) + r1, r1, Fields(big as int, -1, c + 1, e), rest);
  }

  /** The count and the marker's position read back. */
  lemma PlacesOf(big: nat, c: nat, e: nat, cw: nat, rest: seq<bool>)
    requires Width(big, 2) == cw && c < 256 && e < 257 && (cw == 8 || cw == 16)
    ensures ReadPlaces(big, -1, IntBits(c, cw) + (IntBits(e, 32) + rest)) == Ok((Fields(big, -1, c + 1, e), rest))
  {
    var r2 := IntBits(e, 32) + rest;
    ReadSmall(c, cw, r2);
    ReadWord(e, rest);
    PlacesRead(big, c, e, IntBits(c, cw) + r2, r2, rest);
  }

  /** `ReadFields` from its reads. */
  lemma FieldsRead(big: nat, u: seq<bool>, r1: seq<bool>, f: Fields, rest: seq<bool>)
    requires Read(u, 8) == Ok((big, r1)) && !FlagSet(big, 4) && ReadPlaces(big, -1, r1) == Ok((f, rest))
    ensures ReadFields(u) == Ok((f, rest))
  {
  }

  /** `ReadPlaces` from its reads. */
  lemma PlacesRead(big: nat, c: nat, e: nat, r1: seq<bool>, r2: seq<bool>, rest: seq<bool>)
    requires Read(r1, Width(big, 2)) == Ok((c, r2)) && Read(r2, 32) == Ok((e, rest))
    ensures ReadPlaces(big, -1, r1) == Ok((Fields(big, -1, c + 1, e), rest))
  {
  }

  /** The marker's position read back from its 32 bits. */
  lemma ReadWord(e: nat, rest: seq<bool>)
    requires e < 257
    ensures Read(IntBits(e, 32) + rest, 32) == Ok((e, rest))
  {
    Pow2Word();
    ReadOf(e, 32, rest);
  }

  /** The slot array with only the marker's pair is that of the pair loop's first turn. */
  lemma SlotsExpected(t: seq<Encoding>, e: nat)
    requires e < |t| <= 257 && t[e].code == -1
    ensures Slots(256, e, |t[e].str|) == Expected(t, e, 0)
  {
  }

  /** After the pair loop the slots begin with the pairs of the tree, in `Encode`'s order. */
  lemma ExpectedPairs(root: Node, e: nat)
    requires |Leaves(root)| <= 257 && e < |Leaves(root)|
    ensures var t := CodeTable(root, []); Expected(t, e, |t|)[..|t|] == Pairs(root, 0)
  {
    var t := CodeTable(root, []);
    forall k | 0 <= k < |t|
      ensures Expected(t, e, |t|)[k] == Pairs(root, 0)[k]
    {
      CodeTableAt(root, [], k);
      PathLength(root, k);
      PairsAt(root, 0, k);
    }
  }

  // ---------------------------------------------------------------------------
  // The walk
  // ---------------------------------------------------------------------------

  /** The decoder's tree gives leaf k the path and the value of entry k of the table. */
  lemma ShapeEntry(root: Node, k: nat)
    requires k < |Leaves(root)|
    ensures var t := CodeTable(root, []);
      Path(Shape(root), k) == t[k].str && Leaves(Shape(root))[k].code == t[k].code
  {
    ShapeCodeTable(root, []);
    CodeTableAt(Shape(root), [], k);
    assert [] + Path(Shape(root), k) == Path(Shape(root), k);
  }

  /** The walk over the payload from byte x on, then the marker's string, writes the input's
      bytes from x on. */
  lemma {:induction false} WalkPayload(root: Node, input: seq<Byte>, x: nat, z: seq<bool>)
    requires root.Interior? && x <= |input|
    requires var t := CodeTable(root, []);
      Lookup(t, -1) < |t| && t[Lookup(t, -1)].code == -1 && forall y :: 0 <= y < |input| ==> input[y] in TableCodes(t)
    ensures var t := CodeTable(root, []); var S := Shape(root);
      Walk(S, S, PayloadFrom(t, input, x) + (t[Lookup(t, -1)].str + z), false) == Ok(input[x..])
    decreases |input| - x
  {
    var t := CodeTable(root, []);
    var e := Lookup(t, -1);
    if x == |input| {
      WalkEnd(root, input, x, z, t, e);
    } else {
      WalkPayload(root, input, x + 1, z);
      WalkStep(root, input, x, z, t, e, Shape(root));
    }
  }

  /** Past the last byte the walk reads the marker's string and stops. */
  lemma WalkEnd(root: Node, input: seq<Byte>, x: nat, z: seq<bool>, t: seq<Encoding>, e: int)
    requires root.Interior? && x == |input| && t == CodeTable(root, []) && e == Lookup(t, -1)
    requires 0 <= e < |t| && t[e].code == -1
    ensures Walk(Shape(root), Shape(root), PayloadFrom(t, input, x) + (t[e].str + z), false) == Ok(input[x..])
  {
    assert PayloadFrom(t, input, x) == [];
    assert [] + (t[e].str + z) == t[e].str + z;
    ShapeEntry(root, e);
    WalkPath(Shape(root), Shape(root), e, z, false);
    assert input[x..] == [];
  }

  /** The walk over byte x's string writes byte x, then goes on from byte x + 1. */
  lemma WalkStep(root: Node, input: seq<Byte>, x: nat, z: seq<bool>, t: seq<Encoding>, e: int, S: Node)
    requires root.Interior? && x < |input| && t == CodeTable(root, []) && e == Lookup(t, -1) && S == Shape(root)
    requires 0 <= e < |t| && t[e].code == -1 && input[x] in TableCodes(t)
    requires Walk(S, S, PayloadFrom(t, input, x + 1) + (t[e].str + z), false) == Ok(input[x + 1..])
    ensures Walk(S, S, PayloadFrom(t, input, x) + (t[e].str + z), false) == Ok(input[x..])
  {
    var k := Lookup(t, input[x]);
    var rest := PayloadFrom(t, input, x + 1) + (t[e].str + z);
    Cat(t[k].str, PayloadFrom(t, input, x + 1), t[e].str + z);
    ShapeEntry(root, k);
    WalkPath(S, S, k, rest, false);
    assert t[k].code == input[x];
    WalkCons(input[x], Walk(S, S, t[k].str + rest, false), Walk(S, S, rest, false), input[x + 1..], input[x..]);
  }

  /** A walk that writes byte b and then `tail` writes `[b] + tail`. */
  lemma WalkCons(b: Byte, w: Result<seq<Byte>>, wr: Result<seq<Byte>>, tail: seq<Byte>, all: seq<Byte>)
    requires w == Prepend(Emit(b, false), wr) && wr == Ok(tail) && all == [b] + tail
    ensures w == Ok(all)
  {
    assert Emit(b, false) == [b];
  }

  // ---------------------------------------------------------------------------
  // The round trip
  // ---------------------------------------------------------------------------

  /** What `dechuf` reads back from the bytes `enchuf` writes for a non-empty input is the
      input. */
  lemma RoundTrip(input: seq<Byte>, root: Node, out: seq<Byte>)
    requires input != [] && Coded(input, root)
    requires BytesBits(out) == Encoded(input, root) + Zeros(Pad(|Encoded(input, root)|))
    ensures Decoded(out) == Ok(input)
  {
    CodedCodable(input, root);
    TableOfTree(root, input);
    var t := CodeTable(root, []);
    var e := Lookup(t, -1);
    var big := Flags(t, -1);
    var lw, cw := LenWidth(big), CountWidth(big);
    var z := Zeros(Pad(|Encoded(input, root)|));
    FlagFacts(t);
    Layout(t, input, z);
    var R4 := IntBits(|t[e].str|, lw) + (EntriesFrom(t, 0, lw) + (PayloadFrom(t, input, 0) + (t[e].str + z)));
    FieldsOf(big, |t| - 2, e, cw, R4);
    var f := Fields(big as int, -1, |t| - 1, e);
    BodyOf(root, input, z, t, e, lw, f);
    DecodedFrom(out, IntBits(big as int, 8) + (IntBits(|t| - 2, cw) + (IntBits(e, 32) + R4)), f, R4, Ok(input));
  }

  /** `Decoded` from the leading fields and the body. */
  lemma DecodedFrom(out: seq<Byte>, u: seq<bool>, f: Fields, r: seq<bool>, result: Result<seq<Byte>>)
    requires out != [] && BytesBits(out) == u && ReadFields(u) == Ok((f, r)) && DecodeBody(f, r) == result
    ensures Decoded(out) == result
  {
  }

  /** `enchuf` followed by `dechuf` gives back the input, for every input. */
  method EncodeDecode(input: seq<Byte>) returns (r: Result<seq<Byte>>)
    ensures r == Ok(input)
  {
    var out;
    ghost var root;
    out, root := EncHuf(input);
    if input != [] {
      RoundTrip(input, root, out);
    }
    r := DecHuf(out);
  }

  /** Everything after the leading fields decodes to the input. */
  lemma BodyOf(root: Node, input: seq<Byte>, z: seq<bool>, t: seq<Encoding>, e: nat, lw: nat, f: Fields)
    requires root.Interior? && t == CodeTable(root, []) && e == Lookup(t, -1) && TableOk(t, e, lw)
    requires forall y :: 0 <= y < |input| ==> input[y] in TableCodes(t)
    requires f.cnt == |t| - 1 && f.last == -1 && f.marker == e
    requires Width(f.big, 8) == 8 && Width(f.big, 1) == lw && !FlagSet(f.big, 8)
    ensures DecodeBody(f, IntBits(|t[e].str|, lw) + (EntriesFrom(t, 0, lw) + (PayloadFrom(t, input, 0) + (t[e].str + z)))) ==
              Ok(input)
  {
    var R5 := EntriesFrom(t, 0, lw) + (PayloadFrom(t, input, 0) + (t[e].str + z));
    ReadOf(|t[e].str|, lw, R5);
    SlotsExpected(t, e);
    SlotsOf(root, input, z, t, e, lw, f);
    BodyFrom(f, IntBits(|t[e].str|, lw) + R5, |t[e].str|, lw, R5, Expected(t, e, 0), Ok(input));
  }

  /** The pair loop, `build` and the walk, from the initial slot array on. */
  lemma SlotsOf(root: Node, input: seq<Byte>, z: seq<bool>, t: seq<Encoding>, e: nat, lw: nat, f: Fields)
    requires root.Interior? && t == CodeTable(root, []) && e == Lookup(t, -1) && TableOk(t, e, lw)
    requires forall y :: 0 <= y < |input| ==> input[y] in TableCodes(t)
    requires f.cnt == |t| - 1 && f.last == -1 && Width(f.big, 8) == 8 && Width(f.big, 1) == lw && !FlagSet(f.big, 8)
    ensures DecodeSlots(f, Expected(t, e, 0), EntriesFrom(t, 0, lw) + (PayloadFrom(t, input, 0) + (t[e].str + z))) ==
              Ok(input)
  {
    var R6 := PayloadFrom(t, input, 0) + (t[e].str + z);
    FillFrom(t, e, lw, 0, R6);
    FillThen(f, Expected(t, e, 0), EntriesFrom(t, 0, lw) + R6, Expected(t, e, |t|), R6, Left(|t|, e, 0), 8, lw);
    TreeOf(root, input, z, t, e, f);
  }

  /** `build` and the walk, from the filled slot array on. */
  lemma TreeOf(root: Node, input: seq<Byte>, z: seq<bool>, t: seq<Encoding>, e: nat, f: Fields)
    requires root.Interior? && t == CodeTable(root, []) && e == Lookup(t, -1) && e < |t| <= 257 && t[e].code == -1
    requires forall y :: 0 <= y < |input| ==> input[y] in TableCodes(t)
    requires f.last == -1 && !FlagSet(f.big, 8)
    ensures DecodeTree(f, Expected(t, e, |t|), PayloadFrom(t, input, 0) + (t[e].str + z)) == Ok(input)
  {
    var d := Expected(t, e, |t|);
    var r := PayloadFrom(t, input, 0) + (t[e].str + z);
    ExpectedPairs(root, e);
    assert d[0..0 + |Leaves(root)|] == Pairs(root, 0);
    BuildInverts(root, d, 0, 0);
    WalkPayload(root, input, 0, z);
    assert Walk(Shape(root), Shape(root), r, false) == Ok(input[0..]);
    TreeThen(f, d, r, (Shape(root), |t|), input[0..], false);
    assert input[0..] + [] == input;
  }

  /** `DecodeBody` from the marker's length and what follows it. */
  lemma BodyFrom(f: Fields, u: seq<bool>, len: nat, lw: nat, r: seq<bool>, d: seq<Slot>, result: Result<seq<Byte>>)
    requires f.marker <= Values(f.big) && Width(f.big, 1) == lw && Read(u, lw) == Ok((len, r))
    requires d == Slots(Values(f.big), f.marker, len) && DecodeSlots(f, d, r) == result
    ensures DecodeBody(f, u) == result
  {
  }

  /** `DecodeSlots` from the pair loop. */
  lemma FillThen(f: Fields, d: seq<Slot>, u: seq<bool>, d': seq<Slot>, r: seq<bool>, cnt: nat, cw: nat, lw: nat)
    requires f.cnt == cnt && Width(f.big, 8) == cw && Width(f.big, 1) == lw
    requires Fill(d, 0, cnt, u, cw, lw) == Ok((d', r))
    ensures DecodeSlots(f, d, u) == DecodeTree(f, d', r)
  {
  }

  /** `DecodeTree` from `build` and the walk. */
  lemma TreeThen(f: Fields, d: seq<Slot>, r: seq<bool>, tree: (Node, nat), out: seq<Byte>, wide: bool)
    requires FlagSet(f.big, 8) == wide && Build(d, 0, 0) == Ok(tree) && tree.0.Interior?
    requires Walk(tree.0, tree.0, r, wide) == Ok(out)
    ensures DecodeTree(f, d, r) == Ok(out + if f.last != -1 then [f.last % 256] else [])
  {
  }
}
