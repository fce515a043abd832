/**
 * The Huffman file coder built on the tree: `compute_histogram` counts the input's symbols, the
 * encoder builds a tree over the occurring values and an end-of-file marker (code -1), writes a
 * header with the (value, depth) pairs of the leaves in `Encode` order and then every symbol's
 * string, the marker's string last; the decoder reads the header, places the pairs, rebuilds
 * the tree with `build` and walks it bit by bit until it reaches the marker.
 */
module HuffmanCodec {
  import opened Bits
  import opened Wrappers
  import opened BitFiles
  import opened Huffman

  // ---------------------------------------------------------------------------
  // compute_histogram
  // ---------------------------------------------------------------------------

  /** The symbols `compute_histogram` counts: the bytes, or in 16-bit mode the bytes paired
      little-endian, an odd last byte not among them. */
  function Symbols(input: seq<Byte>, bits16: bool): (s: seq<nat>)
    ensures |s| == if bits16 then |input| / 2 else |input|
    ensures forall k :: 0 <= k < |s| ==> s[k] < if bits16 then 0x1_0000 else 256
  {
    if bits16 then seq(|input| / 2, k requires 0 <= k < |input| / 2 => input[2 * k] + 256 * (input[2 * k + 1] as nat))
    else seq(|input|, k requires 0 <= k < |input| => input[k] as nat)
  }

  /** How often each value below `size` occurs in s. */
  function Histogram(s: seq<nat>, size: nat): (h: seq<int>)
    ensures |h| == size
  {
    seq(size, c requires 0 <= c < size => multiset(s)[c])
  }

  /** The sum of the counts. */
  function Total(h: seq<int>): int {
    if h == [] then 0 else Total(h[..|h| - 1]) + h[|h| - 1]
  }

  /** `compute_histogram(inf, size, bits16, last)`: `hist[c]` counts the symbols equal to c; in
      16-bit mode an odd last byte is stored in `last` instead of being counted. A symbol at or
      above `size` would be written past the array, so `size` covers every symbol. */
  method ComputeHistogram(input: seq<Byte>, size: nat, bits16: bool, last0: int) returns (hist: array<int>, last: int)
    requires size >= if bits16 then 0x1_0000 else 256
    ensures hist.Length == size && hist[..] == Histogram(Symbols(input, bits16), size)
    ensures last == if bits16 && |input| % 2 == 1 then input[|input| - 1] else last0
  {
    hist := new int[size](_ => 0);
    assert hist[..] == Histogram(Symbols(input[..0], bits16), size);
    last := last0;
    var x := 0;
    while x < |input|
      invariant 0 <= x <= |input| && (bits16 ==> x % 2 == 0)
      invariant hist.Length == size && hist[..] == Histogram(Symbols(input[..x], bits16), size)
      invariant last == last0
      decreases |input| - x
    {
      ghost var x0 := x;
      var chr: nat := input[x];
      if bits16 {
        if x + 1 == |input| {
          last := chr;
          SymbolsOdd(input, x);
          return;
        }
        // `chr |= ch << 8` with chr below 256
        chr := chr + 256 * (input[x + 1] as nat);
        x := x + 2;
      } else {
        x := x + 1;
      }
      CountStep(input, bits16, size, x0, x, chr);
      Count(hist, chr, Symbols(input[..x0], bits16));
    }
    assert input[..x] == input;
  }

  /** One turn of the loop: the symbol read at x0 is the next symbol. */
  lemma CountStep(input: seq<Byte>, bits16: bool, size: nat, x0: nat, x: nat, chr: nat)
    requires size >= if bits16 then 0x1_0000 else 256
    requires bits16 ==> x0 % 2 == 0 && x == x0 + 2 <= |input| && chr == input[x0] + 256 * (input[x0 + 1] as nat)
    requires !bits16 ==> x == x0 + 1 <= |input| && chr == input[x0]
    ensures chr < size && Symbols(input[..x], bits16) == Symbols(input[..x0], bits16) + [chr]
  {
    if bits16 {
      SymbolsPair(input, x0, x, chr);
    } else {
      SymbolsByte(input, x0, x, chr);
    }
  }

  /** `hist[chr]++`: the counts of s become those of s with chr appended. */
  method Count(hist: array<int>, chr: nat, ghost s: seq<nat>)
    requires chr < hist.Length && hist[..] == Histogram(s, hist.Length)
    modifies hist
    ensures hist[..] == Histogram(s + [chr], hist.Length)
  {
    HistogramSnoc(s, chr, hist.Length);
    hist[chr] := hist[chr] + 1;
  }

  lemma SymbolsByte(input: seq<Byte>, x: nat, y: nat, chr: nat)
    requires y == x + 1 <= |input| && chr == input[x]
    ensures Symbols(input[..y], false) == Symbols(input[..x], false) + [chr]
  {
  }

  lemma SymbolsPair(input: seq<Byte>, x: nat, y: nat, chr: nat)
    requires y == x + 2 <= |input| && x % 2 == 0 && chr == input[x] + 256 * (input[x + 1] as nat)
    ensures Symbols(input[..y], true) == Symbols(input[..x], true) + [chr]
  {
  }

  lemma SymbolsOdd(input: seq<Byte>, x: nat)
    requires x + 1 == |input| && x % 2 == 0
    ensures Symbols(input, true) == Symbols(input[..x], true) && |input| % 2 == 1
  {
  }

  /** One more symbol adds one to its count. */
  lemma HistogramSnoc(s: seq<nat>, x: nat, size: nat)
    requires x < size
    ensures Histogram(s + [x], size) == Histogram(s, size)[x := Histogram(s, size)[x] + 1]
  {
    assert multiset(s + [x]) == multiset(s) + multiset{x};
  }

  /** Changing one count changes the sum by the difference. */
  lemma {:induction false} TotalUpdate(h: seq<int>, c: nat, v: int)
    requires c < |h|
    ensures Total(h[c := v]) == Total(h) - h[c] + v
  {
    var n := |h| - 1;
    assert h[c := v][..n] == if c < n then h[..n][c := v] else h[..n];
    if c < n {
      TotalUpdate(h[..n], c, v);
    }
  }

  lemma {:induction false} TotalZero(size: nat)
    ensures Total(Histogram([], size)) == 0
  {
    if size > 0 {
      assert Histogram([], size)[..size - 1] == Histogram([], size - 1);
      TotalZero(size - 1);
    }
  }

  /** The counts of a histogram over every symbol add up to the number of symbols. */
  lemma {:induction false} HistogramTotal(s: seq<nat>, size: nat)
    requires forall k :: 0 <= k < |s| ==> s[k] < size
    ensures Total(Histogram(s, size)) == |s|
    decreases |s|
  {
    if s == [] {
      TotalZero(size);
    } else {
      var n := |s| - 1;
      assert s == s[..n] + [s[n]];
      HistogramTotal(s[..n], size);
      HistogramSnoc(s[..n], s[n], size);
      TotalUpdate(Histogram(s[..n], size), s[n], Histogram(s[..n], size)[s[n]] + 1);
    }
  }

  /** `compute_histogram` in 8-bit mode: `hist[c]` is the number of bytes equal to c, and the
      counts add up to the length of the input. */
  lemma ByteHistogram(input: seq<Byte>)
    ensures forall c :: 0 <= c < 256 ==> Histogram(Symbols(input, false), 256)[c] == multiset(input)[c]
    ensures Total(Histogram(Symbols(input, false), 256)) == |input|
  {
    var s := Symbols(input, false);
    assert s == input;
    HistogramTotal(s, 256);
  }

  // ---------------------------------------------------------------------------
  // The leaf list
  // ---------------------------------------------------------------------------

  /** The leaves of the values that occur, in increasing value, each weighted by its count. */
  function Occurring(h: seq<int>): seq<Node> {
    if h == [] then []
    else Occurring(h[..|h| - 1]) + if h[|h| - 1] != 0 then [Leaf(h[|h| - 1], |h| - 1)] else []
  }

  /** The vector `main` hands to `BuildHuffman`: the end-of-file marker `Leaf(0, -1)` first. */
  function LeafList(h: seq<int>): seq<Node> {
    [Leaf(0, -1)] + Occurring(h)
  }

  /** The loop of `main` that pushes a leaf for every nonzero count. */
  method MakeLeaves(hist: array<int>) returns (data: seq<Node>)
    ensures data == LeafList(hist[..])
  {
    data := [Leaf(0, -1)];
    for i := 0 to hist.Length
      invariant data == LeafList(hist[..i])
    {
      assert hist[..i + 1][..i] == hist[..i];
      if hist[i] != 0 {
        data := data + [Leaf(hist[i], i)];
      }
    }
    assert hist[..hist.Length] == hist[..];
  }

  /** The leaves of the occurring values: one per nonzero count, weighted by it, values strictly
      increasing. */
  lemma {:induction false} OccurringFacts(h: seq<int>)
    ensures |Occurring(h)| <= |h|
    ensures forall k :: 0 <= k < |Occurring(h)| ==>
      Occurring(h)[k].Leaf? && 0 <= Occurring(h)[k].code < |h| && Occurring(h)[k].weight == h[Occurring(h)[k].code] != 0
    ensures forall a, b :: 0 <= a < b < |Occurring(h)| ==> Occurring(h)[a].code < Occurring(h)[b].code
    ensures forall c :: 0 <= c < |h| && h[c] != 0 ==> Leaf(h[c], c) in Occurring(h)
    decreases |h|
  {
    if h != [] {
      var n := |h| - 1;
      var p := h[..n];
      OccurringFacts(p);
      assert forall c :: 0 <= c < n ==> p[c] == h[c];
    }
  }

  /** Every node is a leaf, so the list is its own list of leaves. */
  lemma {:induction false} AllLeavesOfLeaves(s: seq<Node>)
    requires forall k :: 0 <= k < |s| ==> s[k].Leaf?
    ensures AllLeaves(s) == s
    decreases |s|
  {
    if s != [] {
      AllLeavesOfLeaves(s[1..]);
    }
  }

  /** The values of a vector of leaves. */
  function Codes(s: seq<Node>): (c: seq<int>)
    ensures |c| == |s|
  {
    seq(|s|, k requires 0 <= k < |s| => Code(s[k]))
  }

  predicate Distinct(c: seq<int>) {
    forall a, b :: 0 <= a < b < |c| ==> c[a] != c[b]
  }

  /** The leaf list holds the marker and a leaf of every value that occurs, no value twice, every
      value a byte or the marker. */
  lemma LeafListFacts(h: seq<int>)
    requires |h| == 256
    ensures 1 <= |LeafList(h)| <= 257 && Distinct(Codes(LeafList(h)))
    ensures forall k :: 0 <= k < |LeafList(h)| ==> LeafList(h)[k].Leaf? && -1 <= LeafList(h)[k].code < 256
    ensures Leaf(0, -1) in LeafList(h)
    ensures forall c :: 0 <= c < 256 && h[c] != 0 ==> Leaf(h[c], c) in LeafList(h)
  {
    OccurringFacts(h);
    var d := LeafList(h);
    assert d[0] == Leaf(0, -1);
    assert forall k :: 1 <= k < |d| ==> d[k] == Occurring(h)[k - 1];
  }

  /** A value that appears at two positions appears twice. */
  lemma Twice(a: seq<Node>, i: nat, j: nat)
    requires i < j < |a|
    ensures a[i] == a[j] ==> multiset(a)[a[i]] >= 2
  {
    assert a == a[..j] + [a[j]] + a[j + 1..];
    assert a[..j][i] == a[i];
  }

  /** In a vector of distinct values every node appears once. */
  lemma Once(b: seq<Node>, p: nat)
    requires p < |b| && Distinct(Codes(b))
    ensures multiset(b)[b[p]] == 1
  {
    assert b == b[..p] + [b[p]] + b[p + 1..];
    assert b[p] !in b[..p] && b[p] !in b[p + 1..] by {
      forall k | 0 <= k < |b| && k != p
        ensures b[k] != b[p]
      {
        assert Codes(b)[k] != Codes(b)[p];
      }
    }
  }

  /** Reordering keeps the values distinct. */
  lemma DistinctCodes(a: seq<Node>, b: seq<Node>)
    requires multiset(a) == multiset(b) && Distinct(Codes(b))
    ensures Distinct(Codes(a))
  {
    forall i, j | 0 <= i < j < |a|
      ensures Codes(a)[i] != Codes(a)[j]
    {
      assert a[i] in multiset(b) && a[j] in multiset(b);
      var p :| 0 <= p < |b| && b[p] == a[i];
      var q :| 0 <= q < |b| && b[q] == a[j];
      assert Codes(b)[p] == Code(a[i]) && Codes(b)[q] == Code(a[j]);
      Twice(a, i, j);
      Once(b, p);
    }
  }

  /** The tree the encoder builds for a non-empty input: `BuildHuffman` over the leaf list of the
      input's byte histogram, so it holds exactly those leaves. */
  predicate Coded(input: seq<Byte>, root: Node) {
    multiset(Leaves(root)) == multiset(LeafList(Histogram(Symbols(input, false), 256)))
  }

  /** What the format needs of the tree: two leaves or more, at most 257, distinct values, each a
      byte or the marker, the marker among them and every byte of the input. */
  predicate Codable(root: Node, input: seq<Byte>) {
    var c := Codes(Leaves(root));
    root.Interior? && |c| <= 257 && Distinct(c) && (forall k :: 0 <= k < |c| ==> -1 <= c[k] < 256) &&
    -1 in c && forall x :: 0 <= x < |input| ==> input[x] in c
  }

  /** The encoder's tree for a non-empty input has what the format needs. */
  lemma CodedCodable(input: seq<Byte>, root: Node)
    requires input != [] && Coded(input, root)
    ensures Codable(root, input)
  {
    var h := Histogram(Symbols(input, false), 256);
    var d := LeafList(h);
    var L := Leaves(root);
    LeafListFacts(h);
    InputLeaves(input);
    assert |L| == |multiset(L)| == |multiset(d)| == |d|;
    assert Leaf(h[input[0]], input[0]) in d && Leaf(h[input[0]], input[0]) != d[0];
    DistinctCodes(L, d);
    RangeCodes(L, d);
    LeafCode(L, d, Leaf(0, -1));
    forall x | 0 <= x < |input|
      ensures input[x] in Codes(L)
    {
      LeafCode(L, d, Leaf(h[input[x]], input[x]));
    }
  }

  /** Every byte of the input has its leaf in the leaf list. */
  lemma InputLeaves(input: seq<Byte>)
    ensures var h := Histogram(Symbols(input, false), 256);
      forall x :: 0 <= x < |input| ==> Leaf(h[input[x]], input[x]) in LeafList(h)
  {
    var h := Histogram(Symbols(input, false), 256);
    LeafListFacts(h);
    ByteHistogram(input);
    forall x | 0 <= x < |input|
      ensures h[input[x]] != 0
    {
      assert input[x] in multiset(input);
    }
  }

  lemma LeafCode(L: seq<Node>, d: seq<Node>, n: Node)
    requires multiset(L) == multiset(d) && n in d && n.Leaf?
    ensures n.code in Codes(L)
  {
    assert n in multiset(L);
    var j :| 0 <= j < |L| && L[j] == n;
    assert Codes(L)[j] == n.code;
  }

  lemma RangeCodes(L: seq<Node>, d: seq<Node>)
    requires multiset(L) == multiset(d)
    requires forall k :: 0 <= k < |d| ==> d[k].Leaf? && -1 <= d[k].code < 256
    ensures forall k :: 0 <= k < |L| ==> -1 <= Codes(L)[k] < 256
  {
    forall k | 0 <= k < |L|
      ensures -1 <= Codes(L)[k] < 256
    {
      assert L[k] in multiset(d);
    }
  }

  // ---------------------------------------------------------------------------
  // The encoder
  // ---------------------------------------------------------------------------

  /** `index`: each value's position in the table; a later entry of the same value wins. */
  function IndexMap(t: seq<Encoding>): map<int, int> {
    if t == [] then map[] else IndexMap(t[..|t| - 1])[t[|t| - 1].code := |t| - 1]
  }

  /** `index[c]`: a value without an entry reads as `int()`, that is 0. */
  function Lookup(t: seq<Encoding>, c: int): (k: int)
    ensures |t| >= 1 ==> 0 <= k < |t|
    ensures c in TableCodes(t) ==> 0 <= k < |t| && t[k].code == c
  {
    IndexMapFacts(t);
    assert c in TableCodes(t) ==> c in IndexMap(t);
    if c in IndexMap(t) then IndexMap(t)[c] else 0
  }

  /** The index holds every value of the table, each at a position that holds it. */
  lemma {:induction false} IndexMapFacts(t: seq<Encoding>)
    ensures forall c :: c in IndexMap(t) ==> 0 <= IndexMap(t)[c] < |t| && t[IndexMap(t)[c]].code == c
    ensures forall k :: 0 <= k < |t| ==> t[k].code in IndexMap(t)
    decreases |t|
  {
    if t != [] {
      var n := |t| - 1;
      IndexMapFacts(t[..n]);
      assert forall k :: 0 <= k < n ==> t[..n][k] == t[k];
    }
  }

  /** The values of a table. */
  function TableCodes(t: seq<Encoding>): (c: seq<int>)
    ensures |c| == |t|
  {
    seq(|t|, k requires 0 <= k < |t| => t[k].code)
  }

  /** With distinct values, `index[table[i].huffman_code] == i` for every entry. */
  lemma IndexInverts(t: seq<Encoding>, k: nat)
    requires k < |t| && Distinct(TableCodes(t))
    ensures Lookup(t, t[k].code) == k
  {
    IndexMapFacts(t);
    var j := IndexMap(t)[t[k].code];
    if j != k {
      assert TableCodes(t)[j] == TableCodes(t)[k];
    }
  }

  /** A table entry's string holds 256 characters or more. */
  predicate LongString(t: seq<Encoding>) {
    exists k :: 0 <= k < |t| && |t[k].str| >= 256
  }

  /** `big` of the 8-bit encoder: bit 0 when some string is 256 long or longer, bit 1 when there
      are 256 values or more besides the marker, bit 2 when there is a trailing byte. */
  function Flags(t: seq<Encoding>, last: int): bv8 {
    (if LongString(t) then 1 else 0) | (if |t| - 1 >= 256 then 2 else 0) | (if last != -1 then 4 else 0)
  }

  /** The width of the stored lengths. */
  function LenWidth(big: bv8): nat {
    if big & 1 != 0 then 16 else 8
  }

  /** A (value, length) pair of the header. */
  function Item(e: Encoding, lw: nat): seq<bool> {
    IntBits(e.code, 8) + IntBits(|e.str|, lw)
  }

  /** The pairs of the table from entry k on, the marker left out. */
  function EntriesFrom(t: seq<Encoding>, k: nat, lw: nat): seq<bool>
    decreases |t| - k
  {
    if k >= |t| then []
    else if t[k].code == -1 then EntriesFrom(t, k + 1, lw)
    else Item(t[k], lw) + EntriesFrom(t, k + 1, lw)
  }

  /** The fields before the pairs: `big`, the trailing byte when bit 2 is set, the count less one
      when there is a value besides the marker, the marker's position in 32 bits and the length of
      its string. */
  function Leading(big: bv8, last: int, cnt: int, e: int, len: nat): seq<bool> {
    IntBits(big as int, 8)
    + (Optional(big & 4 != 0, last, 8)
    + (Optional(cnt > 0, cnt - 1, CountWidth(big))
    + (IntBits(e, 32) + IntBits(len, LenWidth(big)))))
  }

  /** A field written only when `cond` holds. */
  function Optional(cond: bool, v: int, width: nat): seq<bool> {
    if cond then IntBits(v, width) else []
  }

  /** The width of the stored count. */
  function CountWidth(big: bv8): nat {
    if big & 2 != 0 then 16 else 8
  }

  /** The header: the leading fields, then the pairs of the other entries in table order. */
  function Header(t: seq<Encoding>, last: int): seq<bool>
    requires |t| >= 1
  {
    var big := Flags(t, last);
    var e := Lookup(t, -1);
    Leading(big, last, |t| - 1, e, |t[e].str|) + EntriesFrom(t, 0, LenWidth(big))
  }

  /** The strings of the input's bytes from position x on. */
  function PayloadFrom(t: seq<Encoding>, input: seq<Byte>, x: nat): seq<bool>
    requires |t| >= 1
    decreases |input| - x
  {
    if x >= |input| then [] else t[Lookup(t, input[x])].str + PayloadFrom(t, input, x + 1)
  }

  /** Everything the encoder writes for a tree: the header, each byte's string, the marker's. */
  function Encoded(input: seq<Byte>, root: Node): seq<bool> {
    var t := CodeTable(root, []);
    Header(t, -1) + PayloadFrom(t, input, 0) + t[Lookup(t, -1)].str
  }

  /** The zero bits that fill the last byte. */
  function Pad(n: nat): nat {
    if n % 8 == 0 then 0 else 8 - n % 8
  }

  /** The table `Encode` filled, at positions 0 .. |t| - 1. */
  predicate Holds(table: map<int, Encoding>, t: seq<Encoding>) {
    forall k :: 0 <= k < |t| ==> k in table && table[k] == t[k]
  }

  /** The index loop of `main`. */
  method MakeIndex(table: map<int, Encoding>, n: int, ghost t: seq<Encoding>) returns (index: map<int, int>)
    requires n == |t| && Holds(table, t)
    ensures index == IndexMap(t)
  {
    index := map[];
    for i := 0 to n
      invariant index == IndexMap(t[..i])
    {
      assert t[..i + 1][..i] == t[..i];
      index := index[table[i].code := i];
    }
    assert t[..n] == t;
  }

  /** The loop that looks for a string of 256 characters or more. */
  method HasLongString(table: map<int, Encoding>, n: int, ghost t: seq<Encoding>) returns (long: bool)
    requires n == |t| && Holds(table, t)
    ensures long == LongString(t)
  {
    for i := 0 to n
      invariant forall k :: 0 <= k < i ==> |t[k].str| < 256
    {
      if |table[i].str| >= 256 {
        return true;
      }
    }
    return false;
  }

  /** The header puts of `main`. */
  method PutHeader(outf: BitFileOut, table: map<int, Encoding>, n: int, ghost t: seq<Encoding>, index: map<int, int>, last: int)
    requires outf.Valid() && n == |t| >= 1 && Holds(table, t) && index == IndexMap(t)
    modifies outf
    ensures outf.Valid() && outf.Written() == old(outf.Written()) + Header(t, last)
  {
    var big := MakeFlags(table, n, t, last);
    var cnt := n - 1;
    var e := if -1 in index then index[-1] else 0;
    assert e == Lookup(t, -1);
    ghost var w0 := outf.Written();
    PutLeading(outf, big, last, cnt, e, |table[e].str|);
    var lw := if big & 1 != 0 then 16 else 8;
    PutEntries(outf, table, n, t, lw);
    Cat(w0, Leading(big, last, cnt, e, |table[e].str|), EntriesFrom(t, 0, lw));
  }

  /** `big`, bit by bit. */
  method MakeFlags(table: map<int, Encoding>, n: int, ghost t: seq<Encoding>, last: int) returns (big: bv8)
    requires n == |t| >= 1 && Holds(table, t)
    ensures big == Flags(t, last)
  {
    var long := HasLongString(table, n, t);
    big := 0;
    if long {
      big := big | 1;
    }
    var cnt := n - 1;
    if cnt >= 256 {
      big := big | 2;
    }
    if last != -1 {
      big := big | 4;
    }
  }

  /** The puts of the leading fields. */
  method PutLeading(outf: BitFileOut, big: bv8, last: int, cnt: int, e: int, len: nat)
    requires outf.Valid()
    modifies outf
    ensures outf.Valid() && outf.Written() == old(outf.Written()) + Leading(big, last, cnt, e, len)
  {
    ghost var p4 := IntBits(len, LenWidth(big));
    ghost var p3 := IntBits(e, 32) + p4;
    ghost var p2 := Optional(cnt > 0, cnt - 1, CountWidth(big));
    ghost var p1 := Optional(big & 4 != 0, last, 8);
    ghost var goal := outf.Written() + (IntBits(big as int, 8) + (p1 + (p2 + p3)));
    assert goal == old(outf.Written()) + Leading(big, last, cnt, e, len);
    var s := MakeString(big as int, 8);
    PutOn(outf, s, p1 + (p2 + p3), goal);
    PutUnless(outf, big & 4 != 0, last, 8, p1, p2 + p3, goal);
    PutUnless(outf, cnt > 0, cnt - 1, CountWidth(big), p2, p3, goal);
    s := MakeString(e, 32);
    PutOn(outf, s, p4, goal);
    s := MakeString(len, LenWidth(big));
    outf.Put(s);
  }

  /** `put(s)` on the way to writing `goal`. */
  method PutOn(outf: BitFileOut, s: seq<bool>, ghost rest: seq<bool>, ghost goal: seq<bool>)
    requires outf.Valid() && outf.Written() + (s + rest) == goal
    modifies outf
    ensures outf.Valid() && outf.Written() + rest == goal
  {
    ghost var w := outf.Written();
    outf.Put(s);
    Cat(w, s, rest);
  }

  /** A field put only when `cond` holds, on the way to writing `goal`. */
  method PutUnless(outf: BitFileOut, cond: bool, v: int, width: nat, ghost part: seq<bool>, ghost rest: seq<bool>, ghost goal: seq<bool>)
    requires outf.Valid() && width <= 32
    requires part == Optional(cond, v, width)
    requires outf.Written() + (part + rest) == goal
    modifies outf
    ensures outf.Valid() && outf.Written() + rest == goal
  {
    ghost var w := outf.Written();
    if cond {
      var s := MakeString(v, width);
      outf.Put(s);
      Cat(w, s, rest);
    } else {
      assert [] + rest == rest;
    }
  }

  lemma Cat(w: seq<bool>, a: seq<bool>, r: seq<bool>)
    ensures (w + a) + r == w + (a + r)
  {
  }

  /** The loop that puts the pairs of every entry but the marker's. */
  method PutEntries(outf: BitFileOut, table: map<int, Encoding>, n: int, ghost t: seq<Encoding>, lw: nat)
    requires outf.Valid() && n == |t| && Holds(table, t) && lw <= 32
    modifies outf
    ensures outf.Valid() && outf.Written() == old(outf.Written()) + EntriesFrom(t, 0, lw)
  {
    ghost var goal := outf.Written() + EntriesFrom(t, 0, lw);
    for i := 0 to n
      invariant outf.Valid() && outf.Written() + EntriesFrom(t, i, lw) == goal
    {
      if table[i].code != -1 {
        ghost var w := outf.Written();
        var s := MakeString(table[i].code, 8);
        outf.Put(s);
        var l := MakeString(|table[i].str|, lw);
        outf.Put(l);
        Cat(w, s, l);
        Cat(w, s + l, EntriesFrom(t, i + 1, lw));
      }
    }
  }

  /** The loop that puts the string of every byte of the input. */
  method PutPayload(outf: BitFileOut, table: map<int, Encoding>, ghost t: seq<Encoding>, index: map<int, int>, input: seq<Byte>)
    requires outf.Valid() && |t| >= 1 && Holds(table, t) && index == IndexMap(t)
    modifies outf
    ensures outf.Valid() && outf.Written() == old(outf.Written()) + PayloadFrom(t, input, 0)
  {
    IndexMapFacts(t);
    ghost var goal := outf.Written() + PayloadFrom(t, input, 0);
    for x := 0 to |input|
      invariant outf.Valid() && outf.Written() + PayloadFrom(t, input, x) == goal
    {
      var chr := input[x];
      var k := if chr in index then index[chr] else 0;
      ghost var w := outf.Written();
      outf.Put(table[k].str);
      Cat(w, t[k].str, PayloadFrom(t, input, x + 1));
    }
  }

  /** The encode body of `main`: nothing is written for an empty input; otherwise the header,
      every byte's string and the marker's string, the last byte zero-padded when the file is
      closed. The tree is the one `BuildHuffman` returns over the leaf list. */
  method EncHuf(input: seq<Byte>) returns (out: seq<Byte>, ghost root: Node)
    ensures input == [] ==> out == []
    ensures input != [] ==> Coded(input, root) && BytesBits(out) == Encoded(input, root) + Zeros(Pad(|Encoded(input, root)|))
  {
    var outf := new BitFileOut();
    var hist, last := ComputeHistogram(input, 256, false, -1);
    if |input| > 0 {
      root := PutTree(outf, input, hist, last);
      ghost var enc := Encoded(input, root);
      assert outf.Written() == enc;
      out := Finish(outf);
    } else {
      root := Leaf(0, -1);
      out := Finish(outf);
      assert |BytesBits(out)| == 0;
    }
  }

  /** The branch of `main` for a non-empty input: the tree of the histogram, and all of its
      bits put. */
  method PutTree(outf: BitFileOut, input: seq<Byte>, hist: array<int>, last: int) returns (ghost root: Node)
    requires outf.Valid() && input != [] && last == -1
    requires hist.Length == 256 && hist[..] == Histogram(Symbols(input, false), 256)
    modifies outf
    ensures outf.Valid() && Coded(input, root)
    ensures outf.Written() == old(outf.Written()) + Encoded(input, root)
  {
    var data := MakeLeaves(hist);
    var tree := Tree(data, input, hist[..]);
    root := tree;
    PutAll(outf, input, tree, last);
  }

  /** The output file's close: the last partial byte is padded with zero bits. */
  method Finish(outf: BitFileOut) returns (out: seq<Byte>)
    requires outf.Valid()
    modifies outf
    ensures BytesBits(out) == old(outf.Written()) + Zeros(Pad(|old(outf.Written())|))
  {
    ClosePad(|outf.bytes|, outf.obc, |outf.Written()|);
    outf.Close();
    out := outf.bytes;
  }

  /** The register holds the bits past the last whole byte. */
  lemma ClosePad(bytes: nat, obc: nat, len: nat)
    requires obc < 8 && len == 8 * bytes + obc
    ensures Pad(len) == if obc == 0 then 0 else 8 - obc
  {
    assert len % 8 == obc;
  }

  /** The code table and the index of a tree. */
  method MakeTables(tree: Node) returns (n: int, table: map<int, Encoding>, index: map<int, int>)
    ensures n == |CodeTable(tree, [])| && Holds(table, CodeTable(tree, [])) && index == IndexMap(CodeTable(tree, []))
  {
    n, table := EncodeAll(tree);
    index := MakeIndex(table, n, CodeTable(tree, []));
  }

  /** `Encode(root, 0, "", table)` on the empty table. */
  method EncodeAll(tree: Node) returns (n: int, table: map<int, Encoding>)
    ensures n == |CodeTable(tree, [])| && Holds(table, CodeTable(tree, []))
  {
    var tmp;
    n, tmp, table := Encode(tree, 0, [], map[]);
    ghost var t := CodeTable(tree, []);
    assert n == |t|;
    forall k | 0 <= k < |t|
      ensures k in table && table[k] == t[k]
    {
      assert k - 0 == k;
    }
  }

  /** The puts of `main` once the tree is built. */
  method PutAll(outf: BitFileOut, input: seq<Byte>, tree: Node, last: int)
    requires outf.Valid() && last == -1
    modifies outf
    ensures outf.Valid() && outf.Written() == old(outf.Written()) + Encoded(input, tree)
  {
    var n, table, index := MakeTables(tree);
    ghost var t := CodeTable(tree, []);
    ghost var w0 := outf.Written();
    PutHeader(outf, table, n, t, index, last);
    ghost var w1 := outf.Written();
    PutPayload(outf, table, t, index, input);
    ghost var w2 := outf.Written();
    var e := if -1 in index then index[-1] else 0;
    outf.Put(table[e].str);
    EncodedParts(input, tree, w0, w1, w2, outf.Written());
  }

  lemma EncodedParts(input: seq<Byte>, root: Node, w0: seq<bool>, w1: seq<bool>, w2: seq<bool>, w3: seq<bool>)
    requires w1 == w0 + Header(CodeTable(root, []), -1)
    requires w2 == w1 + PayloadFrom(CodeTable(root, []), input, 0)
    requires w3 == w2 + CodeTable(root, [])[Lookup(CodeTable(root, []), -1)].str
    ensures w3 == w0 + Encoded(input, root)
  {
    var t := CodeTable(root, []);
    var H, P, M := Header(t, -1), PayloadFrom(t, input, 0), t[Lookup(t, -1)].str;
    Cat(w0, H, P);
    Cat(w0, H + P, M);
  }

  /** `BuildHuffman` over the leaf list: the vector holds the marker, so a tree comes back. */
  method Tree(data: seq<Node>, ghost input: seq<Byte>, ghost h: seq<int>) returns (root: Node)
    requires |h| == 256 && h == Histogram(Symbols(input, false), 256) && data == LeafList(h)
    ensures Coded(input, root)
  {
    LeafListFacts(h);
    AllLeavesOfLeaves(data);
    var tree := BuildHuffman(data);
    root := tree.value;
  }
}
