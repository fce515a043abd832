/**
 * `MakeCanonical`: the canonical form of a Huffman code table. The entries are ordered by
 * string length and then by value (`srt_cmp`), and walking them in that order each gets the
 * next value of a counter, shifted left whenever the length grows, written out at its old
 * length. Lengths and values stay; only the strings change, and they stay prefix-free.
 */
module Canonical {
  import opened Bits
  import opened BitFiles
  import opened Huffman

  /** `srt_cmp(a, b) <= 0`: shorter strings first, equal lengths by value. */
  predicate NotAfter(a: Encoding, b: Encoding) {
    |a.str| < |b.str| || (|a.str| == |b.str| && a.code <= b.code)
  }

  /** Every element of s is a position of a table of n entries. */
  predicate Indices(s: seq<nat>, n: nat) {
    forall k :: 0 <= k < |s| ==> s[k] < n
  }

  predicate Distinct(s: seq<nat>) {
    forall a, b :: 0 <= a < b < |s| ==> s[a] != s[b]
  }

  /** s lists positions of t in `srt_cmp` order. */
  predicate SortedBy(t: seq<Encoding>, s: seq<nat>)
    requires Indices(s, |t|)
  {
    forall a, b :: 0 <= a < b < |s| ==> NotAfter(t[s[a]], t[s[b]])
  }

  // ---------------------------------------------------------------------------
  // The array of entry references and its sort
  // ---------------------------------------------------------------------------

  /** One insertion step of the stand-in for `qsort`. */
  function InsertIdx(t: seq<Encoding>, x: nat, s: seq<nat>): (r: seq<nat>)
    requires x < |t| && Indices(s, |t|)
    ensures |r| == |s| + 1 && Indices(r, |t|)
    ensures forall y :: y in r <==> y == x || y in s
  {
    if s == [] || NotAfter(t[x], t[s[0]]) then [x] + s
    else
      assert s == [s[0]] + s[1..];
      [s[0]] + InsertIdx(t, x, s[1..])
  }

  function SortIdx(t: seq<Encoding>, s: seq<nat>): (r: seq<nat>)
    requires Indices(s, |t|)
    ensures |r| == |s| && Indices(r, |t|)
    ensures forall y :: y in r <==> y in s
  {
    if s == [] then []
    else
      assert s == [s[0]] + s[1..];
      InsertIdx(t, s[0], SortIdx(t, s[1..]))
  }

  function Range(n: nat): (r: seq<nat>)
    ensures |r| == n && Indices(r, n) && forall k :: 0 <= k < n ==> r[k] == k
  {
    seq(n, k requires 0 <= k < n => k)
  }

  /** `srt` after `qsort(srt, table_size, sizeof(*srt), srt_cmp)`: every position of the table
      once, in `srt_cmp` order. `qsort` is not stable; entries that compare equal (same length,
      same value) come here in one of the orders it may produce. */
  function Order(t: seq<Encoding>): (o: seq<nat>)
    ensures Ranking(o, |t|) && SortedBy(t, o)
  {
    var r := Range(|t|);
    SortSorted(t, r);
    SortDistinct(t, r);
    RangeHas(|t|);
    SortIdx(t, r)
  }

  /** Every position 0 .. n - 1 exactly once. */
  predicate Ranking(o: seq<nat>, n: nat) {
    |o| == n && Indices(o, n) && Distinct(o) && forall k :: 0 <= k < n ==> k in o
  }

  lemma RangeHas(n: nat)
    ensures forall k :: 0 <= k < n ==> k in Range(n)
  {
    forall k | 0 <= k < n
      ensures k in Range(n)
    {
      assert Range(n)[k] == k;
    }
  }

  lemma {:induction false} InsertSorted(t: seq<Encoding>, x: nat, s: seq<nat>)
    requires x < |t| && Indices(s, |t|) && SortedBy(t, s)
    ensures SortedBy(t, InsertIdx(t, x, s))
    decreases |s|
  {
    if s != [] && !NotAfter(t[x], t[s[0]]) {
      InsertSorted(t, x, s[1..]);
      var rest := InsertIdx(t, x, s[1..]);
      var r := [s[0]] + rest;
      forall b | 0 < b < |r|
        ensures NotAfter(t[r[0]], t[r[b]])
      {
        assert r[b] in rest;
        if r[b] != x {
          var c :| 0 <= c < |s[1..]| && s[1..][c] == r[b];
          assert s[c + 1] == r[b];
        }
      }
    }
  }

  lemma {:induction false} SortSorted(t: seq<Encoding>, s: seq<nat>)
    requires Indices(s, |t|)
    ensures SortedBy(t, SortIdx(t, s))
    decreases |s|
  {
    if s != [] {
      SortSorted(t, s[1..]);
      InsertSorted(t, s[0], SortIdx(t, s[1..]));
    }
  }

  lemma {:induction false} InsertDistinct(t: seq<Encoding>, x: nat, s: seq<nat>)
    requires x < |t| && Indices(s, |t|) && Distinct(s) && x !in s
    ensures Distinct(InsertIdx(t, x, s))
    decreases |s|
  {
    if s != [] && !NotAfter(t[x], t[s[0]]) {
      assert s == [s[0]] + s[1..];
      assert s[0] != x && s[0] !in s[1..];
      InsertDistinct(t, x, s[1..]);
      var rest := InsertIdx(t, x, s[1..]);
      assert s[0] !in rest;
      var r := [s[0]] + rest;
      forall a, b | 0 <= a < b < |r|
        ensures r[a] != r[b]
      {
        if a == 0 {
          assert r[b] == rest[b - 1];
        } else {
          assert r[a] == rest[a - 1] && r[b] == rest[b - 1];
        }
      }
    }
  }

  lemma {:induction false} SortDistinct(t: seq<Encoding>, s: seq<nat>)
    requires Indices(s, |t|) && Distinct(s)
    ensures Distinct(SortIdx(t, s))
    decreases |s|
  {
    if s != [] {
      assert s == [s[0]] + s[1..];
      SortDistinct(t, s[1..]);
      InsertDistinct(t, s[0], SortIdx(t, s[1..]));
    }
  }

  // ---------------------------------------------------------------------------
  // The counter
  // ---------------------------------------------------------------------------

  /** The string lengths of the entries listed in s, in that order. */
  function Lens(t: seq<Encoding>, s: seq<nat>): (L: seq<nat>)
    requires Indices(s, |t|)
    ensures |L| == |s| && forall j :: 0 <= j < |s| ==> L[j] == |t[s[j]].str|
  {
    seq(|s|, j requires 0 <= j < |s| => |t[s[j]].str|)
  }

  predicate Ascending(L: seq<nat>) {
    forall a, b :: 0 <= a < b < |L| ==> L[a] <= L[b]
  }

  /** The values the counter `v` hands out to entries whose lengths, in order, are L: `v`
      starts at 0 with `old_len` 0, is shifted left by the growth of the length, handed out,
      and incremented. */
  function Values(L: seq<nat>): (V: seq<nat>)
    requires Ascending(L)
    ensures |V| == |L|
    decreases |L|
  {
    if L == [] then []
    else
      var k := |L| - 1;
      var W := Values(L[..k]);
      var v, oldLen := if k == 0 then 0 else W[k - 1] + 1, if k == 0 then 0 else L[k - 1];
      W + [Shl(v, L[k] - oldLen)]
  }

  /** Value k in terms of value k - 1. */
  lemma {:induction false} ValuesAt(L: seq<nat>, k: nat)
    requires Ascending(L) && k < |L|
    ensures Values(L)[k] == Shl(if k == 0 then 0 else Values(L)[k - 1] + 1, L[k] - (if k == 0 then 0 else L[k - 1]))
    decreases |L|
  {
    var n := |L| - 1;
    if k < n {
      var P := L[..n];
      ValuesAt(P, k);
      assert P[k] == L[k] && (k > 0 ==> P[k - 1] == L[k - 1]);
      assert Values(L)[..n] == Values(P);
      assert Values(L)[k] == Values(P)[k];
      assert k > 0 ==> Values(L)[k - 1] == Values(P)[k - 1];
    }
  }

  /** `MakeCanonical(table)`: every entry keeps its value and its string length; the entry j-th
      in `srt_cmp` order gets value j of the counter as its string. Once the lengths satisfy
      Kraft's inequality (as the lengths of any code tree do), the strings are prefix-free. */
  method MakeCanonical(table: seq<Encoding>) returns (res: seq<Encoding>)
    requires forall k :: 0 <= k < |table| ==> |table[k].str| <= 31
    ensures |res| == |table|
    ensures forall k :: 0 <= k < |table| ==> res[k].code == table[k].code && |res[k].str| == |table[k].str|
    ensures var o := Order(table);
      forall j :: 0 <= j < |o| ==> res[o[j]].str == IntBits(Values(Lens(table, o))[j], |table[o[j]].str|)
    ensures Kraft(StrLens(table), 31) <= Pow2(31) ==>
      forall a, b :: 0 <= a < |res| && 0 <= b < |res| && a != b ==> !(res[a].str <= res[b].str)
  {
    var o := Order(table);
    ghost var L := Lens(table, o);
    SortedLens(table, o);
    ghost var V := Values(L);
    forall k | 0 <= k < |L|
      ensures Counted(L, V, k)
    {
      ValuesAt(L, k);
    }
    res := AssignStrings(table, o, L, V);
    KraftPrefixFree(table, o, L, V, res);
  }

  /** Value k of V is the counter's after value k - 1: incremented, then shifted by the growth
      of the length. */
  predicate Counted(L: seq<nat>, V: seq<nat>, k: nat)
    requires Ascending(L) && |V| == |L| && k < |L|
  {
    V[k] == Shl(if k == 0 then 0 else V[k - 1] + 1, L[k] - (if k == 0 then 0 else L[k - 1]))
  }

  /** The loop of `MakeCanonical` over the entries in sorted order `o`: the counter `v` is
      shifted whenever the length grows, handed out as the string of the entry, and incremented. */
  method AssignStrings(table: seq<Encoding>, o: seq<nat>, ghost L: seq<nat>, ghost V: seq<nat>) returns (res: seq<Encoding>)
    requires |o| == |table| && Indices(o, |table|) && Distinct(o)
    requires forall k :: 0 <= k < |table| ==> |table[k].str| <= 31
    requires L == Lens(table, o) && Ascending(L) && |V| == |L|
    requires forall k :: 0 <= k < |L| ==> Counted(L, V, k)
    ensures |res| == |table|
    ensures forall k :: 0 <= k < |table| ==> res[k].code == table[k].code && |res[k].str| == |table[k].str|
    ensures forall j :: 0 <= j < |o| ==> res[o[j]].str == IntBits(V[j], L[j])
  {
    res := table;
    var oldLen, v := 0, 0;
    for ii := 0 to |o|
      invariant |res| == |table|
      invariant forall k :: 0 <= k < |table| ==> res[k].code == table[k].code && |res[k].str| == |table[k].str|
      invariant forall j :: 0 <= j < ii ==> res[o[j]].str == IntBits(V[j], L[j])
      invariant oldLen == (if ii == 0 then 0 else L[ii - 1])
      invariant v == (if ii == 0 then 0 else V[ii - 1] + 1)
    {
      var p := o[ii];
      var len := |res[p].str|;
      assert len == L[ii];
      assert Counted(L, V, ii);
      assert oldLen <= len;
      if oldLen != len {
        v := Shl(v, len - oldLen);
        oldLen := len;
      }
      var s := MakeString(v, len);
      Assigned(table, o, L, V, res, ii, s);
      res := res[p := Encoding(s, res[p].code)];
      v := v + 1;
    }
  }

  /** Entry `o[ii]` gets its string and the entries of the ranks before it keep theirs. */
  lemma Assigned(table: seq<Encoding>, o: seq<nat>, L: seq<nat>, V: seq<nat>, res: seq<Encoding>, ii: nat, s: seq<bool>)
    requires |res| == |table| && |o| == |L| == |V| && Indices(o, |table|) && Distinct(o) && ii < |o|
    requires forall k :: 0 <= k < |table| ==> res[k].code == table[k].code && |res[k].str| == |table[k].str|
    requires forall j :: 0 <= j < ii ==> res[o[j]].str == IntBits(V[j], L[j])
    requires s == IntBits(V[ii], L[ii]) && L[ii] == |res[o[ii]].str|
    ensures var res' := res[o[ii] := Encoding(s, res[o[ii]].code)];
      (forall k :: 0 <= k < |table| ==> res'[k].code == table[k].code && |res'[k].str| == |table[k].str|) &&
      forall j :: 0 <= j < ii + 1 ==> res'[o[j]].str == IntBits(V[j], L[j])
  {
  }

  /** Under Kraft's inequality the strings handed out by rank are prefix-free. */
  lemma KraftPrefixFree(table: seq<Encoding>, o: seq<nat>, L: seq<nat>, V: seq<nat>, res: seq<Encoding>)
    requires forall k :: 0 <= k < |table| ==> |table[k].str| <= 31
    requires o == Order(table) && L == Lens(table, o) && Ascending(L) && V == Values(L) && |res| == |table|
    requires forall j :: 0 <= j < |o| ==> res[o[j]].str == IntBits(V[j], L[j])
    ensures Kraft(StrLens(table), 31) <= Pow2(31) ==>
      forall a, b :: 0 <= a < |res| && 0 <= b < |res| && a != b ==> !(res[a].str <= res[b].str)
  {
    if Kraft(StrLens(table), 31) <= Pow2(31) {
      KraftOrder(table, 31);
      KraftFits(L, 31);
      ValuesChained(L);
      RankedPrefixFree(table, o, L, V, res);
    }
  }

  lemma SortedLens(t: seq<Encoding>, o: seq<nat>)
    requires Indices(o, |t|) && SortedBy(t, o)
    ensures Ascending(Lens(t, o))
  {
  }

  lemma Rank(o: seq<nat>, k: nat) returns (i: nat)
    requires k in o
    ensures i < |o| && o[i] == k
  {
    i :| 0 <= i < |o| && o[i] == k;
  }

  /** Positions a and b of the table hold the entries of rank ia and ib: their strings are
      those of two different ranks. */
  lemma RankedPrefixFree(table: seq<Encoding>, o: seq<nat>, L: seq<nat>, V: seq<nat>, res: seq<Encoding>)
    requires |res| == |table| && Ranking(o, |table|)
    requires Ascending(L) && |L| == |o| && |V| == |L| && Fits(V, L) && Chained(V, L)
    requires forall j :: 0 <= j < |o| ==> res[o[j]].str == IntBits(V[j], L[j])
    ensures forall a, b :: 0 <= a < |res| && 0 <= b < |res| && a != b ==> !(res[a].str <= res[b].str)
  {
    forall a, b | 0 <= a < |res| && 0 <= b < |res| && a != b
      ensures !(res[a].str <= res[b].str)
    {
      var ia := Rank(o, a);
      var ib := Rank(o, b);
      if ia < ib {
        CanonicalPrefixFree(L, V, ia, ib);
      } else {
        CanonicalPrefixFree(L, V, ib, ia);
      }
    }
  }

  // ---------------------------------------------------------------------------
  // Prefix-freeness
  // ---------------------------------------------------------------------------

  /** Every value fits in its length. */
  predicate Fits(V: seq<nat>, L: seq<nat>)
    requires |V| == |L|
  {
    forall k :: 0 <= k < |L| ==> V[k] < Pow2(L[k])
  }

  /** A later value, cut to the earlier length, is above the earlier value. */
  lemma {:induction false} ChainBound(L: seq<nat>, a: nat, b: nat)
    requires Ascending(L) && a < b < |L|
    ensures Values(L)[b] >= Shl(Values(L)[a] + 1, L[b] - L[a])
    decreases b
  {
    var V := Values(L);
    ValuesAt(L, b);
    if b == a + 1 {
    } else {
      ChainBound(L, a, b - 1);
      var d1, d2 := L[b - 1] - L[a], L[b] - L[b - 1];
      var x := Shl(V[a] + 1, d1);
      ShlMonotone(x, V[b - 1] + 1, d2);
      ShlAdd(V[a] + 1, d1, d2);
    }
  }

  lemma ShrMonotone(x: nat, y: nat, n: nat)
    requires x <= y
    ensures Shr(x, n) <= Shr(y, n)
    decreases n
  {
    if n > 0 {
      ShrMonotone(x / 2, y / 2, n - 1);
    }
  }

  /** The strings of two entries of different rank are not prefixes of each other. */
  lemma CanonicalPrefixFree(L: seq<nat>, V: seq<nat>, a: nat, b: nat)
    requires |V| == |L| && Ascending(L) && Fits(V, L) && Chained(V, L) && a < b < |L|
    ensures !(IntBits(V[a], L[a]) <= IntBits(V[b], L[b]))
    ensures !(IntBits(V[b], L[b]) <= IntBits(V[a], L[a]))
  {
    PrefixCore(V[a], V[b], L[a], L[b], L[b] - L[a]);
  }

  /** Every later value, cut to an earlier length, is above the earlier value. */
  predicate Chained(V: seq<nat>, L: seq<nat>)
    requires |V| == |L| && Ascending(L)
  {
    forall a, b :: 0 <= a < b < |L| ==> V[b] >= Shl(V[a] + 1, L[b] - L[a])
  }

  lemma ValuesChained(L: seq<nat>)
    requires Ascending(L)
    ensures Chained(Values(L), L)
  {
    forall a, b | 0 <= a < b < |L|
      ensures Values(L)[b] >= Shl(Values(L)[a] + 1, L[b] - L[a])
    {
      ChainBound(L, a, b);
    }
  }

  /** Two n-bit strings of values where the longer, cut to the shorter length, is above the
      shorter. */
  lemma PrefixCore(va: nat, vb: nat, la: nat, lb: nat, d: nat)
    requires lb == la + d && va < Pow2(la) && vb < Pow2(lb) && vb >= Shl(va + 1, d)
    ensures !(IntBits(va, la) <= IntBits(vb, lb))
    ensures !(IntBits(vb, lb) <= IntBits(va, la))
  {
    IntBitsOfNat(va, la);
    IntBitsOfNat(vb, lb);
    var sa, sb := NatToBits(va, la), NatToBits(vb, lb);
    PrefixIff(sa, sb);
    PrefixIff(sb, sa);
    NatToBitsSplit(vb, la, d);
    var h := Shr(vb, d);
    ShrMonotone(Shl(va + 1, d), vb, d);
    ShrShl(va + 1, d);
    ShrBound(vb, la, d);
    NatToBitsSmall(h, la);
    NatToBitsSmall(va, la);
    assert sb[..la] == NatToBits(h, la);
    assert BitsToNat(sb[..la]) != BitsToNat(sa);
    if d == 0 {
      assert sa[..lb] == sa;
      NatToBitsSmall(vb, lb);
      assert BitsToNat(sb) != BitsToNat(sa);
    }
  }

  lemma PrefixIff(s: seq<bool>, t: seq<bool>)
    ensures s <= t <==> |s| <= |t| && s == t[..|s|]
  {
    if s <= t {
      assert s == t[..|s|];
    }
  }

  // ---------------------------------------------------------------------------
  // Kraft's inequality
  // ---------------------------------------------------------------------------

  predicate AtMost(L: seq<nat>, M: nat) {
    forall j :: 0 <= j < |L| ==> L[j] <= M
  }

  /** The sum of 2^(M - l) over the lengths l: at most 2^M for the lengths of a prefix code. */
  function Kraft(L: seq<nat>, M: nat): nat
    requires AtMost(L, M)
  {
    if L == [] then 0 else Kraft(L[..|L| - 1], M) + Pow2(M - L[|L| - 1])
  }

  /** The string lengths of a table, in table order. */
  function StrLens(t: seq<Encoding>): (L: seq<nat>)
    ensures |L| == |t| && forall k :: 0 <= k < |t| ==> L[k] == |t[k].str|
  {
    seq(|t|, k requires 0 <= k < |t| => |t[k].str|)
  }

  lemma {:induction false} KraftAppend(A: seq<nat>, B: seq<nat>, M: nat)
    requires AtMost(A, M) && AtMost(B, M)
    ensures AtMost(A + B, M) && Kraft(A + B, M) == Kraft(A, M) + Kraft(B, M)
    decreases |B|
  {
    if B == [] {
      assert A + B == A;
    } else {
      var n := |B| - 1;
      assert (A + B)[..|A + B| - 1] == A + B[..n];
      KraftAppend(A, B[..n], M);
    }
  }

  lemma {:induction false} KraftPrefix(L: seq<nat>, k: nat, M: nat)
    requires AtMost(L, M) && k <= |L|
    ensures Kraft(L[..k], M) <= Kraft(L, M)
    decreases |L|
  {
    if k < |L| {
      assert L[..|L| - 1][..k] == L[..k];
      KraftPrefix(L[..|L| - 1], k, M);
    } else {
      assert L[..k] == L;
    }
  }

  /** The sums over the values handed out so far: value k shifted up to M bits is the Kraft sum
      of the entries before it. */
  lemma {:induction false} ValuesKraft(L: seq<nat>, k: nat, M: nat)
    requires Ascending(L) && AtMost(L, M) && k < |L|
    ensures Shl(Values(L)[k], M - L[k]) == Kraft(L[..k], M)
    decreases k
  {
    var V := Values(L);
    ValuesAt(L, k);
    if k == 0 {
      ShlZero(L[0]);
      ShlZero(M - L[0]);
    } else {
      ValuesKraft(L, k - 1, M);
      var d1, d2 := L[k] - L[k - 1], M - L[k];
      ShlAdd(V[k - 1] + 1, d1, d2);
      ShlDistrib(V[k - 1], 1, M - L[k - 1]);
      Pow2Add(0, M - L[k - 1]);
      assert L[..k][..k - 1] == L[..k - 1];
    }
  }

  /** Kraft's inequality makes every value fit in its length. */
  lemma KraftFits(L: seq<nat>, M: nat)
    requires Ascending(L) && AtMost(L, M) && Kraft(L, M) <= Pow2(M)
    ensures Fits(Values(L), L)
  {
    forall k | 0 <= k < |L|
      ensures Values(L)[k] < Pow2(L[k])
    {
      KraftFitsAt(L, k, M);
    }
  }

  lemma KraftFitsAt(L: seq<nat>, k: nat, M: nat)
    requires Ascending(L) && AtMost(L, M) && Kraft(L, M) <= Pow2(M) && k < |L|
    ensures Values(L)[k] < Pow2(L[k])
  {
    ValuesKraft(L, k, M);
    KraftPrefix(L, k + 1, M);
    KraftLast(L, k, M);
    var d := M - L[k];
    FitStep(Values(L)[k], L[k], d, Kraft(L[..k], M), Kraft(L[..k + 1], M), M);
  }

  lemma KraftLast(L: seq<nat>, k: nat, M: nat)
    requires AtMost(L, M) && k < |L|
    ensures Kraft(L[..k + 1], M) == Kraft(L[..k], M) + Pow2(M - L[k])
  {
    var P := L[..k + 1];
    assert P[..|P| - 1] == L[..k];
  }

  /** One value against its length: the Kraft sum up to and including it fits in 2^M. */
  lemma FitStep(v: nat, l: nat, d: nat, before: nat, upto: nat, M: nat)
    requires M == l + d && Shl(v, d) == before && upto == before + Pow2(d) && upto <= Pow2(M)
    ensures v < Pow2(l)
  {
    Pow2Add(0, d);
    ShlDistrib(v, 1, d);
    Pow2Add(l, d);
    ShlCancel(v + 1, Pow2(l), d);
  }

  /** The sum over the entries listed in s, front to back. */
  function KraftOf(t: seq<Encoding>, s: seq<nat>, M: nat): nat
    requires Indices(s, |t|) && AtMost(StrLens(t), M)
  {
    if s == [] then 0 else Pow2(M - |t[s[0]].str|) + KraftOf(t, s[1..], M)
  }

  /** Inserting an entry adds its term to the sum. */
  lemma {:induction false} KraftInsert(t: seq<Encoding>, x: nat, s: seq<nat>, M: nat)
    requires x < |t| && Indices(s, |t|) && AtMost(StrLens(t), M)
    ensures KraftOf(t, InsertIdx(t, x, s), M) == Pow2(M - |t[x].str|) + KraftOf(t, s, M)
    decreases |s|
  {
    if s == [] || NotAfter(t[x], t[s[0]]) {
      assert ([x] + s)[1..] == s;
    } else {
      KraftInsert(t, x, s[1..], M);
      var r := [s[0]] + InsertIdx(t, x, s[1..]);
      assert r[1..] == InsertIdx(t, x, s[1..]);
    }
  }

  /** Sorting the entries does not change the sum. */
  lemma {:induction false} KraftSort(t: seq<Encoding>, s: seq<nat>, M: nat)
    requires Indices(s, |t|) && AtMost(StrLens(t), M)
    ensures KraftOf(t, SortIdx(t, s), M) == KraftOf(t, s, M)
    decreases |s|
  {
    if s != [] {
      KraftSort(t, s[1..], M);
      KraftInsert(t, s[0], SortIdx(t, s[1..]), M);
    }
  }

  /** The front-to-back sum is Kraft's sum of the lengths of the entries listed. */
  lemma {:induction false} KraftOfLens(t: seq<Encoding>, s: seq<nat>, M: nat)
    requires Indices(s, |t|) && AtMost(StrLens(t), M)
    ensures AtMost(Lens(t, s), M) && Kraft(Lens(t, s), M) == KraftOf(t, s, M)
    decreases |s|
  {
    if s != [] {
      KraftOfLens(t, s[1..], M);
      LensCons(t, s);
      KraftCons(|t[s[0]].str|, Lens(t, s[1..]), M);
    }
  }

  lemma LensCons(t: seq<Encoding>, s: seq<nat>)
    requires Indices(s, |t|) && s != []
    ensures Lens(t, s) == [|t[s[0]].str|] + Lens(t, s[1..])
  {
  }

  lemma KraftCons(h: nat, L: seq<nat>, M: nat)
    requires h <= M && AtMost(L, M)
    ensures AtMost([h] + L, M) && Kraft([h] + L, M) == Pow2(M - h) + Kraft(L, M)
  {
    assert [h][..0] == [];
    KraftAppend([h], L, M);
  }

  /** The lengths in `srt_cmp` order have the table's sum. */
  lemma KraftOrder(t: seq<Encoding>, M: nat)
    requires AtMost(StrLens(t), M)
    ensures AtMost(Lens(t, Order(t)), M) && Kraft(Lens(t, Order(t)), M) == Kraft(StrLens(t), M)
  {
    var r := Range(|t|);
    KraftSort(t, r, M);
    KraftOfLens(t, r, M);
    KraftOfLens(t, Order(t), M);
    assert Lens(t, r) == StrLens(t);
  }

  /** The lengths of the table `Encode` makes for a tree satisfy Kraft's inequality with
      equality: the leaves of a full binary tree at depths d contribute 2^-d each, 1 in all. */
  lemma {:induction false} TreeKraft(n: Node, prefix: seq<bool>, M: nat)
    requires |prefix| <= M && forall k :: 0 <= k < |Leaves(n)| ==> |prefix| + Depth(n, k) <= M
    ensures AtMost(StrLens(CodeTable(n, prefix)), M)
    ensures Kraft(StrLens(CodeTable(n, prefix)), M) == Pow2(M - |prefix|)
  {
    TableLengths(n, prefix);
    match n
    case Leaf(_, _) =>
      assert StrLens(CodeTable(n, prefix))[..0] == [];
    case Interior(_, l, r) =>
      ChildDepths(n, prefix, M);
      TreeKraft(l, prefix + [false], M);
      TreeKraft(r, prefix + [true], M);
      JoinKraft(n, prefix, M);
  }

  /** The sum over an interior node is the sums over its children, each half the node's. */
  lemma JoinKraft(n: Node, prefix: seq<bool>, M: nat)
    requires n.Interior? && |prefix| < M
    requires AtMost(StrLens(CodeTable(n.left, prefix + [false])), M)
    requires AtMost(StrLens(CodeTable(n.right, prefix + [true])), M)
    requires Kraft(StrLens(CodeTable(n.left, prefix + [false])), M) == Pow2(M - |prefix| - 1)
    requires Kraft(StrLens(CodeTable(n.right, prefix + [true])), M) == Pow2(M - |prefix| - 1)
    ensures AtMost(StrLens(CodeTable(n, prefix)), M)
    ensures Kraft(StrLens(CodeTable(n, prefix)), M) == Pow2(M - |prefix|)
  {
    var A, B := CodeTable(n.left, prefix + [false]), CodeTable(n.right, prefix + [true]);
    assert CodeTable(n, prefix) == A + B;
    StrLensAppend(A, B);
    KraftAppend(StrLens(A), StrLens(B), M);
  }

  /** The string of leaf k in the table of a tree under `prefix` is as long as the prefix and
      the leaf's depth together. */
  lemma TableLengths(n: Node, prefix: seq<bool>)
    ensures forall k :: 0 <= k < |Leaves(n)| ==> |CodeTable(n, prefix)[k].str| == |prefix| + Depth(n, k)
  {
    forall k | 0 <= k < |Leaves(n)|
      ensures |CodeTable(n, prefix)[k].str| == |prefix| + Depth(n, k)
    {
      CodeTableAt(n, prefix, k);
      PathLength(n, k);
    }
  }

  lemma StrLensAppend(A: seq<Encoding>, B: seq<Encoding>)
    ensures StrLens(A + B) == StrLens(A) + StrLens(B)
  {
  }

  /** The depth bound of a tree holds for its children one level further down. */
  lemma ChildDepths(n: Node, prefix: seq<bool>, M: nat)
    requires n.Interior? && forall k :: 0 <= k < |Leaves(n)| ==> |prefix| + Depth(n, k) <= M
    ensures |prefix| + 1 <= M
    ensures forall k :: 0 <= k < |Leaves(n.left)| ==> |prefix + [false]| + Depth(n.left, k) <= M
    ensures forall k :: 0 <= k < |Leaves(n.right)| ==> |prefix + [true]| + Depth(n.right, k) <= M
  {
    var m := |Leaves(n.left)|;
    assert Depth(n, 0) == Depth(n.left, 0) + 1;
    forall k | 0 <= k < m
      ensures |prefix + [false]| + Depth(n.left, k) <= M
    {
      assert Depth(n, k) == Depth(n.left, k) + 1;
    }
    forall k | 0 <= k < |Leaves(n.right)|
      ensures |prefix + [true]| + Depth(n.right, k) <= M
    {
      assert Depth(n, m + k) == Depth(n.right, k) + 1;
    }
  }

  /** The canonical form of the table of a tree no deeper than 31 is prefix-free. */
  method CanonicalTree(n: Node) returns (res: seq<Encoding>)
    requires forall k :: 0 <= k < |Leaves(n)| ==> Depth(n, k) <= 31
    ensures |res| == |Leaves(n)|
    ensures forall k :: 0 <= k < |res| ==> res[k].code == Leaves(n)[k].code && |res[k].str| == Depth(n, k)
    ensures forall a, b :: 0 <= a < |res| && 0 <= b < |res| && a != b ==> !(res[a].str <= res[b].str)
  {
    var t := CodeTable(n, []);
    TableShape(n);
    TreeFits(n);
    res := MakeCanonical(t);
  }

  /** The lengths of the table of a tree no deeper than 31 satisfy Kraft's inequality. */
  lemma TreeFits(n: Node)
    requires forall k :: 0 <= k < |Leaves(n)| ==> Depth(n, k) <= 31
    ensures AtMost(StrLens(CodeTable(n, [])), 31) && Kraft(StrLens(CodeTable(n, [])), 31) <= Pow2(31)
  {
    TreeKraft(n, [], 31);
  }

  /** The table of a tree lists its leaves' values with strings as long as their depths. */
  lemma TableShape(n: Node)
    ensures forall k :: 0 <= k < |Leaves(n)| ==> CodeTable(n, [])[k].code == Leaves(n)[k].code
    ensures forall k :: 0 <= k < |Leaves(n)| ==> |CodeTable(n, [])[k].str| == Depth(n, k)
  {
    forall k | 0 <= k < |Leaves(n)|
      ensures CodeTable(n, [])[k].code == Leaves(n)[k].code && |CodeTable(n, [])[k].str| == Depth(n, k)
    {
      CodeTableAt(n, [], k);
      PathLength(n, k);
    }
  }
}
