/**
 * Bit-level file I/O of the Huffman coder. `make_string` and `make_var_string` turn integers
 * into strings of '0'/'1' characters, MSB first (here: sequences of booleans); `BitFileOut`
 * packs such strings MSB first into bytes and zero-pads the last byte when it is closed;
 * `BitFileIn` hands the bits of a file back one at a time and throws once the bytes are
 * exhausted, which `read_bits` and `read_var_bits` build on.
 */
module BitFiles {
  import opened Bits
  import opened Wrappers

  /** A byte of a file. */
  type Byte = x: int | 0 <= x < 256

  /** The bits of a byte sequence, each byte MSB first. */
  function BytesBits(bs: seq<Byte>): (r: seq<bool>)
    ensures |r| == 8 * |bs|
  {
    if bs == [] then [] else NatToBits(bs[0], 8) + BytesBits(bs[1..])
  }

  lemma {:induction false} BytesBitsAppend(a: seq<Byte>, b: seq<Byte>)
    ensures BytesBits(a + b) == BytesBits(a) + BytesBits(b)
    decreases |a|
  {
    if a == [] {
      assert a + b == b;
    } else {
      assert (a + b)[0] == a[0];
      assert (a + b)[1..] == a[1..] + b;
      BytesBitsAppend(a[1..], b);
    }
  }

  lemma BytesBitsFront(bs: seq<Byte>, k: nat)
    requires k < |bs|
    ensures BytesBits(bs[k..]) == NatToBits(bs[k], 8) + BytesBits(bs[k + 1..])
  {
    assert bs[k..][0] == bs[k];
    assert bs[k..][1..] == bs[k + 1..];
  }

  // ---------------------------------------------------------------------------
  // make_string and make_var_string
  // ---------------------------------------------------------------------------

  /** `v >> k` on a signed int: an arithmetic shift, rounding toward minus infinity. */
  function Sar(v: int, k: nat): int
    decreases k
  {
    if k == 0 then v else Sar(v / 2, k - 1)
  }

  /** The low `n` bits of the two's complement of `v`, MSB first. */
  function IntBits(v: int, n: nat): (r: seq<bool>)
    ensures |r| == n
    decreases n
  {
    if n == 0 then [] else IntBits(v / 2, n - 1) + [v % 2 == 1]
  }

  /** Character i of `make_string(v, n)` is bit `n - 1 - i` of v. */
  lemma {:induction false} IntBitsAt(v: int, n: nat, i: nat)
    requires i < n
    ensures IntBits(v, n)[i] == (Sar(v, n - 1 - i) % 2 == 1)
    decreases n
  {
    if i < n - 1 {
      IntBitsAt(v / 2, n - 1, i);
      SarStep(v, n - 1 - i);
    }
  }

  lemma SarStep(v: int, k: nat)
    requires k > 0
    ensures Sar(v, k) == Sar(v / 2, k - 1)
  {
  }

  /** For a non-negative value the string is the value's low `n` bits. */
  lemma {:induction false} IntBitsOfNat(v: int, n: nat)
    requires v >= 0
    ensures IntBits(v, n) == NatToBits(v, n)
  {
    if n > 0 {
      IntBitsOfNat(v / 2, n - 1);
    }
  }

  /** `make_string(v, n)` holds the low `n` bits of a non-negative v, and v itself once v fits. */
  lemma IntBitsValue(v: int, n: nat)
    requires v >= 0
    ensures BitsToNat(IntBits(v, n)) == Low(v, n)
    ensures v < Pow2(n) ==> BitsToNat(IntBits(v, n)) == v
  {
    IntBitsOfNat(v, n);
    NatToBitsValue(v, n);
    if v < Pow2(n) {
      LowSmall(v, n);
    }
  }

  /** `make_string(v, len)`: the low `len` bits of v, MSB first; a shift of 32 or more places
      is undefined on an int, so `len` is at most 32. */
  method MakeString(v: int, len: nat) returns (s: seq<bool>)
    requires len <= 32
    ensures s == IntBits(v, len)
  {
    s := [];
    for i := 0 to len
      invariant s == IntBits(v, len)[..i]
    {
      IntBitsAt(v, len, i);
      s := s + [Sar(v, len - i - 1) % 2 == 1];
      assert IntBits(v, len)[..i + 1] == IntBits(v, len)[..i] + [IntBits(v, len)[i]];
    }
  }

  /** The number of significant bits of v: the count `make_var_string` shifts out. */
  function NBits(v: nat): (n: nat)
    ensures v < Pow2(n)
    ensures v > 0 ==> n > 0 && Pow2(n - 1) <= v
  {
    if v == 0 then 0 else 1 + NBits(v / 2)
  }

  lemma NBitsBound(v: nat)
    requires v < 0x8000_0000
    ensures NBits(v) <= 31
  {
    Pow2Word();
    assert Pow2(31) == 0x8000_0000;
    if NBits(v) > 31 {
      Pow2Monotone(31, NBits(v) - 1);
    }
  }

  /** `make_var_string(v)`: the bit count of v in five bits, then v in that many bits. A
      negative v never reaches zero under the arithmetic shift, so the source loops forever on
      it. */
  method MakeVarString(v: int) returns (s: seq<bool>)
    requires 0 <= v < 0x8000_0000
    ensures s == IntBits(NBits(v), 5) + IntBits(v, NBits(v))
  {
    var t, nbits := v, 0;
    while t != 0
      invariant 0 <= t && nbits + NBits(t) == NBits(v)
      decreases t
    {
      nbits := nbits + 1;
      t := t / 2;
    }
    NBitsBound(v);
    var count := MakeString(nbits, 5);
    var value := MakeString(v, nbits);
    s := count + value;
  }

  // ---------------------------------------------------------------------------
  // Reading fields
  // ---------------------------------------------------------------------------

  /** What `read_bits(n)` gives on the unread bits `u`: the value of the first `n` bits and what
      is left after them; nothing (the EOF throw) when fewer than `n` are left. */
  function Field(u: seq<bool>, n: nat): (r: Option<(nat, seq<bool>)>)
    ensures r.Some? <==> n <= |u|
    ensures r.Some? ==> r.value.0 < Pow2(n) && |r.value.1| == |u| - n
  {
    if n <= |u| then Some((BitsToNat(u[..n]), u[n..])) else None
  }

  /** What `read_var_bits()` gives: a five-bit count, then a field of that many bits. */
  function VarField(u: seq<bool>): Option<(nat, seq<bool>)> {
    match Field(u, 5)
    case None => None
    case Some((n, rest)) => Field(rest, n)
  }

  /** `read_bits(n)` over bits written by `put(make_string(v, n))` gives v mod 2^n. */
  lemma FieldOfString(v: int, n: nat, rest: seq<bool>)
    requires v >= 0
    ensures Field(IntBits(v, n) + rest, n) == Some((Low(v, n), rest))
  {
    var s := IntBits(v, n);
    assert (s + rest)[..n] == s && (s + rest)[n..] == rest;
    IntBitsValue(v, n);
  }

  /** `read_var_bits` inverts `make_var_string` for 0 <= v < 2^31. */
  lemma VarFieldOfString(v: int, rest: seq<bool>)
    requires 0 <= v < 0x8000_0000
    ensures VarField(IntBits(NBits(v), 5) + IntBits(v, NBits(v)) + rest) == Some((v, rest))
  {
    var n := NBits(v);
    NBitsBound(v);
    Pow2Word();
    assert Pow2(5) == 32;
    var tail := IntBits(v, n) + rest;
    assert IntBits(n, 5) + IntBits(v, n) + rest == IntBits(n, 5) + tail;
    FieldOfString(n, 5, tail);
    LowSmall(n, 5);
    FieldOfString(v, n, rest);
    LowSmall(v, n);
  }

  // ---------------------------------------------------------------------------
  // BitFileOut
  // ---------------------------------------------------------------------------

  /** The register after bit `b` joins the `|p|` bits `p` held at its top. */
  lemma PutStep(p: seq<bool>, b: bool)
    requires |p| < 8
    ensures BitOr(Shl(BitsToNat(p), 8 - |p|), Shl(if b then 1 else 0, 7 - |p|))
         == Shl(BitsToNat(p + [b]), 7 - |p|)
  {
    var x, y, bit, m := BitsToNat(p), BitsToNat(p + [b]), if b then 1 else 0, 7 - |p|;
    BitsToNatSnoc(p, b);
    assert y == 2 * x + bit;
    OrBelow(x, bit, 8 - |p|, m);
  }

  lemma OrBelow(x: nat, bit: nat, n: nat, m: nat)
    requires bit <= 1 && n == m + 1
    ensures BitOr(Shl(x, n), Shl(bit, m)) == Shl(2 * x + bit, m)
  {
    ShlAdd(x, 1, m);
    assert Shl(x, 1) == 2 * x;
    assert Pow2(1) == 2;
    ShlBound(bit, 1, m);
    BitOrShifted(x, Shl(bit, m), m + 1);
    ShlDistrib(2 * x, bit, m);
  }

  lemma Snoc(a: seq<bool>, s: seq<bool>, i: nat)
    requires i < |s|
    ensures a + s[..i + 1] == (a + s[..i]) + [s[i]]
  {
    assert s[..i + 1] == s[..i] + [s[i]];
  }

  /** A full register is the byte whose bits are the eight pending bits. */
  lemma FullByte(bytes: seq<Byte>, p: seq<bool>)
    requires |p| == 8
    ensures Shl(BitsToNat(p), 0) < 256
    ensures BytesBits(bytes + [BitsToNat(p)]) == BytesBits(bytes) + p
  {
    Pow2Byte();
    var x := BitsToNat(p);
    BytesBitsAppend(bytes, [x]);
    assert BytesBits([x]) == NatToBits(x, 8) + BytesBits([]);
    NatToBitsOfValue(p);
  }

  /** The padded last byte: the pending bits followed by zeros. */
  lemma PartialByte(bytes: seq<Byte>, p: seq<bool>)
    requires 0 < |p| < 8
    ensures Shl(BitsToNat(p), 8 - |p|) < 256
    ensures BytesBits(bytes + [Shl(BitsToNat(p), 8 - |p|)]) == BytesBits(bytes) + p + Zeros(8 - |p|)
  {
    var y := Shl(BitsToNat(p), 8 - |p|);
    PaddedBits(p, 8 - |p|, 8);
    Pow2Byte();
    BytesBitsAppend(bytes, [y]);
    assert BytesBits([y]) == NatToBits(y, 8) + BytesBits([]);
  }

  /** The bits p shifted up by k within a w-bit field: p followed by k zeros. */
  lemma PaddedBits(p: seq<bool>, k: nat, w: nat)
    requires w == |p| + k
    ensures Shl(BitsToNat(p), k) < Pow2(w)
    ensures NatToBits(Shl(BitsToNat(p), k), w) == p + Zeros(k)
  {
    var x := BitsToNat(p);
    NatToBitsOfValue(p);
    ShlBound(x, |p|, k);
    assert Shl(x, k) + 0 == Shl(x, k);
    NatToBitsConcat(x, |p|, 0, k);
    NatToBitsZero(k);
  }

  class BitFileOut {
    /** The bytes written to the file so far. */
    var bytes: seq<Byte>
    /** How many bits of `och` are in use, from the top. */
    var obc: nat
    var och: nat
    /** The bits held in `och`, not yet written out. */
    ghost var pending: seq<bool>

    ghost predicate Valid()
      reads this
    {
      obc < 8 && |pending| == obc && och == Shl(BitsToNat(pending), 8 - obc)
    }

    /** Every bit put so far. */
    ghost function Written(): seq<bool>
      reads this
    {
      BytesBits(bytes) + pending
    }

    /** Opening the file: nothing is written and the register is empty. */
    constructor ()
      ensures Valid() && bytes == [] && Written() == []
    {
      bytes, obc, och := [], 0, 0;
      pending := [];
      ShlZero(8);
    }

    /** `put(str)`: the bits one by one, in order. */
    method Put(str: seq<bool>)
      requires Valid()
      modifies this
      ensures Valid() && Written() == old(Written()) + str
    {
      ghost var before := Written();
      for i := 0 to |str|
        invariant Valid() && Written() == before + str[..i]
      {
        PutBit(str[i]);
        Snoc(before, str, i);
      }
    }

    /** One step of `put`: the bit is or-ed into `och` below the bits already there, and a full
        register is written out as one byte. */
    method PutBit(b: bool)
      requires Valid()
      modifies this
      ensures Valid() && Written() == old(Written()) + [b]
    {
      ghost var p := pending + [b];
      var bit := if b then 1 else 0;
      PutStep(pending, b);
      och := BitOr(och, Shl(bit, 7 - obc));
      obc := obc + 1;
      pending := p;
      if obc == 8 {
        FullByte(bytes, p);
        bytes := bytes + [och];
        obc, och := 0, 0;
        pending := [];
        ShlZero(8);
      }
    }

    /** The destructor: a partly filled register is written out, its low bits zero. */
    method Close()
      requires Valid()
      modifies this
      ensures Valid() && obc == 0 && pending == []
      ensures BytesBits(bytes) == old(Written()) + Zeros(if old(obc) == 0 then 0 else 8 - old(obc))
    {
      if obc != 0 {
        PartialByte(bytes, pending);
        bytes := bytes + [och];
        obc, och := 0, 0;
        pending := [];
        ShlZero(8);
      } else {
        assert Zeros(0) == [];
      }
    }
  }

  // ---------------------------------------------------------------------------
  // BitFileIn
  // ---------------------------------------------------------------------------

  /** Bit i of an n-bit string of v is bit `n - 1 - i` of v. */
  lemma {:induction false} NatToBitsAt(v: nat, n: nat, i: nat)
    requires i < n
    ensures NatToBits(v, n)[i] == (Shr(v, n - 1 - i) % 2 == 1)
  {
    if i < n - 1 {
      NatToBitsAt(v / 2, n - 1, i);
    }
  }

  class BitFileIn {
    /** The contents of the file. */
    const file: seq<Byte>
    /** How many bytes have been fetched from the file. */
    var pos: nat
    /** How many bits of `och` have been handed out; 8 when it is used up. */
    var obc: nat
    var och: Byte

    ghost predicate Valid()
      reads this
    {
      pos <= |file| && obc <= 8
    }

    /** The bits not yet handed out. */
    ghost function Unread(): seq<bool>
      reads this
      requires Valid()
    {
      NatToBits(och, 8)[obc..] + BytesBits(file[pos..])
    }

    /** Opening the file: every bit is unread. */
    constructor (f: seq<Byte>)
      ensures Valid() && file == f && Unread() == BytesBits(f)
    {
      file := f;
      pos, obc, och := 0, 8, 0;
    }

    /** `GetBit()`: the next bit, fetching a new byte once `och` is used up; nothing (the throw)
        once the file is exhausted. */
    method GetBit() returns (bit: Option<bool>)
      requires Valid()
      modifies this
      ensures Valid()
      ensures old(Unread()) == [] ==> bit == None && Unread() == []
      ensures old(Unread()) != [] ==> bit == Some(old(Unread())[0]) && Unread() == old(Unread())[1..]
    {
      if obc == 8 {
        if pos == |file| {
          och := 255;
          return None;
        }
        BytesBitsFront(file, pos);
        och := file[pos];
        pos := pos + 1;
        obc := 0;
      }
      NatToBitsAt(och, 8, obc);
      bit := Some(Shr(och, 7 - obc) % 2 == 1);
      obc := obc + 1;
    }

    /** `read_bits(n)`: `v = (v << 1) | bit` over the next n bits. */
    method ReadBits(n: nat) returns (r: Option<nat>)
      requires Valid()
      modifies this
      ensures Valid()
      ensures r.Some? <==> n <= |old(Unread())|
      ensures r.Some? ==> Field(old(Unread()), n) == Some((r.value, Unread()))
      ensures r.None? ==> Unread() == []
    {
      ghost var u := Unread();
      var v := 0;
      for i := 0 to n
        invariant Valid() && i <= |u| && v == BitsToNat(u[..i]) && Unread() == u[i..]
      {
        var b := GetBit();
        if b.None? {
          return None;
        }
        assert u[..i + 1] == u[..i] + [u[i]];
        BitsToNatSnoc(u[..i], u[i]);
        v := 2 * v + if b.value then 1 else 0;
      }
      r := Some(v);
    }

    /** `read_var_bits()`: a five-bit count, then that many bits. */
    method ReadVarBits() returns (r: Option<nat>)
      requires Valid()
      modifies this
      ensures Valid()
      ensures r.Some? <==> VarField(old(Unread())).Some?
      ensures r.Some? ==> VarField(old(Unread())) == Some((r.value, Unread()))
    {
      var n := ReadBits(5);
      if n.None? {
        return None;
      }
      r := ReadBits(n.value);
    }
  }

  /** A value put as an n-bit string into a new file, and read back with `read_bits(n)`. */
  method PutThenRead(v: int, n: nat) returns (r: Option<nat>)
    requires 0 <= v && n <= 32
    ensures r == Some(Low(v, n))
  {
    var out := new BitFileOut();
    var s := MakeString(v, n);
    out.Put(s);
    ghost var pad := Zeros(if out.obc == 0 then 0 else 8 - out.obc);
    out.Close();
    assert [] + s == s;
    var inf := new BitFileIn(out.bytes);
    assert inf.Unread() == IntBits(v, n) + pad;
    FieldOfString(v, n, pad);
    r := inf.ReadBits(n);
  }
}
