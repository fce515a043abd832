/**
 * Bit-level vocabulary shared by the run-length coder and the Huffman coder:
 * powers of two, the C shift and mask operators on unsigned values written
 * out on naturals, and MSB-first conversion between naturals and bit
 * sequences.  Shifts are defined by repeated doubling and halving so that
 * every proof about them stays within linear arithmetic.
 */
module Bits {

  function Pow2(n: nat): (r: nat)
    ensures r >= 1
  {
    if n == 0 then 1 else 2 * Pow2(n - 1)
  }

  /** `x << n` without a width limit. */
  function Shl(x: nat, n: nat): nat
  {
    if n == 0 then x else 2 * Shl(x, n - 1)
  }

  /** `x >> n` on an unsigned value. */
  function Shr(x: nat, n: nat): nat
  {
    if n == 0 then x else Shr(x / 2, n - 1)
  }

  /** The low `n` bits of `x`, that is `x & (2^n - 1)`, or `x` truncated to an n-bit type. */
  function Low(x: nat, n: nat): (r: nat)
    ensures r < Pow2(n)
  {
    if n == 0 then 0 else 2 * Low(x / 2, n - 1) + x % 2
  }

  function BitAnd(a: nat, b: nat): nat
    decreases a
  {
    if a == 0 || b == 0 then 0
    else 2 * BitAnd(a / 2, b / 2) + (if a % 2 == 1 && b % 2 == 1 then 1 else 0)
  }

  function BitOr(a: nat, b: nat): nat
    decreases a + b
  {
    if a == 0 then b
    else if b == 0 then a
    else 2 * BitOr(a / 2, b / 2) + (if a % 2 == 1 || b % 2 == 1 then 1 else 0)
  }

  // ---------------------------------------------------------------------------
  // Powers of two
  // ---------------------------------------------------------------------------

  /** Unsigned wrap-around modulo m, below and just past zero. */
  lemma ModSmall(a: int, m: int)
    requires 0 <= a < m
    ensures a % m == a
  {
  }

  lemma ModWrap(a: int, m: int)
    requires -m <= a < 0
    ensures a % m == a + m
  {
  }

  lemma {:induction false} Pow2Monotone(a: nat, b: nat)
    requires a <= b
    ensures Pow2(a) <= Pow2(b)
    decreases b
  {
    if a < b {
      Pow2Monotone(a, b - 1);
    }
  }

  lemma {:induction false} Pow2Add(a: nat, b: nat)
    ensures Pow2(a + b) == Shl(Pow2(a), b)
    decreases b
  {
    if b > 0 {
      Pow2Add(a, b - 1);
    }
  }

  lemma Pow2Byte()
    ensures Pow2(7) == 128 && Pow2(8) == 256
  {
  }

  lemma Pow2Word()
    ensures Pow2(16) == 0x1_0000 && Pow2(24) == 0x100_0000
    ensures Pow2(25) == 0x200_0000 && Pow2(32) == 0x1_0000_0000
  {
    Pow2Byte();
    Pow2Add(8, 8);
    assert Shl(256, 8) == 0x1_0000;
    Pow2Add(16, 8);
    assert Shl(0x1_0000, 8) == 0x100_0000;
    Pow2Add(24, 1);
    Pow2Add(24, 8);
    assert Shl(0x100_0000, 8) == 0x1_0000_0000;
  }

  lemma Pow2Window()
    ensures Pow2(56) == 0x100_0000_0000_0000 && Pow2(64) == 0x1_0000_0000_0000_0000
  {
    Pow2Word();
    Pow2Add(32, 24);
    ShlPow2(0x1_0000_0000, 24);
    Pow2Add(32, 32);
    ShlPow2(0x1_0000_0000, 32);
    assert 0x1_0000_0000 * 0x100_0000 == 0x100_0000_0000_0000;
    assert 0x1_0000_0000 * 0x1_0000_0000 == 0x1_0000_0000_0000_0000;
  }

  /** The one place a shift meets a product. */
  lemma {:induction false} ShlPow2(x: nat, n: nat)
    ensures Shl(x, n) == x * Pow2(n)
    decreases n
  {
    if n > 0 {
      ShlPow2(x, n - 1);
      assert 2 * (x * Pow2(n - 1)) == x * (2 * Pow2(n - 1));
    }
  }

  // ---------------------------------------------------------------------------
  // Shifts and masks
  // ---------------------------------------------------------------------------

  lemma {:induction false} ShlBound(x: nat, m: nat, n: nat)
    requires x < Pow2(m)
    ensures Shl(x, n) < Pow2(m + n)
    decreases n
  {
    if n > 0 {
      ShlBound(x, m, n - 1);
    }
  }

  lemma {:induction false} ShlAdd(x: nat, a: nat, b: nat)
    ensures Shl(Shl(x, a), b) == Shl(x, a + b)
    decreases b
  {
    if b > 0 {
      ShlAdd(x, a, b - 1);
    }
  }

  lemma {:induction false} ShlDistrib(a: nat, b: nat, n: nat)
    ensures Shl(a + b, n) == Shl(a, n) + Shl(b, n)
  {
    if n > 0 {
      ShlDistrib(a, b, n - 1);
    }
  }

  lemma {:induction false} ShlZero(n: nat)
    ensures Shl(0, n) == 0
  {
    if n > 0 {
      ShlZero(n - 1);
    }
  }

  lemma {:induction false} ShlMonotone(x: nat, y: nat, n: nat)
    requires x <= y
    ensures Shl(x, n) <= Shl(y, n)
  {
    if n > 0 {
      ShlMonotone(x, y, n - 1);
    }
  }

  lemma {:induction false} ShlCancel(x: nat, y: nat, n: nat)
    requires Shl(x, n) <= Shl(y, n)
    ensures x <= y
  {
    if n > 0 {
      ShlCancel(x, y, n - 1);
    }
  }

  lemma {:induction false} ShrZero(n: nat)
    ensures Shr(0, n) == 0
  {
    if n > 0 {
      ShrZero(n - 1);
    }
  }

  lemma {:induction false} ShrAdd(x: nat, a: nat, b: nat)
    ensures Shr(Shr(x, a), b) == Shr(x, a + b)
    decreases a
  {
    if a > 0 {
      ShrAdd(x / 2, a - 1, b);
    }
  }

  lemma {:induction false} ShrSmall(x: nat, n: nat)
    requires x < Pow2(n)
    ensures Shr(x, n) == 0
  {
    if n > 0 {
      ShrSmall(x / 2, n - 1);
    }
  }

  lemma {:induction false} ShrBound(x: nat, m: nat, n: nat)
    requires x < Pow2(m + n)
    ensures Shr(x, n) < Pow2(m)
    decreases n
  {
    if n > 0 {
      assert x / 2 < Pow2(m + n - 1);
      ShrBound(x / 2, m, n - 1);
    }
  }

  lemma {:induction false} LowSmall(x: nat, n: nat)
    requires x < Pow2(n)
    ensures Low(x, n) == x
  {
    if n > 0 {
      LowSmall(x / 2, n - 1);
    }
  }

  lemma {:induction false} LowLow(x: nat, n: nat, k: nat)
    requires n <= k
    ensures Low(Low(x, k), n) == Low(x, n)
    decreases n
  {
    if n > 0 {
      var y := Low(x, k);
      assert y == 2 * Low(x / 2, k - 1) + x % 2;
      assert y / 2 == Low(x / 2, k - 1) && y % 2 == x % 2;
      LowLow(x / 2, n - 1, k - 1);
    }
  }

  /** Every value is its high part shifted back plus its low part. */
  lemma {:induction false} ShrLow(x: nat, n: nat)
    ensures x == Shl(Shr(x, n), n) + Low(x, n)
  {
    if n > 0 {
      ShrLow(x / 2, n - 1);
    }
  }

  /** Splitting `(h << n) + l`, with `l` below 2^n, gives back `h` and `l`. */
  lemma {:induction false} SplitValue(h: nat, l: nat, n: nat)
    requires l < Pow2(n)
    ensures Shr(Shl(h, n) + l, n) == h
    ensures Low(Shl(h, n) + l, n) == l
  {
    if n > 0 {
      var v := Shl(h, n) + l;
      assert v == 2 * (Shl(h, n - 1) + l / 2) + l % 2;
      assert v / 2 == Shl(h, n - 1) + l / 2 && v % 2 == l % 2;
      SplitValue(h, l / 2, n - 1);
    }
  }

  /** Truncating a shifted value to n bits keeps the low n - j bits of the value, shifted. */
  lemma {:induction false} LowShl(x: nat, j: nat, n: nat)
    requires j <= n
    ensures Low(Shl(x, j), n) == Shl(Low(x, n - j), j)
    decreases j
  {
    if j > 0 {
      var y := Shl(x, j);
      assert y == 2 * Shl(x, j - 1);
      assert y / 2 == Shl(x, j - 1) && y % 2 == 0;
      LowShl(x, j - 1, n - 1);
    } else {
      assert Shl(x, 0) == x;
    }
  }

  /** Shifting left by at least the width clears an n-bit value. */
  lemma {:induction false} LowShlAll(x: nat, j: nat, n: nat)
    requires n <= j
    ensures Low(Shl(x, j), n) == 0
    decreases n
  {
    if n > 0 {
      var y := Shl(x, j);
      assert y == 2 * Shl(x, j - 1);
      assert y / 2 == Shl(x, j - 1) && y % 2 == 0;
      LowShlAll(x, j - 1, n - 1);
    }
  }

  lemma SplitParts(v: nat, h: nat, l: nat, n: nat)
    requires v == Shl(h, n) + l && l < Pow2(n)
    ensures Shr(v, n) == h && Low(v, n) == l
  {
    SplitValue(h, l, n);
  }

  lemma ShrShl(x: nat, n: nat)
    ensures Shr(Shl(x, n), n) == x
  {
    SplitValue(x, 0, n);
  }

  // ---------------------------------------------------------------------------
  // Bitwise operators
  // ---------------------------------------------------------------------------

  /** Or-ing a value into bits that a shift has cleared is an addition. */
  lemma {:induction false} BitOrShifted(a: nat, b: nat, n: nat)
    requires b < Pow2(n)
    ensures BitOr(Shl(a, n), b) == Shl(a, n) + b
    decreases n
  {
    var x := Shl(a, n);
    if n == 0 || x == 0 || b == 0 {
    } else {
      assert x == 2 * Shl(a, n - 1);
      assert x / 2 == Shl(a, n - 1) && x % 2 == 0;
      BitOrShifted(a, b / 2, n - 1);
    }
  }

  /** `a & (2^n - 1)` keeps the low `n` bits. */
  lemma {:induction false} BitAndLowMask(a: nat, n: nat)
    ensures BitAnd(a, Pow2(n) - 1) == Low(a, n)
    decreases n
  {
    if n > 0 && a > 0 {
      var m := Pow2(n) - 1;
      assert m == 2 * (Pow2(n - 1) - 1) + 1;
      assert m / 2 == Pow2(n - 1) - 1 && m % 2 == 1;
      BitAndLowMask(a / 2, n - 1);
    } else if n > 0 {
      LowSmall(0, n);
    }
  }

  /** `a & (2^m - 2^k)` keeps bits k..m-1 of a value below 2^m. */
  lemma {:induction false} BitAndHighMask(a: nat, m: nat, k: nat)
    requires k <= m && a < Pow2(m)
    ensures Pow2(k) <= Pow2(m)
    ensures BitAnd(a, Pow2(m) - Pow2(k)) == Shl(Shr(a, k), k)
    decreases k
  {
    Pow2Monotone(k, m);
    var mask := Pow2(m) - Pow2(k);
    if k == 0 {
      assert mask == Pow2(m) - 1;
      BitAndLowMask(a, m);
      LowSmall(a, m);
    } else if m == k {
      ShrSmall(a, k);
      ShlZero(k);
    } else if a == 0 {
      ShrZero(k);
      ShlZero(k);
    } else {
      var p, q := Pow2(m - 1), Pow2(k - 1);
      assert Pow2(m) == 2 * p && Pow2(k) == 2 * q;
      Pow2Monotone(k, m - 1);
      BitAndHighMask(a / 2, m - 1, k - 1);
      HighMaskStep(a, mask, p, q, Shr(a / 2, k - 1), k);
    }
  }

  /** One doubling of `BitAndHighMask`: a mask 2p - 2q clears bit 0 and keeps the rest as p - q does. */
  lemma HighMaskStep(a: nat, mask: nat, p: nat, q: nat, h: nat, k: nat)
    requires 0 < k && 1 <= q && 2 * q <= p && mask == 2 * p - 2 * q
    requires BitAnd(a / 2, p - q) == Shl(h, k - 1)
    ensures BitAnd(a, mask) == Shl(h, k)
  {
    assert mask / 2 == p - q && mask % 2 == 0;
    if a == 0 {
      assert BitAnd(a / 2, p - q) == 0;
    }
  }

  // ---------------------------------------------------------------------------
  // Bit sequences, most significant bit first
  // ---------------------------------------------------------------------------

  /** The value of a bit sequence read MSB first. */
  function BitsToNat(bs: seq<bool>): (r: nat)
    ensures r < Pow2(|bs|)
  {
    if |bs| == 0 then 0
    else 2 * BitsToNat(bs[..|bs| - 1]) + (if bs[|bs| - 1] then 1 else 0)
  }

  /** The low `n` bits of `v`, MSB first. */
  function NatToBits(v: nat, n: nat): (r: seq<bool>)
    ensures |r| == n
  {
    if n == 0 then [] else NatToBits(v / 2, n - 1) + [v % 2 == 1]
  }

  function Zeros(n: nat): (r: seq<bool>)
    ensures |r| == n && forall k :: 0 <= k < n ==> !r[k]
  {
    seq(n, _ => false)
  }

  function Ones(n: nat): (r: seq<bool>)
    ensures |r| == n && forall k :: 0 <= k < n ==> r[k]
  {
    seq(n, _ => true)
  }

  /** Or-ing an n-bit value with n one-bits gives the n one-bits. */
  lemma {:induction false} BitOrAllOnes(x: nat, n: nat)
    requires x < Pow2(n)
    ensures BitOr(x, Pow2(n) - 1) == Pow2(n) - 1
  {
    if n > 0 && x > 0 && Pow2(n) - 1 > 0 {
      assert (Pow2(n) - 1) / 2 == Pow2(n - 1) - 1 && (Pow2(n) - 1) % 2 == 1;
      BitOrAllOnes(x / 2, n - 1);
    }
  }

  /** Any k <= n low bits of the all-ones n-bit value are ones. */
  lemma {:induction false} NatToBitsAllOnes(n: nat, k: nat)
    requires k <= n
    ensures NatToBits(Pow2(n) - 1, k) == Ones(k)
  {
    if k > 0 {
      assert (Pow2(n) - 1) / 2 == Pow2(n - 1) - 1 && (Pow2(n) - 1) % 2 == 1;
      NatToBitsAllOnes(n - 1, k - 1);
      assert Ones(k - 1) + [true] == Ones(k);
    }
  }

  /** What is left of `s` after consuming `k` bits; nothing once `k` passes the end. */
  function Drop(s: seq<bool>, k: nat): (r: seq<bool>)
    ensures k <= |s| ==> r == s[k..]
    ensures k > |s| ==> r == []
  {
    if k <= |s| then s[k..] else []
  }

  lemma BitsToNatSnoc(s: seq<bool>, b: bool)
    ensures BitsToNat(s + [b]) == 2 * BitsToNat(s) + (if b then 1 else 0)
  {
    assert (s + [b])[..|s|] == s;
  }

  lemma {:induction false} BitsToNatAppend(a: seq<bool>, b: seq<bool>)
    ensures BitsToNat(a + b) == Shl(BitsToNat(a), |b|) + BitsToNat(b)
    decreases |b|
  {
    if |b| == 0 {
      assert a + b == a;
    } else {
      var b', l := b[..|b| - 1], b[|b| - 1];
      assert b == b' + [l];
      assert a + b == (a + b') + [l];
      BitsToNatSnoc(a + b', l);
      BitsToNatSnoc(b', l);
      BitsToNatAppend(a, b');
    }
  }

  lemma {:induction false} BitsToNatZeros(n: nat)
    ensures BitsToNat(Zeros(n)) == 0
  {
    if n > 0 {
      assert Zeros(n)[..n - 1] == Zeros(n - 1);
      BitsToNatZeros(n - 1);
    }
  }

  /** Reading the first `k` bits of a sequence is a right shift, the rest a mask. */
  lemma BitsToNatPrefix(bs: seq<bool>, k: nat)
    requires k <= |bs|
    ensures Shr(BitsToNat(bs), |bs| - k) == BitsToNat(bs[..k])
    ensures Low(BitsToNat(bs), |bs| - k) == BitsToNat(bs[k..])
  {
    var a, b := bs[..k], bs[k..];
    assert bs == a + b;
    BitsToNatAppend(a, b);
    var hi, lo := BitsToNat(a), BitsToNat(b);
    SplitParts(BitsToNat(bs), hi, lo, |b|);
  }

  lemma {:induction false} NatToBitsValue(v: nat, n: nat)
    ensures BitsToNat(NatToBits(v, n)) == Low(v, n)
  {
    if n > 0 {
      BitsToNatSnoc(NatToBits(v / 2, n - 1), v % 2 == 1);
      NatToBitsValue(v / 2, n - 1);
    }
  }

  lemma {:induction false} NatToBitsOfValue(bs: seq<bool>)
    ensures NatToBits(BitsToNat(bs), |bs|) == bs
    decreases |bs|
  {
    if |bs| > 0 {
      var init := bs[..|bs| - 1];
      var x := BitsToNat(bs);
      assert x / 2 == BitsToNat(init) && (x % 2 == 1 <==> bs[|bs| - 1]);
      NatToBitsOfValue(init);
      assert bs == init + [bs[|bs| - 1]];
    }
  }

  /** Equal-length bit sequences with equal values are equal. */
  lemma BitsToNatInjective(a: seq<bool>, b: seq<bool>)
    requires |a| == |b| && BitsToNat(a) == BitsToNat(b)
    ensures a == b
  {
    NatToBitsOfValue(a);
    NatToBitsOfValue(b);
  }

  lemma NatToBitsSmall(v: nat, n: nat)
    requires v < Pow2(n)
    ensures BitsToNat(NatToBits(v, n)) == v
  {
    NatToBitsValue(v, n);
    LowSmall(v, n);
  }

  /** Only the low `n` bits of a value reach its n-bit string. */
  lemma {:induction false} NatToBitsLow(v: nat, n: nat, k: nat)
    requires n <= k
    ensures NatToBits(Low(v, k), n) == NatToBits(v, n)
    decreases n
  {
    if n > 0 {
      var y := Low(v, k);
      assert y == 2 * Low(v / 2, k - 1) + v % 2;
      assert y / 2 == Low(v / 2, k - 1) && y % 2 == v % 2;
      NatToBitsLow(v / 2, n - 1, k - 1);
    }
  }

  lemma {:induction false} NatToBitsSplit(v: nat, m: nat, n: nat)
    ensures NatToBits(v, m + n) == NatToBits(Shr(v, n), m) + NatToBits(v, n)
    decreases n
  {
    if n > 0 {
      NatToBitsSplit(v / 2, m, n - 1);
      var a, b, c := NatToBits(Shr(v, n), m), NatToBits(v / 2, n - 1), [v % 2 == 1];
      assert NatToBits(v / 2, m + (n - 1)) == a + b;
      assert NatToBits(v, m + n) == (a + b) + c;
      assert NatToBits(v, n) == b + c;
      assert (a + b) + c == a + (b + c);
    }
  }

  lemma NatToBitsConcat(h: nat, m: nat, l: nat, n: nat)
    requires l < Pow2(n)
    ensures NatToBits(Shl(h, n) + l, m + n) == NatToBits(h, m) + NatToBits(l, n)
  {
    var v := Shl(h, n) + l;
    NatToBitsSplit(v, m, n);
    SplitValue(h, l, n);
    NatToBitsLow(v, n, n);
    NatToBitsLow(l, n, n);
  }

  lemma {:induction false} NatToBitsZero(n: nat)
    ensures NatToBits(0, n) == Zeros(n)
  {
    if n > 0 {
      NatToBitsZero(n - 1);
    }
  }
}
