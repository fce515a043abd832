/**
 * `Table<T>`, the growable array of the Huffman coder: it may be indexed by any int, and it
 * keeps the stored window [Base(), Summit()] in a buffer of `limit` slots that doubles, with
 * the old elements copied across, whenever an access falls outside it, above or below.
 */
module Tables {

  /** 1, 2, 4, 8, ... */
  predicate PowerOfTwo(n: nat)
    decreases n
  {
    n == 1 || (n > 1 && n % 2 == 0 && PowerOfTwo(n / 2))
  }

  function Min(a: int, b: int): int {
    if a <= b then a else b
  }

  function Max(a: int, b: int): int {
    if a >= b then a else b
  }

  class Table<T> {
    var data: array<T>
    var base: int
    var size: nat
    var limit: nat
    /** `T()`, what a slot never written holds. */
    const blank: T

    /** The buffer has `limit` slots, 0 or a power of two, the window uses the first `size` of
        them, and the rest hold `T()`. */
    ghost predicate Valid()
      reads this, data
    {
      data.Length == limit && size <= limit && (limit == 0 || PowerOfTwo(limit)) &&
      forall j :: size <= j < limit ==> data[j] == blank
    }

    /** The element at index i: what is stored there, or `T()` outside the window. */
    ghost function At(i: int): T
      reads this, data
      requires Valid()
    {
      if base <= i < base + size then data[i - base] else blank
    }

    /** `Base()`: the lowest index of the window. */
    function Base(): int
      reads this
    {
      base
    }

    /** `Summit()`: the highest index of the window; one below `Base()` while it is empty. */
    function Summit(): int
      reads this
    {
      size + base - 1
    }

    /** A new table: an empty window at 0, and every element `T()`. */
    constructor (blank: T)
      ensures Valid() && Base() == 0 && Summit() == -1
      ensures forall i :: At(i) == blank
    {
      this.blank := blank;
      data := new T[0];
      base, size, limit := 0, 0, 0;
    }

    /** `resize(i)`: grow the window to take in index i. The first access of an empty table
        puts the window at i; an index below it doubles `limit` until the window and the gap
        fit and shifts the elements up; one above it doubles `limit` until it fits. */
    method Resize(i: int)
      requires Valid()
      modifies this
      ensures Valid() && (data == old(data) || fresh(data))
      ensures forall j :: At(j) == old(At(j))
      ensures old(size) == 0 ==> base == i && size == 1
      ensures old(size) > 0 ==> base == Min(old(base), i) && Summit() == Max(old(Summit()), i)
    {
      if size == 0 {
        base := i;
      }
      if i < base {
        Extend(base - i);
      }
      if i - base >= limit {
        Enlarge(i - base);
      }
      if i + 1 - base > size {
        size := i + 1 - base;
      }
    }

    /** The branch for an index d below the window: `limit` doubles until the window and the
        gap fit, and the elements move up by d into a new buffer. */
    method Extend(d: nat)
      requires Valid() && d > 0
      modifies this
      ensures Valid() && fresh(data)
      ensures base == old(base) - d && size == old(size) + d
      ensures forall j :: At(j) == old(At(j))
    {
      limit := Grow(limit, size + d);
      var tmp := new T[limit](_ => blank);
      for j := 0 to size
        modifies tmp
        invariant forall k :: 0 <= k < j ==> tmp[k + d] == data[k]
        invariant forall k :: 0 <= k < d || d + j <= k < limit ==> tmp[k] == blank
      {
        tmp[j + d] := data[j];
      }
      data := tmp;
      size := size + d;
      base := base - d;
    }

    /** The branch for an index `need` slots above the window's base: `limit` doubles until
        it exceeds `need`, and the elements are copied to a new buffer. */
    method Enlarge(need: nat)
      requires Valid() && need >= limit
      modifies this
      ensures Valid() && fresh(data) && need < limit
      ensures base == old(base) && size == old(size)
      ensures forall j :: At(j) == old(At(j))
    {
      limit := Grow(limit, need);
      var tmp := new T[limit](_ => blank);
      for j := 0 to size
        modifies tmp
        invariant forall k :: 0 <= k < j ==> tmp[k] == data[k]
        invariant forall k :: j <= k < limit ==> tmp[k] == blank
      {
        tmp[j] := data[j];
      }
      data := tmp;
    }

    /** `t[i]` read: the element at i, once the window takes it in. */
    method Get(i: int) returns (v: T)
      requires Valid()
      modifies this
      ensures Valid() && v == At(i) && Base() <= i <= Summit()
      ensures forall j :: At(j) == old(At(j))
      ensures old(size) == 0 ==> Base() == i == Summit()
      ensures old(size) > 0 ==> base == Min(old(base), i) && Summit() == Max(old(Summit()), i)
    {
      Resize(i);
      v := data[i - base];
    }

    /** `t[i] = v`: the element at i becomes v and no other element changes. */
    method Set(i: int, v: T)
      requires Valid()
      modifies this, data
      ensures Valid() && Base() <= i <= Summit()
      ensures forall j :: At(j) == if j == i then v else old(At(j))
      ensures old(size) == 0 ==> Base() == i == Summit()
      ensures old(size) > 0 ==> base == Min(old(base), i) && Summit() == Max(old(Summit()), i)
    {
      Resize(i);
      data[i - base] := v;
    }
  }

  /** The doubling loop of `resize`: `limit` goes 1, 2, 4, ... until it exceeds `need`. */
  method Grow(limit: nat, need: int) returns (lim: nat)
    requires limit == 0 || PowerOfTwo(limit)
    requires need >= 0
    ensures limit <= lim && need < lim && PowerOfTwo(lim)
    ensures limit > need ==> lim == limit
  {
    lim := limit;
    while need >= lim
      invariant limit <= lim && (lim == 0 || PowerOfTwo(lim))
      invariant limit > need ==> lim == limit
      decreases if lim > need then 0 else need - lim + 1
    {
      if lim == 0 {
        lim := 1;
      } else {
        Doubling(lim);
        lim := lim * 2;
      }
    }
  }

  /** Doubling keeps `limit` a power of two. */
  lemma Doubling(n: nat)
    requires PowerOfTwo(n)
    ensures PowerOfTwo(2 * n)
  {
  }
}
