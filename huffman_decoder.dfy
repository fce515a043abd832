/**
 * The Huffman file decoder: it reads the header the encoder wrote, places the (value, depth)
 * pairs in a slot array around the marker's slot, rebuilds the tree with `build` and walks it
 * bit by bit, writing each leaf's value, until it reaches the marker (code -1).
 */
module HuffmanDecoder {
  import opened Bits
  import opened Wrappers
  import opened BitFiles
  import opened Huffman

  /** The message of the decoder's one catch: every throw of `GetBit` ends up here. */
  const Corrupt := "not a huffman encoded file"

  // ---------------------------------------------------------------------------
  // The decoder as a function of the file's bits
  // ---------------------------------------------------------------------------

  /** `read_bits(n)`: the next n bits, first bit most significant, and what is left; the throw
      when the file ends first. */
  function Read(u: seq<bool>, n: nat): (r: Result<(nat, seq<bool>)>)
    ensures r.Ok? <==> n <= |u|
    ensures r.Ok? ==> r.value.0 < Pow2(n) && |r.value.1| == |u| - n
    ensures r.Err? ==> r.error == Corrupt
  {
    match Field(u, n)
    case None => Err(Corrupt)
    case Some(p) => Ok(p)
  }

  /** `big & mask` on the flag byte. */
  function FlagSet(big: nat, mask: bv8): bool {
    big < 256 && (big as bv8) & mask != 0
  }

  /** A width of 16 bits when the flag is set, else 8. */
  function Width(big: nat, mask: bv8): nat {
    if FlagSet(big, mask) then 16 else 8
  }

  /** The leading fields: the flags, the trailing byte or -1, the number of pairs to read and
      the marker's slot. */
  datatype Fields = Fields(big: nat, last: int, cnt: nat, marker: nat)

  /** The reads before the marker's length: `big`; the trailing byte when bit 2 is set; the
      count less one, in 16 bits when bit 1 is set; the marker's slot in 32 bits. */
  function ReadFields(u: seq<bool>): Result<(Fields, seq<bool>)> {
    var b :- Read(u, 8);
    var l :- ReadLast(b.0, b.1);
    ReadPlaces(b.0, l.0, l.1)
  }

  /** The count and the marker's slot. */
  function ReadPlaces(big: nat, last: int, u: seq<bool>): Result<(Fields, seq<bool>)> {
    var c :- Read(u, Width(big, 2));
    var m :- Read(c.1, 32);
    Ok((Fields(big, last, c.0 + 1, m.0), m.1))
  }

  /** The trailing byte when bit 2 is set, else -1 and nothing read. */
  function ReadLast(big: nat, u: seq<bool>): (r: Result<(int, seq<bool>)>)
    ensures r.Ok? && !FlagSet(big, 4) ==> r.value == (-1, u)
  {
    if FlagSet(big, 4) then
      var l :- Read(u, 8);
      Ok((l.0 as int, l.1))
    else Ok((-1, u))
  }

  /** The number of values the flags allow: 2^16 in 16-bit mode, else 2^8. */
  function Values(big: nat): nat {
    if FlagSet(big, 8) then 0x1_0000 else 256
  }

  /** The slot array after `data[j].code = -1; data[j].size = len`: every other slot has size 0
      and, never written, code 0. */
  function Slots(size: nat, marker: nat, len: nat): (data: seq<Slot>)
    requires marker <= size
    ensures |data| == size + 1 && data[marker] == Slot(-1, len)
    ensures forall k :: 0 <= k <= size && k != marker ==> data[k] == Slot(0, 0)
  {
    seq(size + 1, k requires 0 <= k <= size => if k == marker then Slot(-1, len) else Slot(0, 0))
  }

  /** The loop that reads the pairs: `left` more to read, the next one at slot j, or at j + 1
      when slot j is taken (the marker's). A slot past the array is an error. */
  function Fill(data: seq<Slot>, j: nat, left: nat, u: seq<bool>, cw: nat, lw: nat): (r: Result<(seq<Slot>, seq<bool>)>)
    ensures r.Ok? ==> |r.value.0| == |data|
    decreases left
  {
    if left == 0 then Ok((data, u))
    else if j >= |data| then Err("the pairs run past the slot array")
    else
      var at := if data[j].size != 0 then j + 1 else j;
      var c :- Read(u, cw);
      if at >= |data| then Err("the pairs run past the slot array")
      else
        var s :- Read(c.1, lw);
        Fill(data[at := Slot(c.0, s.0)], at + 1, left - 1, s.1, cw, lw)
  }

  /** What one leaf writes: its value as a byte, and in 16-bit mode the next byte up too. */
  function Emit(code: int, wide: bool): (s: seq<Byte>)
    ensures |s| == if wide then 2 else 1
  {
    [code % 256] + if wide then [(code / 256) % 256] else []
  }

  /** The decoding loop from `node` on: a bit takes it to a child; a leaf writes its value and
      goes back to the root, the marker's leaf ends it; running out of bits is the throw. */
  function Walk(root: Node, node: Node, u: seq<bool>, wide: bool): (r: Result<seq<Byte>>)
    requires root.Interior? && node.Interior?
    ensures r.Err? ==> r.error == Corrupt
    decreases |u|
  {
    if u == [] then Err(Corrupt)
    else
      var next := Decend(node, u[0]);
      if next.Interior? then Walk(root, next, u[1..], wide)
      else if next.code == -1 then Ok([])
      else Prepend(Emit(next.code, wide), Walk(root, root, u[1..], wide))
  }

  /** What the decoder writes after the leading fields: the marker's length, the pairs, the
      walk over the rebuilt tree, then the trailing byte. A marker slot past the array is an
      error, as are the failures of `build`. */
  function DecodeBody(f: Fields, u: seq<bool>): Result<seq<Byte>> {
    var size := Values(f.big);
    if f.marker > size then Err("the marker's slot is past the slot array")
    else
      var s :- Read(u, Width(f.big, 1));
      DecodeSlots(f, Slots(size, f.marker, s.0), s.1)
  }

  /** The pairs read into the slot array, then the tree and the walk. */
  function DecodeSlots(f: Fields, data: seq<Slot>, u: seq<bool>): Result<seq<Byte>> {
    var filled :- Fill(data, 0, f.cnt, u, Width(f.big, 8), Width(f.big, 1));
    DecodeTree(f, filled.0, filled.1)
  }

  /** The tree built from the filled slot array and the walk over the rest of the file. */
  function DecodeTree(f: Fields, data: seq<Slot>, u: seq<bool>): Result<seq<Byte>> {
    var tree :- Build(data, 0, 0);
    var out :- Walk(tree.0, tree.0, u, FlagSet(f.big, 8));
    Ok(out + if f.last != -1 then [f.last % 256] else [])
  }

  /** The whole decoder: an empty file decodes to nothing. */
  function Decoded(file: seq<Byte>): Result<seq<Byte>> {
    if file == [] then Ok([])
    else
      var h :- ReadFields(BytesBits(file));
      DecodeBody(h.0, h.1)
  }

  // ---------------------------------------------------------------------------
  // Facts about the walk
  // ---------------------------------------------------------------------------

  /** Walking the path of leaf k from `node` reaches leaf k: the marker's ends the walk, any
      other writes its value and the walk starts again at the root. */
  lemma {:induction false} WalkPath(root: Node, node: Node, k: nat, rest: seq<bool>, wide: bool)
    requires root.Interior? && node.Interior? && k < |Leaves(node)|
    ensures var leaf := Leaves(node)[k];
      Walk(root, node, Path(node, k) + rest, wide) ==
        if leaf.code == -1 then Ok([]) else Prepend(Emit(leaf.code, wide), Walk(root, root, rest, wide))
    decreases node
  {
    var l, r := node.left, node.right;
    var m := |Leaves(l)|;
    var bit := k >= m;
    var child := if bit then r else l;
    var k' := if bit then k - m else k;
    assert Path(node, k) == [bit] + Path(child, k');
    assert Leaves(node)[k] == Leaves(child)[k'];
    var u := Path(node, k) + rest;
    assert u[0] == bit && u[1..] == Path(child, k') + rest;
    if child.Interior? {
      WalkPath(root, child, k', rest, wide);
    } else {
      assert Path(child, k') == [] && Leaves(child)[k'] == child;
    }
  }

  // ---------------------------------------------------------------------------
  // The decoder's `main`
  // ---------------------------------------------------------------------------

  /** `read_bits(n)` with the throw made a result. */
  method Take(inf: BitFileIn, n: nat) returns (r: Result<nat>)
    requires inf.Valid()
    modifies inf
    ensures inf.Valid()
    ensures r.Ok? ==> Read(old(inf.Unread()), n) == Ok((r.value, inf.Unread()))
    ensures r.Err? ==> Read(old(inf.Unread()), n) == Err(r.error)
  {
    var v := inf.ReadBits(n);
    if v.None? {
      r := Err(Corrupt);
    } else {
      r := Ok(v.value);
    }
  }

  /** The reads of the leading fields. */
  method TakeFields(inf: BitFileIn) returns (r: Result<Fields>)
    requires inf.Valid()
    modifies inf
    ensures inf.Valid()
    ensures r.Ok? ==> ReadFields(old(inf.Unread())) == Ok((r.value, inf.Unread()))
    ensures r.Err? ==> ReadFields(old(inf.Unread())) == Err(r.error)
  {
    var big :- Take(inf, 8);
    var last :- TakeLast(inf, big);
    r := TakePlaces(inf, big, last);
  }

  /** `cnt = inf.read_bits(...) + 1` and `j = inf.read_bits(32)`. */
  method TakePlaces(inf: BitFileIn, big: nat, last: int) returns (r: Result<Fields>)
    requires inf.Valid()
    modifies inf
    ensures inf.Valid()
    ensures r.Ok? ==> ReadPlaces(big, last, old(inf.Unread())) == Ok((r.value, inf.Unread()))
    ensures r.Err? ==> ReadPlaces(big, last, old(inf.Unread())) == Err(r.error)
  {
    var c :- Take(inf, Width(big, 2));
    var j :- Take(inf, 32);
    r := Ok(Fields(big, last, c + 1, j));
  }

  /** `if (big&4) last = inf.read_bits(8);` */
  method TakeLast(inf: BitFileIn, big: nat) returns (r: Result<int>)
    requires inf.Valid()
    modifies inf
    ensures inf.Valid()
    ensures r.Ok? ==> ReadLast(big, old(inf.Unread())) == Ok((r.value, inf.Unread()))
    ensures r.Err? ==> ReadLast(big, old(inf.Unread())) == Err(r.error)
  {
    r := Ok(-1);
    if FlagSet(big, 4) {
      var l :- Take(inf, 8);
      r := Ok(l);
    }
  }

  /** The loop that reads the pairs into the slot array. */
  method TakePairs(inf: BitFileIn, data: array<Slot>, cnt: nat, cw: nat, lw: nat) returns (r: Result<()>)
    requires inf.Valid()
    modifies inf, data
    ensures inf.Valid()
    ensures var f := Fill(old(data[..]), 0, cnt, old(inf.Unread()), cw, lw);
      if r.Ok? then f == Ok((data[..], inf.Unread())) else f == Err(r.error)
  {
    ghost var goal := Fill(data[..], 0, cnt, inf.Unread(), cw, lw);
    var j := 0;
    for i := 0 to cnt
      invariant inf.Valid()
      invariant goal == Fill(data[..], j, cnt - i, inf.Unread(), cw, lw)
    {
      var next := TakePair(inf, data, j, cnt - i, cw, lw);
      if next.Err? {
        return Err(next.error);
      }
      j := next.value;
    }
    r := Ok(());
  }

  /** One turn of the pair loop. */
  method TakePair(inf: BitFileIn, data: array<Slot>, j: nat, left: nat, cw: nat, lw: nat) returns (r: Result<nat>)
    requires inf.Valid() && left > 0
    modifies inf, data
    ensures inf.Valid()
    ensures var f := Fill(old(data[..]), j, left, old(inf.Unread()), cw, lw);
      if r.Ok? then f == Fill(data[..], r.value, left - 1, inf.Unread(), cw, lw) else f == Err(r.error)
  {
    if j >= data.Length {
      return Err("the pairs run past the slot array");
    }
    var at := j;
    if data[j].size != 0 {
      at := j + 1;
    }
    var code :- Take(inf, cw);
    if at >= data.Length {
      return Err("the pairs run past the slot array");
    }
    var size :- Take(inf, lw);
    data[at] := Slot(code, size);
    r := Ok(at + 1);
  }

  /** The loop that walks the tree: one bit per turn, a value written at each leaf. */
  method TakeWalk(inf: BitFileIn, root: Node, wide: bool) returns (r: Result<seq<Byte>>)
    requires inf.Valid() && root.Interior?
    modifies inf
    ensures r == Walk(root, root, old(inf.Unread()), wide)
  {
    ghost var goal := Walk(root, root, inf.Unread(), wide);
    var node := root;
    var out: seq<Byte> := [];
    if goal.Ok? {
      assert [] + goal.value == goal.value;
    }
    assert goal == Prepend(out, Walk(root, node, inf.Unread(), wide));
    while true
      invariant inf.Valid() && node.Interior?
      invariant goal == Prepend(out, Walk(root, node, inf.Unread(), wide))
      decreases |inf.Unread()|
    {
      var bit := inf.GetBit();
      if bit.None? {
        return Err(Corrupt);
      }
      var next := Decend(node, bit.value);
      if next.Leaf? {
        if next.code == -1 {
          assert out + [] == out;
          return Ok(out);
        }
        PrependPrepend(out, Emit(next.code, wide), Walk(root, root, inf.Unread(), wide));
        out := out + Emit(next.code, wide);
        node := root;
      } else {
        node := next;
      }
    }
  }

  /** `main` of the decoder on the file's bytes: the output bytes, or the error it ends with. */
  method DecHuf(file: seq<Byte>) returns (r: Result<seq<Byte>>)
    ensures r == Decoded(file)
  {
    if |file| == 0 {
      return Ok([]);
    }
    var inf := new BitFileIn(file);
    var f :- TakeFields(inf);
    r := TakeBody(inf, f);
  }

  /** Everything after the leading fields. */
  method TakeBody(inf: BitFileIn, f: Fields) returns (r: Result<seq<Byte>>)
    requires inf.Valid()
    modifies inf
    ensures r == DecodeBody(f, old(inf.Unread()))
  {
    var size := Values(f.big);
    if f.marker > size {
      return Err("the marker's slot is past the slot array");
    }
    var len :- Take(inf, Width(f.big, 1));
    var data := new Slot[size + 1](k => if k == f.marker then Slot(-1, len) else Slot(0, 0));
    assert data[..] == Slots(size, f.marker, len);
    r := TakeSlots(inf, f, data);
  }

  /** The pair loop, `build` and the walk. */
  method TakeSlots(inf: BitFileIn, f: Fields, data: array<Slot>) returns (r: Result<seq<Byte>>)
    requires inf.Valid()
    modifies inf, data
    ensures r == DecodeSlots(f, old(data[..]), old(inf.Unread()))
  {
    var filled :- TakePairs(inf, data, f.cnt, Width(f.big, 8), Width(f.big, 1));
    var tree :- Build(data[..], 0, 0);
    var out :- TakeWalk(inf, tree.0, FlagSet(f.big, 8));
    r := Ok(out + if f.last != -1 then [f.last % 256] else []);
  }
}
