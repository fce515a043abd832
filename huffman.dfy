/**
 * The Huffman tree: `BuildHuffman` merges the two lightest nodes of a vector kept in
 * descending weight order until one tree is left, `Encode` lists the leaves left to right with
 * their root paths ('0' for left, '1' for right), and the decoder's `build` rebuilds the tree
 * from the leaves' (code, depth) pairs in that order and walks it bit by bit.
 */
module Huffman {
  import opened Wrappers

  /** `Leaf(w, c)` carries the value c; `Interior` owns its two children, never NULL here. */
  datatype Node = Leaf(weight: int, code: int) | Interior(weight: int, left: Node, right: Node)

  /** `new Interior(l, r)`: the weight of a sub-tree is the sum of its children's weights. */
  function Join(l: Node, r: Node): Node {
    Interior(l.weight + r.weight, l, r)
  }

  /** `Code()`: the value of a leaf, 0 at an interior node. */
  function Code(n: Node): int {
    if n.Leaf? then n.code else 0
  }

  /** `Decend(bit)` of an interior node. */
  function Decend(n: Node, bit: bool): Node
    requires n.Interior?
  {
    if bit then n.right else n.left
  }

  /** The leaves of a tree, left to right. */
  function Leaves(n: Node): (s: seq<Node>)
    ensures |s| >= 1 && forall k :: 0 <= k < |s| ==> s[k].Leaf?
  {
    match n
    case Leaf(_, _) => [n]
    case Interior(_, l, r) => Leaves(l) + Leaves(r)
  }

  function Interiors(n: Node): nat {
    match n
    case Leaf(_, _) => 0
    case Interior(_, l, r) => Interiors(l) + Interiors(r) + 1
  }

  /** Every interior weight is the sum of its children's. */
  predicate Weighted(n: Node) {
    n.Interior? ==> n.weight == n.left.weight + n.right.weight && Weighted(n.left) && Weighted(n.right)
  }

  function LeafWeight(n: Node): int {
    match n
    case Leaf(w, _) => w
    case Interior(_, l, r) => LeafWeight(l) + LeafWeight(r)
  }

  /** A tree of n leaves took n - 1 merges. */
  lemma {:induction false} InteriorCount(n: Node)
    ensures Interiors(n) == |Leaves(n)| - 1
  {
    if n.Interior? {
      InteriorCount(n.left);
      InteriorCount(n.right);
    }
  }

  /** The weight of a tree built by merging is the sum of its leaf weights. */
  lemma {:induction false} WeightIsLeafSum(n: Node)
    requires Weighted(n)
    ensures n.weight == LeafWeight(n)
  {
    if n.Interior? {
      WeightIsLeafSum(n.left);
      WeightIsLeafSum(n.right);
    }
  }

  // ---------------------------------------------------------------------------
  // The node vector
  // ---------------------------------------------------------------------------

  /** The leaves of every tree of the vector, in order. */
  function AllLeaves(s: seq<Node>): seq<Node> {
    if s == [] then [] else Leaves(s[0]) + AllLeaves(s[1..])
  }

  lemma {:induction false} AllLeavesAppend(a: seq<Node>, b: seq<Node>)
    ensures AllLeaves(a + b) == AllLeaves(a) + AllLeaves(b)
    decreases |a|
  {
    if a == [] {
      assert a + b == b;
    } else {
      assert (a + b)[0] == a[0];
      assert (a + b)[1..] == a[1..] + b;
      AllLeavesAppend(a[1..], b);
    }
  }

  lemma AllLeavesOne(n: Node)
    ensures AllLeaves([n]) == Leaves(n)
  {
    assert [n][1..] == [];
  }

  /** Reordering the vector reorders nothing but whole trees: the bag of leaves stays. */
  lemma {:induction false} PermLeaves(a: seq<Node>, b: seq<Node>)
    requires multiset(a) == multiset(b)
    ensures multiset(AllLeaves(a)) == multiset(AllLeaves(b))
    decreases |a|
  {
    if a == [] {
      assert |b| == |multiset(b)| == 0;
      assert b == [];
    } else {
      var x := a[0];
      assert x in multiset(b);
      var k :| 0 <= k < |b| && b[k] == x;
      var b1, b2 := b[..k], b[k + 1..];
      RemoveOne(a, b, k);
      PermLeaves(a[1..], b1 + b2);
      assert a == [x] + a[1..];
      SplitAt(b, k);
      var L, L1, L2, Lr := multiset(Leaves(x)), multiset(AllLeaves(b1)), multiset(AllLeaves(b2)), multiset(AllLeaves(a[1..]));
      BagAppend([x], a[1..]);
      BagAppend(b1, [x] + b2);
      BagAppend([x], b2);
      BagAppend(b1, b2);
      AllLeavesOne(x);
      assert multiset(AllLeaves(a)) == L + Lr;
      assert Lr == L1 + L2;
      assert multiset(AllLeaves(b)) == L1 + (L + L2);
      BagSwap(L, L1, L2);
    }
  }

  lemma SplitAt(b: seq<Node>, k: nat)
    requires k < |b|
    ensures b == b[..k] + ([b[k]] + b[k + 1..])
  {
  }

  lemma BagSwap(x: multiset<Node>, y: multiset<Node>, z: multiset<Node>)
    ensures x + (y + z) == y + (x + z)
  {
  }

  /** The bag of leaves of two vectors put together. */
  lemma BagAppend(a: seq<Node>, b: seq<Node>)
    ensures multiset(AllLeaves(a + b)) == multiset(AllLeaves(a)) + multiset(AllLeaves(b))
  {
    AllLeavesAppend(a, b);
  }

  lemma RemoveOne(a: seq<Node>, b: seq<Node>, k: nat)
    requires multiset(a) == multiset(b) && a != [] && k < |b| && b[k] == a[0]
    ensures multiset(a[1..]) == multiset(b[..k] + b[k + 1..])
  {
    var x, b1, b2 := a[0], b[..k], b[k + 1..];
    assert a == [x] + a[1..];
    assert b == b1 + [x] + b2;
    calc {
      multiset(a[1..]);
      multiset(a) - multiset{x};
      multiset(b) - multiset{x};
      multiset(b1) + multiset(b2);
      multiset(b1 + b2);
    }
  }

  predicate AllWeighted(s: seq<Node>) {
    forall k :: 0 <= k < |s| ==> Weighted(s[k])
  }

  lemma PermWeighted(a: seq<Node>, b: seq<Node>)
    requires multiset(a) == multiset(b) && AllWeighted(b)
    ensures AllWeighted(a)
  {
    forall k | 0 <= k < |a|
      ensures Weighted(a[k])
    {
      assert a[k] in multiset(b);
    }
  }

  /** `NodeCompare` order: heaviest first. */
  predicate Descending(s: seq<Node>) {
    forall a, b :: 0 <= a < b < |s| ==> s[a].weight >= s[b].weight
  }

  /** `std::sort(data, NodeCompare())`, as an insertion sort: one ordering the library call may
      produce among nodes of equal weight. */
  function InsertDesc(x: Node, s: seq<Node>): (r: seq<Node>)
    ensures |r| == |s| + 1
  {
    if s == [] || x.weight >= s[0].weight then [x] + s else [s[0]] + InsertDesc(x, s[1..])
  }

  function SortDesc(s: seq<Node>): (r: seq<Node>)
    ensures |r| == |s|
  {
    if s == [] then [] else InsertDesc(s[0], SortDesc(s[1..]))
  }

  lemma {:induction false} InsertDescSorted(x: Node, s: seq<Node>)
    requires Descending(s)
    ensures Descending(InsertDesc(x, s)) && multiset(InsertDesc(x, s)) == multiset(s) + multiset{x}
    ensures InsertDesc(x, s)[0] == x || InsertDesc(x, s)[0] == s[0]
    decreases |s|
  {
    if s == [] || x.weight >= s[0].weight {
      assert [x] + s == InsertDesc(x, s);
    } else {
      var t := InsertDesc(x, s[1..]);
      InsertDescSorted(x, s[1..]);
      assert s == [s[0]] + s[1..];
      var r := [s[0]] + t;
      forall b | 0 < b < |r|
        ensures r[0].weight >= r[b].weight
      {
        assert r[b] in multiset(t);
      }
    }
  }

  /** The sorted vector is descending and holds the same nodes. */
  lemma {:induction false} SortDescSorted(s: seq<Node>)
    ensures Descending(SortDesc(s)) && multiset(SortDesc(s)) == multiset(s)
    decreases |s|
  {
    if s != [] {
      SortDescSorted(s[1..]);
      InsertDescSorted(s[0], SortDesc(s[1..]));
      assert s == [s[0]] + s[1..];
    }
  }

  /** The bubbling loop of `BuildHuffman`: the new sub-tree at the end sinks toward the front
      past every strictly lighter node. */
  method Bubble(v: seq<Node>) returns (r: seq<Node>)
    requires |v| >= 1 && Descending(v[..|v| - 1])
    ensures |r| == |v| && Descending(r) && multiset(r) == multiset(v)
  {
    var x := v[|v| - 1];
    r := v;
    var i := |v| - 2;
    while i >= 0
      invariant -1 <= i <= |v| - 2 && Bubbling(v, r, i, x)
    {
      if r[i + 1].weight > r[i].weight {
        SwapStep(v, r, i, x);
        r := r[i := r[i + 1]][i + 1 := r[i]];
        i := i - 1;
      } else {
        break;
      }
    }
    BubbledOrder(v, r, i);
  }

  /** The state of the bubbling loop with the new node x at position i + 1: the nodes before it
      are where they were, those after it moved up by one and are strictly lighter than x. */
  predicate Bubbling(v: seq<Node>, r: seq<Node>, i: int, x: Node)
    requires -1 <= i <= |v| - 2
  {
    |r| == |v| && multiset(r) == multiset(v) && r[i + 1] == x &&
    (forall k :: 0 <= k <= i ==> r[k] == v[k]) &&
    (forall k :: i + 2 <= k < |r| ==> r[k] == v[k - 1]) &&
    (forall k :: i + 1 < k < |r| ==> r[k].weight < x.weight)
  }

  /** A swap with a lighter node one place further on keeps the loop's state. */
  lemma SwapStep(v: seq<Node>, r: seq<Node>, i: nat, x: Node)
    requires i <= |v| - 2 && Bubbling(v, r, i, x) && r[i + 1].weight > r[i].weight
    ensures Bubbling(v, r[i := r[i + 1]][i + 1 := r[i]], i - 1, x)
  {
    SwapPerm(r, i);
  }

  lemma SwapPerm(s: seq<Node>, i: nat)
    requires i + 1 < |s|
    ensures multiset(s[i := s[i + 1]][i + 1 := s[i]]) == multiset(s)
  {
  }

  /** Where the bubbling stops the vector is descending again. */
  lemma BubbledOrder(v: seq<Node>, r: seq<Node>, i: int)
    requires |v| >= 1 && Descending(v[..|v| - 1]) && -1 <= i <= |v| - 2
    requires Bubbling(v, r, i, v[|v| - 1])
    requires i >= 0 ==> r[i + 1].weight <= r[i].weight
    ensures Descending(r)
  {
    var u := v[..|v| - 1];
    forall a, b | 0 <= a < b < |r|
      ensures r[a].weight >= r[b].weight
    {
      if b <= i {
        assert r[a] == u[a] && r[b] == u[b];
      } else if b == i + 1 {
        assert r[a] == u[a] && r[i] == u[i];
      } else if a == i + 1 {
      } else if a > i + 1 {
        assert r[a] == u[a - 1] && r[b] == u[b - 1];
      } else {
        assert r[a] == u[a] && r[b] == u[b - 1];
      }
    }
  }

  /** `BuildHuffman(data)`: no tree for an empty vector; otherwise the one tree left after
      repeatedly merging the two lightest nodes, which holds every leaf of the input exactly
      once. */
  method BuildHuffman(data: seq<Node>) returns (root: Option<Node>)
    ensures root.None? <==> data == []
    ensures root.Some? ==> multiset(Leaves(root.value)) == multiset(AllLeaves(data))
    ensures root.Some? && AllWeighted(data) ==> Weighted(root.value)
  {
    if data == [] {
      return None;
    }
    var v := SortDesc(data);
    SortDescSorted(data);
    PermLeaves(v, data);
    if AllWeighted(data) {
      PermWeighted(v, data);
    }
    while true
      invariant v != [] && Descending(v)
      invariant multiset(AllLeaves(v)) == multiset(AllLeaves(data))
      invariant AllWeighted(data) ==> AllWeighted(v)
      decreases |v|
    {
      var last := v[|v| - 1];
      if |v| == 1 {
        assert v == [last];
        AllLeavesOne(last);
        return Some(last);
      }
      v := MergeLightest(v);
    }
  }

  /** One turn of the loop with at least two nodes left: the two lightest, at the end, are
      popped, joined and pushed back, and the new node is bubbled to its place. */
  method MergeLightest(before: seq<Node>) returns (v: seq<Node>)
    requires |before| >= 2 && Descending(before)
    ensures |v| == |before| - 1 && Descending(v)
    ensures multiset(AllLeaves(v)) == multiset(AllLeaves(before))
    ensures AllWeighted(before) ==> AllWeighted(v)
  {
    var last := before[|before| - 1];
    var rest := before[..|before| - 1];
    var next := rest[|rest| - 1];
    rest := rest[..|rest| - 1];
    var w := rest + [Join(last, next)];
    MergeFacts(before, rest, w);
    v := Bubble(w);
    PermLeaves(v, w);
    if AllWeighted(before) {
      PermWeighted(v, w);
    }
  }

  /** One merge of the two lightest nodes at the end of the vector: what is left in front stays
      descending, and the leaves and the weight sums stay as they were. */
  lemma MergeFacts(before: seq<Node>, v: seq<Node>, w: seq<Node>)
    requires |before| >= 2 && Descending(before) && v == before[..|before| - 2]
    requires w == v + [Join(before[|before| - 1], before[|before| - 2])]
    ensures |w| == |before| - 1 && Descending(w[..|w| - 1])
    ensures multiset(AllLeaves(w)) == multiset(AllLeaves(before))
    ensures AllWeighted(before) ==> AllWeighted(w)
  {
    var last, next := before[|before| - 1], before[|before| - 2];
    assert before == v + [next] + [last];
    assert w[..|w| - 1] == v;
    MergeLeaves(v, next, last);
    if AllWeighted(before) {
      assert Weighted(last) && Weighted(next);
      forall k | 0 <= k < |w|
        ensures Weighted(w[k])
      {
        if k < |v| {
          assert w[k] == before[k];
        }
      }
    }
  }

  lemma MergeLeaves(v: seq<Node>, next: Node, last: Node)
    ensures multiset(AllLeaves(v + [Join(last, next)])) == multiset(AllLeaves(v + [next] + [last]))
  {
    AllLeavesAppend(v, [Join(last, next)]);
    AllLeavesAppend(v + [next], [last]);
    AllLeavesAppend(v, [next]);
    AllLeavesOne(Join(last, next));
    AllLeavesOne(next);
    AllLeavesOne(last);
  }

  // ---------------------------------------------------------------------------
  // Encode
  // ---------------------------------------------------------------------------

  /** An entry of the code table: the '0'/'1' string of a value. */
  datatype Encoding = Encoding(str: seq<bool>, code: int)

  /** The entries `Encode` makes for a tree entered with string `prefix`, left to right. */
  function CodeTable(n: Node, prefix: seq<bool>): (t: seq<Encoding>)
    ensures |t| == |Leaves(n)|
  {
    match n
    case Leaf(_, c) => [Encoding(prefix, c)]
    case Interior(_, l, r) => CodeTable(l, prefix + [false]) + CodeTable(r, prefix + [true])
  }

  /** `root->Encode(i, str, table)`: the leaves go to entries i, i+1, ... in left-to-right
      order, each with its path appended to `str`; `str` is as it was on return. */
  method Encode(n: Node, i: int, str: seq<bool>, table: map<int, Encoding>)
    returns (i': int, str': seq<bool>, table': map<int, Encoding>)
    ensures i' == i + |Leaves(n)| && str' == str
    ensures forall k :: k in table' <==> k in table || i <= k < i'
    ensures forall k :: i <= k < i' ==> table'[k] == CodeTable(n, str)[k - i]
    ensures forall k :: k in table && !(i <= k < i') ==> table'[k] == table[k]
  {
    match n
    case Leaf(_, c) =>
      table' := table[i := Encoding(str, c)];
      i', str' := i + 1, str;
    case Interior(_, l, r) =>
      var s := str + [false];
      var j, t;
      j, s, t := Encode(l, i, s, table);
      s := s[..|s| - 1];
      assert s == str;
      s := s + [true];
      i', s, table' := Encode(r, j, s, t);
      str' := s[..|s| - 1];
      assert str' == str;
  }

  // ---------------------------------------------------------------------------
  // Paths, depths and the code table
  // ---------------------------------------------------------------------------

  /** The root path of leaf k: false for every left branch taken, true for every right one. */
  function Path(n: Node, k: nat): seq<bool>
    requires k < |Leaves(n)|
  {
    match n
    case Leaf(_, _) => []
    case Interior(_, l, r) =>
      if k < |Leaves(l)| then [false] + Path(l, k) else [true] + Path(r, k - |Leaves(l)|)
  }

  /** The depth of leaf k: the number of interior nodes above it. */
  function Depth(n: Node, k: nat): nat
    requires k < |Leaves(n)|
  {
    match n
    case Leaf(_, _) => 0
    case Interior(_, l, r) =>
      if k < |Leaves(l)| then Depth(l, k) + 1 else Depth(r, k - |Leaves(l)|) + 1
  }

  /** Entry k of the table `Encode` makes is leaf k's value and its root path after `prefix`. */
  lemma {:induction false} CodeTableAt(n: Node, prefix: seq<bool>, k: nat)
    requires k < |Leaves(n)|
    ensures CodeTable(n, prefix)[k] == Encoding(prefix + Path(n, k), Leaves(n)[k].code)
  {
    match n
    case Leaf(_, _) =>
      assert prefix + [] == prefix;
    case Interior(_, l, r) =>
      var m := |Leaves(l)|;
      if k < m {
        CodeTableAt(l, prefix + [false], k);
        assert prefix + [false] + Path(l, k) == prefix + ([false] + Path(l, k));
      } else {
        CodeTableAt(r, prefix + [true], k - m);
        assert prefix + [true] + Path(r, k - m) == prefix + ([true] + Path(r, k - m));
      }
  }

  /** A leaf's string is as long as the leaf is deep. */
  lemma {:induction false} PathLength(n: Node, k: nat)
    requires k < |Leaves(n)|
    ensures |Path(n, k)| == Depth(n, k)
  {
    match n
    case Leaf(_, _) =>
    case Interior(_, l, r) =>
      if k < |Leaves(l)| {
        PathLength(l, k);
      } else {
        PathLength(r, k - |Leaves(l)|);
      }
  }

  /** No leaf's string is a prefix of another leaf's string. */
  lemma {:induction false} PrefixFree(n: Node, a: nat, b: nat)
    requires a < |Leaves(n)| && b < |Leaves(n)| && a != b
    ensures !(Path(n, a) <= Path(n, b))
  {
    match n
    case Leaf(_, _) =>
    case Interior(_, l, r) =>
      var m := |Leaves(l)|;
      if a < m && b < m {
        PrefixFree(l, a, b);
        PrefixStep(false, Path(l, a), Path(l, b));
      } else if a >= m && b >= m {
        PrefixFree(r, a - m, b - m);
        PrefixStep(true, Path(r, a - m), Path(r, b - m));
      } else {
        assert Path(n, a)[0] != Path(n, b)[0];
      }
  }

  lemma PrefixStep(bit: bool, s: seq<bool>, t: seq<bool>)
    ensures [bit] + s <= [bit] + t <==> s <= t
  {
    assert forall k :: 0 <= k < |s| ==> s[k] == ([bit] + s)[k + 1];
  }

  /** The leaves of an interior node lie at depth 1 or more. */
  lemma InteriorDepth(n: Node, k: nat)
    requires n.Interior? && k < |Leaves(n)|
    ensures Depth(n, k) >= 1 && |Path(n, k)| >= 1
  {
    PathLength(n, k);
  }

  /** No leaf of a tree of n leaves lies deeper than n - 1. */
  lemma {:induction false} DepthBound(n: Node, k: nat)
    requires k < |Leaves(n)|
    ensures Depth(n, k) <= |Leaves(n)| - 1
  {
    match n
    case Leaf(_, _) =>
    case Interior(_, l, r) =>
      if k < |Leaves(l)| {
        DepthBound(l, k);
      } else {
        DepthBound(r, k - |Leaves(l)|);
      }
  }

  // ---------------------------------------------------------------------------
  // build: the decoder's tree from (code, depth) pairs
  // ---------------------------------------------------------------------------

  /** `dataS`: a stored leaf, its value and its depth (the length of its string). */
  datatype Slot = Slot(code: int, size: nat)

  /** The decoder's tree keeps no weights: `new Leaf(0, code)` and `new Interior(l, r)`. */
  function Shape(n: Node): (t: Node)
    ensures t.weight == 0 && |Leaves(t)| == |Leaves(n)| && t.Leaf? == n.Leaf?
  {
    match n
    case Leaf(_, c) => Leaf(0, c)
    case Interior(_, l, r) => Join(Shape(l), Shape(r))
  }

  /** The slots of a tree whose root lies at depth d, left to right: the pairs the encoder stores. */
  function Pairs(n: Node, d: nat): (s: seq<Slot>)
    ensures |s| == |Leaves(n)|
  {
    match n
    case Leaf(_, c) => [Slot(c, d)]
    case Interior(_, l, r) => Pairs(l, d + 1) + Pairs(r, d + 1)
  }

  /** Pair k is leaf k's value and depth. */
  lemma {:induction false} PairsAt(n: Node, d: nat, k: nat)
    requires k < |Leaves(n)|
    ensures Pairs(n, d)[k] == Slot(Leaves(n)[k].code, d + Depth(n, k))
  {
    match n
    case Leaf(_, _) =>
    case Interior(_, l, r) =>
      if k < |Leaves(l)| {
        PairsAt(l, d + 1, k);
      } else {
        PairsAt(r, d + 1, k - |Leaves(l)|);
      }
  }

  /** The largest stored depth, which bounds how deep `build` can descend. */
  function MaxSize(data: seq<Slot>): (m: nat)
    ensures forall k :: 0 <= k < |data| ==> data[k].size <= m
  {
    if data == [] then 0 else
      var rest := MaxSize(data[1..]);
      if data[0].size >= rest then data[0].size else rest
  }

  /** `build(i, data, n, level)`: an interior node at depth `level` whose two children are read
      from slot i on; the result carries the index of the first slot not used. The source reads
      past the slots, or recurses without end when a slot is shallower than the current depth:
      both are errors here. */
  function Build(data: seq<Slot>, i: nat, level: nat): (r: Result<(Node, nat)>)
    ensures r.Ok? ==> r.value.0.Interior? && i < r.value.1 <= |data|
    decreases MaxSize(data) - level, 1
  {
    var left :- Child(data, i, level + 1);
    var right :- Child(data, left.1, level + 1);
    Ok((Join(left.0, right.0), right.1))
  }

  /** One child of `build` at depth `depth`: a leaf if slot i lies at this depth, else a
      sub-tree. */
  function Child(data: seq<Slot>, i: nat, depth: nat): (r: Result<(Node, nat)>)
    ensures r.Ok? ==> i < r.value.1 <= |data|
    decreases MaxSize(data) - depth + 1, 0
  {
    if i >= |data| then Err("build reads past the stored pairs")
    else if data[i].size == depth then Ok((Leaf(0, data[i].code), i + 1))
    else if data[i].size < depth then Err("build recurses without end")
    else Build(data, i, depth)
  }

  lemma {:induction false} PairsDeep(n: Node, d: nat)
    ensures Pairs(n, d)[0].size >= d && (n.Interior? ==> Pairs(n, d)[0].size > d)
  {
    match n
    case Leaf(_, _) =>
    case Interior(_, l, r) =>
      PairsDeep(l, d + 1);
  }

  /** `build` inverts `Encode`: from the pairs of a tree in `Encode`'s order it rebuilds the
      tree (without its weights) and stops right after them. */
  lemma {:induction false} BuildInverts(n: Node, data: seq<Slot>, i: nat, d: nat)
    requires n.Interior? && i + |Leaves(n)| <= |data|
    requires data[i..i + |Leaves(n)|] == Pairs(n, d)
    ensures Build(data, i, d) == Ok((Shape(n), i + |Leaves(n)|))
    decreases n, 0
  {
    var l, r := n.left, n.right;
    var m := |Leaves(l)|;
    SliceSplit(data, i, Pairs(l, d + 1), Pairs(r, d + 1));
    ChildInverts(l, data, i, d + 1);
    ChildInverts(r, data, i + m, d + 1);
    BuildOfChildren(data, i, d, Shape(l), i + m, Shape(r), i + |Leaves(n)|);
  }

  /** `build` at an interior node joins the sub-trees its two children read. */
  lemma BuildOfChildren(data: seq<Slot>, i: nat, d: nat, a: Node, j: nat, b: Node, k: nat)
    requires Child(data, i, d + 1) == Ok((a, j)) && Child(data, j, d + 1) == Ok((b, k))
    ensures Build(data, i, d) == Ok((Join(a, b), k))
  {
  }

  lemma SliceSplit(data: seq<Slot>, i: nat, A: seq<Slot>, B: seq<Slot>)
    requires i + |A| + |B| <= |data| && data[i..i + |A| + |B|] == A + B
    ensures data[i..i + |A|] == A && data[i + |A|..i + |A| + |B|] == B
  {
    assert data[i..i + |A|] == data[i..i + |A| + |B|][..|A|];
    assert data[i + |A|..i + |A| + |B|] == data[i..i + |A| + |B|][|A|..];
  }

  lemma {:induction false} ChildInverts(n: Node, data: seq<Slot>, i: nat, d: nat)
    requires i + |Leaves(n)| <= |data|
    requires data[i..i + |Leaves(n)|] == Pairs(n, d)
    ensures Child(data, i, d) == Ok((Shape(n), i + |Leaves(n)|))
    decreases n, 1
  {
    assert data[i] == Pairs(n, d)[0];
    PairsDeep(n, d);
    if n.Interior? {
      BuildInverts(n, data, i, d);
    }
  }

  /** And what `build` accepts is exactly such a sequence of pairs: the slots it uses are the
      pairs of the tree it returns. */
  lemma {:induction false} BuildSound(data: seq<Slot>, i: nat, d: nat)
    requires Build(data, i, d).Ok?
    ensures var (t, j) := Build(data, i, d).value; t == Shape(t) && data[i..j] == Pairs(t, d)
    decreases MaxSize(data) - d, 1
  {
    var (lt, j) := Child(data, i, d + 1).value;
    var (rt, k) := Child(data, j, d + 1).value;
    ChildSound(data, i, d + 1);
    ChildSound(data, j, d + 1);
    assert data[i..k] == data[i..j] + data[j..k];
  }

  lemma {:induction false} ChildSound(data: seq<Slot>, i: nat, d: nat)
    requires Child(data, i, d).Ok?
    ensures var (t, j) := Child(data, i, d).value; t == Shape(t) && data[i..j] == Pairs(t, d)
    decreases MaxSize(data) - d + 1, 0
  {
    if data[i].size != d {
      BuildSound(data, i, d);
    }
  }

  lemma {:induction false} ShapeShape(n: Node)
    ensures Shape(Shape(n)) == Shape(n)
  {
    match n
    case Leaf(_, _) =>
    case Interior(_, l, r) =>
      ShapeShape(l);
      ShapeShape(r);
  }

  /** The weights play no part in `Encode`: the decoder's tree gives the encoder's table. */
  lemma {:induction false} ShapeCodeTable(n: Node, prefix: seq<bool>)
    ensures CodeTable(Shape(n), prefix) == CodeTable(n, prefix)
  {
    match n
    case Leaf(_, _) =>
    case Interior(_, l, r) =>
      ShapeCodeTable(l, prefix + [false]);
      ShapeCodeTable(r, prefix + [true]);
  }
}
