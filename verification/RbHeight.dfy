/** What the red-black rules are for: all ways down have as many black nodes, so none is long. */
module RbHeight {
  import opened RbMem
  import opened RbColour
  import Bits

  /** `way` leads from `n` down to a nil. */
  ghost predicate Way(m: Mem, g: Shape, n: Ptr, way: seq<Dir>)
    requires Linked(m, g) && (n == NIL || In(g, n))
    decreases |way|
  {
    if n == NIL then way == []
    else
      At(m, g, n);
      way != [] && Way(m, g, m.Child(way[0], n), way[1..])
  }

  /** The black nodes on a way down, counting the nil at its end. */
  ghost function BlacksOn(m: Mem, g: Shape, n: Ptr, way: seq<Dir>): nat
    requires Linked(m, g) && (n == NIL || In(g, n)) && Way(m, g, n, way)
    decreases |way|
  {
    if n == NIL then 1
    else
      At(m, g, n);
      (if m.red[n] then 0 else 1) + BlacksOn(m, g, m.Child(way[0], n), way[1..])
  }

  lemma {:induction false} WayBlacks(m: Mem, g: Shape, bh: seq<int>, n: Ptr, way: seq<Dir>)
    requires Sound(m, g, bh) && (n == NIL || In(g, n)) && Way(m, g, n, way)
    ensures BlacksOn(m, g, n, way) == Blacks(m, bh, n)
    decreases |way|
  {
    if n != NIL {
      At(m, g, n);
      assert BlackOk(m, bh, n, NIL, Left);
      WayBlacks(m, g, bh, m.Child(way[0], n), way[1..]);
    }
  }

  /** All ways from a node down to a nil have the same number of black nodes. */
  lemma EqualBlackHeights(m: Mem, g: Shape, bh: seq<int>, n: Ptr, way: seq<Dir>, way': seq<Dir>)
    requires Sound(m, g, bh) && In(g, n) && Way(m, g, n, way) && Way(m, g, n, way')
    ensures BlacksOn(m, g, n, way) == BlacksOn(m, g, n, way')
  {
    WayBlacks(m, g, bh, n, way);
    WayBlacks(m, g, bh, n, way');
  }

  /** A subtree with `bh[n]` blacks on every way down has room for that many full layers. */
  lemma {:induction false} ManyNodes(m: Mem, g: Shape, bh: seq<int>, n: Ptr)
    requires Sound(m, g, bh) && In(g, n)
    ensures 1 <= bh[n] && Bits.Pow2(bh[n]) <= g.hi[n] - g.lo[n] + 1
    decreases g.hi[n] - g.lo[n]
  {
    At(m, g, n);
    assert BlackOk(m, bh, n, NIL, Left);
    SideNodes(m, g, bh, n, Left);
    SideNodes(m, g, bh, n, Right);
  }

  lemma {:induction false} SideNodes(m: Mem, g: Shape, bh: seq<int>, n: Ptr, d: Dir)
    requires Sound(m, g, bh) && In(g, n) && NodeOk(m, g, n) && BlackOk(m, bh, n, NIL, Left)
    ensures Bits.Pow2(bh[n] - 1) <= SlotHi(g, n, d) - SlotLo(g, n, d) + 1
    decreases g.hi[n] - g.lo[n], 0
  {
    var c := m.Child(d, n);
    if c != NIL {
      At(m, g, c);
      ManyNodes(m, g, bh, c);
      Bits.Pow2Mono(bh[n] - 1, bh[c]);
    }
  }

  /** No red node follows another, so at least every second node on a way down is black. */
  lemma {:induction false} WayLength(m: Mem, g: Shape, bh: seq<int>, n: Ptr, way: seq<Dir>)
    requires Sound(m, g, bh) && (n == NIL || In(g, n)) && Way(m, g, n, way)
    ensures |way| <= 2 * (Blacks(m, bh, n) - 1) + (if m.red[n] then 1 else 0)
    decreases |way|
  {
    if n != NIL {
      At(m, g, n);
      assert BlackOk(m, bh, n, NIL, Left) && RedOk(m, n);
      WayLength(m, g, bh, m.Child(way[0], n), way[1..]);
    }
  }

  /** A way down of `k` nodes takes a tree of at least `2^((k+1)/2) - 1` nodes: every search is logarithmic. */
  lemma WaysAreShort(m: Mem, g: Shape, bh: seq<int>, way: seq<Dir>)
    requires Sound(m, g, bh) && Way(m, g, m.root, way)
    ensures Bits.Pow2((|way| + 1) / 2) <= |g.ord| + 1
  {
    WayLength(m, g, bh, m.root, way);
    if m.root != NIL {
      At(m, g, m.root);
      ManyNodes(m, g, bh, m.root);
      Bits.Pow2Mono((|way| + 1) / 2, bh[m.root]);
    }
  }
}
