/**
  The node memory of the augmented red-black tree of crust/rb_tree.c and the
  invariants the tree keeps.

  A node is an index into `Mem`, which holds one sequence per field of the C structs;
  index 0 is the sentinel `rbt->nil`. The tree invariants are stated node by node.
  What makes that possible is the ghost `Shape`: `ord` lists the nodes from left to
  right, and `lo`, `pos` and `hi` say which stretch of `ord` the subtree of a node
  covers and where in that stretch the node itself stands.
 */
module RbMem {
  import opened Arith

  type Ptr = int

  const NIL: Ptr := 0

  datatype Dir = Left | Right

  function Flip(d: Dir): Dir {
    if d == Left then Right else Left
  }

  /** `struct rb_node` and the `struct uival` around it, one sequence per field. */
  datatype Mem = Mem(
    left: seq<Ptr>, right: seq<Ptr>, par: seq<Ptr>, red: seq<bool>,
    lower: seq<nat>, upper: seq<nat>, linkMax: seq<nat>, root: Ptr)
  {
    /** Every field is present for every node, every link is an index, and nil is black. */
    ghost predicate Sized() {
      && 0 < |left| == |right| == |par| == |red| == |lower| == |upper| == |linkMax|
      && (forall n | 0 <= n < |left| :: 0 <= left[n] < |left|)
      && (forall n | 0 <= n < |left| :: 0 <= right[n] < |left|)
      && (forall n | 0 <= n < |left| :: 0 <= par[n] < |left|)
      && 0 <= root < |left|
      && !red[NIL]
    }

    function Children(d: Dir): seq<Ptr> {
      if d == Left then left else right
    }

    function Child(d: Dir, n: Ptr): Ptr
      requires 0 <= n < |left| && n < |right|
    {
      if d == Left then left[n] else right[n]
    }

    function SetChild(d: Dir, n: Ptr, c: Ptr): Mem
      requires 0 <= n < |left| && n < |right|
    {
      if d == Left then this.(left := left[n := c]) else this.(right := right[n := c])
    }

    function SetPar(n: Ptr, p: Ptr): Mem
      requires 0 <= n < |par|
    {
      this.(par := par[n := p])
    }

    function SetRed(n: Ptr, r: bool): Mem
      requires 0 <= n < |red|
    {
      this.(red := red[n := r])
    }

    function SetMax(n: Ptr, v: nat): Mem
      requires 0 <= n < |linkMax|
    {
      this.(linkMax := linkMax[n := v])
    }

    /** The cached maximum of a child; an absent child counts as 0. */
    function MaxOf(c: Ptr): nat
      requires 0 <= c < |linkMax|
    {
      if c == NIL then 0 else linkMax[c]
    }

    /** The value `uivalt_update_link_max` stores for `n`. */
    function MaxAt(n: Ptr): nat
      requires Sized() && 0 <= n < |left|
    {
      Max(upper[n], Max(MaxOf(left[n]), MaxOf(right[n])))
    }

    /** `reorder_cb`: nil is skipped. */
    function Reordered(n: Ptr): Mem
      requires Sized() && 0 <= n < |left|
    {
      if n == NIL then this else SetMax(n, MaxAt(n))
    }
  }

  /** Where every node of the tree stands in the left-to-right order. */
  datatype Shape = Shape(ord: seq<Ptr>, lo: seq<int>, pos: seq<int>, hi: seq<int>)

  ghost predicate Fits(m: Mem, g: Shape) {
    m.Sized() && |g.lo| == |g.pos| == |g.hi| == |m.left|
  }

  /** `n` is a node of the tree. */
  ghost predicate In(g: Shape, n: Ptr) {
    0 < n < |g.pos| && 0 <= g.pos[n] < |g.ord| && g.ord[g.pos[n]] == n
  }

  /** The stretch of `ord` that the child of `n` on side `d` covers. */
  ghost function SlotLo(g: Shape, n: Ptr, d: Dir): int
    requires 0 <= n < |g.lo| && n < |g.pos|
  {
    if d == Left then g.lo[n] else g.pos[n] + 1
  }

  ghost function SlotHi(g: Shape, n: Ptr, d: Dir): int
    requires 0 <= n < |g.hi| && n < |g.pos|
  {
    if d == Left then g.pos[n] else g.hi[n]
  }

  /** The child of `n` on side `d` is absent and covers nothing, or is a node that points back. */
  ghost predicate LinkOk(m: Mem, g: Shape, n: Ptr, d: Dir)
    requires Fits(m, g) && 0 <= n < |m.left|
  {
    var c := m.Child(d, n);
    if c == NIL then SlotLo(g, n, d) == SlotHi(g, n, d)
    else In(g, c) && m.par[c] == n && g.lo[c] == SlotLo(g, n, d) && g.hi[c] == SlotHi(g, n, d)
  }

  /** `n` is the root, which covers everything, or a child of its parent. */
  ghost predicate ParOk(m: Mem, g: Shape, n: Ptr)
    requires Fits(m, g) && 0 <= n < |m.left|
  {
    if n == m.root then m.par[n] == NIL && g.lo[n] == 0 && g.hi[n] == |g.ord|
    else m.par[n] != NIL && In(g, m.par[n]) && (m.left[m.par[n]] == n || m.right[m.par[n]] == n)
  }

  ghost predicate SpanOk(g: Shape, n: Ptr)
    requires 0 <= n < |g.lo| && n < |g.pos| && n < |g.hi|
  {
    0 <= g.lo[n] <= g.pos[n] < g.hi[n] <= |g.ord|
  }

  ghost predicate NodeOk(m: Mem, g: Shape, n: Ptr)
    requires Fits(m, g) && 0 <= n < |m.left|
  {
    SpanOk(g, n) && LinkOk(m, g, n, Left) && LinkOk(m, g, n, Right) && ParOk(m, g, n)
  }

  /** The links form one binary tree whose nodes, read from left to right, are `g.ord`. */
  ghost predicate Linked(m: Mem, g: Shape) {
    && Fits(m, g)
    && (forall i | 0 <= i < |g.ord| :: 0 < g.ord[i] < |m.left| && g.pos[g.ord[i]] == i)
    && (if |g.ord| == 0 then m.root == NIL else In(g, m.root))
    && (forall n {:trigger NodeOk(m, g, n)} | In(g, n) :: NodeOk(m, g, n))
  }

  lemma At(m: Mem, g: Shape, n: Ptr)
    requires Linked(m, g) && In(g, n)
    ensures NodeOk(m, g, n)
  {
    assert NodeOk(m, g, n);
  }

  /** Colours and cached maxima play no part in the links. */
  lemma LinkedSameLinks(m: Mem, m': Mem, g: Shape)
    requires Linked(m, g) && m'.Sized()
    requires m'.left == m.left && m'.right == m.right && m'.par == m.par && m'.root == m.root
    ensures Linked(m', g)
  {
    forall n | In(g, n) ensures NodeOk(m', g, n) {
      At(m, g, n);
    }
  }

  /** `link_max` of `n` is the maximum of its upper bound and those of its children. */
  ghost predicate MaxOk(m: Mem, n: Ptr)
    requires m.Sized() && 0 <= n < |m.left|
  {
    m.linkMax[n] == m.MaxAt(n)
  }

  /** Read from left to right, the lower bounds do not decrease. */
  ghost predicate Sorted(m: Mem, g: Shape)
    requires Fits(m, g) && forall i | 0 <= i < |g.ord| :: 0 < g.ord[i] < |m.left|
  {
    forall i, j | 0 <= i < j < |g.ord| :: m.lower[g.ord[i]] <= m.lower[g.ord[j]]
  }

  /** The subtree of `a` contains `n`: `a` is `n` or one of its ancestors. */
  ghost predicate Above(g: Shape, a: Ptr, n: Ptr)
    requires 0 <= a < |g.lo| && a < |g.hi| && 0 <= n < |g.pos|
  {
    g.lo[a] <= g.pos[n] < g.hi[a]
  }
}
