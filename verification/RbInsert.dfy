/** `rb_tree_insert_rebalance`: each case of its loop keeps the invariant of the loop. */
module RbInsert {
  import opened RbMem
  import opened RbRotate
  import opened RbColour

  /** The tree while it is being repaired: only the red `x` may have a red parent. */
  ghost predicate Repairing(m: Mem, g: Shape, bh: seq<int>, x: Ptr) {
    && Linked(m, g) && In(g, x) && m.red[x]
    && BlackHeights(m, g, bh, NIL, Left)
    && NoRedRed(m, g, m.par[x])
    && (m.red[m.root] ==> m.root == x)
    && (m.par[x] != NIL && m.red[m.par[x]] ==>
          !m.red[if m.left[m.par[x]] == x then m.right[m.par[x]] else m.left[m.par[x]]])
    && Cached(m, g)
  }

  /** `x` and its parent are red: the parent is the `dir` child of a black grandparent. */
  ghost predicate RedPair(m: Mem, g: Shape, x: Ptr, dir: Dir) {
    && Fits(m, g) && In(g, x) && m.red[x] && NodeOk(m, g, x)
    && var p := m.par[x];
    && In(g, p) && m.red[p] && NodeOk(m, g, p)
    && var pp := m.par[p];
    && In(g, pp) && NodeOk(m, g, pp) && m.Child(dir, pp) == p && m.Child(Flip(dir), pp) != p
    && !m.red[pp] && x != pp
  }

  lemma FindPair(m: Mem, g: Shape, bh: seq<int>, x: Ptr) returns (dir: Dir)
    requires Repairing(m, g, bh, x) && m.red[m.par[x]]
    ensures dir == if m.par[x] == m.left[m.par[m.par[x]]] then Left else Right
    ensures RedPair(m, g, x, dir)
  {
    var p := m.par[x];
    At(m, g, x);
    At(m, g, p);
    var pp := m.par[p];
    At(m, g, pp);
    dir := if p == m.left[pp] then Left else Right;
    assert RedOk(m, pp);
  }

  // -------------------------------------------------- the uncle is red: recolour and go up

  ghost function Recolour(m: Mem, p: Ptr, u: Ptr, pp: Ptr): Mem
    requires 0 <= p < |m.red| && 0 <= u < |m.red| && 0 <= pp < |m.red|
  {
    m.SetRed(p, false).SetRed(u, false).SetRed(pp, true)
  }

  /** The colours after recolouring: `m'` has the parent `p` and the uncle `u` black and the grandparent `pp` red. */
  ghost predicate Recolours(m: Mem, m': Mem, g: Shape, bh: seq<int>, x: Ptr, dir: Dir, p: Ptr, u: Ptr, pp: Ptr) {
    && Repairing(m, g, bh, x) && RedPair(m, g, x, dir)
    && p == m.par[x] && pp == m.par[p] && u == m.Child(Flip(dir), pp) && m.red[u]
    && m' == Recolour(m, p, u, pp)
  }

  lemma RecolouredNode(m: Mem, m': Mem, bh: seq<int>, p: Ptr, u: Ptr, pp: Ptr, n: Ptr)
    requires m.Sized() && |bh| == |m.left| && 0 < p < |m.left| && 0 < u < |m.left| && 0 < pp < |m.left|
      && 0 < n < |m.left|
    requires m' == Recolour(m, p, u, pp) && m.red[p] && m.red[u] && !m.red[pp]
    requires BlackOk(m, bh, n, NIL, Left) && BlackOk(m, bh, p, NIL, Left) && BlackOk(m, bh, u, NIL, Left)
    requires Uncles(m, n, p, u, pp)
    ensures m'.Sized() && BlackOk(m', bh[pp := bh[pp] + 1], n, NIL, Left)
  {
  }

  /** Only `pp` has `p` or `u` as a child, and no other child. */
  ghost predicate Uncles(m: Mem, n: Ptr, p: Ptr, u: Ptr, pp: Ptr)
    requires m.Sized() && 0 <= n < |m.left|
  {
    if n == pp then (m.left[n] == p && m.right[n] == u) || (m.left[n] == u && m.right[n] == p)
    else m.left[n] != p && m.left[n] != u && m.right[n] != p && m.right[n] != u
  }

  lemma RecolouredRed(m: Mem, m': Mem, p: Ptr, u: Ptr, pp: Ptr, n: Ptr)
    requires m.Sized() && 0 < p < |m.left| && 0 < u < |m.left| && 0 < pp < |m.left| && 0 < n < |m.left|
    requires m' == Recolour(m, p, u, pp) && m.red[u] && p != u && p != pp && u != pp
    requires m.left[n] != pp && m.right[n] != pp && Uncles(m, n, p, u, pp)
    requires n != p ==> RedOk(m, n)
    ensures m'.Sized() && RedOk(m', n)
  {
  }

  lemma RecolouredAbove(m: Mem, g: Shape, bh: seq<int>, x: Ptr, dir: Dir)
    requires Repairing(m, g, bh, x) && RedPair(m, g, x, dir)
    ensures var p := m.par[x];
            var pp := m.par[p];
            var q := m.par[pp];
            var m' := Recolour(m, p, m.Child(Flip(dir), pp), pp);
            && m'.red[pp] && (m'.red[m.root] ==> m.root == pp)
            && (q != NIL && m'.red[q] ==> !m'.red[if m.left[q] == pp then m.right[q] else m.left[q]])
  {
    var p := m.par[x];
    var pp := m.par[p];
    var q, m' := m.par[pp], Recolour(m, p, m.Child(Flip(dir), pp), pp);
    assert m'.red[pp];
    RootBlack(m, g, bh, x, dir);
    if q != NIL {
      At(m, g, q);
      assert RedOk(m, q);
      Siblings(m, g, q);
      RecolouredTop(m, m', p, m.Child(Flip(dir), pp), pp, q);
    }
  }

  lemma RootBlack(m: Mem, g: Shape, bh: seq<int>, x: Ptr, dir: Dir)
    requires Repairing(m, g, bh, x) && RedPair(m, g, x, dir)
    ensures !m.red[m.root]
  {
    At(m, g, m.root);
  }

  lemma RecolouredTop(m: Mem, m': Mem, p: Ptr, u: Ptr, pp: Ptr, q: Ptr)
    requires m.Sized() && 0 <= p < |m.left| && 0 <= u < |m.left| && 0 <= pp < |m.left| && 0 <= q < |m.left|
    requires m' == Recolour(m, p, u, pp) && q != pp && RedOk(m, q)
    requires m.left[q] != m.right[q] || m.left[q] != pp
    ensures m'.red[q] ==> !m'.red[if m.left[q] == pp then m.right[q] else m.left[q]]
  {
  }

  /** The children of a node are different nodes. */
  lemma Siblings(m: Mem, g: Shape, q: Ptr)
    requires Linked(m, g) && In(g, q) && NodeOk(m, g, q)
    ensures m.left[q] != NIL ==> m.left[q] != m.right[q]
  {
  }

  lemma RecolouredRepairing(m: Mem, g: Shape, bh: seq<int>, x: Ptr, dir: Dir)
    requires Repairing(m, g, bh, x) && RedPair(m, g, x, dir)
    requires m.red[m.Child(Flip(dir), m.par[m.par[x]])]
    ensures var p := m.par[x];
            var pp := m.par[p];
            var m' := Recolour(m, p, m.Child(Flip(dir), pp), pp);
            Repairing(m', g, bh[pp := bh[pp] + 1], pp)
  {
    var p := m.par[x];
    var pp := m.par[p];
    var u := m.Child(Flip(dir), pp);
    var m' := Recolour(m, p, u, pp);
    RecolouredAbove(m, g, bh, x, dir);
    Repainted(m, m', g);
    RecolouredHeights(m, m', g, bh, x, dir, p, u, pp);
  }

  lemma RecolouredHeights(m: Mem, m': Mem, g: Shape, bh: seq<int>, x: Ptr, dir: Dir, p: Ptr, u: Ptr, pp: Ptr)
    requires Recolours(m, m', g, bh, x, dir, p, u, pp)
    ensures Fits(m', g) && BlackHeights(m', g, bh[pp := bh[pp] + 1], NIL, Left) && NoRedRed(m', g, m.par[pp])
  {
    forall n | In(g, n)
      ensures BlackOk(m', bh[pp := bh[pp] + 1], n, NIL, Left)
      ensures n != m.par[pp] ==> RedOk(m', n)
    {
      RecolouredAt(m, m', g, bh, x, dir, p, u, pp, n);
    }
  }

  lemma RecolouredAt(m: Mem, m': Mem, g: Shape, bh: seq<int>, x: Ptr, dir: Dir, p: Ptr, u: Ptr, pp: Ptr, n: Ptr)
    requires Recolours(m, m', g, bh, x, dir, p, u, pp) && In(g, n)
    ensures m'.Sized() && BlackOk(m', bh[pp := bh[pp] + 1], n, NIL, Left)
    ensures n != m.par[pp] ==> RedOk(m', n)
  {
    At(m, g, n);
    assert BlackOk(m, bh, n, NIL, Left) && BlackOk(m, bh, p, NIL, Left) && BlackOk(m, bh, u, NIL, Left);
    UnclesAt(m, g, p, u, pp, dir, n);
    RecolouredNode(m, m', bh, p, u, pp, n);
    if n != m.par[pp] {
      if n != p { assert RedOk(m, n); }
      RecolouredRed(m, m', p, u, pp, n);
    }
  }

  lemma UnclesAt(m: Mem, g: Shape, p: Ptr, u: Ptr, pp: Ptr, dir: Dir, n: Ptr)
    requires Linked(m, g) && In(g, pp) && NodeOk(m, g, pp) && In(g, n) && NodeOk(m, g, n)
    requires p == m.Child(dir, pp) && u == m.Child(Flip(dir), pp) && p != NIL && u != NIL
    ensures Uncles(m, n, p, u, pp) && (n != m.par[pp] ==> m.left[n] != pp && m.right[n] != pp)
  {
  }

  // -------------------------------------------------- x is an inner child: rotate it outwards

  /** The red pair after the rotation: the blacks below both nodes are as before. */
  lemma InnerPair(m: Mem, bh: seq<int>, p: Ptr, dir: Dir, m': Mem)
    requires m.Sized() && 0 < p < |m.left| && |bh| == |m.left| && Apart(m, p, dir) && Turned(m, m', p, dir)
    requires var x := m.Child(Flip(dir), p);
             m.red[x] && m.red[p] && RedOk(m, x) && BlackOk(m, bh, x, NIL, Left) && BlackOk(m, bh, p, NIL, Left)
    ensures BlackOk(m', bh, m.Child(Flip(dir), p), NIL, Left) && BlackOk(m', bh, p, NIL, Left)
    ensures m.red[m.Child(dir, p)] || RedOk(m', p)
  {
    var x := m.Child(Flip(dir), p);
    TurnedPair(m, m', p, dir);
    SidesBlackOk(m, bh, x, dir, NIL, Left);
    SidesBlackOk(m, bh, p, dir, NIL, Left);
    SidesBlackOk(m', bh, x, dir, NIL, Left);
    SidesBlackOk(m', bh, p, dir, NIL, Left);
    SidesRedOk(m, x, dir);
    SidesRedOk(m', p, dir);
  }

  lemma InnerNode(m: Mem, g: Shape, bh: seq<int>, x: Ptr, dir: Dir, m': Mem, n: Ptr)
    requires Repairing(m, g, bh, x) && RedPair(m, g, x, dir)
    requires var p := m.par[x]; m.Child(Flip(dir), p) == x && Around(m, g, p, dir) && Turned(m, m', p, dir)
    requires In(g, n) && NodeOk(m, g, n) && n != x && n != m.par[x]
    ensures BlackOk(m', bh, n, NIL, Left) && RedOk(m', n)
  {
    var p := m.par[x];
    assert BlackOk(m, bh, n, NIL, Left);
    assert RedOk(m, n);
    assert BlackOk(m, bh, x, NIL, Left) && BlackOk(m, bh, p, NIL, Left);
    SidesBlackOk(m, bh, p, dir, NIL, Left);
    TurnedBlackOk(m, m, m', g, bh, bh, p, dir, n, NIL, Left);
    TurnedRedOk(m, m', g, p, dir, n);
  }

  lemma InnerRepairing(m: Mem, g: Shape, bh: seq<int>, x: Ptr, dir: Dir)
    requires Repairing(m, g, bh, x) && RedPair(m, g, x, dir)
    requires m.Child(Flip(dir), m.par[x]) == x
    ensures var p := m.par[x];
            && Apart(m, p, dir)
            && var m', g' := Rotated(m, p, dir), TurnedShape(m, g, p, dir);
            && Repairing(m', g', bh, p) && RedPair(m', g', p, dir)
            && m'.par[p] == x && m'.Child(dir, x) == p && m'.par[x] == m.par[p]
            && m'.Child(Flip(dir), m.par[p]) == m.Child(Flip(dir), m.par[p])
  {
    var p := m.par[x];
    var pp := m.par[p];
    var g' := TurnedShape(m, g, p, dir);
    AroundAt(m, g, p, dir);
    var m' := Rotated(m, p, dir);
    RotatedTurned(m, p, dir);
    RotatedCached(m, g, p, dir);
    assert RedOk(m, x) && BlackOk(m, bh, x, NIL, Left) && BlackOk(m, bh, p, NIL, Left);
    InnerPair(m, bh, p, dir, m');
    forall n | In(g', n)
      ensures BlackOk(m', bh, n, NIL, Left)
      ensures n != x ==> RedOk(m', n)
    {
      At(m, g, n);
      if n != x && n != p { InnerNode(m, g, bh, x, dir, m', n); }
    }
    TurnedPair(m, m', p, dir);
    TurnedSide(m, m', g, p, dir, pp, Left);
    TurnedSide(m, m', g, p, dir, pp, Right);
    At(m', g', p); At(m', g', x); At(m', g', pp);
  }

  // -------------------------------------------------- x is an outer child: rotate the grandparent down

  /** `m1` is `m` with parent and grandparent recoloured, `m'` is `m1` with the grandparent turned down. */
  ghost predicate OuterStep(m: Mem, g: Shape, bh: seq<int>, x: Ptr, dir: Dir, m1: Mem, m': Mem) {
    && Repairing(m, g, bh, x) && RedPair(m, g, x, dir)
    && var p := m.par[x];
    && var pp := m.par[p];
    && m.Child(dir, p) == x && !m.red[m.Child(Flip(dir), pp)]
    && m1 == m.SetRed(p, false).SetRed(pp, true)
    && Around(m1, g, pp, Flip(dir)) && Turned(m1, m', pp, Flip(dir))
  }

  lemma OuterTurnedNodes(m: Mem, g: Shape, bh: seq<int>, x: Ptr, dir: Dir, m1: Mem, m': Mem)
    requires OuterStep(m, g, bh, x, dir, m1, m')
    ensures var p := m.par[x];
            var pp := m.par[p];
            && BlackOk(m', bh, p, NIL, Left) && RedOk(m', p) && BlackOk(m', bh, pp, NIL, Left) && RedOk(m', pp)
            && Blacks(m', bh, p) == Blacks(m, bh, pp)
  {
    var p := m.par[x];
    var pp := m.par[p];
    assert BlackOk(m, bh, x, NIL, Left) && BlackOk(m, bh, p, NIL, Left) && BlackOk(m, bh, pp, NIL, Left);
    assert m'.Child(dir, p) == x && m'.Child(Flip(dir), p) == pp;
    assert m'.Child(Flip(dir), pp) == m.Child(Flip(dir), pp);
    assert m'.Child(dir, pp) == m.Child(Flip(dir), p);
  }

  lemma OuterNode(m: Mem, g: Shape, bh: seq<int>, x: Ptr, dir: Dir, m1: Mem, m': Mem, n: Ptr)
    requires OuterStep(m, g, bh, x, dir, m1, m')
    requires In(g, n) && NodeOk(m1, g, n)
    ensures BlackOk(m', bh, n, NIL, Left)
    ensures RedOk(m', n)
  {
    var p := m.par[x];
    var pp := m.par[p];
    OuterTurnedNodes(m, g, bh, x, dir, m1, m');
    if n != p && n != pp {
      assert BlackOk(m, bh, n, NIL, Left);
      assert RedOk(m, n);
      assert m.left[n] != p && m.right[n] != p;
      TurnedBlackOk(m, m1, m', g, bh, bh, pp, Flip(dir), n, NIL, Left);
      TurnedRedOk(m1, m', g, pp, Flip(dir), n);
    }
  }

  lemma OuterRoot(m: Mem, g: Shape, bh: seq<int>, x: Ptr, dir: Dir, m1: Mem, m': Mem)
    requires OuterStep(m, g, bh, x, dir, m1, m')
    ensures m'.red[x] && m'.par[x] == m.par[x] && !m'.red[m.par[x]] && !m'.red[m'.root]
  {
    At(m, g, m.root);
  }

  lemma OuterRotated(m: Mem, g: Shape, bh: seq<int>, x: Ptr, dir: Dir, m1: Mem)
    requires Repairing(m, g, bh, x) && RedPair(m, g, x, dir)
    requires var p := m.par[x]; m.Child(dir, p) == x && !m.red[m.Child(Flip(dir), m.par[p])]
    requires m1 == m.SetRed(m.par[x], false).SetRed(m.par[m.par[x]], true)
    ensures var pp := m.par[m.par[x]];
            && m1.Sized() && Apart(m1, pp, Flip(dir))
            && var m', g' := Rotated(m1, pp, Flip(dir)), TurnedShape(m, g, pp, Flip(dir));
            && Around(m1, g, pp, Flip(dir)) && Turned(m1, m', pp, Flip(dir))
            && Linked(m1, g) && Linked(m', g') && Cached(m', g')
  {
    var pp := m.par[m.par[x]];
    Repainted(m, m1, g);
    assert TurnedShape(m, g, pp, Flip(dir)) == TurnedShape(m1, g, pp, Flip(dir));
    AroundAt(m1, g, pp, Flip(dir));
    RotatedCached(m1, g, pp, Flip(dir));
    RotatedTurned(m1, pp, Flip(dir));
  }

  lemma OuterRepairing(m: Mem, g: Shape, bh: seq<int>, x: Ptr, dir: Dir)
    requires Repairing(m, g, bh, x) && RedPair(m, g, x, dir)
    requires var p := m.par[x]; m.Child(dir, p) == x && !m.red[m.Child(Flip(dir), m.par[p])]
    ensures var pp := m.par[m.par[x]];
            var m1 := m.SetRed(m.par[x], false).SetRed(pp, true);
            && m1.Sized() && Apart(m1, pp, Flip(dir))
            && var m', g' := Rotated(m1, pp, Flip(dir)), TurnedShape(m, g, pp, Flip(dir));
            && Repairing(m', g', bh, x) && !m'.red[m'.par[x]]
  {
    var pp := m.par[m.par[x]];
    var m1 := m.SetRed(m.par[x], false).SetRed(pp, true);
    OuterRotated(m, g, bh, x, dir, m1);
    var m', g' := Rotated(m1, pp, Flip(dir)), TurnedShape(m, g, pp, Flip(dir));
    forall n | In(g', n) ensures BlackOk(m', bh, n, NIL, Left) && RedOk(m', n) {
      At(m1, g, n);
      OuterNode(m, g, bh, x, dir, m1, m', n);
    }
    OuterRoot(m, g, bh, x, dir, m1, m');
  }

  /** Blackening the root of a repaired tree leaves it sound. */
  lemma BlackRoot(m: Mem, g: Shape, bh: seq<int>, x: Ptr)
    requires Repairing(m, g, bh, x) && !m.red[m.par[x]]
    ensures Sound(m.SetRed(m.root, false), g, bh)
  {
    var m' := m.SetRed(m.root, false);
    Repainted(m, m', g);
    forall n | In(g, n) ensures BlackOk(m', bh, n, NIL, Left) && RedOk(m', n) {
      At(m, g, n);
      assert BlackOk(m, bh, n, NIL, Left);
      if n != m.par[x] { assert RedOk(m, n); }
      NotRoot(m, g, n, Left);
      NotRoot(m, g, n, Right);
    }
  }

  lemma NotRoot(m: Mem, g: Shape, n: Ptr, d: Dir)
    requires Linked(m, g) && In(g, n)
    ensures m.Child(d, n) != m.root
  {
    At(m, g, n);
    At(m, g, m.root);
  }
}
