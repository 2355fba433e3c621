/** `rebalance_delete`: each case of its loop keeps, or ends, the lack of one black node. */
module RbRebalance {
  import opened RbMem
  import opened RbRotate
  import opened RbColour
  import opened RbDelete

  /** The sibling of a black `x` that lacks one black is a node, on the side the code takes. */
  ghost predicate Sibling(m: Mem, g: Shape, bh: seq<int>, x: Ptr, hp: Ptr, hd: Dir) {
    && Lacking(m, g, bh, x, hp, hd) && !m.red[x] && hp != NIL && NodeOk(m, g, hp)
    && BlackOk(m, bh, hp, hp, hd)
    && var s := m.Child(Flip(hd), hp);
    && s != NIL && s != x && In(g, s) && NodeOk(m, g, s) && BlackOk(m, bh, s, hp, hd)
    && 1 <= Blacks(m, bh, x)
  }

  lemma FindSibling(m: Mem, g: Shape, bh: seq<int>, x: Ptr, hp: Ptr, hd: Dir)
    requires Lacking(m, g, bh, x, hp, hd) && m.root != x && !m.red[x]
    ensures hp != NIL && hd == if x == m.left[m.par[x]] then Left else Right
    ensures Sibling(m, g, bh, x, hp, hd)
  {
    At(m, g, hp);
    assert BlackOk(m, bh, hp, hp, hd);
    if x != NIL {
      assert BlackOk(m, bh, x, hp, hd);
    }
    var s := m.Child(Flip(hd), hp);
    assert Blacks(m, bh, s) == Blacks(m, bh, x) + 1;
    At(m, g, s);
    assert BlackOk(m, bh, s, hp, hd);
  }

  lemma RotatedMaxOk(m: Mem, m': Mem, g: Shape, x: Ptr, dir: Dir, a: Ptr, n: Ptr)
    requires Linked(m, g) && Around(m, g, x, dir) && Turned(m, m', x, dir)
    requires Recached(m, m', x, m.Child(Flip(dir), x))
    requires 0 < a < |m.left| && CachedBelow(m, g, a)
    requires In(g, n) && !Above(TurnedShape(m, g, x, dir), n, a)
    ensures MaxOk(m', n)
  {
    var y := m.Child(Flip(dir), x);
    if n != x && n != y {
      At(m, g, n);
      assert MaxOk(m, n);
      if n == m.par[x] {
        TurnedMaxOk(m, g, x, dir, a);
      }
      RecachedMaxOk(m, m', g, x, dir, n);
    }
  }

  /** If the parent's maximum is exact after the turn, then those of the turned nodes were before it. */
  lemma TurnedMaxOk(m: Mem, g: Shape, x: Ptr, dir: Dir, a: Ptr)
    requires Linked(m, g) && Around(m, g, x, dir) && 0 < a < |m.left| && CachedBelow(m, g, a) && m.par[x] != NIL
    requires In(g, m.par[x]) && !Above(TurnedShape(m, g, x, dir), m.par[x], a)
    ensures MaxOk(m, x) && MaxOk(m, m.Child(Flip(dir), x))
  {
    At(m, g, m.par[x]);
    assert MaxOk(m, m.par[x]);
  }

  /** A rotation keeps every exact maximum that is not at or above the anchor. */
  lemma RotatedCachedBelow(m: Mem, g: Shape, x: Ptr, dir: Dir, a: Ptr)
    requires Linked(m, g) && In(g, x) && m.Child(Flip(dir), x) != NIL
    requires Apart(m, x, dir) && 0 < a < |m.left|
    requires CachedBelow(m, g, a)
    ensures Linked(Rotated(m, x, dir), TurnedShape(m, g, x, dir))
    ensures CachedBelow(Rotated(m, x, dir), TurnedShape(m, g, x, dir), a)
  {
    var m', g' := Rotated(m, x, dir), TurnedShape(m, g, x, dir);
    RotatedTurned(m, x, dir);
    RotatedRecached(m, x, dir);
    TurnedLinked(m, m', g, x, dir);
    AroundAt(m, g, x, dir);
    forall n | In(g', n) && !Above(g', n, a) ensures MaxOk(m', n) {
      RotatedMaxOk(m, m', g, x, dir, a, n);
    }
  }

  /** Recolouring and rotating, all in one. */
  lemma RepaintedRotated(m: Mem, m1: Mem, g: Shape, x: Ptr, dir: Dir, a: Ptr)
    requires Linked(m, g) && In(g, x) && m.Child(Flip(dir), x) != NIL
    requires Recoloured(m, m1) && 0 < a < |m.left| && CachedBelow(m, g, a)
    ensures Apart(m1, x, dir) && Linked(m1, g) && Around(m1, g, x, dir)
    ensures var m', g' := Rotated(m1, x, dir), TurnedShape(m, g, x, dir);
            Turned(m1, m', x, dir) && Linked(m', g') && CachedBelow(m', g', a)
  {
    assert TurnedShape(m, g, x, dir) == TurnedShape(m1, g, x, dir);
    Repainted(m, m1, g);
    AroundAt(m1, g, x, dir);
    RotatedCachedBelow(m1, g, x, dir, a);
    RotatedTurned(m1, x, dir);
  }

  // ---------------------------------------------------------------- case 1: the sibling is red

  ghost predicate RedSiblingStep(m: Mem, g: Shape, bh: seq<int>, x: Ptr, hp: Ptr, hd: Dir, m1: Mem, m': Mem) {
    && Sibling(m, g, bh, x, hp, hd)
    && var s := m.Child(Flip(hd), hp);
    && m.red[s] && m1 == m.SetRed(hp, true).SetRed(s, false)
    && Around(m1, g, hp, hd) && Turned(m1, m', hp, hd)
  }

  /** The two turned nodes have the blacks they had, and `hp` still lacks one on the same side. */
  lemma RedSiblingPair(m: Mem, bh: seq<int>, hp: Ptr, hd: Dir, m1: Mem, m': Mem)
    requires m.Sized() && 0 < hp < |m.left| && |bh| == |m.left| && Recoloured(m, m1)
    requires Apart(m1, hp, hd) && Turned(m1, m', hp, hd)
    requires var s := m.Child(Flip(hd), hp);
             && m1.red == m.red[hp := true][s := false] && m.red[s] && RedOk(m, s)
             && BlackOk(m, bh, hp, hp, hd) && BlackOk(m, bh, s, hp, hd)
             && m.Child(hd, s) != hp && m.Child(hd, s) != s && m.Child(Flip(hd), s) != hp && m.Child(Flip(hd), s) != s
             && m.Child(hd, hp) != hp && m.Child(hd, hp) != s && !m.red[m.Child(hd, hp)]
    ensures var s := m.Child(Flip(hd), hp);
            && BlackOk(m', bh, hp, hp, hd) && BlackOk(m', bh, s, hp, hd) && RedOk(m', s)
            && !m'.red[m'.Child(Flip(hd), hp)] && m'.red[hp] && !m'.red[s]
  {
    var s := m.Child(Flip(hd), hp);
    TurnedPair(m1, m', hp, hd);
    SidesBlackOk(m, bh, hp, hd, hp, hd);
    SidesBlackOk(m, bh, s, hd, hp, hd);
    SidesBlackOk(m', bh, hp, hd, hp, hd);
    SidesBlackOk(m', bh, s, hd, hp, hd);
    SidesRedOk(m, s, hd);
  }

  lemma RedSiblingTurned(m: Mem, g: Shape, bh: seq<int>, x: Ptr, hp: Ptr, hd: Dir, m1: Mem, m': Mem)
    requires RedSiblingStep(m, g, bh, x, hp, hd, m1, m')
    ensures var s := m.Child(Flip(hd), hp);
            && BlackOk(m', bh, hp, hp, hd) && BlackOk(m', bh, s, hp, hd) && RedOk(m', s)
            && Blacks(m', bh, s) == Blacks(m, bh, hp)
            && m'.red[hp] && !m'.red[m'.Child(Flip(hd), hp)] && m'.Child(hd, hp) == x
            && m'.par[x] == hp
  {
    var s := m.Child(Flip(hd), hp);
    assert RedOk(m, s);
    RedSiblingPair(m, bh, hp, hd, m1, m');
    TurnedPair(m1, m', hp, hd);
  }

  lemma RedSiblingNode(m: Mem, g: Shape, bh: seq<int>, x: Ptr, hp: Ptr, hd: Dir, m1: Mem, m': Mem, n: Ptr)
    requires RedSiblingStep(m, g, bh, x, hp, hd, m1, m')
    requires In(g, n) && NodeOk(m1, g, n)
    ensures BlackOk(m', bh, n, hp, hd)
    ensures n != hp && n != x ==> RedOk(m', n)
  {
    var s := m.Child(Flip(hd), hp);
    RedSiblingTurned(m, g, bh, x, hp, hd, m1, m');
    if n != hp && n != s {
      assert BlackOk(m, bh, n, hp, hd);
      assert m.left[n] != s && m.right[n] != s;
      TurnedBlackOk(m, m1, m', g, bh, bh, hp, hd, n, hp, hd);
      if n != x {
        assert RedOk(m, n);
        TurnedRedOk(m1, m', g, hp, hd, n);
      }
    }
  }

  lemma RedSiblingRotated(m: Mem, g: Shape, bh: seq<int>, x: Ptr, hp: Ptr, hd: Dir, m1: Mem)
    requires Sibling(m, g, bh, x, hp, hd) && m.red[m.Child(Flip(hd), hp)]
    requires m1 == m.SetRed(hp, true).SetRed(m.Child(Flip(hd), hp), false)
    ensures m1.Sized() && Apart(m1, hp, hd)
    ensures var m', g' := Rotated(m1, hp, hd), TurnedShape(m, g, hp, hd);
            && Around(m1, g, hp, hd) && Turned(m1, m', hp, hd)
            && Linked(m1, g) && Linked(m', g') && CachedBelow(m', g', Anchor(m, x))
  {
    Repainted(m, m1, g);
    RepaintedRotated(m, m1, g, hp, hd, Anchor(m, x));
  }

  lemma RedSiblingPaint(m: Mem, g: Shape, bh: seq<int>, x: Ptr, hp: Ptr, hd: Dir, m1: Mem, m': Mem)
    requires RedSiblingStep(m, g, bh, x, hp, hd, m1, m') && Linked(m1, g)
    requires Linked(m', TurnedShape(m, g, hp, hd)) && CachedBelow(m', TurnedShape(m, g, hp, hd), Anchor(m, x))
    ensures Lacking(m', TurnedShape(m, g, hp, hd), bh, x, hp, hd)
    ensures !m'.red[m'.Child(Flip(hd), hp)] && m'.root != x && !m'.red[x]
  {
    RedSiblingTurned(m, g, bh, x, hp, hd, m1, m');
    assert Cut(m', TurnedShape(m, g, hp, hd), x, hp, hd);
    RedSiblingHeights(m, g, bh, x, hp, hd, m1, m');
    RedSiblingRoot(m, g, bh, x, hp, hd, m1, m');
  }

  lemma RedSiblingHeights(m: Mem, g: Shape, bh: seq<int>, x: Ptr, hp: Ptr, hd: Dir, m1: Mem, m': Mem)
    requires RedSiblingStep(m, g, bh, x, hp, hd, m1, m') && Linked(m1, g) && Linked(m', TurnedShape(m, g, hp, hd))
    ensures BlackHeights(m', TurnedShape(m, g, hp, hd), bh, hp, hd)
    ensures forall n {:trigger RedOk(m', n)} | In(TurnedShape(m, g, hp, hd), n) && n != hp && n != x :: RedOk(m', n)
  {
    forall n | In(TurnedShape(m, g, hp, hd), n)
      ensures BlackOk(m', bh, n, hp, hd) && (n != hp && n != x ==> RedOk(m', n))
    {
      At(m1, g, n);
      RedSiblingNode(m, g, bh, x, hp, hd, m1, m', n);
    }
  }

  /** Case 1 makes the red sibling the grandparent; the new sibling is black. */
  lemma RedSibling(m: Mem, g: Shape, bh: seq<int>, x: Ptr, hp: Ptr, hd: Dir)
    requires Sibling(m, g, bh, x, hp, hd) && m.red[m.Child(Flip(hd), hp)]
    ensures var m1 := m.SetRed(hp, true).SetRed(m.Child(Flip(hd), hp), false);
            && m1.Sized() && Apart(m1, hp, hd)
            && var m', g' := Rotated(m1, hp, hd), TurnedShape(m, g, hp, hd);
            && Sibling(m', g', bh, x, hp, hd) && !m'.red[m'.Child(Flip(hd), hp)]
            && LackSize(g', hp, hd) == LackSize(g, hp, hd) && m'.lower == m.lower && m'.upper == m.upper
  {
    var m1 := m.SetRed(hp, true).SetRed(m.Child(Flip(hd), hp), false);
    RedSiblingRotated(m, g, bh, x, hp, hd, m1);
    RedSiblingPaint(m, g, bh, x, hp, hd, m1, Rotated(m1, hp, hd));
    FindSibling(Rotated(m1, hp, hd), TurnedShape(m, g, hp, hd), bh, x, hp, hd);
  }

  lemma RedSiblingRoot(m: Mem, g: Shape, bh: seq<int>, x: Ptr, hp: Ptr, hd: Dir, m1: Mem, m': Mem)
    requires RedSiblingStep(m, g, bh, x, hp, hd, m1, m')
    ensures !m'.red[m'.root] && m'.root != x
  {
    At(m, g, m.root);
  }

  // ---------------------------------------------------------------- case 2: the sibling and its children are black

  /** A node whose subtree contains `n`, other than `n` itself, contains the parent of `n`. */
  lemma {:induction false} AboveParent(m: Mem, g: Shape, a: Ptr, n: Ptr)
    requires Linked(m, g) && In(g, a) && In(g, n) && a != n && Above(g, a, n)
    ensures In(g, m.par[n]) && Above(g, a, m.par[n])
    decreases g.hi[a] - g.lo[a]
  {
    At(m, g, a);
    At(m, g, n);
    var d := if g.pos[n] < g.pos[a] then Left else Right;
    var c := m.Child(d, a);
    assert g.pos[n] != g.pos[a];
    At(m, g, c);
    if c != n {
      AboveParent(m, g, c, n);
    }
  }

  ghost predicate PushUp(m: Mem, g: Shape, bh: seq<int>, x: Ptr, hp: Ptr, hd: Dir, m': Mem) {
    && Sibling(m, g, bh, x, hp, hd)
    && var s := m.Child(Flip(hd), hp);
    && !m.red[s] && !m.red[m.left[s]] && !m.red[m.right[s]]
    && m' == m.SetRed(s, true).Reordered(x)
  }

  lemma PushUpSide(m: Mem, g: Shape, bh: seq<int>, x: Ptr, hp: Ptr, hd: Dir, m': Mem, up: Dir, n: Ptr, d: Dir)
    requires PushUp(m, g, bh, x, hp, hd, m') && In(g, n) && LinkOk(m, g, n, d) && BlackOk(m, bh, n, hp, hd)
    requires m.par[hp] != NIL ==> m.Child(up, m.par[hp]) == hp && m.Child(Flip(up), m.par[hp]) != hp
    ensures m'.Sized()
    ensures var bh' := bh[hp := bh[hp] - 1];
            Blacks(m', bh', m'.Child(d, n)) + Lack(n, d, m.par[hp], up) == bh'[n]
  {
    var s, c := m.Child(Flip(hd), hp), m.Child(d, n);
    assert c == s ==> n == hp;
    assert c == hp ==> n == m.par[hp];
    PushUpCount(m, bh, hp, hd, m', up, n, d);
  }

  lemma PushUpCount(m: Mem, bh: seq<int>, hp: Ptr, hd: Dir, m': Mem, up: Dir, n: Ptr, d: Dir)
    requires m.Sized() && m'.Sized() && 0 < hp < |m.left| && 0 < n < |m.left| && |bh| == |m.left| == |m'.left|
    requires var s := m.Child(Flip(hd), hp);
             && s != hp && s != m.Child(hd, hp) && !m.red[s] && m'.red == m.red[s := true]
             && m'.left == m.left && m'.right == m.right && BlackOk(m, bh, n, hp, hd) && BlackOk(m, bh, hp, hp, hd)
             && (m.Child(d, n) == s ==> n == hp) && m.Child(d, hp) != hp
    requires m.Child(d, n) == hp ==> n == m.par[hp]
    requires m.par[hp] != NIL ==> m.Child(up, m.par[hp]) == hp && m.Child(Flip(up), m.par[hp]) != hp && m.par[hp] != hp
    ensures var bh' := bh[hp := bh[hp] - 1];
            Blacks(m', bh', m'.Child(d, n)) + Lack(n, d, m.par[hp], up) == bh'[n]
  {
  }

  lemma PushUpBlackOk(m: Mem, g: Shape, bh: seq<int>, x: Ptr, hp: Ptr, hd: Dir, m': Mem, up: Dir, n: Ptr)
    requires PushUp(m, g, bh, x, hp, hd, m') && In(g, n) && NodeOk(m, g, n)
    requires m.par[hp] != NIL ==> m.Child(up, m.par[hp]) == hp && m.Child(Flip(up), m.par[hp]) != hp
    ensures m'.Sized() && BlackOk(m', bh[hp := bh[hp] - 1], n, m.par[hp], up)
  {
    assert BlackOk(m, bh, n, hp, hd);
    PushUpSide(m, g, bh, x, hp, hd, m', up, n, Left);
    PushUpSide(m, g, bh, x, hp, hd, m', up, n, Right);
  }

  lemma PushUpRedOk(m: Mem, g: Shape, bh: seq<int>, x: Ptr, hp: Ptr, hd: Dir, m': Mem, n: Ptr)
    requires PushUp(m, g, bh, x, hp, hd, m') && In(g, n) && NodeOk(m, g, n) && n != hp
    ensures m'.Sized() && RedOk(m', n)
  {
    var s := m.Child(Flip(hd), hp);
    if n != x { assert RedOk(m, n); }
    assert m.left[n] != s && m.right[n] != s;
  }

  lemma PushUpNodes(m: Mem, g: Shape, bh: seq<int>, x: Ptr, hp: Ptr, hd: Dir, m': Mem, up: Dir)
    requires PushUp(m, g, bh, x, hp, hd, m')
    requires m.par[hp] != NIL ==> m.Child(up, m.par[hp]) == hp && m.Child(Flip(up), m.par[hp]) != hp
    ensures Fits(m', g) && BlackHeights(m', g, bh[hp := bh[hp] - 1], m.par[hp], up)
    ensures NoRedRed(m', g, hp)
  {
    forall n | In(g, n)
      ensures BlackOk(m', bh[hp := bh[hp] - 1], n, m.par[hp], up) && (n != hp ==> RedOk(m', n))
    {
      At(m, g, n);
      PushUpBlackOk(m, g, bh, x, hp, hd, m', up, n);
      if n != hp { PushUpRedOk(m, g, bh, x, hp, hd, m', n); }
    }
  }

  lemma PushUpMaxOk(m: Mem, g: Shape, bh: seq<int>, x: Ptr, hp: Ptr, hd: Dir, m': Mem, n: Ptr)
    requires PushUp(m, g, bh, x, hp, hd, m') && In(g, n) && !Above(g, n, hp)
    ensures m'.Sized() && MaxOk(m', n)
  {
    At(m, g, n);
    if x != NIL && n != x {
      if Above(g, n, x) { At(m, g, x); AboveParent(m, g, n, x); }
      assert MaxOk(m, n);
      assert m.left[n] != x && m.right[n] != x;
    } else if x == NIL {
      assert MaxOk(m, n);
    } else {
      assert m.left[x] != x && m.right[x] != x;
    }
  }

  lemma PushUpCut(m: Mem, g: Shape, bh: seq<int>, x: Ptr, hp: Ptr, hd: Dir, m': Mem, up: Dir)
    requires PushUp(m, g, bh, x, hp, hd, m')
    requires m.par[hp] != NIL ==> In(g, m.par[hp]) && m.Child(up, m.par[hp]) == hp
    ensures Cut(m', g, hp, m.par[hp], up)
  {
    At(m, g, hp);
    LinkedSameLinks(m, m', g);
    forall n | In(g, n) && !Above(g, n, hp) ensures MaxOk(m', n) {
      PushUpMaxOk(m, g, bh, x, hp, hd, m', n);
    }
  }

  /** Case 2 moves the lack up to the parent. */
  lemma PushedUp(m: Mem, g: Shape, bh: seq<int>, x: Ptr, hp: Ptr, hd: Dir, m': Mem) returns (up: Dir)
    requires PushUp(m, g, bh, x, hp, hd, m')
    ensures Lacking(m', g, bh[hp := bh[hp] - 1], hp, m.par[hp], up)
    ensures m.par[hp] != NIL ==>
      In(g, m.par[hp]) && g.lo[hp] == SlotLo(g, m.par[hp], up) && g.hi[hp] == SlotHi(g, m.par[hp], up)
  {
    var p := m.par[hp];
    up := if p != NIL && m.right[p] == hp then Right else Left;
    At(m, g, hp);
    if p != NIL { At(m, g, p); }
    PushUpCut(m, g, bh, x, hp, hd, m', up);
    PushUpNodes(m, g, bh, x, hp, hd, m', up);
    PushUpEdge(m, g, bh, x, hp, hd, m', up);
  }

  lemma PushUpEdge(m: Mem, g: Shape, bh: seq<int>, x: Ptr, hp: Ptr, hd: Dir, m': Mem, up: Dir)
    requires PushUp(m, g, bh, x, hp, hd, m')
    requires var p := m.par[hp]; p != NIL ==> In(g, p) && NodeOk(m, g, p) && m.Child(up, p) == hp
    ensures var p := m.par[hp]; p != NIL && m'.red[p] ==> !m'.red[m'.Child(Flip(up), p)]
    ensures m'.red[m'.root] ==> m'.root == hp
  {
    var p := m.par[hp];
    if p != NIL {
      assert RedOk(m, p);
    }
    At(m, g, m.root);
    if x != NIL { At(m, g, x); }
  }

  // ---------------------------------------------------------------- case 3: the far nephew is black, the near one red

  ghost predicate NearStep(m: Mem, g: Shape, bh: seq<int>, x: Ptr, hp: Ptr, hd: Dir, m1: Mem) {
    && Sibling(m, g, bh, x, hp, hd)
    && var s := m.Child(Flip(hd), hp);
    var near := m.Child(hd, s);
    && !m.red[s] && m.red[near] && !m.red[m.Child(Flip(hd), s)]
    && near != NIL && In(g, near) && NodeOk(m, g, near) && BlackOk(m, bh, near, hp, hd) && RedOk(m, near)
    && m1 == m.SetRed(s, true).SetRed(near, false)
  }

  ghost predicate NearTurned(m: Mem, g: Shape, bh: seq<int>, x: Ptr, hp: Ptr, hd: Dir, m1: Mem, m': Mem) {
    && NearStep(m, g, bh, x, hp, hd, m1) && m1.Sized()
    && var s := m.Child(Flip(hd), hp);
    Around(m1, g, s, Flip(hd)) && Turned(m1, m', s, Flip(hd))
  }

  lemma NearPair(m: Mem, bh: seq<int>, hp: Ptr, s: Ptr, hd: Dir, m1: Mem, m': Mem)
    requires m.Sized() && 0 < s < |m.left| && 0 < hp < |m.left| && |bh| == |m.left| && Recoloured(m, m1)
    requires Apart(m1, s, Flip(hd)) && Turned(m1, m', s, Flip(hd)) && hp != s
    requires var near := m.Child(hd, s);
             && m1.red == m.red[s := true][near := false] && !m.red[s] && m.red[near] && RedOk(m, near) && hp != near
             && BlackOk(m, bh, s, hp, hd) && BlackOk(m, bh, near, hp, hd) && !m.red[m.Child(Flip(hd), s)]
             && m.Child(hd, near) != s && m.Child(hd, near) != near && m.Child(Flip(hd), near) != s
             && m.Child(Flip(hd), near) != near && m.Child(Flip(hd), s) != s && m.Child(Flip(hd), s) != near
    ensures var near := m.Child(hd, s);
            && BlackOk(m', bh, s, hp, hd) && BlackOk(m', bh, near, hp, hd) && RedOk(m', s) && RedOk(m', near)
            && m'.Child(Flip(hd), near) == s && m'.red[s] && !m'.red[near]
  {
    var near := m.Child(hd, s);
    assert Flip(Flip(hd)) == hd;
    TurnedPair(m1, m', s, Flip(hd));
    SidesBlackOk(m, bh, s, hd, hp, hd);
    SidesBlackOk(m, bh, near, hd, hp, hd);
    SidesBlackOk(m', bh, s, hd, hp, hd);
    SidesBlackOk(m', bh, near, hd, hp, hd);
    SidesRedOk(m, near, hd);
    SidesRedOk(m', s, hd);
  }

  lemma NearNodes(m: Mem, g: Shape, bh: seq<int>, x: Ptr, hp: Ptr, hd: Dir, m1: Mem, m': Mem)
    requires NearTurned(m, g, bh, x, hp, hd, m1, m')
    ensures var s := m.Child(Flip(hd), hp);
            var near := m.Child(hd, s);
            && BlackOk(m', bh, s, hp, hd) && BlackOk(m', bh, near, hp, hd) && RedOk(m', s) && RedOk(m', near)
            && Blacks(m', bh, near) == Blacks(m, bh, s)
            && m'.Child(Flip(hd), hp) == near && m'.Child(hd, hp) == x && m'.Child(Flip(hd), near) == s
            && m'.red[s] && !m'.red[near] && m'.red[hp] == m.red[hp] && m'.par[x] == hp && m'.root == m.root
  {
    NearPair(m, bh, hp, m.Child(Flip(hd), hp), hd, m1, m');
  }

  lemma NearNode(m: Mem, g: Shape, bh: seq<int>, x: Ptr, hp: Ptr, hd: Dir, m1: Mem, m': Mem, n: Ptr)
    requires NearTurned(m, g, bh, x, hp, hd, m1, m')
    requires In(g, n) && NodeOk(m1, g, n)
    ensures BlackOk(m', bh, n, hp, hd)
    ensures n != hp && n != x ==> RedOk(m', n)
  {
    var s := m.Child(Flip(hd), hp);
    var near := m.Child(hd, s);
    NearNodes(m, g, bh, x, hp, hd, m1, m');
    if n != s && n != near {
      assert BlackOk(m, bh, n, hp, hd);
      assert m.left[n] != near && m.right[n] != near;
      TurnedBlackOk(m, m1, m', g, bh, bh, s, Flip(hd), n, hp, hd);
      if n != x && n != hp {
        assert RedOk(m, n);
        TurnedRedOk(m1, m', g, s, Flip(hd), n);
      }
    }
  }

  lemma NearRotated(m: Mem, g: Shape, bh: seq<int>, x: Ptr, hp: Ptr, hd: Dir, m1: Mem)
    requires NearStep(m, g, bh, x, hp, hd, m1)
    ensures var s := m.Child(Flip(hd), hp);
            && m1.Sized() && Apart(m1, s, Flip(hd))
            && var m', g' := Rotated(m1, s, Flip(hd)), TurnedShape(m, g, s, Flip(hd));
            && Around(m1, g, s, Flip(hd)) && Turned(m1, m', s, Flip(hd))
            && Linked(m1, g) && Linked(m', g') && CachedBelow(m', g', Anchor(m, x))
  {
    Repainted(m, m1, g);
    var s, a := m.Child(Flip(hd), hp), Anchor(m, x);
    assert 0 < a < |m.left|;
    RepaintedRotated(m, m1, g, s, Flip(hd), a);
  }

  lemma NearCut(m: Mem, g: Shape, bh: seq<int>, x: Ptr, hp: Ptr, hd: Dir, m1: Mem, m': Mem)
    requires NearTurned(m, g, bh, x, hp, hd, m1, m')
    requires var g' := TurnedShape(m, g, m.Child(Flip(hd), hp), Flip(hd));
             Linked(m', g') && CachedBelow(m', g', Anchor(m, x))
    ensures Cut(m', TurnedShape(m, g, m.Child(Flip(hd), hp), Flip(hd)), x, hp, hd)
  {
    NearNodes(m, g, bh, x, hp, hd, m1, m');
  }

  lemma NearPaint(m: Mem, g: Shape, bh: seq<int>, x: Ptr, hp: Ptr, hd: Dir, m1: Mem, m': Mem)
    requires NearTurned(m, g, bh, x, hp, hd, m1, m') && Linked(m1, g)
    requires var g' := TurnedShape(m, g, m.Child(Flip(hd), hp), Flip(hd));
             Linked(m', g') && CachedBelow(m', g', Anchor(m, x))
    ensures Lacking(m', TurnedShape(m, g, m.Child(Flip(hd), hp), Flip(hd)), bh, x, hp, hd)
  {
    var g' := TurnedShape(m, g, m.Child(Flip(hd), hp), Flip(hd));
    NearCut(m, g, bh, x, hp, hd, m1, m');
    NearNodes(m, g, bh, x, hp, hd, m1, m');
    forall n | In(g', n) ensures BlackOk(m', bh, n, hp, hd) && (n != hp && n != x ==> RedOk(m', n)) {
      At(m1, g, n);
      NearNode(m, g, bh, x, hp, hd, m1, m', n);
    }
    NearRoot(m, g, bh, x, hp, hd, m1, m');
  }

  lemma NearRoot(m: Mem, g: Shape, bh: seq<int>, x: Ptr, hp: Ptr, hd: Dir, m1: Mem, m': Mem)
    requires NearTurned(m, g, bh, x, hp, hd, m1, m') && m'.root == m.root
    ensures m'.red[m'.root] ==> m'.root == x
  {
    At(m, g, m.root);
  }

  /** Case 3 makes the red near nephew the far one, for case 4. */
  lemma NearNephew(m: Mem, g: Shape, bh: seq<int>, x: Ptr, hp: Ptr, hd: Dir)
    requires Sibling(m, g, bh, x, hp, hd) && !m.red[m.Child(Flip(hd), hp)]
    requires var s := m.Child(Flip(hd), hp); m.red[m.Child(hd, s)] && !m.red[m.Child(Flip(hd), s)]
    ensures var s := m.Child(Flip(hd), hp);
            var m1 := m.SetRed(s, true).SetRed(m.Child(hd, s), false);
            && m1.Sized() && Apart(m1, s, Flip(hd))
            && var m', g' := Rotated(m1, s, Flip(hd)), TurnedShape(m, g, s, Flip(hd));
            && Sibling(m', g', bh, x, hp, hd)
            && m'.Child(Flip(hd), hp) == m.Child(hd, s) && !m'.red[m.Child(hd, s)]
            && m'.Child(Flip(hd), m.Child(hd, s)) == s && m'.red[s] && m'.lower == m.lower && m'.upper == m.upper
  {
    var s := m.Child(Flip(hd), hp);
    var near := m.Child(hd, s);
    At(m, g, near);
    At(m, g, m.root);
    assert BlackOk(m, bh, near, hp, hd) && RedOk(m, near);
    var m1 := m.SetRed(s, true).SetRed(near, false);
    NearRotated(m, g, bh, x, hp, hd, m1);
    var m' := Rotated(m1, s, Flip(hd));
    NearPaint(m, g, bh, x, hp, hd, m1, m');
    NearNodes(m, g, bh, x, hp, hd, m1, m');
    FindSibling(m', TurnedShape(m, g, s, Flip(hd)), bh, x, hp, hd);
  }

  // ---------------------------------------------------------------- case 4: the far nephew is red

  ghost predicate FarStep(m: Mem, g: Shape, bh: seq<int>, x: Ptr, hp: Ptr, hd: Dir, m1: Mem) {
    && Sibling(m, g, bh, x, hp, hd)
    && var s := m.Child(Flip(hd), hp);
    var far := m.Child(Flip(hd), s);
    && !m.red[s] && m.red[far]
    && far != NIL && In(g, far) && NodeOk(m, g, far) && RedOk(m, far)
    && m1 == m.SetRed(s, m.red[hp]).SetRed(hp, false).SetRed(far, false)
  }

  ghost predicate FarTurned(m: Mem, g: Shape, bh: seq<int>, x: Ptr, hp: Ptr, hd: Dir, m1: Mem, m': Mem) {
    FarStep(m, g, bh, x, hp, hd, m1) && m1.Sized() && Around(m1, g, hp, hd) && Turned(m1, m', hp, hd)
  }

  ghost function FarHeights(m: Mem, bh: seq<int>, hp: Ptr, hd: Dir): seq<int>
    requires m.Sized() && |bh| == |m.left| && 0 <= hp < |m.left|
  {
    bh[hp := bh[hp] - 1][m.Child(Flip(hd), hp) := bh[hp]]
  }

  lemma FarLinks(m: Mem, g: Shape, bh: seq<int>, x: Ptr, hp: Ptr, hd: Dir, m1: Mem, m': Mem)
    requires FarTurned(m, g, bh, x, hp, hd, m1, m')
    ensures var s := m.Child(Flip(hd), hp);
            && m'.Child(hd, hp) == x && m'.Child(Flip(hd), hp) == m.Child(hd, s)
            && m'.Child(hd, s) == hp && m'.Child(Flip(hd), s) == m.Child(Flip(hd), s) && m'.par[x] == hp
            && m.Child(hd, s) != m.Child(Flip(hd), s)
  {
  }

  lemma FarPair(m: Mem, bh: seq<int>, hp: Ptr, hd: Dir, m1: Mem, m': Mem)
    requires m.Sized() && 0 < hp < |m.left| && |bh| == |m.left| && Recoloured(m, m1)
    requires Apart(m1, hp, hd) && Turned(m1, m', hp, hd)
    requires var s, x := m.Child(Flip(hd), hp), m.Child(hd, hp);
             var near, far := m.Child(hd, s), m.Child(Flip(hd), s);
             && m1.red == m.red[s := m.red[hp]][hp := false][far := false] && !m.red[s] && m.red[far]
             && BlackOk(m, bh, hp, hp, hd) && BlackOk(m, bh, s, hp, hd) && 1 <= Blacks(m, bh, x)
             && far != s && far != hp && far != near && far != x && near != s && near != hp && x != s && x != hp
    ensures var s, bh' := m.Child(Flip(hd), hp), FarHeights(m, bh, hp, hd);
            && BlackOk(m', bh', s, NIL, Left) && BlackOk(m', bh', hp, NIL, Left) && RedOk(m', s) && RedOk(m', hp)
            && Blacks(m', bh', s) == Blacks(m, bh, hp) && m'.red[s] == m.red[hp]
  {
    var s, bh' := m.Child(Flip(hd), hp), FarHeights(m, bh, hp, hd);
    TurnedPair(m1, m', hp, hd);
    SidesBlackOk(m, bh, hp, hd, hp, hd);
    SidesBlackOk(m, bh, s, hd, hp, hd);
    SidesBlackOk(m', bh', hp, hd, NIL, Left);
    SidesBlackOk(m', bh', s, hd, NIL, Left);
    SidesRedOk(m', s, hd);
  }

  lemma FarNodes(m: Mem, g: Shape, bh: seq<int>, x: Ptr, hp: Ptr, hd: Dir, m1: Mem, m': Mem)
    requires FarTurned(m, g, bh, x, hp, hd, m1, m')
    ensures var s, bh' := m.Child(Flip(hd), hp), FarHeights(m, bh, hp, hd);
            && BlackOk(m', bh', s, NIL, Left) && BlackOk(m', bh', hp, NIL, Left) && RedOk(m', s) && RedOk(m', hp)
            && Blacks(m', bh', s) == Blacks(m, bh, hp) && m'.red[s] == m.red[hp]
            && m'.Child(hd, hp) == x && m'.par[x] == hp
  {
    FarLinks(m, g, bh, x, hp, hd, m1, m');
    FarPair(m, bh, hp, hd, m1, m');
  }

  lemma FarNode(m: Mem, g: Shape, bh: seq<int>, x: Ptr, hp: Ptr, hd: Dir, m1: Mem, m': Mem, n: Ptr)
    requires FarTurned(m, g, bh, x, hp, hd, m1, m')
    requires In(g, n) && NodeOk(m1, g, n)
    ensures BlackOk(m', FarHeights(m, bh, hp, hd), n, NIL, Left)
    ensures RedOk(m', n)
  {
    var s := m.Child(Flip(hd), hp);
    var far := m.Child(Flip(hd), s);
    FarNodes(m, g, bh, x, hp, hd, m1, m');
    if n != hp && n != s {
      FarElsewhere(m, g, bh, x, hp, hd, m1, n);
      TurnedBlackOk(m, m1, m', g, bh, FarHeights(m, bh, hp, hd), hp, hd, n, NIL, Left);
      TurnedRedOk(m1, m', g, hp, hd, n);
    }
  }

  /** A node other than `hp` and the sibling has neither the sibling nor the far nephew for a child. */
  lemma FarElsewhere(m: Mem, g: Shape, bh: seq<int>, x: Ptr, hp: Ptr, hd: Dir, m1: Mem, n: Ptr)
    requires FarStep(m, g, bh, x, hp, hd, m1) && m1.Sized()
    requires In(g, n) && NodeOk(m1, g, n) && n != hp && n != m.Child(Flip(hd), hp)
    ensures var bh' := FarHeights(m, bh, hp, hd);
            && BlackOk(m, bh, n, NIL, Left) && bh'[n] == bh[n]
            && (m.left[n] != hp ==> SameBlacks(m, bh, m1, bh', m.left[n]) && (m1.red[n] ==> !m1.red[m.left[n]]))
            && (m.right[n] != hp ==> SameBlacks(m, bh, m1, bh', m.right[n]) && (m1.red[n] ==> !m1.red[m.right[n]]))
            && (n == m.par[hp] && m1.red[n] ==> !m.red[hp])
  {
    var s := m.Child(Flip(hd), hp);
    var far := m.Child(Flip(hd), s);
    FarApart(m, g, bh, x, hp, hd, m1, n);
    assert BlackOk(m, bh, n, hp, hd);
    if n != far && n != x { assert RedOk(m, n); }
    FarUnpainted(m, bh, x, hp, s, far, hd, m1, n);
  }

  lemma FarApart(m: Mem, g: Shape, bh: seq<int>, x: Ptr, hp: Ptr, hd: Dir, m1: Mem, n: Ptr)
    requires FarStep(m, g, bh, x, hp, hd, m1) && m1.Sized()
    requires In(g, n) && NodeOk(m1, g, n) && n != hp && n != m.Child(Flip(hd), hp)
    ensures var s := m.Child(Flip(hd), hp);
            var far := m.Child(Flip(hd), s);
            m.left[n] != s && m.right[n] != s && m.left[n] != far && m.right[n] != far
  {
  }

  /** What the repainting of `hp`, `s` and `far` leaves of the colours around another node. */
  lemma FarUnpainted(m: Mem, bh: seq<int>, x: Ptr, hp: Ptr, s: Ptr, far: Ptr, hd: Dir, m1: Mem, n: Ptr)
    requires Recoloured(m, m1) && |bh| == |m.left| && 0 < hp < |m.left| && 0 < n < |m.left| && 0 <= x < |m.left|
    requires s == m.Child(Flip(hd), hp) && far == m.Child(Flip(hd), s) && n != hp && n != s
    requires m1.red == m.red[s := m.red[hp]][hp := false][far := false]
    requires m.left[n] != s && m.right[n] != s && m.left[n] != far && m.right[n] != far
    requires BlackOk(m, bh, n, hp, hd) && (n != far && n != x ==> RedOk(m, n))
    requires n == x ==> !m.red[x]
    ensures var bh' := FarHeights(m, bh, hp, hd);
            && BlackOk(m, bh, n, NIL, Left) && bh'[n] == bh[n]
            && (m.left[n] != hp ==> SameBlacks(m, bh, m1, bh', m.left[n]) && (m1.red[n] ==> !m1.red[m.left[n]]))
            && (m.right[n] != hp ==> SameBlacks(m, bh, m1, bh', m.right[n]) && (m1.red[n] ==> !m1.red[m.right[n]]))
  {
  }

  lemma FarRotated(m: Mem, g: Shape, bh: seq<int>, x: Ptr, hp: Ptr, hd: Dir, m1: Mem)
    requires FarStep(m, g, bh, x, hp, hd, m1)
    ensures m1.Sized() && Apart(m1, hp, hd)
    ensures var m', g' := Rotated(m1, hp, hd), TurnedShape(m, g, hp, hd);
            && Around(m1, g, hp, hd) && Turned(m1, m', hp, hd)
            && Linked(m1, g) && Linked(m', g') && CachedBelow(m', g', Anchor(m, x))
  {
    Repainted(m, m1, g);
    RepaintedRotated(m, m1, g, hp, hd, Anchor(m, x));
  }

  lemma FarRoot(m: Mem, g: Shape, bh: seq<int>, x: Ptr, hp: Ptr, hd: Dir, m1: Mem, m': Mem)
    requires FarTurned(m, g, bh, x, hp, hd, m1, m')
    ensures !m'.red[m'.root]
  {
    At(m, g, m.root);
    FarNodes(m, g, bh, x, hp, hd, m1, m');
  }

  lemma FarCut(m: Mem, g: Shape, bh: seq<int>, x: Ptr, hp: Ptr, hd: Dir, m1: Mem, m': Mem)
    requires FarTurned(m, g, bh, x, hp, hd, m1, m')
    requires Linked(m', TurnedShape(m, g, hp, hd)) && CachedBelow(m', TurnedShape(m, g, hp, hd), Anchor(m, x))
    ensures Cut(m', TurnedShape(m, g, hp, hd), x, hp, hd)
  {
    assert m'.Child(hd, hp) == x;
  }

  lemma FarPaint(m: Mem, g: Shape, bh: seq<int>, x: Ptr, hp: Ptr, hd: Dir, m1: Mem, m': Mem)
    requires FarTurned(m, g, bh, x, hp, hd, m1, m') && Linked(m1, g)
    requires Linked(m', TurnedShape(m, g, hp, hd)) && CachedBelow(m', TurnedShape(m, g, hp, hd), Anchor(m, x))
    ensures Cut(m', TurnedShape(m, g, hp, hd), x, hp, hd)
    ensures Coloured(m', TurnedShape(m, g, hp, hd), FarHeights(m, bh, hp, hd))
  {
    FarCut(m, g, bh, x, hp, hd, m1, m');
    FarAllHeights(m, g, bh, x, hp, hd, m1, m');
    FarRoot(m, g, bh, x, hp, hd, m1, m');
  }

  lemma FarAllHeights(m: Mem, g: Shape, bh: seq<int>, x: Ptr, hp: Ptr, hd: Dir, m1: Mem, m': Mem)
    requires FarTurned(m, g, bh, x, hp, hd, m1, m') && Linked(m1, g) && Linked(m', TurnedShape(m, g, hp, hd))
    ensures BlackHeights(m', TurnedShape(m, g, hp, hd), FarHeights(m, bh, hp, hd), NIL, Left)
    ensures NoRedRed(m', TurnedShape(m, g, hp, hd), NIL)
  {
    var bh', g' := FarHeights(m, bh, hp, hd), TurnedShape(m, g, hp, hd);
    assert m'.Sized() && |bh'| == |m'.left|;
    forall n | In(g', n) ensures BlackOk(m', bh', n, NIL, Left) && RedOk(m', n) {
      At(m1, g, n);
      FarNode(m, g, bh, x, hp, hd, m1, m', n);
    }
  }

  /** Case 4 supplies the missing black. */
  lemma FarNephew(m: Mem, g: Shape, bh: seq<int>, x: Ptr, hp: Ptr, hd: Dir)
    requires Sibling(m, g, bh, x, hp, hd)
    requires var s := m.Child(Flip(hd), hp); !m.red[s] && m.red[m.Child(Flip(hd), s)]
    ensures var s := m.Child(Flip(hd), hp);
            var m1 := m.SetRed(s, m.red[hp]).SetRed(hp, false).SetRed(m.Child(Flip(hd), s), false);
            && m1.Sized() && Apart(m1, hp, hd)
            && var m', g' := Rotated(m1, hp, hd), TurnedShape(m, g, hp, hd);
            Cut(m', g', x, hp, hd) && Coloured(m', g', FarHeights(m, bh, hp, hd))
  {
    var s := m.Child(Flip(hd), hp);
    var far := m.Child(Flip(hd), s);
    At(m, g, far);
    assert RedOk(m, far);
    var m1 := m.SetRed(s, m.red[hp]).SetRed(hp, false).SetRed(far, false);
    FarRotated(m, g, bh, x, hp, hd, m1);
    FarPaint(m, g, bh, x, hp, hd, m1, Rotated(m1, hp, hd));
  }

  // ---------------------------------------------------------------- the end of the loop

  lemma Blackened(m: Mem, g: Shape, bh: seq<int>, x: Ptr, hp: Ptr, hd: Dir)
    requires Lacking(m, g, bh, x, hp, hd) && (m.root == x || m.red[x])
    ensures var m' := m.SetRed(x, false);
            m'.Sized() && Cut(m', g, x, hp, hd) && Coloured(m', g, bh)
  {
    var m' := m.SetRed(x, false);
    Repainted(m, m', g);
    forall n | In(g, n) ensures BlackOk(m', bh, n, NIL, Left) && RedOk(m', n) {
      BlackenedNode(m, g, bh, x, hp, hd, n);
    }
  }

  lemma BlackenedNode(m: Mem, g: Shape, bh: seq<int>, x: Ptr, hp: Ptr, hd: Dir, n: Ptr)
    requires Lacking(m, g, bh, x, hp, hd) && (m.root == x || m.red[x]) && In(g, n)
    ensures var m' := m.SetRed(x, false);
            m'.Sized() && BlackOk(m', bh, n, NIL, Left) && RedOk(m', n)
  {
    if x != NIL { At(m, g, x); }
    if hp != NIL { At(m, g, hp); }
    At(m, g, n);
    assert BlackOk(m, bh, n, hp, hd);
    if n != hp && n != x { assert RedOk(m, n); }
    assert x != NIL && n != hp ==> m.left[n] != x && m.right[n] != x;
  }

  // ---------------------------------------------------------------- the walk to the root

  /** Recomputing the maximum of the anchor moves the anchor up. */
  lemma WalkUp(m: Mem, g: Shape, bh: seq<int>, y: Ptr)
    requires Linked(m, g) && In(g, y) && CachedBelow(m, g, y) && Coloured(m, g, bh)
    ensures var m' := m.Reordered(y);
            && m'.Sized() && Linked(m', g) && Coloured(m', g, bh)
            && CachedBelow(m', g, m.par[y])
            && (m.par[y] != NIL ==> In(g, m.par[y]) && g.hi[y] - g.lo[y] < g.hi[m.par[y]] - g.lo[m.par[y]])
  {
    var m' := m.Reordered(y);
    LinkedSameLinks(m, m', g);
    SameColours(m, m', g, bh);
    var p := m.par[y];
    At(m, g, y);
    if p != NIL { At(m, g, p); }
    forall n | In(g, n) && (p == NIL || !Above(g, n, p)) ensures MaxOk(m', n) {
      WalkUpMaxOk(m, g, y, n);
    }
  }

  lemma WalkUpMaxOk(m: Mem, g: Shape, y: Ptr, n: Ptr)
    requires Linked(m, g) && In(g, y) && CachedBelow(m, g, y)
    requires In(g, n) && (m.par[y] == NIL || !Above(g, n, m.par[y]))
    ensures m.Reordered(y).Sized() && MaxOk(m.Reordered(y), n)
  {
    At(m, g, y);
    At(m, g, n);
    if n != y {
      if Above(g, n, y) { AboveParent(m, g, n, y); }
      assert MaxOk(m, n);
    }
  }
}
