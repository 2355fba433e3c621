/** Rotation: what it does to the links, and that the tree stays linked in the same order. */
module RbRotate {
  import opened RbMem

  /** The links after `rotate(rbt, x, dir)`, statement by statement, before its two calls of `reorder_cb`. */
  function RotatedLinks(m: Mem, x: Ptr, dir: Dir): Mem
    requires m.Sized() && 0 < x < |m.left| && m.Child(Flip(dir), x) != NIL
  {
    var y := m.Child(Flip(dir), x);
    var m1 := m.SetChild(Flip(dir), x, m.Child(dir, y));
    var b := m1.Child(Flip(dir), x);
    var m2 := if b != NIL then m1.SetPar(b, x) else m1;
    var m3 := m2.SetPar(y, m2.par[x]);
    var p := m3.par[x];
    var m4 :=
      if p == NIL then m3.(root := y)
      else if m3.Child(dir, p) == x then m3.SetChild(dir, p, y)
      else m3.SetChild(Flip(dir), p, y);
    m4.SetChild(dir, y, x).SetPar(x, y)
  }

  /** `m'` is `m` with the link between `x` and its child turned around, field by field. */
  ghost predicate Turned(m: Mem, m': Mem, x: Ptr, dir: Dir)
    requires m.Sized() && 0 < x < |m.left|
  {
    var y := m.Child(Flip(dir), x);
    var p := m.par[x];
    var b := m.Child(dir, y);
    && m'.Sized() && |m'.left| == |m.left|
    && m'.lower == m.lower && m'.upper == m.upper && m'.red == m.red
    && m'.root == (if p == NIL then y else m.root)
    && (forall n | 0 <= n < |m.left| ::
          m'.par[n] == if n == x then y else if n == y then p else if n == b && b != NIL then x else m.par[n])
    && (forall n | 0 <= n < |m.left| :: m'.left[n] == TurnedChild(m, x, y, dir, n, Left))
    && (forall n | 0 <= n < |m.left| :: m'.right[n] == TurnedChild(m, x, y, dir, n, Right))
  }

  ghost function TurnedChild(m: Mem, x: Ptr, y: Ptr, dir: Dir, n: Ptr, d: Dir): Ptr
    requires m.Sized() && 0 < x < |m.left| && 0 <= y < |m.left| && 0 <= n < |m.left|
  {
    var p := m.par[x];
    if n == y && d == dir then x
    else if n == x && d == Flip(dir) then m.Child(dir, y)
    else if n == p && p != NIL && d == (if m.Child(dir, p) == x then dir else Flip(dir)) then y
    else m.Child(d, n)
  }

  /** `x` and the two nodes below it that a rotation relinks are distinct from each other and from the parent. */
  ghost predicate Apart(m: Mem, x: Ptr, dir: Dir)
    requires m.Sized() && 0 < x < |m.left|
  {
    var y, p := m.Child(Flip(dir), x), m.par[x];
    && y != NIL && y != x && p != x && p != y
    && m.Child(dir, y) != x && m.Child(dir, y) != y && m.Child(Flip(dir), y) != y
    && m.Child(dir, x) != x && m.Child(dir, x) != y
  }

  /** The fields after the statements of `rotate`, each as one chain of updates. */
  lemma RotatedFields(m: Mem, x: Ptr, dir: Dir)
    requires m.Sized() && 0 < x < |m.left|
    requires Apart(m, x, dir)
    ensures var y := m.Child(Flip(dir), x);
            var p := m.par[x];
            var b := m.Child(dir, y);
            var near, far := m.Children(dir), m.Children(Flip(dir));
            var m' := RotatedLinks(m, x, dir);
            && m'.Children(dir) == (if p != NIL && near[p] == x then near[p := y] else near)[y := x]
            && m'.Children(Flip(dir)) == (if p != NIL && near[p] != x then far[x := b][p := y] else far[x := b])
            && m'.par == (if b != NIL then m.par[b := x] else m.par)[y := p][x := y]
            && m' == m.(left := m'.left, right := m'.right, par := m'.par, root := if p == NIL then y else m.root)
  {
  }

  lemma RotatedChild(m: Mem, x: Ptr, dir: Dir, n: Ptr, d: Dir)
    requires m.Sized() && 0 < x < |m.left| && 0 <= n < |m.left| && Apart(m, x, dir)
    ensures var m' := RotatedLinks(m, x, dir);
            |m'.left| == |m'.right| == |m.left| &&
            m'.Child(d, n) == TurnedChild(m, x, m.Child(Flip(dir), x), dir, n, d)
  {
    RotatedFields(m, x, dir);
  }

  lemma RotatedLinksSized(m: Mem, x: Ptr, dir: Dir)
    requires m.Sized() && 0 < x < |m.left| && Apart(m, x, dir)
    ensures var m' := RotatedLinks(m, x, dir); m'.Sized() && |m'.left| == |m.left|
  {
    RotatedFields(m, x, dir);
  }

  lemma RotatedLinksTurned(m: Mem, x: Ptr, dir: Dir)
    requires m.Sized() && 0 < x < |m.left| && Apart(m, x, dir)
    ensures Turned(m, RotatedLinks(m, x, dir), x, dir)
  {
    RotatedLinksSized(m, x, dir);
    RotatedFields(m, x, dir);
    var m', y := RotatedLinks(m, x, dir), m.Child(Flip(dir), x);
    forall n | 0 <= n < |m.left|
      ensures m'.left[n] == TurnedChild(m, x, y, dir, n, Left)
      ensures m'.right[n] == TurnedChild(m, x, y, dir, n, Right)
    {
      RotatedChild(m, x, dir, n, Left);
      RotatedChild(m, x, dir, n, Right);
    }
  }

  ghost function TurnedShape(m: Mem, g: Shape, x: Ptr, dir: Dir): Shape
    requires Fits(m, g) && 0 < x < |m.left|
  {
    var y := m.Child(Flip(dir), x);
    if dir == Left then
      g.(lo := g.lo[y := g.lo[x]], hi := g.hi[y := g.hi[x]][x := g.pos[y]])
    else
      g.(lo := g.lo[y := g.lo[x]][x := g.pos[y] + 1], hi := g.hi[y := g.hi[x]])
  }

  /** The three nodes a rotation at `x` relinks are in order. */
  ghost predicate Around(m: Mem, g: Shape, x: Ptr, dir: Dir) {
    && Fits(m, g) && In(g, x) && NodeOk(m, g, x) && Apart(m, x, dir)
    && var y := m.Child(Flip(dir), x);
    && y != NIL && In(g, y) && NodeOk(m, g, y)
    && var b := m.Child(dir, y);
    (b != NIL ==> In(g, b) && NodeOk(m, g, b))
  }

  lemma TurnedLinkOkLower(m: Mem, m': Mem, g: Shape, x: Ptr, dir: Dir, d: Dir)
    requires Around(m, g, x, dir) && Turned(m, m', x, dir)
    ensures LinkOk(m', TurnedShape(m, g, x, dir), x, d)
  {
    assert m'.Child(d, x) == if d == dir then m.Child(d, x) else m.Child(dir, m.Child(Flip(dir), x));
  }

  lemma TurnedLinkOkUpper(m: Mem, m': Mem, g: Shape, x: Ptr, dir: Dir, d: Dir)
    requires Around(m, g, x, dir) && Turned(m, m', x, dir)
    ensures LinkOk(m', TurnedShape(m, g, x, dir), m.Child(Flip(dir), x), d)
  {
  }

  lemma TurnedLinkOkAbove(m: Mem, m': Mem, g: Shape, x: Ptr, dir: Dir, d: Dir)
    requires Around(m, g, x, dir) && Turned(m, m', x, dir)
    requires m.par[x] != NIL && In(g, m.par[x]) && LinkOk(m, g, m.par[x], d) && LinkOk(m, g, m.par[x], Flip(d))
    requires m.Child(d, m.par[x]) == x
    ensures LinkOk(m', TurnedShape(m, g, x, dir), m.par[x], d)
  {
    assert m'.Child(d, m.par[x]) == m.Child(Flip(dir), x);
  }

  lemma TurnedLinkOkBeside(m: Mem, m': Mem, g: Shape, x: Ptr, dir: Dir, d: Dir)
    requires Around(m, g, x, dir) && Turned(m, m', x, dir)
    requires m.par[x] != NIL && In(g, m.par[x]) && NodeOk(m, g, m.par[x])
    requires m.Child(d, m.par[x]) != x && m.Child(Flip(d), m.par[x]) == x
    ensures LinkOk(m', TurnedShape(m, g, x, dir), m.par[x], d)
  {
    assert m'.Child(d, m.par[x]) == m.Child(d, m.par[x]) != m.Child(Flip(dir), x);
  }

  lemma TurnedLinkOkElsewhere(m: Mem, m': Mem, g: Shape, x: Ptr, dir: Dir, n: Ptr, d: Dir)
    requires Around(m, g, x, dir) && Turned(m, m', x, dir)
    requires n != x && n != m.Child(Flip(dir), x) && n != m.par[x]
    requires In(g, n) && LinkOk(m, g, n, d)
    ensures LinkOk(m', TurnedShape(m, g, x, dir), n, d)
  {
    assert m'.Child(d, n) == m.Child(d, n);
  }

  lemma TurnedParOk(m: Mem, m': Mem, g: Shape, x: Ptr, dir: Dir, n: Ptr)
    requires Around(m, g, x, dir) && Turned(m, m', x, dir)
    requires In(g, n) && ParOk(m, g, n)
    ensures ParOk(m', TurnedShape(m, g, x, dir), n)
  {
    var y, p := m.Child(Flip(dir), x), m.par[x];
    if n == x {
    } else if n == y {
    } else if n == m.Child(dir, y) {
    } else {
      assert m'.par[n] == m.par[n];
    }
  }

  lemma TurnedLinkOk(m: Mem, m': Mem, g: Shape, x: Ptr, dir: Dir, n: Ptr, d: Dir)
    requires Around(m, g, x, dir) && Turned(m, m', x, dir)
    requires In(g, n) && NodeOk(m, g, n)
    ensures LinkOk(m', TurnedShape(m, g, x, dir), n, d)
  {
    if n == x {
      TurnedLinkOkLower(m, m', g, x, dir, d);
    } else if n == m.Child(Flip(dir), x) {
      TurnedLinkOkUpper(m, m', g, x, dir, d);
    } else if n == m.par[x] {
      if m.Child(d, n) == x {
        TurnedLinkOkAbove(m, m', g, x, dir, d);
      } else {
        TurnedLinkOkBeside(m, m', g, x, dir, d);
      }
    } else {
      TurnedLinkOkElsewhere(m, m', g, x, dir, n, d);
    }
  }

  lemma TurnedNodeOk(m: Mem, m': Mem, g: Shape, x: Ptr, dir: Dir, n: Ptr)
    requires Around(m, g, x, dir) && Turned(m, m', x, dir)
    requires In(g, n) && NodeOk(m, g, n)
    ensures NodeOk(m', TurnedShape(m, g, x, dir), n)
  {
    TurnedParOk(m, m', g, x, dir, n);
    TurnedLinkOk(m, m', g, x, dir, n, Left);
    TurnedLinkOk(m, m', g, x, dir, n, Right);
  }

  lemma AroundAt(m: Mem, g: Shape, x: Ptr, dir: Dir)
    requires Linked(m, g) && In(g, x) && m.Child(Flip(dir), x) != NIL
    ensures Around(m, g, x, dir)
  {
    var y := m.Child(Flip(dir), x);
    var b, p := m.Child(dir, y), m.par[x];
    At(m, g, x);
    At(m, g, y);
    if b != NIL { At(m, g, b); }
    if p != NIL { At(m, g, p); }
  }

  /** Turning a link around keeps the tree linked, with its nodes in the same order. */
  lemma TurnedLinked(m: Mem, m': Mem, g: Shape, x: Ptr, dir: Dir)
    requires Linked(m, g) && In(g, x) && m.Child(Flip(dir), x) != NIL
    requires Turned(m, m', x, dir)
    ensures Linked(m', TurnedShape(m, g, x, dir))
  {
    var g' := TurnedShape(m, g, x, dir);
    AroundAt(m, g, x, dir);
    forall n | In(g', n) ensures NodeOk(m', g', n) {
      At(m, g, n);
      TurnedNodeOk(m, m', g, x, dir, n);
    }
  }

  /** `rotate(rbt, x, dir)`. */
  function Rotated(m: Mem, x: Ptr, dir: Dir): Mem
    requires m.Sized() && 0 < x < |m.left| && Apart(m, x, dir)
  {
    RotatedLinksTurned(m, x, dir);
    RotatedLinks(m, x, dir).Reordered(x).Reordered(m.Child(Flip(dir), x))
  }

  lemma RotatedTurned(m: Mem, x: Ptr, dir: Dir)
    requires m.Sized() && 0 < x < |m.left| && Apart(m, x, dir)
    ensures Turned(m, Rotated(m, x, dir), x, dir)
  {
    RotatedLinksTurned(m, x, dir);
  }

  /** A rotation leaves bounds and colours alone. */
  lemma RotatedKeys(m: Mem, x: Ptr, dir: Dir)
    requires m.Sized() && 0 < x < |m.left| && Apart(m, x, dir)
    ensures var m' := Rotated(m, x, dir); m'.lower == m.lower && m'.upper == m.upper && m'.red == m.red
  {
    RotatedTurned(m, x, dir);
  }

  /** What `m'` caches after a rotation at `x`: fresh maxima for `x` and the node that took its place. */
  ghost predicate Recached(m: Mem, m': Mem, x: Ptr, y: Ptr)
    requires m.Sized() && m'.Sized() && |m'.left| == |m.left| && 0 < x < |m.left| && 0 < y < |m.left|
  {
    && (forall n | 0 <= n < |m.left| && n != x && n != y :: m'.linkMax[n] == m.linkMax[n])
    && MaxOk(m', x) && MaxOk(m', y)
  }

  lemma ReorderedBoth(m: Mem, x: Ptr, y: Ptr)
    requires m.Sized() && 0 < x < |m.left| && 0 < y < |m.left|
    requires m.left[x] != x && m.right[x] != x && m.left[x] != y && m.right[x] != y
    requires m.left[y] != y && m.right[y] != y
    ensures m.Reordered(x).Reordered(y).Sized()
    ensures Recached(m, m.Reordered(x).Reordered(y), x, y)
  {
  }

  lemma RotatedRecached(m: Mem, x: Ptr, dir: Dir)
    requires m.Sized() && 0 < x < |m.left| && Apart(m, x, dir)
    ensures Rotated(m, x, dir).Sized() && |Rotated(m, x, dir).left| == |m.left|
    ensures Recached(m, Rotated(m, x, dir), x, m.Child(Flip(dir), x))
  {
    var y := m.Child(Flip(dir), x);
    RotatedLinksTurned(m, x, dir);
    RotatedChild(m, x, dir, x, Left);
    RotatedChild(m, x, dir, x, Right);
    RotatedChild(m, x, dir, y, Left);
    RotatedChild(m, x, dir, y, Right);
    ReorderedBoth(RotatedLinks(m, x, dir), x, y);
  }

  /** The node that took the place of `x` caches the maximum `x` cached. */
  lemma RecachedTop(m: Mem, m': Mem, g: Shape, x: Ptr, dir: Dir)
    requires Around(m, g, x, dir) && Turned(m, m', x, dir) && Recached(m, m', x, m.Child(Flip(dir), x))
    requires MaxOk(m, x) && MaxOk(m, m.Child(Flip(dir), x))
    ensures m'.linkMax[m.Child(Flip(dir), x)] == m.linkMax[x]
  {
    var y := m.Child(Flip(dir), x);
    assert m'.Child(dir, y) == x && m'.Child(Flip(dir), y) == m.Child(Flip(dir), y);
    assert m'.Child(dir, x) == m.Child(dir, x) && m'.Child(Flip(dir), x) == m.Child(dir, y);
  }

  /** Every other node keeps an exact maximum; the parent of `x` does if both turned nodes had one. */
  lemma RecachedMaxOk(m: Mem, m': Mem, g: Shape, x: Ptr, dir: Dir, n: Ptr)
    requires Around(m, g, x, dir) && Turned(m, m', x, dir) && Recached(m, m', x, m.Child(Flip(dir), x))
    requires In(g, n) && NodeOk(m, g, n) && MaxOk(m, n)
    requires n == m.par[x] ==> MaxOk(m, x) && MaxOk(m, m.Child(Flip(dir), x))
    ensures MaxOk(m', n)
  {
    var y := m.Child(Flip(dir), x);
    if n != x && n != y {
      if n == m.par[x] {
        RecachedTop(m, m', g, x, dir);
      }
      RecachedChildMax(m, m', g, x, dir, n, Left);
      RecachedChildMax(m, m', g, x, dir, n, Right);
    }
  }

  lemma RecachedChildMax(m: Mem, m': Mem, g: Shape, x: Ptr, dir: Dir, n: Ptr, d: Dir)
    requires Around(m, g, x, dir) && Turned(m, m', x, dir) && Recached(m, m', x, m.Child(Flip(dir), x))
    requires In(g, n) && NodeOk(m, g, n) && n != x && n != m.Child(Flip(dir), x)
    requires n == m.par[x] ==> m'.linkMax[m.Child(Flip(dir), x)] == m.linkMax[x]
    ensures m'.MaxOf(m'.Child(d, n)) == m.MaxOf(m.Child(d, n))
  {
    var c := m.Child(d, n);
    if n == m.par[x] && c == x {
      assert m'.Child(d, n) == m.Child(Flip(dir), x);
    } else {
      assert m'.Child(d, n) == c;
      assert c != x && c != m.Child(Flip(dir), x);
    }
  }
}
