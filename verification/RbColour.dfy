/** The red-black rules, node by node, and how a recoloured rotation carries them over. */
module RbColour {
  import opened RbMem
  import opened RbRotate

  /** Black nodes on any way down from `c`, counting `c` itself and the nil it ends in. */
  ghost function Blacks(m: Mem, bh: seq<int>, c: Ptr): int
    requires m.Sized() && |bh| == |m.left| && 0 <= c < |m.left|
  {
    bh[c] + (if m.red[c] then 0 else 1)
  }

  /** During a deletion the side `hd` of node `hp` lacks one black; `hp == NIL` means no side does. */
  ghost function Lack(n: Ptr, d: Dir, hp: Ptr, hd: Dir): int {
    if n == hp && d == hd then 1 else 0
  }

  /** Both sides of `n` have `bh[n]` black nodes on every way down. */
  ghost predicate BlackOk(m: Mem, bh: seq<int>, n: Ptr, hp: Ptr, hd: Dir)
    requires m.Sized() && |bh| == |m.left| && 0 <= n < |m.left|
  {
    && 1 <= bh[n]
    && Blacks(m, bh, m.left[n]) + Lack(n, Left, hp, hd) == bh[n]
    && Blacks(m, bh, m.right[n]) + Lack(n, Right, hp, hd) == bh[n]
  }

  /** A red node has no red child. */
  ghost predicate RedOk(m: Mem, n: Ptr)
    requires m.Sized() && 0 <= n < |m.left|
  {
    m.red[n] ==> !m.red[m.left[n]] && !m.red[m.right[n]]
  }

  ghost predicate BlackHeights(m: Mem, g: Shape, bh: seq<int>, hp: Ptr, hd: Dir)
    requires Fits(m, g)
  {
    && |bh| == |m.left| && bh[NIL] == 0
    && forall n {:trigger BlackOk(m, bh, n, hp, hd)} | In(g, n) :: BlackOk(m, bh, n, hp, hd)
  }

  /** No red node other than `e` has a red child. */
  ghost predicate NoRedRed(m: Mem, g: Shape, e: Ptr)
    requires Fits(m, g)
  {
    forall n {:trigger RedOk(m, n)} | In(g, n) && n != e :: RedOk(m, n)
  }

  /** Every cached maximum is exact. */
  ghost predicate Cached(m: Mem, g: Shape)
    requires Fits(m, g)
  {
    forall n {:trigger MaxOk(m, n)} | In(g, n) :: MaxOk(m, n)
  }

  /** Every cached maximum is exact, except perhaps at `a` and above it. */
  ghost predicate CachedBelow(m: Mem, g: Shape, a: Ptr)
    requires Fits(m, g) && 0 <= a < |m.left|
  {
    forall n {:trigger MaxOk(m, n)} | In(g, n) && (a == NIL || !Above(g, n, a)) :: MaxOk(m, n)
  }

  /** The tree with its red-black rules and its cached maxima: what every operation keeps. */
  ghost predicate Sound(m: Mem, g: Shape, bh: seq<int>) {
    && Linked(m, g)
    && BlackHeights(m, g, bh, NIL, Left)
    && NoRedRed(m, g, NIL)
    && !m.red[m.root]
    && Cached(m, g)
  }

  /** `m1` is `m` with other colours. */
  ghost predicate Recoloured(m: Mem, m1: Mem) {
    m1 == m.(red := m1.red) && m.Sized() && m1.Sized()
  }

  ghost predicate SameBlacks(m: Mem, bh: seq<int>, m1: Mem, bh1: seq<int>, c: Ptr)
    requires m.Sized() && |bh| == |m.left| && m1.Sized() && |bh1| == |m1.left|
    requires 0 <= c < |m.left| && c < |m1.left|
  {
    m.red[c] == m1.red[c] && bh[c] == bh1[c]
  }

  /**
    A node `n` that is not itself turned keeps its black heights through recolouring `m`
    to `m1` and rotating `m1` to `m'`, if the subtree in the place of `x` has as many blacks as before.
   */
  lemma TurnedBlackOk(m: Mem, m1: Mem, m': Mem, g: Shape, bh: seq<int>, bh': seq<int>,
                      x: Ptr, dir: Dir, n: Ptr, hp: Ptr, hd: Dir)
    requires Recoloured(m, m1) && Around(m1, g, x, dir) && Turned(m1, m', x, dir)
    requires |bh| == |bh'| == |m.left|
    requires In(g, n) && NodeOk(m1, g, n) && n != x && n != m1.Child(Flip(dir), x)
    requires BlackOk(m, bh, n, hp, hd) && bh'[n] == bh[n]
    requires n == m.par[x] ==> Blacks(m', bh', m1.Child(Flip(dir), x)) == Blacks(m, bh, x)
    requires m.left[n] != x ==> SameBlacks(m, bh, m1, bh', m.left[n])
    requires m.right[n] != x ==> SameBlacks(m, bh, m1, bh', m.right[n])
    ensures BlackOk(m', bh', n, hp, hd)
  {
    TurnedSide(m1, m', g, x, dir, n, Left);
    TurnedSide(m1, m', g, x, dir, n, Right);
  }

  lemma TurnedSide(m: Mem, m': Mem, g: Shape, x: Ptr, dir: Dir, n: Ptr, d: Dir)
    requires Around(m, g, x, dir) && Turned(m, m', x, dir)
    requires In(g, n) && NodeOk(m, g, n) && n != x && n != m.Child(Flip(dir), x)
    ensures m.Child(d, n) == x ==> n == m.par[x]
    ensures m'.Child(d, n) == if m.Child(d, n) == x then m.Child(Flip(dir), x) else m.Child(d, n)
  {
  }

  lemma TurnedRedOk(m: Mem, m': Mem, g: Shape, x: Ptr, dir: Dir, n: Ptr)
    requires Around(m, g, x, dir) && Turned(m, m', x, dir)
    requires In(g, n) && NodeOk(m, g, n) && n != x && n != m.Child(Flip(dir), x)
    requires m.red[n] && m.left[n] != x ==> !m.red[m.left[n]]
    requires m.red[n] && m.right[n] != x ==> !m.red[m.right[n]]
    requires n == m.par[x] && m.red[n] ==> !m.red[m.Child(Flip(dir), x)]
    ensures RedOk(m', n)
  {
    TurnedSide(m, m', g, x, dir, n, Left);
    TurnedSide(m, m', g, x, dir, n, Right);
  }

  /** The children of the two nodes that a rotation turns. */
  lemma TurnedPair(m: Mem, m': Mem, x: Ptr, dir: Dir)
    requires m.Sized() && 0 < x < |m.left| && Apart(m, x, dir) && Turned(m, m', x, dir)
    ensures var y := m.Child(Flip(dir), x);
            && m'.Child(dir, x) == m.Child(dir, x) && m'.Child(Flip(dir), x) == m.Child(dir, y)
            && m'.Child(dir, y) == x && m'.Child(Flip(dir), y) == m.Child(Flip(dir), y)
  {
  }

  /** The black rule, side `d` first. */
  lemma SidesBlackOk(m: Mem, bh: seq<int>, n: Ptr, d: Dir, hp: Ptr, hd: Dir)
    requires m.Sized() && |bh| == |m.left| && 0 <= n < |m.left|
    ensures BlackOk(m, bh, n, hp, hd) <==>
      && 1 <= bh[n]
      && Blacks(m, bh, m.Child(d, n)) + Lack(n, d, hp, hd) == bh[n]
      && Blacks(m, bh, m.Child(Flip(d), n)) + Lack(n, Flip(d), hp, hd) == bh[n]
  {
  }

  lemma SidesRedOk(m: Mem, n: Ptr, d: Dir)
    requires m.Sized() && 0 <= n < |m.left|
    ensures RedOk(m, n) <==> m.red[n] ==> !m.red[m.Child(d, n)] && !m.red[m.Child(Flip(d), n)]
  {
  }

  /** After a rotation at a node and a child whose maxima were exact, every maximum that was exact still is. */
  lemma RotatedCached(m: Mem, g: Shape, x: Ptr, dir: Dir)
    requires Linked(m, g) && In(g, x) && m.Child(Flip(dir), x) != NIL
    requires Apart(m, x, dir)
    requires Cached(m, g)
    ensures Linked(Rotated(m, x, dir), TurnedShape(m, g, x, dir))
    ensures Cached(Rotated(m, x, dir), TurnedShape(m, g, x, dir))
  {
    var m', g' := Rotated(m, x, dir), TurnedShape(m, g, x, dir);
    RotatedTurned(m, x, dir);
    RotatedRecached(m, x, dir);
    TurnedLinked(m, m', g, x, dir);
    AroundAt(m, g, x, dir);
    assert MaxOk(m, x) && MaxOk(m, m.Child(Flip(dir), x));
    forall n | In(g', n) ensures MaxOk(m', n) {
      At(m, g, n);
      assert MaxOk(m, n);
      RecachedMaxOk(m, m', g, x, dir, n);
    }
  }

  /** New colours leave links and cached maxima as they are. */
  lemma Repainted(m: Mem, m1: Mem, g: Shape)
    requires Linked(m, g) && m1 == m.(red := m1.red) && |m1.red| == |m.red| && !m1.red[NIL]
    ensures Linked(m1, g)
    ensures forall n | In(g, n) && MaxOk(m, n) :: MaxOk(m1, n)
    ensures Cached(m, g) ==> Cached(m1, g)
    ensures forall a | 0 <= a < |m.left| && CachedBelow(m, g, a) :: CachedBelow(m1, g, a)
  {
    LinkedSameLinks(m, m1, g);
    forall a | 0 <= a < |m.left| && CachedBelow(m, g, a) ensures CachedBelow(m1, g, a) {
      forall n | In(g, n) && (a == NIL || !Above(g, n, a)) ensures MaxOk(m1, n) { assert MaxOk(m, n); }
    }
    if Cached(m, g) {
      forall n | In(g, n) ensures MaxOk(m1, n) { assert MaxOk(m, n); }
    }
  }

  /** Cached maxima play no part in the colours. */
  lemma SameColours(m: Mem, m1: Mem, g: Shape, bh: seq<int>)
    requires Fits(m, g) && Fits(m1, g) && m1 == m.(linkMax := m1.linkMax)
    requires BlackHeights(m, g, bh, NIL, Left) && NoRedRed(m, g, NIL)
    ensures BlackHeights(m1, g, bh, NIL, Left) && NoRedRed(m1, g, NIL)
  {
    forall n | In(g, n) ensures BlackOk(m1, bh, n, NIL, Left) && RedOk(m1, n) {
      assert BlackOk(m, bh, n, NIL, Left) && RedOk(m, n);
    }
  }
}
