/** `rb_tree_delete` up to its call of `rebalance_delete`: what taking a node out leaves behind. */
module RbDelete {
  import opened RbMem
  import opened RbColour
  import opened RbSplice

  /** `x`, perhaps nil, stands on side `hd` below `hp`, or is the root if `hp` is nil. */
  ghost predicate Hole(m: Mem, g: Shape, x: Ptr, hp: Ptr, hd: Dir) {
    && Fits(m, g) && 0 <= x < |m.left| && hp == m.par[x]
    && (x != NIL ==> In(g, x))
    && (if hp == NIL then x == m.root else In(g, hp) && m.Child(hd, hp) == x)
  }

  /** The lowest node whose cached maximum may be stale. */
  ghost function Anchor(m: Mem, x: Ptr): Ptr
    requires 0 <= x < |m.par|
  {
    if x == NIL then m.par[NIL] else x
  }

  /** What holds in either case once a node is gone and `x` stands where the tree was cut. */
  ghost predicate Cut(m: Mem, g: Shape, x: Ptr, hp: Ptr, hd: Dir) {
    && Linked(m, g) && Hole(m, g, x, hp, hd)
    && CachedBelow(m, g, Anchor(m, x))
  }

  /** The side of `hp` on which `x` stands lacks one black node; only `x` and `hp` may both be red. */
  ghost predicate Lacking(m: Mem, g: Shape, bh: seq<int>, x: Ptr, hp: Ptr, hd: Dir) {
    && Cut(m, g, x, hp, hd)
    && BlackHeights(m, g, bh, hp, hd)
    && (forall n {:trigger RedOk(m, n)} | In(g, n) && n != hp && n != x :: RedOk(m, n))
    && (hp != NIL && m.red[hp] ==> !m.red[m.Child(Flip(hd), hp)])
    && (m.red[m.root] ==> m.root == x)
  }

  /** How much of the order the side with the lack covers. */
  ghost function LackSize(g: Shape, hp: Ptr, hd: Dir): int
    requires 0 <= hp < |g.lo| && hp < |g.pos| && hp < |g.hi|
  {
    if hp == NIL then |g.ord| else SlotHi(g, hp, hd) - SlotLo(g, hp, hd)
  }

  /** The colours are in order again. */
  ghost predicate Coloured(m: Mem, g: Shape, bh: seq<int>)
    requires Fits(m, g)
  {
    BlackHeights(m, g, bh, NIL, Left) && NoRedRed(m, g, NIL) && !m.red[m.root]
  }

  /**
    After a cut the colours are in order if a red node went, and lack one black on the side of the cut if a black one
    did.
   */
  ghost predicate CutColours(m: Mem, g: Shape, bh: seq<int>, x: Ptr, hp: Ptr, hd: Dir, black: bool) {
    && Cut(m, g, x, hp, hd)
    && if black then Lacking(m, g, bh, x, hp, hd) else Coloured(m, g, bh)
  }

  // ---------------------------------------------------------------- one child at most

  /** `n` has the children it had, with `y` in the place of `x`. */
  ghost predicate ChildSpliced(m: Mem, m': Mem, x: Ptr, y: Ptr, n: Ptr)
    requires m.Sized() && m'.Sized() && |m'.left| == |m.left| && 0 <= n < |m.left|
  {
    && m'.left[n] == (if m.left[n] == x then y else m.left[n])
    && m'.right[n] == (if m.right[n] == x then y else m.right[n])
    && m'.red == m.red && m'.upper == m.upper && m'.linkMax == m.linkMax
  }

  lemma SplicedBlack(m: Mem, m': Mem, bh: seq<int>, x: Ptr, y: Ptr, p: Ptr, hd: Dir, n: Ptr)
    requires m.Sized() && m'.Sized() && |m'.left| == |m.left| == |bh| && 0 < x < |m.left| && 0 <= y < |m.left|
    requires 0 < n < |m.left| && ChildSpliced(m, m', x, y, n)
    requires BlackOk(m, bh, n, NIL, Left) && Blacks(m, bh, y) == bh[x]
    requires if n == p then m.Child(hd, n) == x && m.Child(Flip(hd), n) != x else m.left[n] != x && m.right[n] != x
    ensures BlackOk(m', bh, n, if m.red[x] then NIL else p, if m.red[x] then Left else hd)
  {
  }

  lemma SplicedRed(m: Mem, m': Mem, x: Ptr, y: Ptr, n: Ptr)
    requires m.Sized() && m'.Sized() && |m'.left| == |m.left| && 0 < x < |m.left| && 0 <= y < |m.left|
    requires 0 < n < |m.left| && ChildSpliced(m, m', x, y, n) && RedOk(m, n)
    requires m.left[n] == x || m.right[n] == x ==> m.red[x] && !m.red[y]
    ensures RedOk(m', n)
  {
  }

  lemma SplicedMax(m: Mem, m': Mem, x: Ptr, y: Ptr, n: Ptr)
    requires m.Sized() && m'.Sized() && |m'.left| == |m.left| && 0 < x < |m.left| && 0 <= y < |m.left|
    requires 0 < n < |m.left| && ChildSpliced(m, m', x, y, n) && MaxOk(m, n) && m.left[n] != x && m.right[n] != x
    ensures MaxOk(m', n)
  {
  }

  lemma SplicedColours(m: Mem, g: Shape, bh: seq<int>, x: Ptr, hd: Dir, n: Ptr)
    requires Sound(m, g, bh) && Spliceable(m, g, x) && In(g, n) && n != x
    requires m.par[x] != NIL ==> m.Child(hd, m.par[x]) == x
    ensures var m', hp := Replaced(m, x, OnlyChild(m, x)), if m.red[x] then NIL else m.par[x];
            && m'.Sized() && BlackOk(m', bh, n, hp, if m.red[x] then Left else hd)
            && (n != hp ==> RedOk(m', n))
            && (n != m.par[x] ==> MaxOk(m', n))
  {
    var y, p := OnlyChild(m, x), m.par[x];
    var m' := Replaced(m, x, y);
    SplicedChildren(m, g, x, hd, n);
    assert BlackOk(m, bh, n, NIL, Left) && BlackOk(m, bh, x, NIL, Left);
    assert RedOk(m, n) && RedOk(m, x) && MaxOk(m, n);
    SplicedBlack(m, m', bh, x, y, p, hd, n);
    if m.red[x] || n != p { SplicedRed(m, m', x, y, n); }
    if n != p { SplicedMax(m, m', x, y, n); }
  }

  lemma SplicedChildren(m: Mem, g: Shape, x: Ptr, hd: Dir, n: Ptr)
    requires Linked(m, g) && Spliceable(m, g, x) && In(g, n) && n != x
    requires m.par[x] != NIL ==> m.Child(hd, m.par[x]) == x
    ensures Replaced(m, x, OnlyChild(m, x)).Sized()
      && ChildSpliced(m, Replaced(m, x, OnlyChild(m, x)), x, OnlyChild(m, x), n)
    ensures if n == m.par[x] then m.Child(hd, n) == x && m.Child(Flip(hd), n) != x
            else m.left[n] != x && m.right[n] != x
  {
    At(m, g, n);
    if m.par[x] != NIL { At(m, g, m.par[x]); }
    ReplacedChild(m, g, x, n, Left);
    ReplacedChild(m, g, x, n, Right);
  }

  lemma SplicedHole(m: Mem, g: Shape, x: Ptr, hd: Dir)
    requires Linked(m, g) && Spliceable(m, g, x)
    requires m.par[x] != NIL ==> m.Child(hd, m.par[x]) == x
    ensures var y, p := OnlyChild(m, x), m.par[x];
            var m', g' := Replaced(m, x, y), ClosedShape(g, g.pos[x]);
            && Linked(m', g') && Hole(m', g', y, p, hd)
            && (p != NIL ==> m'.Child(Flip(hd), p) == m.Child(Flip(hd), p) && m'.root == m.root)
            && m'.red == m.red
  {
    var y, p := OnlyChild(m, x), m.par[x];
    SplicedLinked(m, g, x);
    if p != NIL {
      At(m, g, p);
      ReplacedChild(m, g, x, p, hd);
      ReplacedChild(m, g, x, p, Flip(hd));
    }
    if y != NIL { At(m, g, y); }
  }

  /** A stale maximum at the parent of `x` at most is a stale maximum above `x` at most. */
  lemma StaleAbove(m: Mem, g: Shape, x: Ptr, hp: Ptr, hd: Dir, n: Ptr)
    requires Linked(m, g) && Hole(m, g, x, hp, hd) && In(g, n)
    requires Anchor(m, x) == NIL || !Above(g, n, Anchor(m, x))
    ensures n != hp
  {
    At(m, g, n);
    if x != NIL { At(m, g, x); }
  }

  lemma SplicedCut(m: Mem, g: Shape, bh: seq<int>, x: Ptr, hd: Dir)
    requires Sound(m, g, bh) && Spliceable(m, g, x)
    requires m.par[x] != NIL ==> m.Child(hd, m.par[x]) == x
    ensures var y := OnlyChild(m, x);
            CutColours(Replaced(m, x, y), ClosedShape(g, g.pos[x]), bh, y, m.par[x], hd, !m.red[x])
  {
    var y, p := OnlyChild(m, x), m.par[x];
    var m', g' := Replaced(m, x, y), ClosedShape(g, g.pos[x]);
    SplicedHole(m, g, x, hd);
    SplicedLinked(m, g, x);
    forall n | In(g', n) && (Anchor(m', y) == NIL || !Above(g', n, Anchor(m', y))) ensures MaxOk(m', n) {
      StaleAbove(m', g', y, p, hd, n);
      SplicedColours(m, g, bh, x, hd, n);
    }
    SplicedPaint(m, g, bh, x, hd);
  }

  lemma SplicedPaint(m: Mem, g: Shape, bh: seq<int>, x: Ptr, hd: Dir)
    requires Sound(m, g, bh) && Spliceable(m, g, x)
    requires m.par[x] != NIL ==> m.Child(hd, m.par[x]) == x
    requires Cut(Replaced(m, x, OnlyChild(m, x)), ClosedShape(g, g.pos[x]), OnlyChild(m, x), m.par[x], hd)
    ensures var y := OnlyChild(m, x);
            CutColours(Replaced(m, x, y), ClosedShape(g, g.pos[x]), bh, y, m.par[x], hd, !m.red[x])
  {
    var y, p := OnlyChild(m, x), m.par[x];
    var m', g' := Replaced(m, x, y), ClosedShape(g, g.pos[x]);
    SplicedHole(m, g, x, hd);
    SplicedLinked(m, g, x);
    var hp, side := if m.red[x] then NIL else p, if m.red[x] then Left else hd;
    forall n | In(g', n) ensures BlackOk(m', bh, n, hp, side) && (n != hp ==> RedOk(m', n)) {
      SplicedColours(m, g, bh, x, hd, n);
    }
    assert RedOk(m, x);
    if p != NIL { assert RedOk(m, p); }
  }

  // ---------------------------------------------------------------- two children

  /** The subtree of `b` lies in that of `a`. */
  ghost predicate Within(g: Shape, a: Ptr, b: Ptr)
    requires 0 <= a < |g.lo| && a < |g.hi| && 0 <= b < |g.lo| && b < |g.hi|
  {
    g.lo[a] <= g.lo[b] && g.hi[b] <= g.hi[a]
  }

  ghost function Before(n: Ptr, x: Ptr, z: Ptr): Ptr {
    if n == z then x else n
  }

  lemma RenamedBlacks(m: Mem, m': Mem, g: Shape, bh: seq<int>, x: Ptr, z: Ptr, c: Ptr)
    requires Renamed(m, m', g, x, z) && |bh| == |m.left|
    requires c == NIL || In(g, c)
    ensures 0 <= c < |m.left| && 0 <= Swapped(c, x, z) < |m.left|
    ensures Blacks(m', bh[z := bh[x]], Swapped(c, x, z)) == Blacks(m, bh, c)
    ensures m'.red[Swapped(c, x, z)] == m.red[c]
  {
  }

  lemma RenamedColours(m: Mem, m': Mem, g: Shape, bh: seq<int>, x: Ptr, z: Ptr, hp: Ptr, hd: Dir, n: Ptr)
    requires Linked(m, g) && Renamed(m, m', g, x, z) && |bh| == |m.left|
    requires n == z || (n != x && In(g, n))
    requires hp == NIL || In(g, hp)
    ensures BlackOk(m, bh, Before(n, x, z), hp, hd) ==> BlackOk(m', bh[z := bh[x]], n, Swapped(hp, x, z), hd)
    ensures RedOk(m, Before(n, x, z)) ==> RedOk(m', n)
  {
    var o := Before(n, x, z);
    At(m, g, o);
    RenamedBlacks(m, m', g, bh, x, z, m.left[o]);
    RenamedBlacks(m, m', g, bh, x, z, m.right[o]);
    assert m'.left[n] == Swapped(m.left[o], x, z) && m'.right[n] == Swapped(m.right[o], x, z);
  }

  /** Only `z` and the parent of `z` may have lost an exact maximum, and both are above the cut. */
  lemma RenamedMaxOk(m: Mem, m': Mem, g: Shape, x: Ptr, z: Ptr, n: Ptr)
    requires Linked(m, g) && Renamed(m, m', g, x, z)
    requires n != x && n != m.par[x] && In(g, n) && MaxOk(m, n)
    ensures MaxOk(m', n)
  {
    At(m, g, n);
    assert m.left[n] != x && m.right[n] != x;
  }

  lemma RenamedHole(m: Mem, m': Mem, g: Shape, x: Ptr, z: Ptr, y: Ptr, hp: Ptr, hd: Dir)
    requires Linked(m, g) && Renamed(m, m', g, x, z) && Hole(m, g, y, hp, hd)
    requires hp != NIL && Within(g, x, hp)
    requires y == NIL ==> m'.par[NIL] == Swapped(hp, x, z)
    ensures Linked(m', RenamedShape(g, x, z)) && Hole(m', RenamedShape(g, x, z), y, Swapped(hp, x, z), hd)
    ensures y != x
  {
    RenamedLinked(m, m', g, x, z);
    At(m, g, hp);
    At(m, g, x);
    if y != NIL { At(m, g, y); }
  }

  /** The anchor of the cut, before and after the renaming, lies in the stretch that `x` covered. */
  lemma RenamedAnchor(m: Mem, m': Mem, g: Shape, x: Ptr, z: Ptr, y: Ptr, hp: Ptr, hd: Dir)
    requires Linked(m, g) && Renamed(m, m', g, x, z) && Hole(m, g, y, hp, hd)
    requires hp != NIL && Within(g, x, hp)
    requires y == NIL ==> m'.par[NIL] == Swapped(hp, x, z)
    ensures var a, a', g' := Anchor(m, y), Anchor(m', y), RenamedShape(g, x, z);
            && 0 < a < |m.left| && 0 < a' < |m.left| && g'.pos[a'] == g.pos[a]
            && g.lo[x] <= g.pos[a] < g.hi[x]
  {
    At(m, g, hp);
    if y != NIL { At(m, g, y); }
  }

  /** Ancestors of the cut, before and after the renaming. */
  lemma RenamedStale(m: Mem, m': Mem, g: Shape, x: Ptr, z: Ptr, y: Ptr, hp: Ptr, hd: Dir, n: Ptr)
    requires Linked(m, g) && Renamed(m, m', g, x, z) && Hole(m, g, y, hp, hd)
    requires hp != NIL && Within(g, x, hp)
    requires y == NIL ==> m'.par[NIL] == Swapped(hp, x, z)
    requires var g' := RenamedShape(g, x, z); In(g', n) && !Above(g', n, Anchor(m', y))
    ensures n != z && n != x && n != m.par[x] && In(g, n) && !Above(g, n, Anchor(m, y))
  {
    RenamedAnchor(m, m', g, x, z, y, hp, hd);
    RenamedIn(m, m', g, x, z);
    At(m, g, x);
    if m.par[x] != NIL { At(m, g, m.par[x]); }
  }

  lemma RenamedCut(m: Mem, m': Mem, g: Shape, bh: seq<int>, x: Ptr, z: Ptr, y: Ptr, hp: Ptr, hd: Dir)
    requires Cut(m, g, y, hp, hd) && Renamed(m, m', g, x, z)
    requires hp != NIL && Within(g, x, hp)
    requires y == NIL ==> m'.par[NIL] == Swapped(hp, x, z)
    ensures Cut(m', RenamedShape(g, x, z), y, Swapped(hp, x, z), hd)
  {
    var g' := RenamedShape(g, x, z);
    RenamedHole(m, m', g, x, z, y, hp, hd);
    forall n | In(g', n) && !Above(g', n, Anchor(m', y)) ensures MaxOk(m', n) {
      RenamedStale(m, m', g, x, z, y, hp, hd, n);
      assert MaxOk(m, n);
      RenamedMaxOk(m, m', g, x, z, n);
    }
  }

  lemma RenamedPaint(m: Mem, m': Mem, g: Shape, bh: seq<int>, x: Ptr, z: Ptr, y: Ptr, hp: Ptr, hd: Dir, black: bool)
    requires CutColours(m, g, bh, y, hp, hd, black) && Renamed(m, m', g, x, z)
    requires hp != NIL && Within(g, x, hp)
    requires y == NIL ==> m'.par[NIL] == Swapped(hp, x, z)
    ensures CutColours(m', RenamedShape(g, x, z), bh[z := bh[x]], y, Swapped(hp, x, z), hd, black)
  {
    var g', bh' := RenamedShape(g, x, z), bh[z := bh[x]];
    RenamedCut(m, m', g, bh, x, z, y, hp, hd);
    RenamedLinked(m, m', g, x, z);
    RenamedHole(m, m', g, x, z, y, hp, hd);
    var p, d := if black then hp else NIL, if black then hd else Left;
    forall n | In(g', n)
      ensures BlackOk(m', bh', n, Swapped(p, x, z), d)
      ensures n != Swapped(p, x, z) && n != y ==> RedOk(m', n)
      ensures !black ==> RedOk(m', n)
    {
      var o := Before(n, x, z);
      assert In(g, o) && BlackOk(m, bh, o, p, d);
      if o != p && o != y { assert RedOk(m, o); }
      if !black { assert RedOk(m, o); }
      RenamedColours(m, m', g, bh, x, z, p, d, n);
    }
    RenamedEdge(m, m', g, bh, x, z, hp, hd);
  }

  lemma RenamedEdge(m: Mem, m': Mem, g: Shape, bh: seq<int>, x: Ptr, z: Ptr, hp: Ptr, hd: Dir)
    requires Linked(m, g) && Renamed(m, m', g, x, z) && In(g, hp) && |bh| == |m.left|
    ensures var hp' := Swapped(hp, x, z);
            && m'.red[hp'] == m.red[hp] && m'.red[m'.Child(Flip(hd), hp')] == m.red[m.Child(Flip(hd), hp)]
            && m'.red[m'.root] == m.red[m.root]
  {
    At(m, g, hp);
    RenamedBlacks(m, m', g, bh, x, z, hp);
    RenamedBlacks(m, m', g, bh, x, z, m.Child(Flip(hd), hp));
    RenamedBlacks(m, m', g, bh, x, z, m.root);
  }

  // ---------------------------------------------------------------- the statements of rb_tree_delete

  /** The first half of the branch for two children: the successor `z` of `x` leaves its old place. */
  function SuccessorDetached(m: Mem, x: Ptr, z: Ptr): Mem
    requires m.Sized() && 0 < x < |m.left| && 0 < z < |m.left|
  {
    if m.par[z] == x then m.SetPar(m.right[z], z)
    else
      var a := Replaced(m, z, m.right[z]);
      var b := a.SetChild(Right, z, a.right[x]);
      b.SetPar(b.right[z], z)
  }

  lemma SetSized(m: Mem, d: Dir, n: Ptr, v: Ptr)
    requires m.Sized() && 0 <= n < |m.left| && 0 <= v < |m.left|
    ensures m.SetChild(d, n, v).Sized() && m.SetPar(n, v).Sized()
  {
  }

  lemma DetachedSized(m: Mem, x: Ptr, z: Ptr)
    requires m.Sized() && 0 < x < |m.left| && 0 < z < |m.left|
    ensures SuccessorDetached(m, x, z).Sized() && |SuccessorDetached(m, x, z).left| == |m.left|
  {
    if m.par[z] == x {
      SetSized(m, Left, m.right[z], z);
    } else {
      var a := Replaced(m, z, m.right[z]);
      ReplacedSized(m, z, m.right[z]);
      SetSized(a, Right, z, a.right[x]);
      var b := a.SetChild(Right, z, a.right[x]);
      SetSized(b, Left, b.right[z], z);
    }
  }

  /** The branch of `rb_tree_delete` for two children: the successor `z` of `x` takes its place. */
  function SuccessorMoved(m: Mem, x: Ptr, z: Ptr): (m': Mem)
    requires m.Sized() && 0 < x < |m.left| && 0 < z < |m.left|
    ensures |m'.left| == |m'.right| == |m'.par| == |m'.red| == |m.left|
  {
    var m1 := SuccessorDetached(m, x, z);
    DetachedSized(m, x, z);
    var m2 := Replaced(m1, x, z);
    ReplacedSized(m1, x, z);
    var m3 := m2.SetChild(Left, z, m2.left[x]);
    var m4 := m3.SetPar(m3.left[z], z);
    m4.SetRed(z, m4.red[x])
  }

  /** `z` is the leftmost node of the right subtree of `x`, which also has a left child. */
  ghost predicate SuccessorOf(m: Mem, g: Shape, x: Ptr, z: Ptr) {
    && Fits(m, g) && In(g, x) && NodeOk(m, g, x) && In(g, z) && NodeOk(m, g, z)
    && m.left[x] != NIL && m.right[x] != NIL && m.left[z] == NIL
    && g.pos[z] == g.pos[x] + 1 && m.par[z] != NIL && NodeOk(m, g, m.par[z])
    && (m.par[z] == x || m.left[m.par[z]] == z)
    && Within(g, x, m.par[z])
  }

  /** The fields after the statements of `rb_tree_delete`, each as one chain of updates. */
  lemma MovedFieldsNear(m: Mem, g: Shape, x: Ptr, z: Ptr)
    requires SuccessorOf(m, g, x, z) && m.par[z] == x
    ensures var m', p := SuccessorMoved(m, x, z), m.par[x];
            && m'.left == (if p != NIL && m.right[p] != x then m.left[p := z] else m.left)[z := m.left[x]]
            && m'.right == (if p != NIL && m.right[p] == x then m.right[p := z] else m.right)
            && m'.par == m.par[m.right[z] := z][z := p][m.left[x] := z]
            && m'.red == m.red[z := m.red[x]]
            && m' == m.(left := m'.left, right := m'.right, par := m'.par, red := m'.red,
                        root := if p == NIL then z else m.root)
  {
  }

  lemma MovedFieldsFar(m: Mem, g: Shape, x: Ptr, z: Ptr)
    requires SuccessorOf(m, g, x, z) && m.par[z] != x
    ensures var m', p, pz := SuccessorMoved(m, x, z), m.par[x], m.par[z];
            var left := m.left[pz := m.right[z]];
            var right := m.right[z := m.right[x]];
            && m'.left == (if p != NIL && m.right[p] != x then left[p := z] else left)[z := m.left[x]]
            && m'.right == (if p != NIL && m.right[p] == x then right[p := z] else right)
            && m'.par == m.par[m.right[z] := pz][m.right[x] := z][z := p][m.left[x] := z]
            && m'.red == m.red[z := m.red[x]]
            && m' == m.(left := m'.left, right := m'.right, par := m'.par, red := m'.red,
                        root := if p == NIL then z else m.root)
  {
  }

  /** For a node that stays, the statements are those that take `z` out, with `z` for `x`. */
  ghost predicate MovedNode(m: Mem, x: Ptr, z: Ptr, n: Ptr)
    requires m.Sized() && 0 < x < |m.left| && 0 < z < |m.left| && 0 <= n < |m.left|
  {
    ReplacedSized(m, z, m.right[z]);
    var m1, m' := Replaced(m, z, m.right[z]), SuccessorMoved(m, x, z);
    && |m'.left| == |m'.right| == |m'.par| == |m'.red| == |m.left|
    && m'.left[n] == Swapped(m1.left[n], x, z) && m'.right[n] == Swapped(m1.right[n], x, z)
    && m'.par[n] == Swapped(m1.par[n], x, z) && m'.red[n] == m1.red[n]
  }

  lemma MovedNodeNear(m: Mem, g: Shape, x: Ptr, z: Ptr, n: Ptr)
    requires SuccessorOf(m, g, x, z) && m.par[z] == x
    requires m.par[x] != NIL ==> NodeOk(m, g, m.par[x])
    requires In(g, n) && NodeOk(m, g, n) && n != x && n != z
    ensures MovedNode(m, x, z, n)
  {
    MovedFieldsNear(m, g, x, z);
  }

  lemma MovedNodeFar(m: Mem, g: Shape, x: Ptr, z: Ptr, n: Ptr)
    requires SuccessorOf(m, g, x, z) && m.par[z] != x
    requires m.par[x] != NIL ==> NodeOk(m, g, m.par[x])
    requires In(g, n) && NodeOk(m, g, n) && n != x && n != z
    ensures MovedNode(m, x, z, n)
  {
    MovedFieldsFar(m, g, x, z);
    var pz, m1, m' := m.par[z], Replaced(m, z, m.right[z]), SuccessorMoved(m, x, z);
    assert m1.left == m.left[pz := m.right[z]] && m1.right == m.right && m1.par == m.par[m.right[z] := pz];
    MovedChildren(m, m1, m', x, z, n);
    MovedPar(m, m1, m', x, z, n);
  }

  lemma MovedChildren(m: Mem, m1: Mem, m': Mem, x: Ptr, z: Ptr, n: Ptr)
    requires m.Sized() && 0 < x < |m.left| && 0 < z < |m.left| && 0 < n < |m.left| && n != x && n != z
    requires |m1.left| == |m'.left| == |m'.right| == |m.left| && m1.right == m.right
    requires var p, pz := m.par[x], m.par[z];
             var left, right := m.left[pz := m.right[z]], m.right[z := m.right[x]];
             && m1.left == left && m.right[z] != x && m.left[pz] == z && x != z
             && m'.left == (if p != NIL && m.right[p] != x then left[p := z] else left)[z := m.left[x]]
             && m'.right == (if p != NIL && m.right[p] == x then right[p := z] else right)
             && (n == p <==> m.left[n] == x || m.right[n] == x) && (m.left[n] == x ==> m.right[n] != x)
    ensures m'.left[n] == Swapped(m1.left[n], x, z) && m'.right[n] == Swapped(m1.right[n], x, z)
  {
  }

  lemma MovedPar(m: Mem, m1: Mem, m': Mem, x: Ptr, z: Ptr, n: Ptr)
    requires m.Sized() && 0 < x < |m.left| && 0 < z < |m.left| && 0 < n < |m.left| && n != x && n != z
    requires |m1.par| == |m'.par| == |m'.red| == |m.left| == |m1.red|
    requires m1.par == m.par[m.right[z] := m.par[z]] && m.par[z] != x && x != z && m1.red == m.red
      && m'.red == m.red[z := m.red[x]]
    requires m'.par == m.par[m.right[z] := m.par[z]][m.right[x] := z][z := m.par[x]][m.left[x] := z]
    requires (m.par[n] == x <==> n == m.left[x] || n == m.right[x]) && (n == m.right[z] ==> m.par[n] == z)
    ensures m'.par[n] == Swapped(m1.par[n], x, z) && m'.red[n] == m1.red[n]
  {
  }

  /** What `SuccessorMoved` makes of `z` itself. */
  ghost predicate MovedSelf(m: Mem, x: Ptr, z: Ptr)
    requires m.Sized() && 0 < x < |m.left| && 0 < z < |m.left|
  {
    ReplacedSized(m, z, m.right[z]);
    var m1, m' := Replaced(m, z, m.right[z]), SuccessorMoved(m, x, z);
    && |m'.left| == |m'.right| == |m'.par| == |m'.red| == |m.left|
    && m'.lower == m.lower && m'.upper == m.upper && m'.linkMax == m.linkMax
    && m'.root == Swapped(m1.root, x, z)
    && m'.left[z] == m1.left[x] && m'.right[z] == m1.right[x] && m'.par[z] == m1.par[x] && m'.red[z] == m1.red[x]
    && (m.right[z] == NIL ==> m'.par[NIL] == Swapped(m.par[z], x, z))
  }

  lemma MovedSelfNear(m: Mem, g: Shape, x: Ptr, z: Ptr)
    requires SuccessorOf(m, g, x, z) && m.par[z] == x
    ensures MovedSelf(m, x, z)
  {
    MovedFieldsNear(m, g, x, z);
  }

  lemma MovedSelfFar(m: Mem, g: Shape, x: Ptr, z: Ptr)
    requires SuccessorOf(m, g, x, z) && m.par[z] != x
    ensures MovedSelf(m, x, z)
  {
    MovedFieldsFar(m, g, x, z);
    var pz := m.par[z];
    var m1 := Replaced(m, z, m.right[z]);
    assert m1.left == m.left[pz := m.right[z]] && m1.right == m.right && m1.par == m.par[m.right[z] := pz];
  }

  /** The second half of `SuccessorMoved`, after `z` has been detached from below. */
  lemma PlacedSized(m: Mem, x: Ptr, z: Ptr)
    requires m.Sized() && 0 < x < |m.left| && 0 < z < |m.left|
    ensures var m2 := Replaced(m, x, z);
            var m3 := m2.SetChild(Left, z, m2.left[x]);
            m3.SetPar(m3.left[z], z).Sized()
  {
    var m2 := Replaced(m, x, z);
    ReplacedSized(m, x, z);
    SetSized(m2, Left, z, m2.left[x]);
    var m3 := m2.SetChild(Left, z, m2.left[x]);
    SetSized(m3, Left, m3.left[z], z);
  }

  lemma MovedSized(m: Mem, x: Ptr, z: Ptr)
    requires m.Sized() && 0 < x < |m.left| && 0 < z < |m.left|
    ensures SuccessorMoved(m, x, z).Sized()
  {
    DetachedSized(m, x, z);
    PlacedSized(SuccessorDetached(m, x, z), x, z);
  }

  lemma MovedRenamed(m: Mem, g: Shape, x: Ptr, z: Ptr)
    requires Linked(m, g) && SuccessorOf(m, g, x, z)
    ensures Renamed(Replaced(m, z, m.right[z]), SuccessorMoved(m, x, z), ClosedShape(g, g.pos[z]), x, z)
  {
    var m1, m', g1 := Replaced(m, z, m.right[z]), SuccessorMoved(m, x, z), ClosedShape(g, g.pos[z]);
    if m.par[x] != NIL { At(m, g, m.par[x]); }
    MovedSized(m, x, z);
    if m.par[z] == x { MovedSelfNear(m, g, x, z); } else { MovedSelfFar(m, g, x, z); }
    SplicedLinked(m, g, z);
    forall n {:trigger In(g1, n)} | In(g1, n) && n != x
      ensures m'.left[n] == Swapped(m1.left[n], x, z) && m'.right[n] == Swapped(m1.right[n], x, z)
      ensures m'.par[n] == Swapped(m1.par[n], x, z) && m'.red[n] == m1.red[n]
    {
      At(m, g, n);
      if m.par[z] == x { MovedNodeNear(m, g, x, z, n); } else { MovedNodeFar(m, g, x, z, n); }
      assert MovedNode(m, x, z, n);
    }
  }

  lemma MovedOrd(m: Mem, g: Shape, x: Ptr, z: Ptr)
    requires SuccessorOf(m, g, x, z)
    ensures RenamedShape(ClosedShape(g, g.pos[z]), x, z).ord == ClosedShape(g, g.pos[x]).ord
  {
  }

  lemma MovedNil(m: Mem, g: Shape, x: Ptr, z: Ptr)
    requires Linked(m, g) && SuccessorOf(m, g, x, z)
    ensures m.right[z] == NIL ==> SuccessorMoved(m, x, z).par[NIL] == Swapped(m.par[z], x, z)
    ensures Within(ClosedShape(g, g.pos[z]), x, m.par[z])
  {
    if m.par[z] == x { MovedSelfNear(m, g, x, z); } else { MovedSelfFar(m, g, x, z); }
  }

  /** With `z` in the place of `x`, the tree is cut where `z` stood. */
  lemma MovedCut(m: Mem, g: Shape, bh: seq<int>, x: Ptr, z: Ptr)
    requires Sound(m, g, bh) && SuccessorOf(m, g, x, z)
    ensures CutColours(SuccessorMoved(m, x, z), RenamedShape(ClosedShape(g, g.pos[z]), x, z), bh[z := bh[x]],
                       m.right[z], Swapped(m.par[z], x, z), if m.par[z] == x then Right else Left, !m.red[z])
  {
    var m1, g1, y := Replaced(m, z, m.right[z]), ClosedShape(g, g.pos[z]), m.right[z];
    var hd := if m.par[z] == x then Right else Left;
    SplicedCut(m, g, bh, z, hd);
    MovedRenamed(m, g, x, z);
    MovedNil(m, g, x, z);
    RenamedPaint(m1, SuccessorMoved(m, x, z), g1, bh, x, z, y, m.par[z], hd, !m.red[z]);
  }

  /** The first node of the right subtree of `x` is its successor. */
  lemma SuccessorFound(m: Mem, g: Shape, x: Ptr, z: Ptr)
    requires Linked(m, g) && In(g, x) && m.left[x] != NIL && m.right[x] != NIL
    requires var r := m.right[x];
             && In(g, r) && In(g, z) && m.left[z] == NIL && g.pos[z] == g.lo[r]
             && (z == r || (In(g, m.par[z]) && m.left[m.par[z]] == z && Within(g, r, m.par[z])))
    ensures SuccessorOf(m, g, x, z)
  {
    At(m, g, x);
    At(m, g, z);
    At(m, g, m.right[x]);
    At(m, g, m.par[z]);
  }

  /** A red node with one child at most has none, and is not the root. */
  lemma RedLeaf(m: Mem, g: Shape, bh: seq<int>, x: Ptr)
    requires Sound(m, g, bh) && In(g, x) && (m.left[x] == NIL || m.right[x] == NIL)
    ensures m.red[x] ==> m.left[x] == NIL && m.right[x] == NIL && m.par[x] != NIL
  {
    At(m, g, x);
    assert BlackOk(m, bh, x, NIL, Left) && RedOk(m, x);
    if m.left[x] != NIL { assert BlackOk(m, bh, m.left[x], NIL, Left); }
    if m.right[x] != NIL { assert BlackOk(m, bh, m.right[x], NIL, Left); }
  }

  lemma MovedKeys(m: Mem, g: Shape, x: Ptr, z: Ptr)
    requires Linked(m, g) && SuccessorOf(m, g, x, z)
    ensures SuccessorMoved(m, x, z).lower == m.lower && SuccessorMoved(m, x, z).upper == m.upper
  {
  }

  /** Taking out a node with one child at most, all in one. */
  lemma SingleOut(m: Mem, g: Shape, bh: seq<int>, x: Ptr) returns (hd: Dir)
    requires Sound(m, g, bh) && Spliceable(m, g, x)
    ensures var y := OnlyChild(m, x);
            CutColours(Replaced(m, x, y), ClosedShape(g, g.pos[x]), bh, y, m.par[x], hd, !m.red[x])
    ensures m.red[x] ==> OnlyChild(m, x) == NIL && m.par[x] != NIL
    ensures var m' := Replaced(m, x, OnlyChild(m, x)); m'.lower == m.lower && m'.upper == m.upper
  {
    hd := if m.par[x] != NIL && m.right[m.par[x]] == x then Right else Left;
    At(m, g, x);
    SplicedCut(m, g, bh, x, hd);
    RedLeaf(m, g, bh, x);
  }

  /** The order without one node is still sorted. */
  lemma ClosedSorted(m: Mem, m': Mem, g: Shape, g': Shape, x: Ptr)
    requires Linked(m, g) && Linked(m', g') && In(g, x) && Sorted(m, g) && m'.lower == m.lower
    requires g'.ord == g.ord[..g.pos[x]] + g.ord[g.pos[x] + 1..]
    ensures Sorted(m', g')
  {
  }
}
