/**
  Taking a node out of the tree. `rb_tree_delete` either puts the only child of the node
  in its place, or puts its successor there; the second is the first applied to the
  successor, followed by the successor taking over the place of the node.
 */
module RbSplice {
  import opened RbMem
  import opened RbColour

  /** `replace_node(rbt, x, y)`. */
  function Replaced(m: Mem, x: Ptr, y: Ptr): Mem
    requires m.Sized() && 0 < x < |m.left| && 0 <= y < |m.left|
  {
    var p := m.par[x];
    var m1 :=
      if p == NIL then m.(root := y)
      else if m.right[p] == x then m.SetChild(Right, p, y)
      else m.SetChild(Left, p, y);
    m1.SetPar(y, p)
  }

  /** The only child of `x`, or nil. */
  function OnlyChild(m: Mem, x: Ptr): Ptr
    requires m.Sized() && 0 < x < |m.left|
  {
    if m.left[x] == NIL then m.right[x] else m.left[x]
  }

  /** `x` is in the tree and has at most one child. */
  ghost predicate Spliceable(m: Mem, g: Shape, x: Ptr) {
    && Fits(m, g) && In(g, x) && NodeOk(m, g, x) && (m.left[x] == NIL || m.right[x] == NIL)
  }

  ghost function Close(v: int, q: int): int {
    if v > q then v - 1 else v
  }

  ghost function ClosedShape(g: Shape, q: int): Shape
    requires |g.lo| == |g.pos| == |g.hi| && 0 <= q < |g.ord|
  {
    Shape(
      g.ord[..q] + g.ord[q + 1..],
      seq(|g.lo|, n requires 0 <= n < |g.lo| => Close(g.lo[n], q)),
      seq(|g.lo|, n requires 0 <= n < |g.lo| => Close(g.pos[n], q)),
      seq(|g.lo|, n requires 0 <= n < |g.lo| => Close(g.hi[n], q)))
  }

  lemma ClosedIn(m: Mem, g: Shape, x: Ptr)
    requires Fits(m, g) && In(g, x)
    requires forall i | 0 <= i < |g.ord| :: 0 < g.ord[i] < |m.left| && g.pos[g.ord[i]] == i
    ensures var g' := ClosedShape(g, g.pos[x]);
            && (forall n :: In(g', n) <==> n != x && In(g, n))
            && (forall i | 0 <= i < |g'.ord| :: 0 < g'.ord[i] < |m.left| && g'.pos[g'.ord[i]] == i)
  {
    var g' := ClosedShape(g, g.pos[x]);
    forall n ensures In(g', n) <==> n != x && In(g, n) {
      if 0 < n < |g.pos| {
        assert g'.pos[n] == Close(g.pos[n], g.pos[x]);
      }
    }
  }

  lemma ReplacedFields(m: Mem, x: Ptr, y: Ptr, n: Ptr, d: Dir)
    requires m.Sized() && 0 < x < |m.left| && 0 <= y < |m.left| && 0 < n < |m.left|
    requires m.Child(d, n) == x <==> n == m.par[x] && d == (if m.right[n] == x then Right else Left)
    ensures var m' := Replaced(m, x, y);
            && |m'.left| == |m'.right| == |m'.par| == |m.left|
            && m'.Child(d, n) == (if m.Child(d, n) == x then y else m.Child(d, n))
            && m'.par[n] == (if n == y then m.par[x] else m.par[n])
  {
  }

  /** The links of the nodes that stay, after `replace_node(rbt, x, y)`. */
  lemma ReplacedChild(m: Mem, g: Shape, x: Ptr, n: Ptr, d: Dir)
    requires Spliceable(m, g, x) && In(g, n) && NodeOk(m, g, n) && n != x
    requires m.par[x] != NIL ==> NodeOk(m, g, m.par[x])
    ensures var y := OnlyChild(m, x);
            var m' := Replaced(m, x, y);
            && m'.Sized()
            && m'.Child(d, n) == (if m.Child(d, n) == x then y else m.Child(d, n))
            && m'.par[n] == (if n == y then m.par[x] else m.par[n])
  {
    ReplacedSized(m, x, OnlyChild(m, x));
    ReplacedFields(m, x, OnlyChild(m, x), n, d);
  }

  lemma SplicedLinkOk(m: Mem, g: Shape, x: Ptr, n: Ptr, d: Dir)
    requires Spliceable(m, g, x) && In(g, n) && SpanOk(g, n) && LinkOk(m, g, n, d) && n != x
    requires var y, g' := OnlyChild(m, x), ClosedShape(g, g.pos[x]);
             var m' := Replaced(m, x, y);
             && m'.Sized() && m'.par[n] == (if n == y then m.par[x] else m.par[n])
             && m'.Child(d, n) == (if m.Child(d, n) == x then y else m.Child(d, n))
             && (m.Child(d, n) != NIL && m.Child(d, n) != x ==> In(g', m.Child(d, n)))
             && (y != NIL ==> In(g', y) && m.par[y] == x && m'.par[y] == m.par[x])
    ensures LinkOk(Replaced(m, x, OnlyChild(m, x)), ClosedShape(g, g.pos[x]), n, d)
  {
    assert g.pos[n] != g.pos[x];
    var c := m.Child(d, n);
    if c == x {
    } else if c != NIL {
      assert c != OnlyChild(m, x);
      assert Replaced(m, x, OnlyChild(m, x)).par[c] == m.par[c];
    }
  }

  lemma SplicedParOkLifted(m: Mem, g: Shape, x: Ptr)
    requires Spliceable(m, g, x) && OnlyChild(m, x) != NIL && NodeOk(m, g, OnlyChild(m, x))
    requires m.par[x] != NIL ==> NodeOk(m, g, m.par[x])
    requires var g' := ClosedShape(g, g.pos[x]); forall k :: In(g', k) <==> k != x && In(g, k)
    requires Replaced(m, x, OnlyChild(m, x)).Sized()
    ensures ParOk(Replaced(m, x, OnlyChild(m, x)), ClosedShape(g, g.pos[x]), OnlyChild(m, x))
  {
    var y, p := OnlyChild(m, x), m.par[x];
    ReplacedChild(m, g, x, y, Left);
    if p != NIL {
      ReplacedChild(m, g, x, p, Left);
      ReplacedChild(m, g, x, p, Right);
    }
  }

  lemma SplicedParOk(m: Mem, g: Shape, x: Ptr, n: Ptr)
    requires Spliceable(m, g, x) && In(g, n) && NodeOk(m, g, n) && n != x && n != OnlyChild(m, x)
    requires m.par[x] != NIL ==> NodeOk(m, g, m.par[x])
    requires m.par[n] != NIL ==> NodeOk(m, g, m.par[n])
    requires var g' := ClosedShape(g, g.pos[x]); forall k :: In(g', k) <==> k != x && In(g, k)
    requires Replaced(m, x, OnlyChild(m, x)).Sized()
    ensures ParOk(Replaced(m, x, OnlyChild(m, x)), ClosedShape(g, g.pos[x]), n)
  {
    ReplacedChild(m, g, x, n, Left);
    assert m.par[n] != x;
    if m.par[n] != NIL {
      ReplacedChild(m, g, x, m.par[n], Left);
      ReplacedChild(m, g, x, m.par[n], Right);
    }
  }

  lemma SplicedLinkOkAt(m: Mem, g: Shape, x: Ptr, n: Ptr, d: Dir)
    requires Linked(m, g) && Spliceable(m, g, x) && In(g, n) && n != x
    requires var g' := ClosedShape(g, g.pos[x]); forall k :: In(g', k) <==> k != x && In(g, k)
    requires Replaced(m, x, OnlyChild(m, x)).Sized()
    ensures LinkOk(Replaced(m, x, OnlyChild(m, x)), ClosedShape(g, g.pos[x]), n, d)
  {
    var y := OnlyChild(m, x);
    At(m, g, n);
    if m.par[x] != NIL { At(m, g, m.par[x]); }
    ReplacedChild(m, g, x, n, d);
    if y != NIL {
      At(m, g, y);
      ReplacedChild(m, g, x, y, d);
    }
    SplicedLinkOk(m, g, x, n, d);
  }

  lemma SplicedParOkAt(m: Mem, g: Shape, x: Ptr, n: Ptr)
    requires Linked(m, g) && Spliceable(m, g, x) && In(g, n) && n != x
    requires var g' := ClosedShape(g, g.pos[x]); forall k :: In(g', k) <==> k != x && In(g, k)
    requires Replaced(m, x, OnlyChild(m, x)).Sized()
    ensures ParOk(Replaced(m, x, OnlyChild(m, x)), ClosedShape(g, g.pos[x]), n)
  {
    At(m, g, n);
    if m.par[x] != NIL { At(m, g, m.par[x]); }
    if m.par[n] != NIL { At(m, g, m.par[n]); }
    if n == OnlyChild(m, x) { SplicedParOkLifted(m, g, x); } else { SplicedParOk(m, g, x, n); }
  }

  lemma SplicedNodeOk(m: Mem, g: Shape, x: Ptr, n: Ptr)
    requires Linked(m, g) && Spliceable(m, g, x) && In(g, n) && n != x
    requires var g' := ClosedShape(g, g.pos[x]); forall k :: In(g', k) <==> k != x && In(g, k)
    requires Replaced(m, x, OnlyChild(m, x)).Sized()
    ensures NodeOk(Replaced(m, x, OnlyChild(m, x)), ClosedShape(g, g.pos[x]), n)
  {
    At(m, g, n);
    SplicedParOkAt(m, g, x, n);
    SplicedLinkOkAt(m, g, x, n, Left);
    SplicedLinkOkAt(m, g, x, n, Right);
  }

  lemma ReplacedSized(m: Mem, x: Ptr, y: Ptr)
    requires m.Sized() && 0 < x < |m.left| && 0 <= y < |m.left|
    ensures Replaced(m, x, y).Sized()
  {
  }

  /** Without `x`, and with its only child in its place, the tree is linked and in the same order. */
  lemma SplicedLinked(m: Mem, g: Shape, x: Ptr)
    requires Linked(m, g) && Spliceable(m, g, x)
    ensures Linked(Replaced(m, x, OnlyChild(m, x)), ClosedShape(g, g.pos[x]))
    ensures forall k :: In(ClosedShape(g, g.pos[x]), k) <==> k != x && In(g, k)
  {
    var m', g' := Replaced(m, x, OnlyChild(m, x)), ClosedShape(g, g.pos[x]);
    ReplacedSized(m, x, OnlyChild(m, x));
    ClosedIn(m, g, x);
    SplicedRoot(m, g, x);
    forall n | In(g', n) ensures NodeOk(m', g', n) {
      SplicedNodeOk(m, g, x, n);
    }
  }

  lemma SplicedRoot(m: Mem, g: Shape, x: Ptr)
    requires Linked(m, g) && Spliceable(m, g, x)
    requires forall k :: In(ClosedShape(g, g.pos[x]), k) <==> k != x && In(g, k)
    ensures var m', g' := Replaced(m, x, OnlyChild(m, x)), ClosedShape(g, g.pos[x]);
            if |g'.ord| == 0 then m'.root == NIL else In(g', m'.root)
  {
    var y := OnlyChild(m, x);
    if y != NIL { At(m, g, y); }
    if m.par[x] != NIL {
      At(m, g, m.par[x]);
      assert m.root != x;
    } else {
      assert m.root == x;
    }
  }

  // ---------------------------------------------------------------- taking over a place

  /** `z` where the link was to `x`. */
  function Swapped(v: Ptr, x: Ptr, z: Ptr): Ptr {
    if v == x then z else v
  }

  /** `m'` is `m` with `z`, so far outside the tree, in the place of `x`. */
  ghost predicate Renamed(m: Mem, m': Mem, g: Shape, x: Ptr, z: Ptr) {
    && Fits(m, g) && m'.Sized() && |m'.left| == |m.left|
    && In(g, x) && !In(g, z) && 0 < z < |m.left|
    && m'.lower == m.lower && m'.upper == m.upper
    && m'.root == Swapped(m.root, x, z)
    && (forall n {:trigger In(g, n)} | In(g, n) && n != x ::
          && m'.left[n] == Swapped(m.left[n], x, z) && m'.right[n] == Swapped(m.right[n], x, z)
          && m'.par[n] == Swapped(m.par[n], x, z) && m'.red[n] == m.red[n] && m'.linkMax[n] == m.linkMax[n])
    && m'.left[z] == m.left[x] && m'.right[z] == m.right[x] && m'.par[z] == m.par[x] && m'.red[z] == m.red[x]
  }

  ghost function RenamedShape(g: Shape, x: Ptr, z: Ptr): Shape
    requires |g.lo| == |g.pos| == |g.hi| && 0 <= x < |g.lo| && 0 <= z < |g.lo| && 0 <= g.pos[x] < |g.ord|
  {
    Shape(g.ord[g.pos[x] := z], g.lo[z := g.lo[x]], g.pos[z := g.pos[x]], g.hi[z := g.hi[x]])
  }

  lemma RenamedIn(m: Mem, m': Mem, g: Shape, x: Ptr, z: Ptr)
    requires Renamed(m, m', g, x, z)
    requires forall i | 0 <= i < |g.ord| :: 0 < g.ord[i] < |m.left| && g.pos[g.ord[i]] == i
    ensures var g' := RenamedShape(g, x, z);
            && (forall n :: In(g', n) <==> n == z || (n != x && In(g, n)))
            && (forall i | 0 <= i < |g'.ord| :: 0 < g'.ord[i] < |m.left| && g'.pos[g'.ord[i]] == i)
  {
  }

  lemma RenamedNodeOk(m: Mem, m': Mem, g: Shape, x: Ptr, z: Ptr, n: Ptr)
    requires Linked(m, g) && Renamed(m, m', g, x, z)
    requires forall k :: In(RenamedShape(g, x, z), k) <==> k == z || (k != x && In(g, k))
    requires n == z || (n != x && In(g, n))
    ensures NodeOk(m', RenamedShape(g, x, z), n)
  {
    var o := if n == z then x else n;
    At(m, g, o);
    RenamedLinkOk(m, m', g, x, z, n, Left);
    RenamedLinkOk(m, m', g, x, z, n, Right);
    if m.par[o] != NIL && m.par[o] != x { At(m, g, m.par[o]); }
  }

  lemma RenamedLinkOk(m: Mem, m': Mem, g: Shape, x: Ptr, z: Ptr, n: Ptr, d: Dir)
    requires Linked(m, g) && Renamed(m, m', g, x, z)
    requires forall k :: In(RenamedShape(g, x, z), k) <==> k == z || (k != x && In(g, k))
    requires n == z || (n != x && In(g, n))
    ensures LinkOk(m', RenamedShape(g, x, z), n, d)
  {
    var o := if n == z then x else n;
    At(m, g, o);
    var c := m.Child(d, o);
    assert m'.Child(d, n) == Swapped(c, x, z);
    if c != NIL { At(m, g, c); }
  }

  lemma RenamedLinked(m: Mem, m': Mem, g: Shape, x: Ptr, z: Ptr)
    requires Linked(m, g) && Renamed(m, m', g, x, z)
    ensures Linked(m', RenamedShape(g, x, z))
    ensures forall k :: In(RenamedShape(g, x, z), k) <==> k == z || (k != x && In(g, k))
  {
    var g' := RenamedShape(g, x, z);
    RenamedIn(m, m', g, x, z);
    forall n | In(g', n) ensures NodeOk(m', g', n) {
      RenamedNodeOk(m, m', g, x, z, n);
    }
  }
}
