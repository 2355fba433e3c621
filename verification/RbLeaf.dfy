/** `rb_tree_insert`: hanging a new red leaf into an empty slot. */
module RbLeaf {
  import opened Arith
  import opened RbMem
  import opened RbColour
  import opened RbInsert

  /** `rb_tree_insert(rbt, p, z, &p->c[d])`. */
  function LeafAdded(m: Mem, p: Ptr, d: Dir, z: Ptr): Mem
    requires m.Sized() && 0 < p < |m.left| && 0 < z < |m.left|
  {
    m.SetPar(z, p).SetRed(z, true).SetChild(Left, z, NIL).SetChild(Right, z, NIL).SetChild(d, p, z)
  }

  /** Positions at or behind the new node move up by one; a stretch that ends there grows only if it holds the slot. */
  ghost function Shift(v: int, q: int, including: bool): int {
    if v > q || (including && v == q) then v + 1 else v
  }

  ghost function GrownShape(g: Shape, p: Ptr, d: Dir, z: Ptr): (g': Shape)
    requires |g.lo| == |g.pos| == |g.hi| && 0 < p < |g.lo| && 0 < z < |g.lo|
    requires 0 <= SlotLo(g, p, d) <= |g.ord|
  {
    var q := SlotLo(g, p, d);
    Shape(
      g.ord[..q] + [z] + g.ord[q..],
      seq(|g.lo|, n requires 0 <= n < |g.lo| => if n == z then q else Shift(g.lo[n], q, d == Right)),
      seq(|g.lo|, n requires 0 <= n < |g.lo| => if n == z then q else Shift(g.pos[n], q, true)),
      seq(|g.lo|, n requires 0 <= n < |g.lo| => if n == z then q + 1 else Shift(g.hi[n], q, d == Right)))
  }

  /** An empty slot below the node `p`, and a node `z` that is not in the tree. */
  ghost predicate FreeSlot(m: Mem, g: Shape, p: Ptr, d: Dir, z: Ptr) {
    && Fits(m, g) && In(g, p) && SpanOk(g, p) && m.Child(d, p) == NIL
    && SlotLo(g, p, d) == SlotHi(g, p, d)
    && 0 < z < |m.left| && z != p && !In(g, z)
  }

  lemma GrownIn(m: Mem, g: Shape, p: Ptr, d: Dir, z: Ptr, n: Ptr)
    requires FreeSlot(m, g, p, d, z)
    requires forall i | 0 <= i < |g.ord| :: 0 < g.ord[i] < |m.left| && g.pos[g.ord[i]] == i
    ensures In(GrownShape(g, p, d, z), n) <==> n == z || In(g, n)
  {
  }

  lemma GrownOrd(m: Mem, g: Shape, p: Ptr, d: Dir, z: Ptr)
    requires FreeSlot(m, g, p, d, z)
    requires forall i | 0 <= i < |g.ord| :: 0 < g.ord[i] < |m.left| && g.pos[g.ord[i]] == i
    ensures var g' := GrownShape(g, p, d, z);
            forall i | 0 <= i < |g'.ord| :: 0 < g'.ord[i] < |m.left| && g'.pos[g'.ord[i]] == i
  {
  }

  lemma LeafLinkOk(m: Mem, g: Shape, p: Ptr, d: Dir, z: Ptr, n: Ptr, e: Dir)
    requires FreeSlot(m, g, p, d, z) && Fits(LeafAdded(m, p, d, z), GrownShape(g, p, d, z))
    requires In(g, n) && SpanOk(g, n) && LinkOk(m, g, n, e)
    requires forall k | In(g, k) :: In(GrownShape(g, p, d, z), k)
    requires In(GrownShape(g, p, d, z), z)
    ensures LinkOk(LeafAdded(m, p, d, z), GrownShape(g, p, d, z), n, e)
  {
    assert g.pos[n] == g.pos[p] ==> n == p;
    if n == p && e == d {
    } else {
      assert LeafAdded(m, p, d, z).Child(e, n) == m.Child(e, n);
    }
  }

  lemma LeafParOk(m: Mem, g: Shape, p: Ptr, d: Dir, z: Ptr, n: Ptr)
    requires FreeSlot(m, g, p, d, z) && Fits(LeafAdded(m, p, d, z), GrownShape(g, p, d, z))
    requires In(g, n) && SpanOk(g, n) && ParOk(m, g, n)
    requires forall k | In(g, k) :: In(GrownShape(g, p, d, z), k)
    ensures ParOk(LeafAdded(m, p, d, z), GrownShape(g, p, d, z), n)
  {
  }

  lemma LeafItselfOk(m: Mem, g: Shape, p: Ptr, d: Dir, z: Ptr)
    requires FreeSlot(m, g, p, d, z) && Fits(LeafAdded(m, p, d, z), GrownShape(g, p, d, z))
    requires m.root != z && In(GrownShape(g, p, d, z), p)
    ensures NodeOk(LeafAdded(m, p, d, z), GrownShape(g, p, d, z), z)
  {
  }

  lemma LeafNodeOk(m: Mem, g: Shape, p: Ptr, d: Dir, z: Ptr, n: Ptr)
    requires FreeSlot(m, g, p, d, z) && Fits(LeafAdded(m, p, d, z), GrownShape(g, p, d, z))
    requires forall k | In(g, k) :: In(GrownShape(g, p, d, z), k)
    requires In(GrownShape(g, p, d, z), z) && m.root != z
    requires n == z || (In(g, n) && NodeOk(m, g, n))
    ensures NodeOk(LeafAdded(m, p, d, z), GrownShape(g, p, d, z), n)
  {
    if n == z {
      LeafItselfOk(m, g, p, d, z);
    } else {
      LeafLinkOk(m, g, p, d, z, n, Left);
      LeafLinkOk(m, g, p, d, z, n, Right);
      LeafParOk(m, g, p, d, z, n);
    }
  }

  lemma LeafFits(m: Mem, g: Shape, p: Ptr, d: Dir, z: Ptr)
    requires FreeSlot(m, g, p, d, z)
    ensures Fits(LeafAdded(m, p, d, z), GrownShape(g, p, d, z))
  {
  }

  lemma LeafIn(m: Mem, g: Shape, p: Ptr, d: Dir, z: Ptr)
    requires FreeSlot(m, g, p, d, z)
    requires forall i | 0 <= i < |g.ord| :: 0 < g.ord[i] < |m.left| && g.pos[g.ord[i]] == i
    ensures forall n :: In(GrownShape(g, p, d, z), n) <==> n == z || In(g, n)
  {
    forall n ensures In(GrownShape(g, p, d, z), n) <==> n == z || In(g, n) {
      GrownIn(m, g, p, d, z, n);
    }
  }

  /** The new leaf is in the tree, at the slot, and the nodes before it keep their order. */
  lemma LeafAddedLinked(m: Mem, g: Shape, p: Ptr, d: Dir, z: Ptr)
    requires Linked(m, g) && FreeSlot(m, g, p, d, z)
    ensures Linked(LeafAdded(m, p, d, z), GrownShape(g, p, d, z))
  {
    var m', g' := LeafAdded(m, p, d, z), GrownShape(g, p, d, z);
    LeafFits(m, g, p, d, z);
    GrownOrd(m, g, p, d, z);
    LeafIn(m, g, p, d, z);
    forall n | In(g', n) ensures NodeOk(m', g', n) {
      if n != z { At(m, g, n); }
      LeafNodeOk(m, g, p, d, z, n);
    }
  }

  // ---------------------------------------------------------------- the way down

  /** The way down goes on through the child of `n` on side `e`. */
  ghost predicate Hot(m: Mem, p: Ptr, d: Dir, way: set<Ptr>, n: Ptr, e: Dir)
    requires m.Sized() && 0 <= n < |m.left|
  {
    (n == p && e == d) || m.Child(e, n) in way
  }

  /** `n` is on the way down, which goes on through exactly one of its children. */
  ghost predicate WayOk(m: Mem, g: Shape, p: Ptr, d: Dir, way: set<Ptr>, n: Ptr)
    requires m.Sized()
  {
    && In(g, n) && n < |m.left|
    && (n == m.root || m.par[n] in way)
    && Hot(m, p, d, way, n, Left) != Hot(m, p, d, way, n, Right)
  }

  /** Where the way down stands: at the root, or below the node it came from. */
  ghost function Here(m: Mem, p: Ptr, d: Dir): Ptr
    requires m.Sized() && 0 <= p < |m.left|
  {
    if p == NIL then m.root else m.Child(d, p)
  }

  /**
    Walking down from `m0` to the child of `p` on side `d`, raising every maximum on the
    way to at least `u`. `way` holds the nodes passed; `p` is the last of them, or nil.
   */
  ghost predicate Descent(m0: Mem, m: Mem, g: Shape, u: nat, p: Ptr, d: Dir, way: set<Ptr>) {
    && Linked(m0, g) && Linked(m, g) && m == m0.(linkMax := m.linkMax)
    && 0 <= p < |m.left| && (if p == NIL then way == {} else p in way) && Here(m, p, d) !in way
    && (forall n {:trigger WayOk(m, g, p, d, way, n)} | n in way :: WayOk(m, g, p, d, way, n))
    && (forall n {:trigger m.linkMax[n]} | In(g, n) ::
          m.linkMax[n] == if n in way then Max(u, m0.linkMax[n]) else m0.linkMax[n])
  }

  lemma DescentStep(m0: Mem, m: Mem, g: Shape, u: nat, p: Ptr, d: Dir, way: set<Ptr>, cur: Ptr, e: Dir)
    requires Descent(m0, m, g, u, p, d, way)
    requires cur == Here(m, p, d) && cur != NIL
    ensures Descent(m0, m.SetMax(cur, Max(u, m.linkMax[cur])), g, u, cur, e, way + {cur})
  {
    var m' := m.SetMax(cur, Max(u, m.linkMax[cur]));
    var way' := way + {cur};
    LinkedSameLinks(m, m', g);
    DescentBelow(m, g, p, d, way, cur, Left);
    DescentBelow(m, g, p, d, way, cur, Right);
    forall n | n in way' ensures WayOk(m', g, cur, e, way', n) {
      DescentStepWay(m, m', g, p, d, way, cur, e, n);
    }
  }

  lemma DescentBelow(m: Mem, g: Shape, p: Ptr, d: Dir, way: set<Ptr>, cur: Ptr, e: Dir)
    requires Linked(m, g) && 0 <= p < |m.left| && cur == Here(m, p, d) != NIL && cur !in way
    requires forall n {:trigger WayOk(m, g, p, d, way, n)} | n in way :: WayOk(m, g, p, d, way, n)
    requires if p == NIL then way == {} else p in way
    ensures In(g, cur) && m.Child(e, cur) !in way + {cur}
    ensures if p == NIL then cur == m.root else In(g, p) && m.par[cur] == p
  {
    if p != NIL {
      assert WayOk(m, g, p, d, way, p);
      At(m, g, p);
    }
    At(m, g, cur);
    var c := m.Child(e, cur);
    if c in way {
      assert WayOk(m, g, p, d, way, c);
      At(m, g, c);
    }
  }

  lemma DescentStepWay(m: Mem, m': Mem, g: Shape, p: Ptr, d: Dir, way: set<Ptr>, cur: Ptr, e: Dir, n: Ptr)
    requires Linked(m, g) && m'.Sized() && m' == m.(linkMax := m'.linkMax)
    requires 0 <= p < |m.left| && cur == Here(m, p, d) != NIL && cur !in way
    requires forall n {:trigger WayOk(m, g, p, d, way, n)} | n in way :: WayOk(m, g, p, d, way, n)
    requires if p == NIL then way == {} else p in way
    requires n in way + {cur}
    ensures WayOk(m', g, cur, e, way + {cur}, n)
  {
    DescentBelow(m, g, p, d, way, cur, Left);
    DescentBelow(m, g, p, d, way, cur, Right);
    if n != cur {
      assert WayOk(m, g, p, d, way, n);
      At(m, g, n);
      At(m, g, cur);
    }
  }

  /** The maximum of a node once its `e` child is at least `u` and the other one is as it was. */
  lemma RaisedMax(m0: Mem, m': Mem, n: Ptr, u: nat, e: Dir)
    requires m0.Sized() && m'.Sized() && 0 <= n < |m0.left| == |m'.left| && MaxOk(m0, n)
    requires m'.upper[n] == m0.upper[n] && m'.linkMax[n] == Max(u, m0.linkMax[n])
    requires m'.MaxOf(m'.Child(e, n)) == Max(u, m0.MaxOf(m0.Child(e, n)))
    requires m'.MaxOf(m'.Child(Flip(e), n)) == m0.MaxOf(m0.Child(Flip(e), n))
    ensures MaxOk(m', n)
  {
  }

  lemma DescentOnWay(m0: Mem, m: Mem, g: Shape, z: Ptr, p: Ptr, d: Dir, way: set<Ptr>, n: Ptr)
    requires m.Sized() && 0 < z < |m.left| && Descent(m0, m, g, m.upper[z], p, d, way)
    requires p != NIL && FreeSlot(m, g, p, d, z) && m.linkMax[z] == m.upper[z]
    requires n in way && In(g, n) && NodeOk(m, g, n) && MaxOk(m0, n)
    ensures LeafAdded(m, p, d, z).Sized() && MaxOk(LeafAdded(m, p, d, z), n)
  {
    assert WayOk(m, g, p, d, way, n);
    var e := if Hot(m, p, d, way, n, Left) then Left else Right;
    ChildMax(m0, m, g, z, p, d, way, n, Left);
    ChildMax(m0, m, g, z, p, d, way, n, Right);
    RaisedMax(m0, LeafAdded(m, p, d, z), n, m.upper[z], e);
  }

  /** What the maximum of a child is in the end. */
  lemma ChildMax(m0: Mem, m: Mem, g: Shape, z: Ptr, p: Ptr, d: Dir, way: set<Ptr>, n: Ptr, e: Dir)
    requires m.Sized() && 0 < z < |m.left| && Descent(m0, m, g, m.upper[z], p, d, way)
    requires p != NIL && FreeSlot(m, g, p, d, z) && m.linkMax[z] == m.upper[z]
    requires In(g, n) && LinkOk(m, g, n, e)
    ensures var m' := LeafAdded(m, p, d, z);
            && m'.Sized() && 0 <= m0.Child(e, n) < |m0.left|
            && m'.MaxOf(m'.Child(e, n)) ==
               if Hot(m, p, d, way, n, e) then Max(m.upper[z], m0.MaxOf(m0.Child(e, n))) else m0.MaxOf(m0.Child(e, n))
  {
    assert m.Child(e, n) != z;
    LeafFits(m, g, p, d, z);
    assert forall k | k in way :: WayOk(m, g, p, d, way, k) && k != NIL;
  }

  lemma DescentOffWay(m0: Mem, m: Mem, g: Shape, z: Ptr, p: Ptr, d: Dir, way: set<Ptr>, n: Ptr)
    requires m.Sized() && 0 < z < |m.left| && Descent(m0, m, g, m.upper[z], p, d, way)
    requires p != NIL && FreeSlot(m, g, p, d, z) && m.linkMax[z] == m.upper[z]
    requires n !in way && In(g, n) && NodeOk(m, g, n) && MaxOk(m0, n)
    ensures LeafAdded(m, p, d, z).Sized() && MaxOk(LeafAdded(m, p, d, z), n)
  {
    ColdChild(m, g, p, d, way, n, Left);
    ColdChild(m, g, p, d, way, n, Right);
    ChildMax(m0, m, g, z, p, d, way, n, Left);
    ChildMax(m0, m, g, z, p, d, way, n, Right);
  }

  /** The way down does not enter below a node that it has not passed. */
  lemma ColdChild(m: Mem, g: Shape, p: Ptr, d: Dir, way: set<Ptr>, n: Ptr, e: Dir)
    requires Linked(m, g) && p in way && n !in way && In(g, n) && NodeOk(m, g, n)
    requires forall k {:trigger WayOk(m, g, p, d, way, k)} | k in way :: WayOk(m, g, p, d, way, k)
    ensures !Hot(m, p, d, way, n, e)
  {
    var c := m.Child(e, n);
    if c in way {
      assert WayOk(m, g, p, d, way, c);
      At(m, g, c);
    }
  }

  /** Once the leaf hangs in the slot, raising the maxima on the way down has made all of them exact. */
  lemma DescentCached(m0: Mem, m: Mem, g: Shape, z: Ptr, p: Ptr, d: Dir, way: set<Ptr>)
    requires m.Sized() && 0 < z < |m.left| && Descent(m0, m, g, m.upper[z], p, d, way)
    requires p != NIL && FreeSlot(m, g, p, d, z) && m.linkMax[z] == m.upper[z] && Cached(m0, g)
    ensures Fits(LeafAdded(m, p, d, z), GrownShape(g, p, d, z))
    ensures Cached(LeafAdded(m, p, d, z), GrownShape(g, p, d, z))
  {
    var m', g' := LeafAdded(m, p, d, z), GrownShape(g, p, d, z);
    LeafFits(m, g, p, d, z);
    LeafIn(m, g, p, d, z);
    forall n | In(g', n) ensures MaxOk(m', n) {
      if n != z {
        At(m, g, n);
        assert MaxOk(m0, n);
        if n in way {
          DescentOnWay(m0, m, g, z, p, d, way, n);
        } else {
          DescentOffWay(m0, m, g, z, p, d, way, n);
        }
      }
    }
  }

  /** The slot reached for lower bound `v`: what is before it is at most `v`, what is behind it is above `v`. */
  ghost predicate SlotSorted(m: Mem, g: Shape, p: Ptr, d: Dir, v: nat)
    requires Fits(m, g) && 0 <= p < |m.left| && forall i | 0 <= i < |g.ord| :: 0 < g.ord[i] < |m.left|
  {
    && (forall i | 0 <= i < |g.ord| && p != NIL && i < SlotLo(g, p, d) :: m.lower[g.ord[i]] <= v)
    && (forall i | 0 <= i < |g.ord| && p != NIL && SlotHi(g, p, d) <= i :: v < m.lower[g.ord[i]])
  }

  lemma SlotStep(m: Mem, g: Shape, p: Ptr, d: Dir, cur: Ptr, v: nat)
    requires Linked(m, g) && Sorted(m, g) && 0 <= p < |m.left| && SlotSorted(m, g, p, d, v)
    requires (p != NIL ==> In(g, p)) && cur == Here(m, p, d) && cur != NIL
    ensures In(g, cur) && SpanOk(g, cur)
    ensures SlotSorted(m, g, cur, if v < m.lower[cur] then Left else Right, v)
    ensures p != NIL ==> g.lo[cur] == SlotLo(g, p, d) && g.hi[cur] == SlotHi(g, p, d)
  {
    if p != NIL { At(m, g, p); }
    At(m, g, cur);
    assert g.ord[g.pos[cur]] == cur;
  }

  lemma LeafSorted(m: Mem, g: Shape, p: Ptr, d: Dir, z: Ptr)
    requires Linked(m, g) && Sorted(m, g) && FreeSlot(m, g, p, d, z)
    requires SlotSorted(m, g, p, d, m.lower[z])
    ensures Sorted(LeafAdded(m, p, d, z), GrownShape(g, p, d, z))
  {
    GrownSorted(g.ord, LeafAdded(m, p, d, z).lower, SlotLo(g, p, d), z);
  }

  lemma GrownSorted(ord: seq<Ptr>, lower: seq<nat>, q: int, z: Ptr)
    requires 0 <= q <= |ord| && 0 < z < |lower| && forall i | 0 <= i < |ord| :: 0 < ord[i] < |lower|
    requires forall i, j | 0 <= i < j < |ord| :: lower[ord[i]] <= lower[ord[j]]
    requires forall i | 0 <= i < q :: lower[ord[i]] <= lower[z]
    requires forall i | q <= i < |ord| :: lower[z] <= lower[ord[i]]
    ensures var ord' := ord[..q] + [z] + ord[q..];
            forall i, j | 0 <= i < j < |ord'| ::
              0 < ord'[i] < |lower| && 0 < ord'[j] < |lower| && lower[ord'[i]] <= lower[ord'[j]]
  {
  }

  /** The new leaf is red, so the number of blacks on every way down is as before. */
  lemma LeafColours(m: Mem, g: Shape, bh: seq<int>, p: Ptr, d: Dir, z: Ptr, n: Ptr)
    requires Linked(m, g) && FreeSlot(m, g, p, d, z) && BlackHeights(m, g, bh, NIL, Left) && NoRedRed(m, g, NIL)
    requires n == z || (In(g, n) && NodeOk(m, g, n))
    ensures var m' := LeafAdded(m, p, d, z);
            && m'.Sized() && BlackOk(m', bh[z := 1], n, NIL, Left)
            && (n != p ==> RedOk(m', n))
  {
    if n != z {
      assert BlackOk(m, bh, n, NIL, Left) && RedOk(m, n);
      assert m.left[n] != z && m.right[n] != z;
    }
  }

  /** The red leaf at the end of the way down leaves the tree for `rb_tree_insert_rebalance` to repair. */
  lemma LeafRepairing(m0: Mem, m: Mem, g: Shape, bh: seq<int>, z: Ptr, p: Ptr, d: Dir, way: set<Ptr>)
    requires Sound(m0, g, bh) && 0 < z < |m0.left| && Descent(m0, m, g, m0.upper[z], p, d, way)
    requires p != NIL && FreeSlot(m, g, p, d, z) && m.linkMax[z] == m.upper[z]
    ensures Repairing(LeafAdded(m, p, d, z), GrownShape(g, p, d, z), bh[z := 1], z)
  {
    var m', g' := LeafAdded(m, p, d, z), GrownShape(g, p, d, z);
    LeafAddedLinked(m, g, p, d, z);
    LeafIn(m, g, p, d, z);
    DescentCached(m0, m, g, z, p, d, way);
    SameColours(m0, m, g, bh);
    LeafHeights(m, g, bh, p, d, z);
    LeafSibling(m, g, p, d, z);
  }

  lemma LeafHeights(m: Mem, g: Shape, bh: seq<int>, p: Ptr, d: Dir, z: Ptr)
    requires Linked(m, g) && FreeSlot(m, g, p, d, z) && BlackHeights(m, g, bh, NIL, Left) && NoRedRed(m, g, NIL)
    ensures var m', g' := LeafAdded(m, p, d, z), GrownShape(g, p, d, z);
            Fits(m', g') && BlackHeights(m', g', bh[z := 1], NIL, Left) && NoRedRed(m', g', p)
  {
    var m', g' := LeafAdded(m, p, d, z), GrownShape(g, p, d, z);
    LeafFits(m, g, p, d, z);
    LeafIn(m, g, p, d, z);
    forall n | In(g', n)
      ensures BlackOk(m', bh[z := 1], n, NIL, Left)
      ensures n != p ==> RedOk(m', n)
    {
      if n != z { At(m, g, n); }
      LeafColours(m, g, bh, p, d, z, n);
    }
  }

  /** If the parent of the new leaf is red, its other child is black. */
  lemma LeafSibling(m: Mem, g: Shape, p: Ptr, d: Dir, z: Ptr)
    requires Linked(m, g) && FreeSlot(m, g, p, d, z) && NoRedRed(m, g, NIL)
    ensures var m' := LeafAdded(m, p, d, z);
            m'.Sized() && (m'.red[p] ==> !m'.red[if m'.left[p] == z then m'.right[p] else m'.left[p]])
  {
    assert RedOk(m, p);
    At(m, g, p);
    assert LeafAdded(m, p, d, z).left[p] == z ==> LeafAdded(m, p, d, z).right[p] == m.right[p];
  }

  /** What a node outside the tree caches does not matter to the tree. */
  lemma OutsiderMax(m: Mem, g: Shape, bh: seq<int>, z: Ptr, v: nat)
    requires Sound(m, g, bh) && 0 < z < |m.left| && !In(g, z)
    ensures Sound(m.SetMax(z, v), g, bh)
  {
    var m' := m.SetMax(z, v);
    LinkedSameLinks(m, m', g);
    SameColours(m, m', g, bh);
    forall n | In(g, n) ensures MaxOk(m', n) {
      At(m, g, n);
      assert MaxOk(m, n);
    }
  }

  /** The first node of an empty tree. */
  lemma FirstNode(m: Mem, g: Shape, bh: seq<int>, z: Ptr)
    requires Sound(m, g, bh) && g.ord == [] && 0 < z < |m.left|
    ensures var m' := m.SetPar(z, NIL).SetRed(z, false).SetChild(Left, z, NIL).SetChild(Right, z, NIL).(root := z);
            var g' := Shape([z], g.lo[z := 0], g.pos[z := 0], g.hi[z := 1]);
            && m'.Sized()
            && Sound(m'.Reordered(z), g', bh[z := 1])
  {
  }

  /** The state of the loop of `uivalt_insert`, on its way to a slot for `z`. */
  ghost predicate Walking(m0: Mem, m: Mem, g: Shape, z: Ptr, p: Ptr, d: Dir, way: set<Ptr>) {
    && m.Sized() && 0 < z < |m.left| && m.linkMax[z] == m.upper[z] && !In(g, z)
    && Descent(m0, m, g, m.upper[z], p, d, way)
    && Sorted(m, g) && SlotSorted(m, g, p, d, m.lower[z])
    && (p != NIL ==> In(g, p))
  }

  /** What is left of the order between the bounds of the slot; it shrinks with every step down. */
  ghost function SlotSize(g: Shape, p: Ptr, d: Dir): int
    requires 0 <= p < |g.lo| && p < |g.pos| && p < |g.hi|
  {
    if p == NIL then 1 + |g.ord| else SlotHi(g, p, d) - SlotLo(g, p, d)
  }

  lemma WalkStep(m0: Mem, m: Mem, g: Shape, z: Ptr, p: Ptr, d: Dir, way: set<Ptr>, cur: Ptr)
    requires Walking(m0, m, g, z, p, d, way) && cur == Here(m, p, d) && cur != NIL
    ensures 0 < cur < |m.left|
    ensures var e := if m.lower[z] < m.lower[cur] then Left else Right;
            && Walking(m0, m.SetMax(cur, Max(m.upper[z], m.linkMax[cur])), g, z, cur, e, way + {cur})
            && 0 <= SlotSize(g, cur, e) < SlotSize(g, p, d)
  {
    SlotStep(m, g, p, d, cur, m.lower[z]);
    var e := if m.lower[z] < m.lower[cur] then Left else Right;
    DescentStep(m0, m, g, m.upper[z], p, d, way, cur, e);
  }

  lemma WalkEnd(m0: Mem, m: Mem, g: Shape, bh: seq<int>, z: Ptr, p: Ptr, d: Dir, way: set<Ptr>)
    requires Sound(m0, g, bh) && Walking(m0, m, g, z, p, d, way) && p != NIL && m.Child(d, p) == NIL
    ensures 0 <= SlotLo(g, p, d) == SlotHi(g, p, d) <= |g.ord|
    ensures Repairing(LeafAdded(m, p, d, z), GrownShape(g, p, d, z), bh[z := 1], z)
    ensures Sorted(LeafAdded(m, p, d, z), GrownShape(g, p, d, z))
  {
    At(m, g, p);
    LeafRepairing(m0, m, g, bh, z, p, d, way);
    LeafSorted(m, g, p, d, z);
  }
}
