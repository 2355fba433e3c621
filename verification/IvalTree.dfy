/**
  The interval tree itself: the methods of crust/ival.h and crust/rb_tree.c, statement
  by statement, over the node memory of `RbMem`.
 */
module IvalTree {
  import opened Arith
  import opened RbMem
  import opened RbRotate
  import opened RbColour
  import opened RbInsert
  import opened RbLeaf
  import opened RbSplice
  import opened RbDelete
  import opened RbRebalance
  import opened RbSearch

  class Tree {
    var m: Mem
    ghost var g: Shape
    ghost var bh: seq<int>

    /** Every structural invariant: one binary tree, sorted, red-black, with exact cached maxima. */
    ghost predicate Valid()
      reads this
    {
      Sound(m, g, bh) && Sorted(m, g)
    }

    /** `rb_tree_init`: an empty tree over a pool of intervals, node `i + 1` for the i-th of them. */
    constructor (lower: seq<nat>, upper: seq<nat>)
      requires |lower| == |upper|
      ensures Valid() && Nodes() == []
      ensures m.lower == [0] + lower && m.upper == [0] + upper && |m.left| == |lower| + 1
    {
      var blank := seq(|lower| + 1, _ => NIL);
      m := Mem(blank, blank, blank, seq(|lower| + 1, _ => false), [0] + lower, [0] + upper,
               seq(|lower| + 1, _ => 0), NIL);
      g := Shape([], blank, blank, blank);
      bh := blank;
    }

    /** The nodes in the tree, from left to right. */
    ghost function Nodes(): seq<Ptr>
      reads this
    {
      g.ord
    }

    /** `rotate(rbt, x, dir)`. */
    method Rotate(x: Ptr, dir: Dir)
      requires m.Sized() && 0 < x < |m.left| && Apart(m, x, dir)
      modifies this`m
      ensures m == Rotated(old(m), x, dir)
    {
      ghost var m0 := m;
      RotatedLinksTurned(m, x, dir);
      var y := m.Child(Flip(dir), x);
      m := m.SetChild(Flip(dir), x, m.Child(dir, y));
      if m.Child(Flip(dir), x) != NIL {
        m := m.SetPar(m.Child(Flip(dir), x), x);
      }
      m := m.SetPar(y, m.par[x]);
      if m.par[x] != NIL {
        if m.Child(dir, m.par[x]) == x {
          m := m.SetChild(dir, m.par[x], y);
        } else {
          m := m.SetChild(Flip(dir), m.par[x], y);
        }
      } else {
        m := m.(root := y);
      }
      m := m.SetChild(dir, y, x);
      m := m.SetPar(x, y);
      assert m == RotatedLinks(m0, x, dir);
      m := m.Reordered(x);
      m := m.Reordered(y);
    }

    /** The red-uncle case of `rb_tree_insert_rebalance`. */
    method RecolourUp(x0: Ptr, ghost dir: Dir, u: Ptr) returns (x: Ptr)
      requires Repairing(m, g, bh, x0) && RedPair(m, g, x0, dir)
      requires u == m.Child(Flip(dir), m.par[m.par[x0]]) && m.red[u]
      modifies this`m, this`bh
      ensures Repairing(m, g, bh, x)
      ensures m == old(m).(red := m.red) && x == old(m.par[m.par[x0]])
    {
      RecolouredRepairing(m, g, bh, x0, dir);
      m := m.SetRed(m.par[x0], false);
      m := m.SetRed(u, false);
      m := m.SetRed(m.par[m.par[x0]], true);
      x := m.par[m.par[x0]];
      bh := bh[x := bh[x] + 1];
    }

    /** The inner-child case: the parent becomes the outer child of `x0`. */
    method TurnOutwards(x0: Ptr, dir: Dir) returns (x: Ptr)
      requires Repairing(m, g, bh, x0) && RedPair(m, g, x0, dir)
      requires m.Child(Flip(dir), m.par[x0]) == x0
      requires !m.red[m.Child(Flip(dir), m.par[m.par[x0]])]
      modifies this`m, this`g
      ensures Repairing(m, g, bh, x) && RedPair(m, g, x, dir)
      ensures m.Child(dir, m.par[x]) == x
      ensures !m.red[m.Child(Flip(dir), m.par[m.par[x]])]
      ensures g.ord == old(g.ord) && m.lower == old(m.lower) && m.upper == old(m.upper)
    {
      InnerRepairing(m, g, bh, x0, dir);
      x := m.par[x0];
      g := TurnedShape(m, g, x, dir);
      RotatedKeys(m, x, dir);
      Rotate(x, dir);
    }

    /** The outer-child case, after which the parent of `x` is black. */
    method TurnDown(x: Ptr, dir: Dir)
      requires Repairing(m, g, bh, x) && RedPair(m, g, x, dir)
      requires m.Child(dir, m.par[x]) == x && !m.red[m.Child(Flip(dir), m.par[m.par[x]])]
      modifies this`m, this`g
      ensures Repairing(m, g, bh, x) && !m.red[m.par[x]]
      ensures g.ord == old(g.ord) && m.lower == old(m.lower) && m.upper == old(m.upper)
    {
      OuterRepairing(m, g, bh, x, dir);
      g := TurnedShape(m, g, m.par[m.par[x]], Flip(dir));
      m := m.SetRed(m.par[x], false);
      m := m.SetRed(m.par[m.par[x]], true);
      RotatedKeys(m, m.par[m.par[x]], Flip(dir));
      Rotate(m.par[m.par[x]], Flip(dir));
    }

    /** `rb_tree_insert_rebalance(rbt, x0)`. */
    method InsertRebalance(x0: Ptr)
      requires Repairing(m, g, bh, x0)
      modifies this
      ensures Sound(m, g, bh)
      ensures g.ord == old(g.ord) && m.lower == old(m.lower) && m.upper == old(m.upper)
    {
      var x := x0;
      while m.red[m.par[x]]
        invariant Repairing(m, g, bh, x)
        invariant g.ord == old(g.ord) && m.lower == old(m.lower) && m.upper == old(m.upper)
        decreases if m.red[m.par[x]] then 1 + |g.ord| - (g.hi[x] - g.lo[x]) else 0
      {
        ghost var d := FindPair(m, g, bh, x);
        var dir := if m.par[x] == m.left[m.par[m.par[x]]] then Left else Right;
        var u := m.Child(Flip(dir), m.par[m.par[x]]);
        if m.red[u] {
          x := RecolourUp(x, dir, u);
        } else {
          if x == m.Child(Flip(dir), m.par[x]) {
            x := TurnOutwards(x, dir);
          }
          TurnDown(x, dir);
        }
      }
      BlackRoot(m, g, bh, x);
      m := m.SetRed(m.root, false);
    }

    /** `rb_tree_insert_root(rbt, z, uivalt_update_link_max)`. */
    method InsertRoot(z: Ptr)
      requires Valid() && Nodes() == [] && 0 < z < |m.left|
      modifies this
      ensures Valid() && Nodes() == [z]
      ensures m.lower == old(m.lower) && m.upper == old(m.upper)
    {
      FirstNode(m, g, bh, z);
      m := m.SetPar(z, NIL);
      m := m.SetRed(z, false);
      m := m.SetChild(Left, z, NIL);
      m := m.SetChild(Right, z, NIL);
      m := m.(root := z);
      m := m.Reordered(m.root);
      g := Shape([z], g.lo[z := 0], g.pos[z := 0], g.hi[z := 1]);
      bh := bh[z := 1];
    }

    /** The loop of `uivalt_insert`: down to the slot for `z`, raising the cached maxima on the way. */
    method WalkDown(z: Ptr) returns (p: Ptr, d: Dir, ghost way: set<Ptr>)
      requires Walking(m, m, g, z, NIL, Left, {}) && m.root != NIL
      modifies this`m
      ensures Walking(old(m), m, g, z, p, d, way) && p != NIL && m.Child(d, p) == NIL
    {
      way := {};
      p, d := NIL, Left;
      var cur := m.root;
      while cur != NIL
        invariant Walking(old(m), m, g, z, p, d, way)
        invariant cur == Here(m, p, d) && (p == NIL ==> cur != NIL)
        decreases SlotSize(g, p, d)
      {
        WalkStep(old(m), m, g, z, p, d, way, cur);
        m := m.SetMax(cur, Max(m.upper[z], m.linkMax[cur]));
        way := way + {cur};
        p := cur;
        if m.lower[z] < m.lower[cur] {
          cur, d := m.Child(Left, cur), Left;
        } else {
          cur, d := m.Child(Right, cur), Right;
        }
      }
    }

    /** `rb_tree_insert(rbt, p, z, &p->c[d])`. */
    method InsertLeaf(p: Ptr, d: Dir, z: Ptr)
      requires m.Sized() && 0 < p < |m.left| && 0 < z < |m.left|
      modifies this`m
      ensures m == LeafAdded(old(m), p, d, z)
    {
      m := m.SetPar(z, p);
      m := m.SetRed(z, true);
      m := m.SetChild(Left, z, NIL);
      m := m.SetChild(Right, z, NIL);
      m := m.SetChild(d, p, z);
    }

    /**
      `uivalt_insert(ivt, z)`: afterwards the tree holds the nodes it held and `z`, which
      stands behind every node with the same or a smaller lower bound.
     */
    method Insert(z: Ptr) returns (ghost q: nat)
      requires Valid() && 0 < z < |m.left| && !In(g, z)
      modifies this
      ensures Valid()
      ensures m.lower == old(m.lower) && m.upper == old(m.upper)
      ensures q <= |old(Nodes())| && Nodes() == old(Nodes())[..q] + [z] + old(Nodes())[q..]
      ensures forall i | 0 <= i < q :: m.lower[old(Nodes())[i]] <= m.lower[z]
      ensures forall i | q <= i < |old(Nodes())| :: m.lower[z] < m.lower[old(Nodes())[i]]
    {
      OutsiderMax(m, g, bh, z, m.upper[z]);
      m := m.SetMax(z, m.upper[z]);
      if m.root == NIL {
        InsertRoot(z);
        q := 0;
      } else {
        q := InsertBelow(z);
      }
    }

    /** The insertion into a tree that is not empty. */
    method InsertBelow(z: Ptr) returns (ghost q: nat)
      requires Valid() && 0 < z < |m.left| && !In(g, z) && m.linkMax[z] == m.upper[z] && m.root != NIL
      modifies this
      ensures Valid()
      ensures m.lower == old(m.lower) && m.upper == old(m.upper)
      ensures q <= |old(Nodes())| && Nodes() == old(Nodes())[..q] + [z] + old(Nodes())[q..]
      ensures forall i | 0 <= i < q :: m.lower[old(Nodes())[i]] <= m.lower[z]
      ensures forall i | q <= i < |old(Nodes())| :: m.lower[z] < m.lower[old(Nodes())[i]]
    {
      ghost var m0 := m;
      var p, d, way := WalkDown(z);
      WalkEnd(m0, m, g, bh, z, p, d, way);
      q := SlotLo(g, p, d);
      InsertLeaf(p, d, z);
      g, bh := GrownShape(g, p, d, z), bh[z := 1];
      InsertRebalance(z);
    }

    // -------------------------------------------------------------- deletion

    /** `replace_node(rbt, x, y)`. */
    method ReplaceNode(x: Ptr, y: Ptr)
      requires m.Sized() && 0 < x < |m.left| && 0 <= y < |m.left|
      modifies this`m
      ensures m == Replaced(old(m), x, y)
    {
      if m.par[x] == NIL {
        m := m.(root := y);
      } else if m.right[m.par[x]] == x {
        m := m.SetChild(Right, m.par[x], y);
      } else {
        m := m.SetChild(Left, m.par[x], y);
      }
      m := m.SetPar(y, m.par[x]);
    }

    /** `node_min(rbt, x)`: the node that comes first in the subtree of `x`. */
    method NodeMin(x: Ptr) returns (z: Ptr)
      requires Linked(m, g) && In(g, x)
      ensures In(g, z) && m.left[z] == NIL && g.pos[z] == g.lo[x]
      ensures z == x || (In(g, m.par[z]) && m.left[m.par[z]] == z && Within(g, x, m.par[z]))
    {
      z := x;
      At(m, g, x);
      while m.left[z] != NIL
        invariant In(g, z) && g.lo[z] == g.lo[x] && g.hi[z] <= g.hi[x]
        invariant z == x || (In(g, m.par[z]) && m.left[m.par[z]] == z && Within(g, x, m.par[z]))
        decreases g.hi[z] - g.lo[z]
      {
        At(m, g, z);
        At(m, g, m.left[z]);
        z := m.left[z];
      }
      At(m, g, z);
    }

    /** The statements that take the successor `z` of `x` out of its old place. */
    method DetachSuccessor(x: Ptr, z: Ptr)
      requires m.Sized() && 0 < x < |m.left| && 0 < z < |m.left|
      modifies this`m
      ensures m == SuccessorDetached(old(m), x, z)
    {
      var y := m.right[z];
      if m.par[z] == x {
        m := m.SetPar(y, z);
      } else {
        ReplacedSized(m, z, y);
        ReplaceNode(z, m.right[z]);
        m := m.SetChild(Right, z, m.right[x]);
        m := m.SetPar(m.right[z], z);
      }
    }

    /** The statements of `rb_tree_delete` for a node with two children. */
    method MoveSuccessor(x: Ptr, z: Ptr)
      requires m.Sized() && 0 < x < |m.left| && 0 < z < |m.left|
      modifies this`m
      ensures m == SuccessorMoved(old(m), x, z)
    {
      DetachedSized(m, x, z);
      DetachSuccessor(x, z);
      ReplacedSized(m, x, z);
      ReplaceNode(x, z);
      m := m.SetChild(Left, z, m.left[x]);
      m := m.SetPar(m.left[z], z);
      m := m.SetRed(z, m.red[x]);
    }

    /** Case 1 of `rebalance_delete`: afterwards the sibling of `x` is black. */
    method LiftSibling(x: Ptr, ghost hp: Ptr, hd: Dir)
      requires Sibling(m, g, bh, x, hp, hd) && m.red[m.Child(Flip(hd), hp)]
      modifies this`m, this`g
      ensures Sibling(m, g, bh, x, hp, hd) && !m.red[m.Child(Flip(hd), hp)]
      ensures LackSize(g, hp, hd) == old(LackSize(g, hp, hd))
      ensures g.ord == old(g.ord) && m.lower == old(m.lower) && m.upper == old(m.upper)
    {
      ghost var m0, g0 := m, g;
      RedSibling(m0, g0, bh, x, hp, hd);
      var p := m.par[x];
      var s := m.Child(Flip(hd), p);
      m := m.SetRed(p, true);
      m := m.SetRed(s, false);
      Rotate(p, hd);
      g := TurnedShape(m0, g0, hp, hd);
    }

    /** The first conditional of the loop. */
    method BlackenSibling(x: Ptr, ghost hp: Ptr, hd: Dir)
      requires Sibling(m, g, bh, x, hp, hd)
      modifies this`m, this`g
      ensures Sibling(m, g, bh, x, hp, hd) && !m.red[m.Child(Flip(hd), hp)]
      ensures LackSize(g, hp, hd) == old(LackSize(g, hp, hd))
      ensures g.ord == old(g.ord) && m.lower == old(m.lower) && m.upper == old(m.upper)
    {
      if m.red[m.Child(Flip(hd), m.par[x])] {
        LiftSibling(x, hp, hd);
      }
    }

    /** Case 2: the lack moves up to the parent of `x0`. */
    method PushUpLack(x0: Ptr, ghost hp0: Ptr, hd0: Dir) returns (x: Ptr, ghost hp: Ptr, ghost hd: Dir)
      requires Sibling(m, g, bh, x0, hp0, hd0)
      requires var s := m.Child(Flip(hd0), hp0); !m.red[s] && !m.red[m.left[s]] && !m.red[m.right[s]]
      modifies this`m, this`bh
      ensures Lacking(m, g, bh, x, hp, hd) && old(LackSize(g, hp0, hd0)) < LackSize(g, hp, hd)
      ensures m.lower == old(m.lower) && m.upper == old(m.upper)
    {
      ghost var m0 := m;
      var s := m.Child(Flip(hd0), m.par[x0]);
      m := m.SetRed(s, true);
      m := m.Reordered(x0);
      x := m.par[x0];
      hp := m0.par[hp0];
      hd := PushedUp(m0, g, bh, x0, hp0, hd0, m);
      bh := bh[hp0 := bh[hp0] - 1];
    }

    /** Case 3: afterwards the far nephew of `x` is red. */
    method TurnNephew(x: Ptr, ghost hp: Ptr, hd: Dir)
      requires Sibling(m, g, bh, x, hp, hd)
      requires var s := m.Child(Flip(hd), hp); !m.red[s] && m.red[m.Child(hd, s)] && !m.red[m.Child(Flip(hd), s)]
      modifies this`m, this`g
      ensures Sibling(m, g, bh, x, hp, hd)
      ensures var s := m.Child(Flip(hd), hp); !m.red[s] && m.red[m.Child(Flip(hd), s)]
      ensures g.ord == old(g.ord) && m.lower == old(m.lower) && m.upper == old(m.upper)
    {
      ghost var m0, g0 := m, g;
      NearNephew(m0, g0, bh, x, hp, hd);
      var s := m.Child(Flip(hd), m.par[x]);
      m := m.SetRed(s, true);
      m := m.SetRed(m.Child(hd, s), false);
      Rotate(s, Flip(hd));
      g := TurnedShape(m0, g0, s, Flip(hd));
    }

    /** Case 4: the missing black is there. */
    method SupplyBlack(x: Ptr, ghost hp: Ptr, hd: Dir)
      requires Sibling(m, g, bh, x, hp, hd)
      requires var s := m.Child(Flip(hd), hp); !m.red[s] && m.red[m.Child(Flip(hd), s)]
      modifies this
      ensures Cut(m, g, x, hp, hd) && Coloured(m, g, bh)
      ensures g.ord == old(g.ord) && m.lower == old(m.lower) && m.upper == old(m.upper)
    {
      var p := m.par[x];
      var s := m.Child(Flip(hd), p);
      FarNephew(m, g, bh, x, hp, hd);
      bh := FarHeights(m, bh, p, hd);
      g := TurnedShape(m, g, p, hd);
      m := m.SetRed(s, m.red[p]);
      m := m.SetRed(p, false);
      m := m.SetRed(m.Child(Flip(hd), s), false);
      RotatedKeys(m, p, hd);
      Rotate(p, hd);
    }

    /** Cases 3 and 4, which end the loop. */
    method BorrowBlack(x: Ptr, ghost hp: Ptr, hd: Dir)
      requires Sibling(m, g, bh, x, hp, hd)
      requires var s := m.Child(Flip(hd), hp); !m.red[s] && (m.red[m.left[s]] || m.red[m.right[s]])
      modifies this
      ensures Cut(m, g, x, hp, hd) && Coloured(m, g, bh)
      ensures g.ord == old(g.ord) && m.lower == old(m.lower) && m.upper == old(m.upper)
    {
      var s := m.Child(Flip(hd), m.par[x]);
      if !m.red[m.Child(Flip(hd), s)] {
        TurnNephew(x, hp, hd);
      }
      SupplyBlack(x, hp, hd);
      assert m.red[m.root := false] == m.red;
      m := m.SetRed(m.root, false);
    }

    /** The end of the loop: a red node, or the root, takes the missing black. */
    method BlackenTop(x: Ptr, ghost hp: Ptr, ghost hd: Dir)
      requires Lacking(m, g, bh, x, hp, hd) && (m.root == x || m.red[x])
      modifies this`m
      ensures Cut(m, g, x, hp, hd) && Coloured(m, g, bh)
      ensures m.lower == old(m.lower) && m.upper == old(m.upper)
    {
      Blackened(m, g, bh, x, hp, hd);
      m := m.SetRed(x, false);
    }

    /** One round of the loop of `rebalance_delete`; it is `done` when the missing black is there. */
    method Round(x0: Ptr, ghost hp0: Ptr, dir: Dir) returns (done: bool, x: Ptr, ghost hp: Ptr, ghost hd: Dir)
      requires Sibling(m, g, bh, x0, hp0, dir)
      modifies this
      ensures done ==> Cut(m, g, x, hp, hd) && Coloured(m, g, bh)
      ensures !done ==> Lacking(m, g, bh, x, hp, hd) && old(LackSize(g, hp0, dir)) < LackSize(g, hp, hd)
      ensures g.ord == old(g.ord) && m.lower == old(m.lower) && m.upper == old(m.upper)
    {
      BlackenSibling(x0, hp0, dir);
      var s := m.Child(Flip(dir), m.par[x0]);
      done := m.red[m.left[s]] || m.red[m.right[s]];
      if !done {
        x, hp, hd := PushUpLack(x0, hp0, dir);
      } else {
        x, hp, hd := x0, hp0, dir;
        BorrowBlack(x, hp, dir);
      }
    }

    /** `rebalance_delete(rbt, x0)`. */
    method RebalanceDelete(x0: Ptr, ghost hp0: Ptr, ghost hd0: Dir) returns (x: Ptr, ghost hp: Ptr, ghost hd: Dir)
      requires Lacking(m, g, bh, x0, hp0, hd0)
      modifies this
      ensures Cut(m, g, x, hp, hd) && Coloured(m, g, bh)
      ensures g.ord == old(g.ord) && m.lower == old(m.lower) && m.upper == old(m.upper)
    {
      x, hp, hd := x0, hp0, hd0;
      while m.root != x && !m.red[x]
        invariant Lacking(m, g, bh, x, hp, hd)
        invariant g.ord == old(g.ord) && m.lower == old(m.lower) && m.upper == old(m.upper)
        decreases |g.ord| - LackSize(g, hp, hd)
      {
        FindSibling(m, g, bh, x, hp, hd);
        var dir := if x == m.left[m.par[x]] then Left else Right;
        var done;
        done, x, hp, hd := Round(x, hp, dir);
        if done {
          return;
        }
      }
      BlackenTop(x, hp, hd);
    }

    /** `rb_tree_delete` for a node with one child `y` at most. */
    method TakeOutSingle(x: Ptr, y: Ptr) returns (ghost hp: Ptr, ghost hd: Dir)
      requires Valid() && Spliceable(m, g, x) && y == OnlyChild(m, x)
      modifies this`m, this`g
      ensures CutColours(m, g, bh, y, hp, hd, old(!m.red[x])) && old(m.red[x] ==> y == NIL && hp != NIL)
      ensures g.ord == ClosedShape(old(g), old(g.pos[x])).ord
      ensures m.lower == old(m.lower) && m.upper == old(m.upper)
    {
      hp := m.par[x];
      hd := SingleOut(m, g, bh, x);
      g := ClosedShape(g, g.pos[x]);
      ReplaceNode(x, y);
    }

    /** `rb_tree_delete` for a node with two children: its successor `z` takes its place. */
    method TakeOutDouble(x: Ptr, z: Ptr) returns (ghost hp: Ptr, ghost hd: Dir)
      requires Valid() && SuccessorOf(m, g, x, z)
      modifies this
      ensures CutColours(m, g, bh, old(m.right[z]), hp, hd, old(!m.red[z]))
      ensures old(m.red[z] ==> m.right[z] == NIL && hp != NIL)
      ensures g.ord == ClosedShape(old(g), old(g.pos[x])).ord
      ensures m.lower == old(m.lower) && m.upper == old(m.upper)
    {
      hp, hd := Swapped(m.par[z], x, z), if m.par[z] == x then Right else Left;
      MovedCut(m, g, bh, x, z);
      MovedOrd(m, g, x, z);
      RedLeaf(m, g, bh, z);
      MovedKeys(m, g, x, z);
      ghost var g', bh' := RenamedShape(ClosedShape(g, g.pos[z]), x, z), bh[z := bh[x]];
      MoveSuccessor(x, z);
      g, bh := g', bh';
    }

    /** `rb_tree_delete` up to the rebalancing: `y` now stands where the tree was cut. */
    method TakeOut(x: Ptr) returns (y: Ptr, black: bool, ghost hp: Ptr, ghost hd: Dir)
      requires Valid() && In(g, x)
      modifies this
      ensures CutColours(m, g, bh, y, hp, hd, black) && (!black ==> y == NIL && hp != NIL)
      ensures g.ord == ClosedShape(old(g), old(g.pos[x])).ord
      ensures m.lower == old(m.lower) && m.upper == old(m.upper)
    {
      At(m, g, x);
      if m.left[x] == NIL {
        y, black := m.right[x], !m.red[x];
        hp, hd := TakeOutSingle(x, m.right[x]);
      } else if m.right[x] == NIL {
        y, black := m.left[x], !m.red[x];
        hp, hd := TakeOutSingle(x, m.left[x]);
      } else {
        var z := NodeMin(m.right[x]);
        SuccessorFound(m, g, x, z);
        y, black := m.right[z], !m.red[z];
        hp, hd := TakeOutDouble(x, z);
      }
    }

    /** The final loop of `rb_tree_delete`: from `y0` to the root, recomputing every maximum on the way. */
    method WalkToRoot(y0: Ptr)
      requires Linked(m, g) && Coloured(m, g, bh) && 0 <= y0 < |m.left|
      requires var a := if y0 == NIL then m.par[NIL] else y0; CachedBelow(m, g, a) && (a != NIL ==> In(g, a))
      modifies this`m
      ensures Sound(m, g, bh)
      ensures m.lower == old(m.lower) && m.upper == old(m.upper)
    {
      if y0 != NIL { WalkUp(m, g, bh, y0); }
      m := m.Reordered(y0);
      var y := m.par[y0];
      while y != NIL
        invariant Linked(m, g) && Coloured(m, g, bh) && 0 <= y < |m.left| && CachedBelow(m, g, y)
        invariant y != NIL ==> In(g, y)
        invariant m.lower == old(m.lower) && m.upper == old(m.upper)
        decreases if y == NIL then 0 else 1 + |g.ord| - (g.hi[y] - g.lo[y])
      {
        At(m, g, y);
        WalkUp(m, g, bh, y);
        if m.par[y] != NIL { At(m, g, m.par[y]); }
        m := m.Reordered(y);
        y := m.par[y];
      }
    }

    /** `uivalt_delete(ivt, x)`: afterwards the tree holds the other nodes, in the order they had. */
    method Delete(x: Ptr)
      requires Valid() && In(g, x)
      modifies this
      ensures Valid()
      ensures m.lower == old(m.lower) && m.upper == old(m.upper)
      ensures old(Nodes())[old(g.pos[x])] == x
      ensures Nodes() == old(Nodes())[..old(g.pos[x])] + old(Nodes())[old(g.pos[x]) + 1..]
    {
      ghost var m0, g0 := m, g;
      var y, black, hp, hd := TakeOut(x);
      Settle(y, black, hp, hd);
      ClosedSorted(m0, m, g0, g, x);
    }

    /** `rb_tree_delete` once the node is out. */
    method Settle(y0: Ptr, black: bool, ghost hp0: Ptr, ghost hd0: Dir)
      requires CutColours(m, g, bh, y0, hp0, hd0, black) && (!black ==> y0 == NIL && hp0 != NIL)
      modifies this
      ensures Sound(m, g, bh) && g.ord == old(g.ord) && m.lower == old(m.lower) && m.upper == old(m.upper)
    {
      var y := y0;
      ghost var hp, hd := hp0, hd0;
      if black {
        y, hp, hd := RebalanceDelete(y, hp, hd);
      } else {
        y := m.par[y];
      }
      WalkToRoot(y);
    }

    // -------------------------------------------------------------- search

    /** The intervals of the tree that overlap the query, in the order of the search. */
    ghost function Overlapping(lower: nat, upper: nat): seq<Ptr>
      requires Valid()
      reads this
    {
      Hits(m, g, m.root, lower, upper)
    }

    /** The overlapping intervals still to come after the match `last`, or all of them if there is none. */
    ghost function Remaining(last: Ptr, lower: nat, upper: nat): seq<Ptr>
      requires Valid() && (last == NIL || In(g, last))
      reads this
    {
      if last == NIL then Overlapping(lower, upper) else After(m, g, last, lower, upper)
    }

    /** The loop of `uivalt_intersect` that climbs from the finished subtree of `x` to the next one worth a look. */
    method Climb(x: Ptr, lower: nat, upper: nat) returns (cur: Ptr)
      requires Valid() && In(g, x) && m.right[x] == NIL
      ensures In(g, cur)
      ensures if cur == m.root then Later(m, g, x, lower, upper) == [] else (
                && Ahead(m, g, cur) <= LaterCount(m, g, x)
                && Hits(m, g, cur, lower, upper) + Later(m, g, cur, lower, upper) == Later(m, g, x, lower, upper))
    {
      At(m, g, x);
      cur := NIL;
      var p := x;
      while p != NIL
        invariant cur == NIL ==> p == x
        invariant cur != NIL ==> In(g, cur) && p == m.par[cur]
        invariant cur != NIL ==> Later(m, g, cur, lower, upper) == Later(m, g, x, lower, upper)
        invariant cur != NIL ==> LaterCount(m, g, cur) <= LaterCount(m, g, x) && SpanOk(g, cur)
        decreases if cur == NIL then 1 + |g.ord| else |g.ord| - Size(m, g, cur)
      {
        if cur != NIL { GoUp(m, g, cur, lower, upper); }
        var r := m.right[p];
        if cur == m.left[p] && r != NIL && m.linkMax[r] >= lower && m.lower[p] <= upper {
          cur := r;
          return;
        }
        At(m, g, p);
        cur := p;
        p := m.par[p];
      }
      At(m, g, cur);
    }

    /**
      `uivalt_intersect(ivt, iv, last)`: the next overlapping interval after `last`, or the
      first one if `last` is null; null if there is none.
     */
    method Intersect(lower: nat, upper: nat, last: Ptr) returns (cur: Ptr)
      requires Valid() && (last == NIL || In(g, last))
      ensures cur == First(Remaining(last, lower, upper))
      ensures cur != NIL ==> In(g, cur)
    {
      cur := if last != NIL then last else m.root;
      while cur != NIL
        invariant cur == NIL || In(g, cur)
        invariant last == NIL ==> First(Hits(m, g, cur, lower, upper)) == First(Remaining(last, lower, upper))
        invariant last != NIL ==>
          cur != NIL && Goal(m, g, cur, last, lower, upper) == First(Remaining(last, lower, upper))
        invariant last != NIL ==> cur == last || Ahead(m, g, cur) < Ahead(m, g, last)
        decreases if cur == NIL then 0 else Ahead(m, g, cur)
      {
        At(m, g, cur);
        if cur != last && Overlaps(m, cur, lower, upper) {
          return;
        }
        var x := cur;
        if last == NIL { FirstDown(m, g, cur, lower, upper); } else { GoDown(m, g, cur, last, lower, upper); }
        if m.left[cur] != NIL && m.linkMax[m.left[cur]] >= lower {
          cur := m.left[cur];
        } else {
          cur := m.right[cur];
        }
        if cur == NIL && last != NIL {
          cur := Climb(x, lower, upper);
          if cur == m.root {
            break;
          }
        }
      }
      cur := NIL;
    }

    /**
      Calling `uivalt_intersect` with null and then with each match in turn, as
      `actf_mappings_find_uint` does with its iterator.
     */
    method Enumerate(lower: nat, upper: nat) returns (s: seq<Ptr>)
      requires Valid()
      ensures s == Overlapping(lower, upper)
    {
      ghost var all := Overlapping(lower, upper);
      HitsAreNodes(m, g, lower, upper);
      s := [];
      var last := Intersect(lower, upper, NIL);
      while last != NIL
        invariant |s| <= |all| && s == all[..|s|] && last == First(all[|s|..])
        decreases |all| - |s|
      {
        AfterHit(m, g, |s|, lower, upper);
        s := s + [last];
        last := Intersect(lower, upper, last);
      }
    }
  }
}
