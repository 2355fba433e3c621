/**
  What the resumable search `uivalt_intersect` has to return: the intervals that overlap
  the query in the order root, left subtree, right subtree.
 */
module RbSearch {
  import opened RbMem
  import opened RbColour

  /** `uival_intersects`. */
  predicate Overlaps(m: Mem, n: Ptr, lower: nat, upper: nat)
    requires 0 <= n < |m.lower| && n < |m.upper|
  {
    m.lower[n] <= upper && lower <= m.upper[n]
  }

  ghost function Own(m: Mem, n: Ptr, lower: nat, upper: nat): seq<Ptr>
    requires 0 <= n < |m.lower| && n < |m.upper|
  {
    if Overlaps(m, n, lower, upper) then [n] else []
  }

  ghost function Size(m: Mem, g: Shape, n: Ptr): int
    requires Linked(m, g) && (n == NIL || In(g, n))
  {
    if n == NIL then 0 else g.hi[n] - g.lo[n]
  }

  /** The overlapping intervals of the subtree of `n`. */
  ghost function Hits(m: Mem, g: Shape, n: Ptr, lower: nat, upper: nat): seq<Ptr>
    requires Linked(m, g) && (n == NIL || In(g, n))
    decreases Size(m, g, n)
  {
    if n == NIL then [] else
      At(m, g, n);
      Own(m, n, lower, upper) + Hits(m, g, m.left[n], lower, upper) + Hits(m, g, m.right[n], lower, upper)
  }

  /** The overlapping intervals that come after the subtree of `n`. */
  ghost function Later(m: Mem, g: Shape, n: Ptr, lower: nat, upper: nat): seq<Ptr>
    requires Linked(m, g) && In(g, n)
    decreases |g.ord| - Size(m, g, n)
  {
    At(m, g, n);
    if n == m.root then [] else
      var p := m.par[n];
      At(m, g, p);
      if m.left[p] == n then Hits(m, g, m.right[p], lower, upper) + Later(m, g, p, lower, upper)
      else Later(m, g, p, lower, upper)
  }

  /** The overlapping intervals that come after `n` itself. */
  ghost function After(m: Mem, g: Shape, n: Ptr, lower: nat, upper: nat): seq<Ptr>
    requires Linked(m, g) && In(g, n)
  {
    At(m, g, n);
    Hits(m, g, m.left[n], lower, upper) + Hits(m, g, m.right[n], lower, upper) + Later(m, g, n, lower, upper)
  }

  /** How many nodes come after the subtree of `n`; what the search has left to do. */
  ghost function LaterCount(m: Mem, g: Shape, n: Ptr): (c: nat)
    requires Linked(m, g) && In(g, n)
    decreases |g.ord| - Size(m, g, n)
  {
    At(m, g, n);
    if n == m.root then 0 else
      var p := m.par[n];
      At(m, g, p);
      if m.left[p] == n then
        (if m.right[p] == NIL then 0 else At(m, g, m.right[p]); Size(m, g, m.right[p])) + LaterCount(m, g, p)
      else LaterCount(m, g, p)
  }

  // ---------------------------------------------------------------- the lists are exact

  ghost predicate Distinct(s: seq<Ptr>) {
    forall i, j | 0 <= i < j < |s| :: s[i] != s[j]
  }

  lemma DistinctJoin(s: seq<Ptr>, t: seq<Ptr>)
    requires Distinct(s) && Distinct(t) && forall k | k in s :: k !in t
    ensures Distinct(s + t)
  {
    forall i, j | 0 <= i < j < |s + t| ensures (s + t)[i] != (s + t)[j] {
      if i < |s| <= j { assert s[i] in s; }
    }
  }

  /** `k` is an overlapping node in the stretch from `a` to `b`. */
  ghost predicate HitIn(m: Mem, g: Shape, k: Ptr, a: int, b: int, lower: nat, upper: nat)
    requires Fits(m, g)
  {
    In(g, k) && a <= g.pos[k] < b && Overlaps(m, k, lower, upper)
  }

  /** The list of a subtree holds each overlapping node of the subtree, once, and nothing else. */
  lemma {:induction false} HitsExact(m: Mem, g: Shape, n: Ptr, lower: nat, upper: nat)
    requires Linked(m, g) && In(g, n)
    ensures forall k :: k in Hits(m, g, n, lower, upper) <==> HitIn(m, g, k, g.lo[n], g.hi[n], lower, upper)
    ensures Distinct(Hits(m, g, n, lower, upper))
    decreases Size(m, g, n)
  {
    At(m, g, n);
    var l, r := m.left[n], m.right[n];
    if l != NIL { HitsExact(m, g, l, lower, upper); }
    if r != NIL { HitsExact(m, g, r, lower, upper); }
    var hl, hr, o := Hits(m, g, l, lower, upper), Hits(m, g, r, lower, upper), Own(m, n, lower, upper);
    assert forall k :: k in o <==> HitIn(m, g, k, g.pos[n], g.pos[n] + 1, lower, upper);
    assert forall k :: k in hl <==> HitIn(m, g, k, g.lo[n], g.pos[n], lower, upper);
    assert forall k :: k in hr <==> HitIn(m, g, k, g.pos[n] + 1, g.hi[n], lower, upper);
    DistinctJoin(o, hl);
    DistinctJoin(o + hl, hr);
  }

  lemma NoMembers(s: seq<Ptr>)
    ensures (forall k :: k !in s) ==> s == []
  {
    if s != [] {
      var k := s[0];
      assert k in s;
    }
  }

  lemma NoHits(m: Mem, g: Shape, n: Ptr, lower: nat, upper: nat)
    requires Linked(m, g) && In(g, n)
    requires forall i | g.lo[n] <= i < g.hi[n] && 0 <= i < |g.ord| :: !Overlaps(m, g.ord[i], lower, upper)
    ensures Hits(m, g, n, lower, upper) == []
  {
    At(m, g, n);
    HitsExact(m, g, n, lower, upper);
    NoMembers(Hits(m, g, n, lower, upper));
  }

  // ---------------------------------------------------------------- what the cached maxima say

  /** The cached maximum is the greatest upper bound in the subtree, and one node attains it. */
  lemma {:induction false} MaxAttained(m: Mem, g: Shape, n: Ptr) returns (k: Ptr)
    requires Linked(m, g) && Cached(m, g) && In(g, n)
    ensures In(g, k) && g.lo[n] <= g.pos[k] < g.hi[n] && m.upper[k] == m.linkMax[n]
    ensures forall i | g.lo[n] <= i < g.hi[n] && 0 <= i < |g.ord| :: m.upper[g.ord[i]] <= m.linkMax[n]
    decreases Size(m, g, n)
  {
    At(m, g, n);
    assert MaxOk(m, n);
    var l, r := m.left[n], m.right[n];
    k := n;
    if l != NIL {
      var kl := MaxAttained(m, g, l);
      if m.linkMax[l] == m.linkMax[n] { k := kl; }
    }
    if r != NIL {
      var kr := MaxAttained(m, g, r);
      if m.linkMax[r] == m.linkMax[n] { k := kr; }
    }
    forall i | g.lo[n] <= i < g.hi[n] && 0 <= i < |g.ord| ensures m.upper[g.ord[i]] <= m.linkMax[n] {
      if i == g.pos[n] {
        assert g.ord[i] == n;
      }
    }
  }

  /** A subtree whose maximum is below the query holds no overlap: the search may skip it. */
  lemma PruneByMax(m: Mem, g: Shape, n: Ptr, lower: nat, upper: nat)
    requires Linked(m, g) && Cached(m, g) && (n == NIL || (In(g, n) && m.linkMax[n] < lower))
    ensures Hits(m, g, n, lower, upper) == []
  {
    if n != NIL {
      var k := MaxAttained(m, g, n);
      NoHits(m, g, n, lower, upper);
    }
  }

  /** Behind a node that starts after the query, nothing overlaps. */
  lemma PruneByLower(m: Mem, g: Shape, k: Ptr, n: Ptr, lower: nat, upper: nat)
    requires Linked(m, g) && Sorted(m, g) && In(g, k) && upper < m.lower[k]
    requires n == NIL || (In(g, n) && g.pos[k] < g.lo[n])
    ensures Hits(m, g, n, lower, upper) == []
  {
    if n != NIL {
      At(m, g, n);
      assert g.ord[g.pos[k]] == k;
      NoHits(m, g, n, lower, upper);
    }
  }

  /**
    The reason the first search need not look back: if the left subtree reaches far enough up
    for the query but holds no overlap, then the right subtree starts after the query.
   */
  lemma NoWayBack(m: Mem, g: Shape, n: Ptr, lower: nat, upper: nat)
    requires Linked(m, g) && Sorted(m, g) && Cached(m, g) && In(g, n)
    requires m.left[n] != NIL && lower <= m.linkMax[m.left[n]]
    requires In(g, m.left[n]) && Hits(m, g, m.left[n], lower, upper) == []
    requires m.right[n] == NIL || In(g, m.right[n])
    ensures Hits(m, g, m.right[n], lower, upper) == []
  {
    At(m, g, n);
    var k := MaxAttained(m, g, m.left[n]);
    HitsExact(m, g, m.left[n], lower, upper);
    assert !HitIn(m, g, k, g.lo[m.left[n]], g.hi[m.left[n]], lower, upper);
    PruneByLower(m, g, k, m.right[n], lower, upper);
  }

  // ---------------------------------------------------------------- the order of the search

  lemma Regroup(b: seq<Ptr>, o: seq<Ptr>, hl: seq<Ptr>, hr: seq<Ptr>, later: seq<Ptr>)
    ensures b + (o + hl + hr) + later == (b + o) + hl + (hr + later) == (b + o + hl) + hr + later
  {
  }

  /** Everything before the subtree of `n`, the subtree, and everything after it. */
  lemma {:induction false} HitsAround(m: Mem, g: Shape, n: Ptr, lower: nat, upper: nat) returns (before: seq<Ptr>)
    requires Linked(m, g) && In(g, n)
    ensures In(g, m.root)
    ensures Hits(m, g, m.root, lower, upper) == before + Hits(m, g, n, lower, upper) + Later(m, g, n, lower, upper)
    decreases |g.ord| - Size(m, g, n)
  {
    At(m, g, n);
    if n == m.root {
      before := [];
    } else {
      var p := m.par[n];
      At(m, g, p);
      var b := HitsAround(m, g, p, lower, upper);
      var o := Own(m, p, lower, upper);
      var hl, hr := Hits(m, g, m.left[p], lower, upper), Hits(m, g, m.right[p], lower, upper);
      var later := Later(m, g, p, lower, upper);
      if m.left[p] == n {
        before := b + o;
        Regroup(b, o, hl, hr, later);
      } else {
        before := b + o + hl;
        Regroup(b, o, hl, hr, later);
      }
    }
  }

  /** The whole list holds nodes, and none of them twice. */
  lemma HitsAreNodes(m: Mem, g: Shape, lower: nat, upper: nat)
    requires Linked(m, g)
    ensures var h := Hits(m, g, m.root, lower, upper);
            && Distinct(h) && (forall i | 0 <= i < |h| :: In(g, h[i]))
            && (forall k :: k in h <==> In(g, k) && Overlaps(m, k, lower, upper))
  {
    var h := Hits(m, g, m.root, lower, upper);
    if m.root != NIL {
      At(m, g, m.root);
      HitsExact(m, g, m.root, lower, upper);
      assert forall k :: k in h <==> HitIn(m, g, k, 0, |g.ord|, lower, upper);
      forall i | 0 <= i < |h| ensures In(g, h[i]) { assert h[i] in h; }
    }
  }

  lemma HitFirst(m: Mem, g: Shape, n: Ptr, lower: nat, upper: nat)
    requires Linked(m, g) && In(g, n) && Overlaps(m, n, lower, upper)
    ensures Hits(m, g, n, lower, upper) + Later(m, g, n, lower, upper) == [n] + After(m, g, n, lower, upper)
  {
    At(m, g, n);
    var hl, hr := Hits(m, g, m.left[n], lower, upper), Hits(m, g, m.right[n], lower, upper);
    var later := Later(m, g, n, lower, upper);
    Reassociate([n], hl, hr, later);
  }

  lemma SplitAt(h: seq<Ptr>, b: seq<Ptr>, n: Ptr, after: seq<Ptr>, i: int)
    requires Distinct(h) && h == b + ([n] + after) && 0 <= i < |h| && h[i] == n
    ensures after == h[i + 1..]
  {
    assert h[|b|] == n;
  }

  /** The list after the i-th overlapping interval is the rest of the whole list. */
  lemma AfterHit(m: Mem, g: Shape, i: int, lower: nat, upper: nat)
    requires Linked(m, g) && In(g, m.root)
    requires 0 <= i < |Hits(m, g, m.root, lower, upper)|
    ensures var h := Hits(m, g, m.root, lower, upper);
            In(g, h[i]) && After(m, g, h[i], lower, upper) == h[i + 1..]
  {
    var h := Hits(m, g, m.root, lower, upper);
    HitsExact(m, g, m.root, lower, upper);
    var n := h[i];
    assert n in h;
    var b := HitsAround(m, g, n, lower, upper);
    HitFirst(m, g, n, lower, upper);
    var own, later, after := Hits(m, g, n, lower, upper), Later(m, g, n, lower, upper), After(m, g, n, lower, upper);
    Reassociate([], b, own, later);
    SplitAt(h, b, n, after, i);
  }

  // ---------------------------------------------------------------- the steps of the search

  function First(s: seq<Ptr>): Ptr {
    if s == [] then NIL else s[0]
  }

  /** What a search standing at `cur` has to return: `last` itself does not count again. */
  ghost function Goal(m: Mem, g: Shape, cur: Ptr, last: Ptr, lower: nat, upper: nat): Ptr
    requires Linked(m, g) && In(g, cur)
  {
    if cur == last then First(After(m, g, cur, lower, upper))
    else First(Hits(m, g, cur, lower, upper) + Later(m, g, cur, lower, upper))
  }

  /** The nodes from `cur` on, in the order of the search. */
  ghost function Ahead(m: Mem, g: Shape, cur: Ptr): int
    requires Linked(m, g) && In(g, cur)
  {
    Size(m, g, cur) + LaterCount(m, g, cur)
  }

  /** The branch of the search: left if the cached maximum there reaches the query, else right. */
  function Descended(m: Mem, cur: Ptr, lower: nat): Ptr
    requires m.Sized() && 0 <= cur < |m.left|
  {
    if m.left[cur] != NIL && m.linkMax[m.left[cur]] >= lower then m.left[cur] else m.right[cur]
  }

  /** A child of `cur` has less ahead of it than `cur`. */
  lemma ChildAhead(m: Mem, g: Shape, cur: Ptr, c: Ptr)
    requires Linked(m, g) && In(g, cur) && c != NIL && (c == m.left[cur] || c == m.right[cur])
    ensures In(g, c) && Ahead(m, g, c) < Ahead(m, g, cur)
  {
    At(m, g, cur);
    At(m, g, c);
  }

  ghost predicate NoneLeft(m: Mem, g: Shape, n: Ptr, lower: nat, upper: nat)
    requires Linked(m, g) && In(g, n)
  {
    At(m, g, n);
    Hits(m, g, m.left[n], lower, upper) == []
  }

  lemma Reassociate(a: seq<Ptr>, b: seq<Ptr>, c: seq<Ptr>, d: seq<Ptr>)
    ensures a + b + c + d == a + (b + c + d) && b + c + d == b + (c + d)
    ensures a == [] ==> a + b + c == b + c
    ensures b == [] ==> b + c == c
  {
  }

  /** What comes with and after a child of `cur`, the left one being taken or without overlaps. */
  lemma ChildHits(m: Mem, g: Shape, cur: Ptr, c: Ptr, lower: nat, upper: nat)
    requires Linked(m, g) && In(g, cur) && c != NIL && In(g, c)
    requires c == m.left[cur] || (c == m.right[cur] && NoneLeft(m, g, cur, lower, upper))
    ensures Hits(m, g, c, lower, upper) + Later(m, g, c, lower, upper) == After(m, g, cur, lower, upper)
  {
    At(m, g, cur);
    At(m, g, c);
    var hl, hr := Hits(m, g, m.left[cur], lower, upper), Hits(m, g, m.right[cur], lower, upper);
    var later := Later(m, g, cur, lower, upper);
    Reassociate([], hl, hr, later);
  }

  /** Passing over `cur`, the search goes on with what comes after it. */
  lemma PassOver(m: Mem, g: Shape, cur: Ptr, last: Ptr, lower: nat, upper: nat)
    requires Linked(m, g) && In(g, cur) && (cur == last || !Overlaps(m, cur, lower, upper))
    ensures Goal(m, g, cur, last, lower, upper) == First(After(m, g, cur, lower, upper))
  {
    At(m, g, cur);
    var hl, hr := Hits(m, g, m.left[cur], lower, upper), Hits(m, g, m.right[cur], lower, upper);
    Reassociate([], hl, hr, []);
  }

  /** A node that is not returned: the search goes on below it, or after it. */
  lemma GoDown(m: Mem, g: Shape, cur: Ptr, last: Ptr, lower: nat, upper: nat)
    requires Linked(m, g) && Cached(m, g) && In(g, cur) && (cur == last || !Overlaps(m, cur, lower, upper))
    requires In(g, last) && (cur == last || Ahead(m, g, cur) < Ahead(m, g, last))
    ensures var c := Descended(m, cur, lower);
            if c == NIL then (
              && Goal(m, g, cur, last, lower, upper) == First(Later(m, g, cur, lower, upper))
              && LaterCount(m, g, cur) < Ahead(m, g, cur)
            ) else (
              && In(g, c) && Ahead(m, g, c) < Ahead(m, g, cur) && c != last
              && Goal(m, g, cur, last, lower, upper) == Goal(m, g, c, last, lower, upper)
            )
  {
    At(m, g, cur);
    var l := m.left[cur];
    var c := Descended(m, cur, lower);
    PassOver(m, g, cur, last, lower, upper);
    if c != l || l == NIL { PruneByMax(m, g, l, lower, upper); }
    if c != NIL {
      ChildAhead(m, g, cur, c);
      ChildHits(m, g, cur, c, lower, upper);
    } else {
      Reassociate([], [], [], Later(m, g, cur, lower, upper));
      assert After(m, g, cur, lower, upper) == [] + [] + Later(m, g, cur, lower, upper);
    }
  }

  /** One step of the climb: from a finished subtree to the right sibling, or to the parent. */
  lemma GoUp(m: Mem, g: Shape, cur: Ptr, lower: nat, upper: nat)
    requires Linked(m, g) && Sorted(m, g) && Cached(m, g) && In(g, cur) && m.par[cur] != NIL
    ensures var p := m.par[cur];
            var r := m.right[p];
            && In(g, p) && Size(m, g, cur) < Size(m, g, p)
            && if cur == m.left[p] && r != NIL && m.linkMax[r] >= lower && m.lower[p] <= upper then (
                 && In(g, r) && r != m.root && Ahead(m, g, r) == LaterCount(m, g, cur)
                 && Hits(m, g, r, lower, upper) + Later(m, g, r, lower, upper) == Later(m, g, cur, lower, upper)
               ) else (
                 && Later(m, g, cur, lower, upper) == Later(m, g, p, lower, upper)
                 && LaterCount(m, g, p) <= LaterCount(m, g, cur)
               )
  {
    At(m, g, cur);
    var p := m.par[cur];
    At(m, g, p);
    var r := m.right[p];
    if r != NIL { At(m, g, r); }
    if cur == m.left[p] {
      if r == NIL || m.linkMax[r] < lower {
        PruneByMax(m, g, r, lower, upper);
      } else if upper < m.lower[p] {
        PruneByLower(m, g, p, r, lower, upper);
      }
    }
  }

  /** The first search only goes down: if the branch it leaves out had an overlap, so has the one it takes. */
  lemma FirstDown(m: Mem, g: Shape, cur: Ptr, lower: nat, upper: nat)
    requires Linked(m, g) && Sorted(m, g) && Cached(m, g) && In(g, cur) && !Overlaps(m, cur, lower, upper)
    ensures var c := Descended(m, cur, lower);
            && (c == NIL || (In(g, c) && Ahead(m, g, c) < Ahead(m, g, cur)))
            && First(Hits(m, g, cur, lower, upper)) == First(Hits(m, g, c, lower, upper))
  {
    At(m, g, cur);
    var l, r := m.left[cur], m.right[cur];
    var c := Descended(m, cur, lower);
    if c != NIL { At(m, g, c); }
    if l != NIL && m.linkMax[l] >= lower {
      if Hits(m, g, l, lower, upper) == [] {
        NoWayBack(m, g, cur, lower, upper);
      }
    } else {
      PruneByMax(m, g, l, lower, upper);
    }
  }
}
