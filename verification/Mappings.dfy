/** The named range sets of mappings.c, looked up by a scan and by an interval tree. */
module Mappings {
  import opened Arith
  import opened Wrappers
  import opened RbMem
  import RbSearch
  import IvalTree

  /** A range, both ends included; parsing refuses an upper end below the lower one. */
  datatype Urng = Urng(lower: Uint64, upper: Uint64)

  predicate Has(r: Urng, v: nat) { r.lower <= v <= r.upper }

  type RngSet = s: seq<Urng> | forall i | 0 <= i < |s| :: s[i].lower <= s[i].upper

  ghost predicate InSet(s: seq<Urng>, v: nat) {
    exists i :: 0 <= i < |s| && Has(s[i], v)
  }

  // The order of the ranges.

  /** `urng_cmp`: a 64-bit difference returned as an `int`. */
  function UrngCmp(a: Urng, b: Urng): int {
    if a.lower >= b.lower then (
      var low := (a.lower - b.lower) % TWO32;
      if low < TWO32 / 2 then low else low - TWO32)
    else -1
  }

  /** The comparison has the sign of the difference of the lower bounds. */
  predicate Orders(a: Urng, b: Urng) {
    (UrngCmp(a, b) < 0 <==> a.lower < b.lower) && (UrngCmp(a, b) == 0 <==> a.lower == b.lower)
  }

  /** Exactly when that difference is negative, zero, or has low 32 bits that make a positive `int`. */
  lemma WhenOrders(a: Urng, b: Urng)
    ensures Orders(a, b) <==> a.lower <= b.lower || 0 < (a.lower - b.lower) % TWO32 < TWO32 / 2
  {
  }

  predicate Ascending(s: seq<Urng>) {
    forall i, j | 0 <= i < j < |s| :: s[i].lower <= s[j].lower
  }

  /** What a sort by `urng_cmp` leaves. */
  ghost predicate SortedByCmp(s: seq<Urng>) {
    forall i, j | 0 <= i < j < |s| :: UrngCmp(s[i], s[j]) <= 0
  }

  ghost predicate AllOrdered(s: seq<Urng>) {
    forall i, j | 0 <= i < |s| && 0 <= j < |s| :: Orders(s[i], s[j])
  }

  lemma SortedIsAscending(s: seq<Urng>)
    requires SortedByCmp(s) && AllOrdered(s)
    ensures Ascending(s)
  {
    forall i, j | 0 <= i < j < |s| ensures s[i].lower <= s[j].lower {
      assert Orders(s[i], s[j]) && UrngCmp(s[i], s[j]) <= 0;
    }
  }

  lemma SameRanges(s: seq<Urng>, t: seq<Urng>, v: nat)
    requires multiset(s) == multiset(t) && InSet(s, v)
    ensures InSet(t, v)
  {
    var i :| 0 <= i < |s| && Has(s[i], v);
    assert s[i] in multiset(t);
    var j :| 0 <= j < |t| && t[j] == s[i];
    assert Has(t[j], v);
  }

  // The merge.

  /** An interval of the index and the mapping it belongs to. */
  datatype Uival = Uival(rng: Urng, name: nat)

  ghost predicate Covers(ivs: seq<Uival>, name: nat, v: nat) {
    exists k :: 0 <= k < |ivs| && ivs[k].name == name && Has(ivs[k].rng, v)
  }

  /** No value lies in two intervals of one mapping. */
  ghost predicate Apart(ivs: seq<Uival>) {
    forall a, b, v | 0 <= a < |ivs| && 0 <= b < |ivs| && ivs[a].name == ivs[b].name
      && Has(ivs[a].rng, v) && Has(ivs[b].rng, v) :: a == b
  }

  /** `urng_intersect_urng`. */
  predicate Intersect(a: Urng, b: Urng) {
    !(a.upper < b.lower || a.lower > b.upper)
  }

  /** The intervals are in order, none touching the next, and belong to `name`. */
  ghost predicate Chain(ivs: seq<Uival>, name: nat) {
    && (forall k | 0 <= k < |ivs| :: ivs[k].name == name && ivs[k].rng.lower <= ivs[k].rng.upper)
    && (forall a, b | 0 <= a < b < |ivs| :: ivs[a].rng.upper < ivs[b].rng.lower)
  }

  /** `top` widened to take in `r`. */
  function Widened(top: Urng, r: Urng): Urng {
    Urng(top.lower, if r.upper > top.upper then r.upper else top.upper)
  }

  /** The intervals that the merge makes of `top` and the ranges after it. */
  function MergeFrom(top: Urng, rest: seq<Urng>, name: nat): seq<Uival>
    decreases |rest|
  {
    if rest == [] then [Uival(top, name)]
    else if Intersect(rest[0], top) then MergeFrom(Widened(top, rest[0]), rest[1..], name)
    else [Uival(top, name)] + MergeFrom(rest[0], rest[1..], name)
  }

  function Merged(rngs: seq<Urng>, name: nat): seq<Uival> {
    if rngs == [] then [] else MergeFrom(rngs[0], rngs[1..], name)
  }

  /** The loop of `init_uivalt` over one set. */
  method Merge(rngs: seq<Urng>, name: nat) returns (ivs: seq<Uival>)
    ensures ivs == Merged(rngs, name)
  {
    ivs := [];
    var top := Urng(0, 0);
    var j := 0;
    while j < |rngs|
      invariant 0 <= j <= |rngs|
      invariant if j == 0 then ivs == [] else ivs + MergeFrom(top, rngs[j..], name) == Merged(rngs, name)
    {
      assert rngs[j..][1..] == rngs[j + 1..];
      if j == 0 {
        top := rngs[j];
      } else if Intersect(rngs[j], top) {
        top := Urng(top.lower, if rngs[j].upper > top.upper then rngs[j].upper else top.upper);
      } else {
        ivs := ivs + [Uival(top, name)];
        top := rngs[j];
      }
      j := j + 1;
    }
    if |rngs| > 0 {
      ivs := ivs + [Uival(top, name)];
    }
  }

  lemma InSetSplit(s: seq<Urng>, v: nat)
    requires s != []
    ensures InSet(s, v) <==> Has(s[0], v) || InSet(s[1..], v)
  {
    if InSet(s, v) {
      var i :| 0 <= i < |s| && Has(s[i], v);
      assert i > 0 ==> Has(s[1..][i - 1], v);
    }
    if InSet(s[1..], v) {
      var i :| 0 <= i < |s[1..]| && Has(s[1..][i], v);
      assert Has(s[i + 1], v);
    }
  }

  lemma CoversJoin(a: seq<Uival>, b: seq<Uival>, name: nat, v: nat)
    ensures Covers(a + b, name, v) <==> Covers(a, name, v) || Covers(b, name, v)
  {
    var c := a + b;
    if Covers(a, name, v) {
      var k :| 0 <= k < |a| && a[k].name == name && Has(a[k].rng, v);
      assert c[k].name == name && Has(c[k].rng, v);
    }
    if Covers(b, name, v) {
      var k :| 0 <= k < |b| && b[k].name == name && Has(b[k].rng, v);
      assert c[|a| + k].name == name && Has(c[|a| + k].rng, v);
    }
    if Covers(c, name, v) {
      var k :| 0 <= k < |c| && c[k].name == name && Has(c[k].rng, v);
      if k < |a| {
        assert a[k].name == name && Has(a[k].rng, v);
      } else {
        assert b[k - |a|].name == name && Has(b[k - |a|].rng, v);
      }
    }
  }

  lemma OneCovers(top: Urng, name: nat, v: nat)
    ensures Covers([Uival(top, name)], name, v) <==> Has(top, v)
  {
    var ivs := [Uival(top, name)];
    if Has(top, v) { assert ivs[0].name == name && Has(ivs[0].rng, v); }
  }

  lemma {:induction false} MergeFromExact(top: Urng, rest: RngSet, name: nat)
    requires top.lower <= top.upper && Ascending(rest) && forall k | 0 <= k < |rest| :: top.lower <= rest[k].lower
    ensures var m := MergeFrom(top, rest, name); m != [] && m[0].rng.lower == top.lower && Chain(m, name)
    ensures forall v: nat :: Covers(MergeFrom(top, rest, name), name, v) <==> Has(top, v) || InSet(rest, v)
    decreases |rest|
  {
    var m := MergeFrom(top, rest, name);
    if rest == [] {
      forall v: nat ensures Covers(m, name, v) <==> Has(top, v) || InSet(rest, v) { OneCovers(top, name, v); }
    } else if Intersect(rest[0], top) {
      MergeFromExact(Widened(top, rest[0]), rest[1..], name);
      forall v: nat ensures Covers(m, name, v) <==> Has(top, v) || InSet(rest, v) { InSetSplit(rest, v); }
    } else {
      MergeFromExact(rest[0], rest[1..], name);
      var later := MergeFrom(rest[0], rest[1..], name);
      forall v: nat ensures Covers(m, name, v) <==> Has(top, v) || InSet(rest, v) {
        InSetSplit(rest, v);
        OneCovers(top, name, v);
        CoversJoin([Uival(top, name)], later, name, v);
      }
      ChainBefore(top, later, name);
    }
  }

  lemma ChainBefore(top: Urng, later: seq<Uival>, name: nat)
    requires later != [] && Chain(later, name) && top.lower <= top.upper < later[0].rng.lower
    ensures Chain([Uival(top, name)] + later, name)
  {
    var m := [Uival(top, name)] + later;
    forall b | 0 < b < |m| ensures m[0].rng.upper < m[b].rng.lower {
      assert b > 1 ==> later[0].rng.upper < later[b - 1].rng.lower;
      assert later[0].name == name;
    }
  }

  /** Merging a set in ascending order gives disjoint intervals with the same values. */
  lemma MergedExact(rngs: RngSet, name: nat)
    requires Ascending(rngs)
    ensures Chain(Merged(rngs, name), name)
    ensures forall v: nat :: Covers(Merged(rngs, name), name, v) <==> InSet(rngs, v)
  {
    if rngs != [] {
      MergeFromExact(rngs[0], rngs[1..], name);
      forall v: nat ensures Covers(Merged(rngs, name), name, v) <==> InSet(rngs, v) { InSetSplit(rngs, v); }
    }
  }

  /**
    With lower bounds `2^31` apart the comparison calls either range the smaller, a sort may leave them
    in the wrong order, and the merge then loses values.
   */
  lemma ValuesLost(s: seq<Urng>)
    requires s == [Urng(0x8000_0000, 0x8000_0005), Urng(0, 0x8000_0001)]
    ensures SortedByCmp(s) && SortedByCmp([s[1], s[0]])
    ensures InSet(s, 7) && !Covers(Merged(s, 0), 0, 7)
  {
    assert Has(s[1], 7);
    assert MergeFrom(s[0], [], 0) == [Uival(s[0], 0)];
    assert s[1..] == [s[1]] && s[1..][1..] == [];
    assert Merged(s, 0) == [Uival(s[0], 0)];
  }

  // The whole index.

  /** `ivs` has, for the first `n` sets, disjoint intervals with exactly the values of each. */
  ghost predicate Faithful(ivs: seq<Uival>, sets: seq<RngSet>, n: nat)
    requires n <= |sets|
  {
    && (forall k | 0 <= k < |ivs| :: ivs[k].name < n && ivs[k].rng.lower <= ivs[k].rng.upper)
    && Apart(ivs)
    && forall i: nat, v: nat | i < n :: Covers(ivs, i, v) <==> InSet(sets[i], v)
  }

  lemma FaithfulGrows(ivs: seq<Uival>, more: seq<Uival>, sets: seq<RngSet>, n: nat)
    requires n < |sets| && Faithful(ivs, sets, n) && Chain(more, n)
    requires forall v: nat :: Covers(more, n, v) <==> InSet(sets[n], v)
    ensures Faithful(ivs + more, sets, n + 1)
  {
    var all := ivs + more;
    forall i: nat, v: nat | i < n + 1 ensures Covers(all, i, v) <==> InSet(sets[i], v) {
      CoversJoin(ivs, more, i, v);
      if i == n {
        assert !Covers(ivs, n, v);
      } else {
        assert !Covers(more, i, v);
      }
    }
    forall a, b, v | 0 <= a < |all| && 0 <= b < |all| && all[a].name == all[b].name
      && Has(all[a].rng, v) && Has(all[b].rng, v) ensures a == b
    {
      if a < |ivs| {
        assert all[a] == ivs[a] && (b < |ivs| ==> all[b] == ivs[b]);
      } else {
        assert all[a] == more[a - |ivs|] && (b >= |ivs| ==> all[b] == more[b - |ivs|]);
      }
    }
  }

  function Lowers(ivs: seq<Uival>): (s: seq<nat>)
    ensures |s| == |ivs|
  {
    seq(|ivs|, k requires 0 <= k < |ivs| => ivs[k].rng.lower)
  }

  function Uppers(ivs: seq<Uival>): (s: seq<nat>)
    ensures |s| == |ivs|
  {
    seq(|ivs|, k requires 0 <= k < |ivs| => ivs[k].rng.upper)
  }

  /** The mappings that have `v`, each named once. */
  ghost predicate NamesOf(ns: seq<nat>, sets: seq<RngSet>, v: nat) {
    RbSearch.Distinct(ns) && forall i :: i in ns <==> 0 <= i < |sets| && InSet(sets[i], v)
  }

  /** What the merge makes of the first `n` sets. */
  function AllMerged(sorted: seq<RngSet>, n: nat): seq<Uival>
    requires n <= |sorted|
  {
    if n == 0 then [] else AllMerged(sorted, n - 1) + Merged(sorted[n - 1], n - 1)
  }

  /** The intervals belong to mappings before the `n`-th, and none is upside down. */
  ghost predicate Upright(ivs: seq<Uival>, n: nat) {
    forall k | 0 <= k < |ivs| :: ivs[k].name < n && ivs[k].rng.lower <= ivs[k].rng.upper
  }

  lemma UprightJoin(a: seq<Uival>, b: seq<Uival>, n: nat, n': nat)
    requires Upright(a, n) && Upright(b, n') && n <= n'
    ensures Upright(a + b, n')
  {
  }

  lemma {:induction false} MergedOk(top: Urng, rest: RngSet, name: nat)
    requires top.lower <= top.upper
    ensures Upright(MergeFrom(top, rest, name), name + 1)
    decreases |rest|
  {
    if rest != [] {
      var next := if Intersect(rest[0], top) then Widened(top, rest[0]) else rest[0];
      MergedOk(next, rest[1..], name);
      UprightJoin([Uival(top, name)], MergeFrom(next, rest[1..], name), name + 1, name + 1);
    }
  }

  lemma {:induction false} AllMergedOk(sorted: seq<RngSet>, n: nat)
    requires n <= |sorted|
    ensures Upright(AllMerged(sorted, n), n)
    decreases n
  {
    if n > 0 {
      AllMergedOk(sorted, n - 1);
      var s := sorted[n - 1];
      if s != [] { MergedOk(s[0], s[1..], n - 1); }
      UprightJoin(AllMerged(sorted, n - 1), Merged(s, n - 1), n - 1, n);
    }
  }

  lemma {:induction false} AllMergedExact(sets: seq<RngSet>, sorted: seq<RngSet>, n: nat)
    requires n <= |sets| == |sorted|
    requires forall i | 0 <= i < |sets| :: multiset(sorted[i]) == multiset(sets[i])
    requires forall i | 0 <= i < |sets| :: SortedByCmp(sorted[i]) && AllOrdered(sets[i])
    ensures Faithful(AllMerged(sorted, n), sets, n)
    decreases n
  {
    if n > 0 {
      var k := n - 1;
      AllMergedExact(sets, sorted, k);
      OneMergedExact(sets[k], sorted[k], k);
      FaithfulGrows(AllMerged(sorted, k), Merged(sorted[k], k), sets, k);
    }
  }

  lemma OneMergedExact(s: RngSet, t: RngSet, name: nat)
    requires multiset(t) == multiset(s) && SortedByCmp(t) && AllOrdered(s)
    ensures Chain(Merged(t, name), name)
    ensures forall v: nat :: Covers(Merged(t, name), name, v) <==> InSet(s, v)
  {
    StillOrdered(s, t);
    SortedIsAscending(t);
    MergedExact(t, name);
    forall v: nat ensures Covers(Merged(t, name), name, v) <==> InSet(s, v) {
      if InSet(s, v) { SameRanges(s, t, v); }
      if InSet(t, v) { SameRanges(t, s, v); }
    }
  }

  class Index {
    const ivals: seq<Uival>
    const tree: IvalTree.Tree
    /** The range sets as they were given. */
    ghost const sets: seq<RngSet>

    ghost predicate Valid()
      reads this, tree
    {
      && tree.Valid()
      && Upright(ivals, |sets|)
      && tree.m.lower == [0] + Lowers(ivals) && tree.m.upper == [0] + Uppers(ivals)
      && forall z :: In(tree.g, z) <==> 0 < z <= |ivals|
    }

    /** The index has, for each mapping, disjoint intervals with exactly its values. */
    ghost predicate Exact() {
      Faithful(ivals, sets, |sets|)
    }

    /**
      `init_uivalt`, `sorted` being what `qsort` makes of the sets. The index holds what the merge makes of them, which
      is exact if the comparison orders all ranges of a set rightly and the sort goes by it.
     */
    constructor (sets: seq<RngSet>, sorted: seq<RngSet>)
      requires |sorted| == |sets|
      requires forall i | 0 <= i < |sets| :: multiset(sorted[i]) == multiset(sets[i])
      ensures Valid() && this.sets == sets && fresh(tree) && ivals == AllMerged(sorted, |sorted|)
      ensures (forall i | 0 <= i < |sets| :: SortedByCmp(sorted[i]) && AllOrdered(sets[i])) ==> Exact()
    {
      var ivs: seq<Uival> := [];
      var i := 0;
      while i < |sorted|
        invariant 0 <= i <= |sorted| && ivs == AllMerged(sorted, i)
      {
        var more := Merge(sorted[i], i);
        ivs := ivs + more;
        i := i + 1;
      }
      AllMergedOk(sorted, |sorted|);
      if forall k | 0 <= k < |sets| :: SortedByCmp(sorted[k]) && AllOrdered(sets[k]) {
        AllMergedExact(sets, sorted, |sets|);
      }
      var t := new IvalTree.Tree(Lowers(ivs), Uppers(ivs));
      var k := 0;
      while k < |ivs|
        invariant 0 <= k <= |ivs| && t.Valid() && fresh(t)
        invariant t.m.lower == [0] + Lowers(ivs) && t.m.upper == [0] + Uppers(ivs)
        invariant forall z :: In(t.g, z) <==> 0 < z <= k
      {
        InsertNext(t, k + 1);
        k := k + 1;
      }
      this.sets := sets;
      this.ivals := ivs;
      this.tree := t;
    }

    /** `actf_mappings_find_uint`: the next match after `it`, and the name it belongs to. */
    method FindUint(v: nat, it: Ptr) returns (name: Option<nat>, match_: Ptr)
      requires Valid() && (it == NIL || In(tree.g, it))
      ensures match_ == RbSearch.First(tree.Remaining(it, v, v)) && (match_ != NIL ==> In(tree.g, match_))
      ensures name == if match_ == NIL then None else Some(ivals[match_ - 1].name)
      ensures Exact() && it == NIL ==> (name.None? <==> forall i | 0 <= i < |sets| :: !InSet(sets[i], v))
    {
      match_ := tree.Intersect(v, v, it);
      name := if match_ != NIL then Some(ivals[match_ - 1].name) else None;
      if Exact() && it == NIL {
        ghost var all := tree.Overlapping(v, v);
        RbSearch.HitsAreNodes(tree.m, tree.g, v, v);
        ghost var ns := Names(all);
        HitNames(all, ns, v);
        assert all != [] ==> ns[0] in ns;
      }
    }

    ghost function Names(hits: seq<Ptr>): (ns: seq<nat>)
      requires forall k | 0 <= k < |hits| :: 0 < hits[k] <= |ivals|
      ensures |ns| == |hits| && forall k | 0 <= k < |hits| :: ns[k] == ivals[hits[k] - 1].name
    {
      seq(|hits|, k requires 0 <= k < |hits| => ivals[hits[k] - 1].name)
    }

    /** A hit is an interval that holds `v`, and every such interval is hit. */
    lemma HitsHave(hits: seq<Ptr>, v: nat)
      requires Valid() && hits == tree.Overlapping(v, v)
      ensures RbSearch.Distinct(hits)
      ensures forall z :: z in hits <==> 0 < z <= |ivals| && Has(ivals[z - 1].rng, v)
    {
      RbSearch.HitsAreNodes(tree.m, tree.g, v, v);
      forall z | 0 < z <= |ivals| ensures RbSearch.Overlaps(tree.m, z, v, v) <==> Has(ivals[z - 1].rng, v) {
        assert tree.m.lower[z] == Lowers(ivals)[z - 1] && tree.m.upper[z] == Uppers(ivals)[z - 1];
      }
    }

    /** The names of the intervals that hold `v` are the mappings that have it. */
    lemma HitNames(hits: seq<Ptr>, ns: seq<nat>, v: nat)
      requires Valid() && Exact() && hits == tree.Overlapping(v, v) && |ns| == |hits|
      requires forall k | 0 <= k < |hits| :: 0 < hits[k] <= |ivals| && ns[k] == ivals[hits[k] - 1].name
      ensures NamesOf(ns, sets, v)
    {
      HitsHave(hits, v);
      NamesOfHits(hits, ns, ivals, sets, v);
    }

    /** Calling `actf_mappings_find_uint` with its iterator until it finds nothing more. */
    method FindAll(v: nat) returns (names: seq<nat>)
      requires Valid()
      ensures Exact() ==> NamesOf(names, sets, v)
    {
      var hits := tree.Enumerate(v, v);
      RbSearch.HitsAreNodes(tree.m, tree.g, v, v);
      names := [];
      while |names| < |hits|
        invariant |names| <= |hits|
        invariant forall k | 0 <= k < |names| :: names[k] == ivals[hits[k] - 1].name
      {
        names := names + [ivals[hits[|names|] - 1].name];
      }
      if Exact() { HitNames(hits, names, v); }
    }
  }

  lemma NamesOfHits(hits: seq<Ptr>, ns: seq<nat>, ivals: seq<Uival>, sets: seq<RngSet>, v: nat)
    requires Faithful(ivals, sets, |sets|) && RbSearch.Distinct(hits) && |ns| == |hits|
    requires forall z :: z in hits <==> 0 < z <= |ivals| && Has(ivals[z - 1].rng, v)
    requires forall k | 0 <= k < |hits| :: 0 < hits[k] <= |ivals| && ns[k] == ivals[hits[k] - 1].name
    ensures NamesOf(ns, sets, v)
  {
    forall k | 0 <= k < |hits| ensures Has(ivals[hits[k] - 1].rng, v) { assert hits[k] in hits; }
    forall i | i in ns ensures 0 <= i < |sets| && InSet(sets[i], v) {
      var k :| 0 <= k < |ns| && ns[k] == i;
      assert ivals[hits[k] - 1].name == i && Has(ivals[hits[k] - 1].rng, v);
      assert Covers(ivals, i, v);
    }
    forall i: nat | i < |sets| && InSet(sets[i], v) ensures i in ns {
      assert Covers(ivals, i, v);
      var k :| 0 <= k < |ivals| && ivals[k].name == i && Has(ivals[k].rng, v);
      var z := k + 1;
      assert ivals[z - 1] == ivals[k];
      assert z in hits;
      var h :| 0 <= h < |hits| && hits[h] == z;
      assert ns[h] == i;
    }
  }

  // The plain scan.

  /** `urng_set_intersect`. */
  method SetIntersect(s: seq<Urng>, v: nat) returns (r: bool)
    ensures r <==> InSet(s, v)
  {
    var i := 0;
    while i < |s|
      invariant 0 <= i <= |s| && forall k | 0 <= k < i :: !Has(s[k], v)
    {
      if v >= s[i].lower && v <= s[i].upper {
        assert Has(s[i], v);
        return true;
      }
      i := i + 1;
    }
    return false;
  }

  /** `umappings_find`: the first mapping from `it` on that has `v`. */
  method FindRaw(sets: seq<RngSet>, v: nat, it: nat) returns (name: Option<nat>, next: nat)
    ensures name.Some? ==> it <= name.value < |sets| && InSet(sets[name.value], v) && next == name.value + 1
    ensures name.None? ==> next == it
    ensures forall i | it <= i < (if name.Some? then name.value else |sets|) :: !InSet(sets[i], v)
  {
    var i := it;
    while i < |sets|
      invariant it <= i && forall k | it <= k < i && k < |sets| :: !InSet(sets[k], v)
    {
      var hit := SetIntersect(sets[i], v);
      if hit {
        return Some(i), i + 1;
      }
      i := i + 1;
    }
    return None, it;
  }

  /** Calling `umappings_find` with its iterator until it finds nothing more. */
  method FindAllRaw(sets: seq<RngSet>, v: nat) returns (names: seq<nat>)
    ensures NamesOf(names, sets, v)
  {
    names := [];
    var it := 0;
    while true
      invariant it <= |sets|
      invariant forall i, j | 0 <= i < j < |names| :: names[i] < names[j]
      invariant forall i | 0 <= i < |names| :: names[i] < it
      invariant forall i :: i in names <==> 0 <= i < it && InSet(sets[i], v)
      decreases |sets| - it
    {
      var name;
      name, it := FindRaw(sets, v, it);
      if name.None? {
        return;
      }
      names := names + [name.value];
    }
  }

  /** The index and the scan name the same mappings, each once. */
  lemma SameNames(fast: seq<nat>, simple: seq<nat>, sets: seq<RngSet>, v: nat)
    requires NamesOf(fast, sets, v) && NamesOf(simple, sets, v)
    ensures multiset(fast) == multiset(simple)
  {
    var a, b := fast, simple;
    forall i ensures multiset(a)[i] == multiset(b)[i] {
      CountOne(a, i);
      CountOne(b, i);
    }
  }

  lemma {:induction false} CountOne(s: seq<nat>, x: nat)
    requires RbSearch.Distinct(s)
    ensures multiset(s)[x] == if x in s then 1 else 0
  {
    if s != [] {
      assert s == [s[0]] + s[1..];
      var rest := s[1..];
      forall i, j | 0 <= i < |rest| && 0 <= j < |rest| && rest[i] == rest[j] ensures i == j {
        assert s[i + 1] == s[j + 1];
      }
      CountOne(rest, x);
      forall k | 0 <= k < |rest| ensures rest[k] != s[0] {
        assert rest[k] == s[k + 1];
      }
    }
  }

  lemma StillOrdered(s: seq<Urng>, t: seq<Urng>)
    requires AllOrdered(s) && multiset(s) == multiset(t)
    ensures AllOrdered(t)
  {
    forall i, j | 0 <= i < |t| && 0 <= j < |t| ensures Orders(t[i], t[j]) {
      assert t[i] in multiset(s) && t[j] in multiset(s);
      var a :| 0 <= a < |s| && s[a] == t[i];
      var b :| 0 <= b < |s| && s[b] == t[j];
      assert Orders(s[a], s[b]);
    }
  }

  /** `uivalt_insert` of node `z`, the next of the pool. */
  method InsertNext(t: IvalTree.Tree, z: Ptr)
    requires t.Valid() && 0 < z < |t.m.left| && forall y :: In(t.g, y) <==> 0 < y < z
    modifies t
    ensures t.Valid() && t.m.lower == old(t.m.lower) && t.m.upper == old(t.m.upper)
    ensures forall y :: In(t.g, y) <==> 0 < y <= z
  {
    ghost var was := t.g;
    ghost var m0 := t.m;
    ghost var q := t.Insert(z);
    forall y ensures In(t.g, y) <==> In(was, y) || y == z {
      Members(m0, was, y);
      Members(t.m, t.g, y);
      assert y in t.g.ord <==> y in was.ord[..q] || y == z || y in was.ord[q..];
      assert was.ord == was.ord[..q] + was.ord[q..];
    }
  }

  lemma Members(m: Mem, g: Shape, y: Ptr)
    requires Linked(m, g)
    ensures In(g, y) <==> y in g.ord
  {
    if y in g.ord {
      var i :| 0 <= i < |g.ord| && g.ord[i] == y;
      assert g.pos[g.ord[i]] == i;
    }
  }
}
