/** The open-addressing hash map of crust/map.h. */
module HashMap {
  import opened Arith
  import opened Wrappers
  import opened Bits

  /** `SIZE_MAX`, the hash that marks an empty slot. */
  const NOENT: nat := UINT64_MAX

  /** A `size_t`. */
  type Size = Uint64

  datatype Slot<K, V> = Slot(hash: Size, key: K, val: V)

  predicate Used<K, V>(s: Slot<K, V>) { s.hash != NOENT }

  lemma {:induction false} AndSelf(x: nat)
    ensures And(x, x) == x
  {
    if x > 0 { AndSelf(x / 2); }
  }

  /** `map_is_pow2`. */
  predicate MapIsPow2(v: nat) {
    v != 0 && And(v, v - 1) == 0
  }

  lemma HalfOfPow2(v: nat)
    requires v > 1
    ensures IsPow2(v) <==> v % 2 == 0 && IsPow2(v / 2)
  {
    if IsPow2(v) {
      var k: nat :| v == Pow2(k);
      assert v / 2 == Pow2(k - 1);
    }
    if v % 2 == 0 && IsPow2(v / 2) {
      var k: nat :| v / 2 == Pow2(k);
      assert v == Pow2(k + 1);
    }
  }

  lemma {:induction false} AndPred(v: nat)
    requires v > 1
    ensures And(v, v - 1) == 2 * if v % 2 == 1 then v / 2 else And(v / 2, v / 2 - 1)
  {
    if v % 2 == 1 {
      assert (v - 1) / 2 == v / 2;
      AndSelf(v / 2);
    } else {
      assert (v - 1) / 2 == v / 2 - 1;
    }
  }

  /** The bit trick finds exactly the powers of two. */
  lemma {:induction false} MapIsPow2Exact(v: nat)
    ensures MapIsPow2(v) <==> IsPow2(v)
  {
    if v == 1 {
      assert v == Pow2(0);
    } else if v > 1 {
      AndPred(v);
      HalfOfPow2(v);
      MapIsPow2Exact(v / 2);
    }
  }

  /** The slot after `i`. */
  function Succ(i: nat, cap: nat): nat
    requires i < cap
  {
    if i + 1 < cap then i + 1 else 0
  }

  lemma SuccIsMasked(i: nat, n: nat)
    requires i < Pow2(n)
    ensures And(i + 1, Pow2(n) - 1) == Succ(i, Pow2(n))
  {
    AndIsMod(i + 1, n);
    var p := Pow2(n);
    if i + 1 < p { ModOf(0, p, i + 1); } else { ModOf(1, p, 0); }
  }

  /** The slot `d` places after `home`, going round. */
  function At(home: nat, d: nat, cap: nat): (i: nat)
    requires home < cap && d <= cap
    ensures i < cap
  {
    if home + d < cap then home + d else home + d - cap
  }

  /** How far `i` is after `home`. */
  function Dist(home: nat, i: nat, cap: nat): (d: nat)
    requires home < cap && i < cap
    ensures d < cap && At(home, d, cap) == i
  {
    if home <= i then i - home else i + cap - home
  }

  lemma DistAt(home: nat, d: nat, cap: nat)
    requires home < cap && d < cap
    ensures Dist(home, At(home, d, cap), cap) == d
  {
  }

  function Home(hash: nat, cap: nat): (h: nat)
    requires cap > 0
    ensures h < cap
  {
    hash % cap
  }

  /** Every slot from an entry's home up to the entry is in use. */
  ghost predicate Reachable<K, V>(s: seq<Slot<K, V>>, i: nat)
    requires i < |s|
  {
    var h := Home(s[i].hash, |s|);
    forall d | 0 <= d < Dist(h, i, |s|) :: Used(s[At(h, d, |s|)])
  }

  /** The slot holds `k`. */
  predicate Holds<K(==), V>(s: seq<Slot<K, V>>, i: nat, k: K)
    requires i < |s|
  {
    Used(s[i]) && s[i].key == k
  }

  /** `_hash`: never the hash of an empty slot. */
  function HashOf<K>(hashFn: K -> Size, k: K): (h: Size)
    ensures h != NOENT
  {
    if hashFn(k) == NOENT then NOENT - 1 else hashFn(k)
  }

  /** What makes the slots a hash table. */
  ghost predicate Table<K(!new), V>(s: seq<Slot<K, V>>, hashFn: K -> Size) {
    && (forall i | 0 <= i < |s| :: Used(s[i]) ==> s[i].hash == HashOf(hashFn, s[i].key) && Reachable(s, i))
    && (forall i, j | 0 <= i < |s| && 0 <= j < |s| && Used(s[i]) && Used(s[j]) && s[i].key == s[j].key :: i == j)
  }

  /** The slots hold the entries of `m` and nothing else. */
  ghost predicate Represents<K(!new), V>(s: seq<Slot<K, V>>, m: map<K, V>) {
    && (forall i | 0 <= i < |s| :: Used(s[i]) ==> s[i].key in m && m[s[i].key] == s[i].val)
    && (forall k | k in m :: exists i :: 0 <= i < |s| && Holds(s, i, k))
  }

  ghost function UsedSlots<K, V>(s: seq<Slot<K, V>>): set<nat> {
    set i: nat | i < |s| && Used(s[i])
  }

  // Probing.

  /** The first `d` slots from `home` on are in use by keys that compare unequal to `k`. */
  ghost predicate Passed<K, V>(s: seq<Slot<K, V>>, same: (K, K) -> bool, home: nat, k: K, d: nat)
    requires home < |s| && d <= |s|
  {
    forall e | 0 <= e < d :: Used(s[At(home, e, |s|)]) && !same(s[At(home, e, |s|)].key, k)
  }

  /** The slot at which probing from `d` places after `home` meets a key that compares equal to `k`. */
  function Probe<K, V>(s: seq<Slot<K, V>>, same: (K, K) -> bool, home: nat, k: K, d: nat): (r: Option<nat>)
    requires home < |s| && d <= |s|
    ensures r.Some? ==> r.value < |s| && Used(s[r.value]) && same(s[r.value].key, k)
    decreases |s| - d
  {
    if d == |s| || !Used(s[At(home, d, |s|)]) then None
    else if same(s[At(home, d, |s|)].key, k) then Some(At(home, d, |s|))
    else Probe(s, same, home, k, d + 1)
  }

  /** One slot further; after a whole round there is nothing left to probe. */
  lemma ProbeStep<K, V>(s: seq<Slot<K, V>>, same: (K, K) -> bool, home: nat, k: K, d: nat)
    requires home < |s| && d < |s| && Used(s[At(home, d, |s|)]) && !same(s[At(home, d, |s|)].key, k)
    ensures Probe(s, same, home, k, d) == Probe(s, same, home, k, d + 1)
    ensures d + 1 == |s| ==> Probe(s, same, home, k, d).None?
    ensures Succ(At(home, d, |s|), |s|) == (if d + 1 < |s| then At(home, d + 1, |s|) else home)
    ensures d + 1 < |s| ==> At(home, d + 1, |s|) != home
  {
  }

  /** Of the keys in use, the comparison finds none equal to `k` but `k` itself. */
  ghost predicate Decides<K, V>(s: seq<Slot<K, V>>, same: (K, K) -> bool, k: K) {
    forall i | 0 <= i < |s| && Used(s[i]) :: same(s[i].key, k) <==> s[i].key == k
  }

  /** A key is not further from its home than probing has come without meeting it. */
  lemma NotFurther<K(!new), V>(s: seq<Slot<K, V>>, hashFn: K -> Size, same: (K, K) -> bool, k: K, d: nat)
    requires |s| > 0 && d <= |s| && Table(s, hashFn) && Decides(s, same, k)
    requires Passed(s, same, Home(HashOf(hashFn, k), |s|), k, d)
    requires d == |s| || !Used(s[At(Home(HashOf(hashFn, k), |s|), d, |s|)])
    ensures forall i | 0 <= i < |s| :: !Holds(s, i, k)
  {
    var h := Home(HashOf(hashFn, k), |s|);
    forall i | 0 <= i < |s| ensures !Holds(s, i, k) {
      var e := Dist(h, i, |s|);
      assert Used(s[i]) ==> s[i].hash == HashOf(hashFn, s[i].key) && Reachable(s, i);
      assert At(h, e, |s|) == i;
    }
  }

  /** If the comparison tells the key from those in use, probing finds it exactly if the map has it, with its value. */
  lemma {:induction false} ProbeIsExact<K(!new), V>(s: seq<Slot<K, V>>, hashFn: K -> Size, same: (K, K) -> bool,
                                                    m: map<K, V>, k: K, d: nat)
    requires |s| > 0 && d <= |s| && Table(s, hashFn) && Decides(s, same, k) && Represents(s, m)
    requires Passed(s, same, Home(HashOf(hashFn, k), |s|), k, d)
    ensures var r := Probe(s, same, Home(HashOf(hashFn, k), |s|), k, d);
      if k in m then r.Some? && Holds(s, r.value, k) && s[r.value].val == m[k] else r.None?
    decreases |s| - d
  {
    var h := Home(HashOf(hashFn, k), |s|);
    if d == |s| || !Used(s[At(h, d, |s|)]) {
      NotFurther(s, hashFn, same, k, d);
    } else if !same(s[At(h, d, |s|)].key, k) {
      ProbeIsExact(s, hashFn, same, m, k, d + 1);
    }
  }

  /** Probing does not go past a slot it can reach whose key compares equal. */
  lemma {:induction false} ProbeMeets<K, V>(s: seq<Slot<K, V>>, same: (K, K) -> bool, home: nat, k: K, d: nat, e: nat)
    requires home < |s| && d <= e < |s| && same(s[At(home, e, |s|)].key, k)
    requires forall x | d <= x <= e :: Used(s[At(home, x, |s|)])
    ensures Probe(s, same, home, k, d).Some?
    decreases e - d
  {
    if d < e && !same(s[At(home, d, |s|)].key, k) {
      ProbeMeets(s, same, home, k, d + 1, e);
    }
  }

  lemma PresentIsMet<K(!new), V>(s: seq<Slot<K, V>>, hashFn: K -> Size, same: (K, K) -> bool, m: map<K, V>, k: K)
    requires |s| > 0 && Table(s, hashFn) && Represents(s, m) && k in m && same(k, k)
    ensures Probe(s, same, Home(HashOf(hashFn, k), |s|), k, 0).Some?
  {
    var i :| 0 <= i < |s| && Holds(s, i, k);
    assert Reachable(s, i);
    ProbeMeets(s, same, Home(HashOf(hashFn, k), |s|), k, 0, Dist(Home(HashOf(hashFn, k), |s|), i, |s|));
  }

  /** Putting an entry for a new key in the first free slot from its home on. */
  lemma Placed<K(!new), V>(s: seq<Slot<K, V>>, hashFn: K -> Size, k: K, v: V, d: nat, m: map<K, V>)
    requires |s| > 0 && d < |s| && Table(s, hashFn) && Represents(s, m) && k !in m
    requires var h := Home(HashOf(hashFn, k), |s|);
      !Used(s[At(h, d, |s|)]) && forall e | 0 <= e < d :: Used(s[At(h, e, |s|)])
    ensures var i := At(Home(HashOf(hashFn, k), |s|), d, |s|);
      var t := s[i := Slot(HashOf(hashFn, k), k, v)];
      Table(t, hashFn) && Represents(t, m[k := v]) && UsedSlots(t) == UsedSlots(s) + {i} && i !in UsedSlots(s)
  {
    var h := Home(HashOf(hashFn, k), |s|);
    var i := At(h, d, |s|);
    var t := s[i := Slot(HashOf(hashFn, k), k, v)];
    forall j | 0 <= j < |t| && Used(t[j]) ensures Reachable(t, j) {
      if j != i { assert Reachable(s, j); } else { DistAt(h, d, |s|); }
    }
    forall x {:trigger x in m[k := v]} | x in m[k := v] ensures exists j :: 0 <= j < |t| && Holds(t, j, x) {
      if x == k {
        assert Holds(t, i, x);
      } else {
        var j :| 0 <= j < |s| && Holds(s, j, x);
        assert Holds(t, j, x);
      }
    }
  }

  /** A table that is not full has a free slot. */
  lemma FreeSlot<K, V>(s: seq<Slot<K, V>>) returns (i: nat)
    requires |UsedSlots(s)| < |s|
    ensures i < |s| && !Used(s[i])
  {
    var free := NatsBelow(|s|) - UsedSlots(s);
    assert |UsedSlots(s)| + |free| == |s| by {
      assert UsedSlots(s) + free == NatsBelow(|s|);
    }
    i :| i in free;
  }

  ghost function UsedBelow<K, V>(s: seq<Slot<K, V>>, n: nat): set<nat>
    requires n <= |s|
  {
    set i: nat | i < n && Used(s[i])
  }

  /** `part` has the entries of the first `n` slots. */
  ghost predicate Moved<K(!new), V>(s: seq<Slot<K, V>>, n: nat, part: map<K, V>, m: map<K, V>)
    requires n <= |s|
  {
    && (forall k | k in part :: k in m && part[k] == m[k] && exists i :: 0 <= i < n && Holds(s, i, k))
    && (forall i | 0 <= i < n && Used(s[i]) :: s[i].key in part)
  }

  lemma MoveOne<K(!new), V>(s: seq<Slot<K, V>>, hashFn: K -> Size, n: nat, part: map<K, V>, m: map<K, V>)
    requires n < |s| && Table(s, hashFn) && Represents(s, m) && Moved(s, n, part, m)
    ensures Used(s[n]) ==> s[n].key !in part && UsedBelow(s, n + 1) == UsedBelow(s, n) + {n}
    ensures Used(s[n]) ==> Moved(s, n + 1, part[s[n].key := s[n].val], m)
    ensures !Used(s[n]) ==> Moved(s, n + 1, part, m) && UsedBelow(s, n + 1) == UsedBelow(s, n)
  {
  }

  /** Of the slots in use, those below `n` are part, and fewer if slot `n` is in use too. */
  lemma UsedBelowSize<K, V>(s: seq<Slot<K, V>>, n: nat)
    requires n < |s|
    ensures |UsedBelow(s, n)| + (if Used(s[n]) then 1 else 0) <= |UsedSlots(s)|
  {
    var rest := UsedSlots(s) - UsedBelow(s, n);
    assert UsedSlots(s) == UsedBelow(s, n) + rest;
    assert Used(s[n]) ==> n in rest;
  }

  lemma MovedAll<K(!new), V>(s: seq<Slot<K, V>>, part: map<K, V>, m: map<K, V>)
    requires Represents(s, m) && Moved(s, |s|, part, m)
    ensures part == m && UsedBelow(s, |s|) == UsedSlots(s)
  {
    forall k | k in m ensures k in part {
      var i :| 0 <= i < |s| && Holds(s, i, k);
    }
  }

  class Map<K(0, ==, !new), V(0)> {
    const hashFn: K -> Size
    const same: (K, K) -> bool
    var slots: array<Slot<K, V>>
    var len: nat
    var cap: nat
    var growLimit: nat
    /** The finite map that the slots stand for, and the capacity's logarithm. */
    ghost var entries: map<K, V>
    ghost var log: nat

    ghost predicate Valid()
      reads this, slots
    {
      && cap == slots.Length == Pow2(log)
      && cap <= NOENT
      && growLimit == cap / 2
      && Table(slots[..], hashFn)
      && Represents(slots[..], entries)
      && len == |UsedSlots(slots[..])| <= cap
    }

    /** `_init_cap`, its memory being granted. */
    constructor InitCap(hashFn: K -> Size, same: (K, K) -> bool, cap: nat, ghost log: nat)
      requires cap == Pow2(log) <= NOENT
      ensures Valid() && fresh(slots) && entries == map[] && len == 0
      ensures this.hashFn == hashFn && this.same == same && this.cap == cap
    {
      this.hashFn := hashFn;
      this.same := same;
      this.len := 0;
      this.cap := cap;
      this.growLimit := cap / 2;
      this.entries := map[];
      this.log := log;
      var k: K := *;
      var v: V := *;
      var s := new Slot<K, V>[cap](_ => Slot(NOENT, k, v));
      this.slots := s;
      new;
      assert forall i | 0 <= i < cap :: !Used(slots[..][i]);
      assert UsedSlots(slots[..]) == {};
    }

    /** `hash & (cap - 1)`. */
    method First(hash: Size) returns (i: nat)
      requires Valid()
      ensures i == Home(hash, cap)
    {
      AndIsMod(hash, log);
      i := And(hash, cap - 1);
    }

    /** `(i + 1) & (cap - 1)`. */
    method Following(i: nat) returns (j: nat)
      requires Valid() && i < cap
      ensures j == Succ(i, cap)
    {
      SuccIsMasked(i, log);
      j := And(i + 1, cap - 1);
    }

    /** The loop of `_find`. */
    method ProbeFor(k: K) returns (r: Option<nat>)
      requires Valid()
      ensures r == Probe(slots[..], same, Home(HashOf(hashFn, k), cap), k, 0)
    {
      ghost var h := Home(HashOf(hashFn, k), cap);
      ghost var want := Probe(slots[..], same, h, k, 0);
      var index := First(HashOf(hashFn, k));
      var initial := index;
      ghost var d := 0;
      while true
        invariant d < cap && index == At(h, d, cap) && initial == h
        invariant want == Probe(slots[..], same, h, k, d)
        decreases cap - d
      {
        if slots[index].hash == NOENT {
          return None;
        }
        if same(slots[index].key, k) {
          return Some(index);
        }
        ProbeStep(slots[..], same, h, k, d);
        index := Following(index);
        d := d + 1;
        if initial == index {
          break;
        }
      }
      return None;
    }

    /** Of the keys in the map, the comparison finds none equal to `k` but `k` itself. */
    ghost predicate Knows(k: K)
      reads this
    {
      forall x | x in entries :: same(x, k) <==> x == k
    }

    /** `_find`: the slot of the key. */
    method Find(k: K) returns (r: Option<nat>)
      requires Valid()
      ensures r == Probe(slots[..], same, Home(HashOf(hashFn, k), cap), k, 0)
      ensures Knows(k) ==>
        if k in entries then r.Some? && Holds(slots[..], r.value, k) && slots[r.value].val == entries[k] else r.None?
    {
      r := ProbeFor(k);
      if Knows(k) { ProbeIsExact(slots[..], hashFn, same, entries, k, 0); }
    }

    /** `_contains`. A key that the map has is found even if another one is taken for it. */
    method Contains(k: K) returns (r: bool)
      requires Valid()
      ensures r <==> Probe(slots[..], same, Home(HashOf(hashFn, k), cap), k, 0).Some?
      ensures Knows(k) ==> (r <==> k in entries)
      ensures same(k, k) && k in entries ==> r
    {
      var slot := Find(k);
      r := slot.Some?;
      if same(k, k) && k in entries { PresentIsMet(slots[..], hashFn, same, entries, k); }
    }

    /** Bounds the chain of growths that an insertion can set off. */
    static ghost function Rank(len: int, cap: nat): nat {
      if len + 1 < cap / 2 then 0 else if len + 1 < cap then 1 else 2
    }

    /** The probe loop of `_insert_hash_unchk`: the first free slot from the home of `hash` on. */
    method FreeIndex(hash: Size) returns (index: nat, ghost d: nat)
      requires Valid() && len < cap
      ensures d < cap && index == At(Home(hash, cap), d, cap) && !Used(slots[index])
      ensures forall e | 0 <= e < d :: Used(slots[..][At(Home(hash, cap), e, cap)])
    {
      ghost var h := Home(hash, cap);
      ghost var room := FreeSlot(slots[..]);
      ghost var far := Dist(h, room, cap);
      index := First(hash);
      d := 0;
      while slots[index].hash != NOENT
        invariant d <= far && index == At(h, d, cap)
        invariant forall e | 0 <= e < d :: Used(slots[..][At(h, e, cap)])
        decreases far - d
      {
        index := Following(index);
        d := d + 1;
      }
    }

    /**
      `_insert_hash_unchk`; `granted` tells for each capacity whether memory for it can be had.
      Whatever becomes of the growth, the entry is in; the map grows if then half of the slots are in use and there is
      memory for twice as many.
     */
    method InsertHashUnchk(hash: Size, k: K, v: V, granted: nat -> bool)
      requires Valid() && len < cap && k !in entries && hash == HashOf(hashFn, k)
      modifies this, slots
      ensures Valid() && entries == old(entries)[k := v] && len == old(len) + 1
      ensures
        if old(len) + 1 >= old(cap) / 2 && 2 * old(cap) <= NOENT && granted(2 * old(cap)) then
          fresh(slots) && cap >= 2 * old(cap)
        else slots == old(slots) && cap == old(cap)
      decreases Rank(len, cap), 3
    {
      ghost var s := slots[..];
      var index, d := FreeIndex(hash);
      Placed(s, hashFn, k, v, d, entries);
      slots[index] := Slot(hash, k, v);
      len := len + 1;
      entries := entries[k := v];
      assert slots[..] == s[index := Slot(hash, k, v)];
      if len >= growLimit {
        var _ := Grow(granted);
      }
    }

    /** One round of the loop of `_grow`. */
    method MoveSlot(next: Map<K, V>, i: nat, granted: nat -> bool)
      requires Valid() && i < cap && len >= growLimit && next.Valid() && next != this && next.slots != slots
      requires next.hashFn == hashFn && next.cap >= 2 * cap
      requires Moved(slots[..], i, next.entries, entries) && next.len == |UsedBelow(slots[..], i)|
      modifies next, next.slots
      ensures next.Valid() && next.cap >= 2 * cap
      ensures next.slots == old(next.slots) || fresh(next.slots)
      ensures Moved(slots[..], i + 1, next.entries, entries) && next.len == |UsedBelow(slots[..], i + 1)|
      decreases Rank(len - 1, cap), 0
    {
      MoveOne(slots[..], hashFn, i, next.entries, entries);
      UsedBelowSize(slots[..], i);
      if slots[i].hash != NOENT {
        next.InsertHashUnchk(slots[i].hash, slots[i].key, slots[i].val, granted);
      }
    }

    /** The loop of `_grow`: moves every entry into the empty map `next`. */
    method MoveTo(next: Map<K, V>, granted: nat -> bool)
      requires Valid() && len > 0 && len >= growLimit && next.Valid() && next != this && next.slots != slots
      requires next.hashFn == hashFn && next.entries == map[] && next.len == 0 && next.cap == 2 * cap
      modifies next, next.slots
      ensures next.Valid() && next.entries == entries && next.len == len && next.cap >= 2 * cap
      ensures next.slots == old(next.slots) || fresh(next.slots)
      decreases Rank(len - 1, cap), 1
    {
      var i := 0;
      while i < cap
        invariant 0 <= i <= cap && Valid()
        invariant next.Valid() && next.cap >= 2 * cap && next.hashFn == hashFn
        invariant next.slots == old(next.slots) || fresh(next.slots)
        invariant Moved(slots[..], i, next.entries, entries)
        invariant next.len == |UsedBelow(slots[..], i)|
      {
        MoveSlot(next, i, granted);
        i := i + 1;
      }
      MovedAll(slots[..], next.entries, entries);
    }

    /** `_grow`: twice the capacity and the same entries, or no change at all. */
    method Grow(granted: nat -> bool) returns (ok: bool)
      requires Valid() && len > 0 && len >= growLimit
      modifies this, slots
      ensures Valid() && entries == old(entries) && len == old(len)
      ensures ok <==> 2 * old(cap) <= NOENT && granted(2 * old(cap))
      ensures if ok then fresh(slots) && cap >= 2 * old(cap) else slots == old(slots) && cap == old(cap)
      decreases Rank(len - 1, cap), 2
    {
      var nextCap := 2 * cap;
      if nextCap > NOENT || !granted(nextCap) {
        return false;
      }
      var next := new Map<K, V>.InitCap(hashFn, same, nextCap, log + 1);
      MoveTo(next, granted);
      slots := next.slots;
      len := next.len;
      cap := next.cap;
      growLimit := next.growLimit;
      log := next.log;
      return true;
    }

    /** `_insert` of a key that the map does not have: it is refused exactly when every slot is in use. */
    method Insert(k: K, v: V, granted: nat -> bool) returns (ok: bool)
      requires Valid() && k !in entries
      modifies this, slots
      ensures Valid() && (ok <==> old(len) < old(cap))
      ensures entries == if ok then old(entries)[k := v] else old(entries)
      ensures
        if ok && old(len) + 1 >= old(cap) / 2 && 2 * old(cap) <= NOENT && granted(2 * old(cap)) then
          fresh(slots) && cap >= 2 * old(cap)
        else slots == old(slots) && cap == old(cap)
    {
      if len >= cap {
        return false;
      }
      InsertHashUnchk(HashOf(hashFn, k), k, v, granted);
      return true;
    }
  }

  /** `_init_cap`: refused for a capacity that is not a power of two, or if there is no memory. */
  method Create<K(0, ==, !new), V(0)>(hashFn: K -> Size, same: (K, K) -> bool, cap: Size, granted: nat -> bool)
    returns (m: Map?<K, V>)
    ensures m != null <==> granted(cap) && IsPow2(cap)
    ensures m != null ==> m.Valid() && fresh(m) && fresh(m.slots) && m.entries == map[] && m.cap == cap
    ensures m != null ==> m.hashFn == hashFn && m.same == same
  {
    MapIsPow2Exact(cap);
    if !MapIsPow2(cap) || !granted(cap) {
      return null;
    }
    ghost var log: nat :| cap == Pow2(log);
    m := new Map<K, V>.InitCap(hashFn, same, cap, log);
  }

  // The maps from 64-bit ids (metadata_int.h), which use `uint64cmp` and `hash_uint64`.

  /** `uint64cmp`: a 64-bit difference returned as an `int`. */
  function Uint64Cmp(v1: Size, v2: Size): int {
    var low := (v2 - v1) % TWO32;
    if low < TWO32 / 2 then low else low - TWO32
  }

  /** The comparison sees only the low half of its arguments. */
  lemma Uint64CmpIsZero(a: Size, b: Size)
    ensures Uint64Cmp(a, b) == 0 <==> a % TWO32 == b % TWO32
  {
  }

  function SameUint64(): (Size, Size) -> bool {
    (a: Size, b: Size) => Uint64Cmp(a, b) == 0
  }

  function HashUint64(): Size -> Size {
    (k: Size) => k
  }

  lemma SameHome(a: nat, b: nat, n: nat)
    requires n <= 32 && a % TWO32 == b % TWO32
    ensures a % Pow2(n) == b % Pow2(n)
  {
    var p, q := Pow2(n), Pow2(32 - n);
    Pow2Add(n, 32 - n);
    Pow2Of32();
    LowPart(a, p, q, TWO32);
    LowPart(b, p, q, TWO32);
  }

  lemma Pow2Of32()
    ensures Pow2(32) == TWO32
  {
    assert Pow2(8) == 256;
    Pow2Add(8, 8);
    Pow2Add(16, 16);
  }

  lemma LowPart(a: nat, p: nat, q: nat, m: nat)
    requires p > 0 && p * q == m > 0
    ensures a % p == a % m % p
  {
    var j := ModMod(a, p, q, m);
    ModOf(j, p, a % p);
  }

  /** Some key of the map has the same low half as `k`. */
  ghost predicate Confusable<V>(s: seq<Slot<Size, V>>, k: Size) {
    exists i :: 0 <= i < |s| && Used(s[i]) && s[i].key % TWO32 == k % TWO32
  }

  /**
    Looking up an id that is not there finds nothing if no id in the map has the same low 32 bits. In a map of at most
    `2^32` slots that is the exact condition, but for the largest 64-bit id, whose hash is altered.
   */
  lemma AbsentId<V>(s: seq<Slot<Size, V>>, k: Size, n: nat)
    requires |s| == Pow2(n) && Table(s, HashUint64()) && forall i | 0 <= i < |s| && Used(s[i]) :: s[i].key != k
    ensures var r := Probe(s, SameUint64(), Home(HashOf(HashUint64(), k), |s|), k, 0);
      && (!Confusable(s, k) ==> r.None?)
      && (n <= 32 && k != NOENT && (forall i | 0 <= i < |s| && Used(s[i]) :: s[i].key != NOENT) ==>
            (r.None? <==> !Confusable(s, k)))
  {
    var r := Probe(s, SameUint64(), Home(HashOf(HashUint64(), k), |s|), k, 0);
    if r.Some? {
      Uint64CmpIsZero(s[r.value].key, k);
    }
    if n <= 32 && k != NOENT && forall i | 0 <= i < |s| && Used(s[i]) :: s[i].key != NOENT {
      forall i | 0 <= i < |s| && Used(s[i]) && s[i].key % TWO32 == k % TWO32 ensures r.Some? {
        ConfusedHit(s, k, n, i);
      }
    }
  }

  lemma ConfusedHit<V>(s: seq<Slot<Size, V>>, k: Size, n: nat, i: nat)
    requires |s| == Pow2(n) && n <= 32 && Table(s, HashUint64()) && i < |s| && Used(s[i])
    requires s[i].key != NOENT && s[i].key % TWO32 == k % TWO32
    ensures Probe(s, SameUint64(), Home(k, |s|), k, 0).Some?
  {
    var h := Home(k, |s|);
    Uint64CmpIsZero(s[i].key, k);
    SameHome(s[i].key, k, n);
    assert s[i].hash == s[i].key && Home(s[i].hash, |s|) == h;
    assert Reachable(s, i);
    var e := Dist(h, i, |s|);
    assert At(h, e, |s|) == i;
    ProbeMeets(s, SameUint64(), h, k, 0, e);
  }

  /** In a map holding only id 1, id `2^32 + 1` is found. */
  lemma ConfusedIds(s: seq<Slot<Size, char>>)
    requires s == [Slot(NOENT, 0, 'a'), Slot(1, 1, 'b')]
    ensures Table(s, HashUint64()) && Probe(s, SameUint64(), Home(TWO32 + 1, 2), TWO32 + 1, 0) == Some(1)
  {
    assert Home(TWO32 + 1, 2) == 1;
    Uint64CmpIsZero(1, TWO32 + 1);
    assert At(1, 0, 2) == 1;
  }

  // The ids of data stream classes and event classes in metadata.c.

  /** No two ids of the map have the same low half. */
  ghost predicate LowDistinct<V>(m: map<Size, V>) {
    forall a, b | a in m && b in m && a % TWO32 == b % TWO32 :: a == b
  }

  /** Another id of the map has the same low half as `k`. */
  ghost predicate Twin<V>(m: map<Size, V>, k: Size) {
    exists x :: x in m && x != k && x % TWO32 == k % TWO32
  }

  ghost predicate IdMap<V(0)>(m: Map<Size, V>)
    reads m, m.slots
  {
    m.Valid() && m.hashFn == HashUint64() && m.same == SameUint64()
  }

  lemma NoTwinKnows<V(0)>(m: Map<Size, V>, k: Size)
    requires IdMap(m) && !Twin(m.entries, k)
    ensures m.Knows(k)
  {
    forall x | x in m.entries ensures m.same(x, k) <==> x == k {
      Uint64CmpIsZero(x, k);
    }
  }

  lemma TwinIsConfusable<V(0)>(m: Map<Size, V>, k: Size)
    requires IdMap(m) && k !in m.entries
    ensures Twin(m.entries, k) <==> Confusable(m.slots[..], k)
  {
    var s := m.slots[..];
    if Twin(m.entries, k) {
      var x :| x in m.entries && x != k && x % TWO32 == k % TWO32;
      var i :| 0 <= i < |s| && Holds(s, i, x);
    }
    if Confusable(s, k) {
      var i :| 0 <= i < |s| && Used(s[i]) && s[i].key % TWO32 == k % TWO32;
      assert s[i].key in m.entries;
    }
  }

  /**
    A lookup by id, as the decoder and the metadata make it: right unless another id of the map has the same low half.
   */
  method FindId<V(0)>(m: Map<Size, V>, id: Size) returns (r: Option<V>)
    requires IdMap(m)
    ensures !Twin(m.entries, id) ==> r == if id in m.entries then Some(m.entries[id]) else None
    ensures id in m.entries && LowDistinct(m.entries) ==> r == Some(m.entries[id])
    ensures id !in m.entries && m.log <= 32 && id != NOENT && NOENT !in m.entries ==>
      (r.None? <==> !Twin(m.entries, id))
  {
    var slot := m.Find(id);
    if !Twin(m.entries, id) { NoTwinKnows(m, id); }
    if id !in m.entries {
      TwinIsConfusable(m, id);
      AbsentId(m.slots[..], id, m.log);
    }
    match slot {
      case None => return None;
      case Some(i) => return Some(m.slots[i].val);
    }
  }

  datatype Registered = Added | Duplicate | NoRoom

  /**
    How metadata.c gives a class its id: it is refused if the map seems to have it. This keeps the low halves distinct,
    so every id that is in the map is found, and the ids refused are those whose low half is taken.
   */
  method Register<V(0)>(m: Map<Size, V>, id: Size, v: V, granted: nat -> bool) returns (r: Registered)
    requires IdMap(m)
    modifies m, m.slots
    ensures IdMap(m) && (m.slots == old(m.slots) || fresh(m.slots))
    ensures m.entries == if r.Added? then old(m.entries)[id := v] else old(m.entries)
    ensures r.Added? ==> id !in old(m.entries) && old(m.len < m.cap)
    ensures r.NoRoom? ==> id !in old(m.entries) && old(m.len >= m.cap)
    ensures old(m.log <= 32 && id != NOENT && NOENT !in m.entries) ==>
      && (r.Duplicate? <==> id in old(m.entries) || Twin(old(m.entries), id))
      && (LowDistinct(old(m.entries)) ==> LowDistinct(m.entries))
  {
    var has := m.Contains(id);
    Uint64CmpIsZero(id, id);
    if id !in m.entries {
      TwinIsConfusable(m, id);
      AbsentId(m.slots[..], id, m.log);
    }
    if has {
      return Duplicate;
    }
    var ok := m.Insert(id, v, granted);
    return if ok then Added else NoRoom;
  }
}
