/** The binary heap of prio_queue.h. */
module PrioQueue {

  /** The key is a time, the value the index of an event generator. */
  datatype Node = Node(key: int, value: nat)

  /** The parent of position `i`, whose children are at `2i + 1` and `2i + 2`. */
  function Parent(i: nat): nat
    requires i > 0
  {
    (i - 1) / 2
  }

  /** The node at `i` is not smaller than its parent. */
  ghost predicate Link(s: seq<Node>, i: nat)
    requires 0 < i < |s|
  {
    s[Parent(i)].key <= s[i].key
  }

  ghost predicate Heap(s: seq<Node>) {
    forall i | 0 < i < |s| :: Link(s, i)
  }

  /** The children of `c` are not smaller than the parent of `c`. */
  ghost predicate Skips(s: seq<Node>, c: nat)
    requires c < |s|
  {
    c > 0 ==> forall i | 0 < i < |s| :: Parent(i) == c ==> s[Parent(c)].key <= s[i].key
  }

  /** A heap but for the link above `c`. */
  ghost predicate HeapButAbove(s: seq<Node>, c: nat)
    requires c < |s|
  {
    (forall i | 0 < i < |s| && i != c :: Link(s, i)) && Skips(s, c)
  }

  /** A heap but for the links below `c`. */
  ghost predicate HeapButBelow(s: seq<Node>, c: nat)
    requires c < |s|
  {
    (forall i | 0 < i < |s| :: Parent(i) != c ==> Link(s, i)) && Skips(s, c)
  }

  function Swap(s: seq<Node>, a: nat, b: nat): (t: seq<Node>)
    requires a < |s| && b < |s|
    ensures |t| == |s|
  {
    s[a := s[b]][b := s[a]]
  }

  lemma SwapKeeps(s: seq<Node>, a: nat, b: nat)
    requires a < |s| && b < |s|
    ensures multiset(Swap(s, a, b)) == multiset(s)
  {
  }

  lemma SwapUp(s: seq<Node>, c: nat)
    requires 0 < c < |s| && HeapButAbove(s, c) && s[c].key < s[Parent(c)].key
    ensures HeapButAbove(Swap(s, c, Parent(c)), Parent(c))
  {
    var p := Parent(c);
    var t := Swap(s, c, p);
    forall i | 0 < i < |t| && i != p ensures Link(t, i) {
      if i != c { assert Link(s, i); }
    }
    if p > 0 {
      assert Link(s, p);
      forall i | 0 < i < |t| && Parent(i) == p ensures t[Parent(p)].key <= t[i].key {
        if i != c { assert Link(s, i); }
      }
    }
  }

  /** `d` is the child of `c` with the smaller key. */
  ghost predicate LeastChild(s: seq<Node>, c: nat, d: nat)
    requires c < |s|
  {
    0 < d < |s| && Parent(d) == c && forall i | 0 < i < |s| :: Parent(i) == c ==> s[d].key <= s[i].key
  }

  lemma SwapDown(s: seq<Node>, c: nat, d: nat)
    requires c < |s| && HeapButBelow(s, c) && LeastChild(s, c, d) && s[d].key < s[c].key
    ensures HeapButBelow(Swap(s, c, d), d)
  {
    var t := Swap(s, c, d);
    forall i | 0 < i < |t| && Parent(i) != d ensures Link(t, i) {
      if Parent(i) != c { assert Link(s, i); }
    }
    forall i | 0 < i < |t| && Parent(i) == d ensures t[Parent(d)].key <= t[i].key {
      assert Link(s, i);
    }
  }

  /** The root of a heap holds a least key. */
  lemma {:induction false} RootIsLeast(s: seq<Node>, i: nat)
    requires Heap(s) && i < |s|
    ensures s[0].key <= s[i].key
  {
    if i > 0 {
      RootIsLeast(s, Parent(i));
      assert Link(s, i);
    }
  }

  /** `n` is one of these nodes and no other has a smaller key. */
  ghost predicate Least(n: Node, nodes: multiset<Node>) {
    n in nodes && forall k | k in nodes :: n.key <= k.key
  }

  lemma RootIsLeastOfAll(s: seq<Node>)
    requires Heap(s) && s != []
    ensures Least(s[0], multiset(s))
  {
    forall n | n in multiset(s) ensures s[0].key <= n.key {
      var i :| 0 <= i < |s| && s[i] == n;
      RootIsLeast(s, i);
    }
  }

  /** Nothing below `c` is smaller. */
  ghost predicate Settled(s: seq<Node>, c: nat)
    requires c < |s|
  {
    && (2 * c + 1 < |s| ==> s[c].key <= s[2 * c + 1].key)
    && (2 * c + 2 < |s| ==> s[c].key <= s[2 * c + 2].key)
  }

  lemma SettledHeap(s: seq<Node>, c: nat)
    requires c < |s| && HeapButBelow(s, c) && Settled(s, c)
    ensures Heap(s)
  {
    forall k | 0 < k < |s| ensures Link(s, k) {
      if Parent(k) == c { assert k == 2 * c + 1 || k == 2 * c + 2; }
    }
  }

  class PrioQueue {
    const nodes: array<Node>
    var len: nat

    /** The nodes in use. */
    ghost function Used(): (s: seq<Node>)
      requires len <= nodes.Length
      reads this, nodes
    {
      nodes[..len]
    }

    ghost predicate Valid()
      reads this, nodes
    {
      len <= nodes.Length && Heap(Used())
    }

    /** The nodes held. */
    ghost function Content(): multiset<Node>
      requires Valid()
      reads this, nodes
    {
      multiset(Used())
    }

    constructor (cap: nat)
      ensures Valid() && fresh(nodes) && nodes.Length == cap && len == 0
      ensures Content() == multiset{}
    {
      nodes := new Node[cap](_ => Node(0, 0));
      len := 0;
    }

    method Clear()
      requires Valid()
      modifies this
      ensures Valid() && Content() == multiset{} && len == 0
    {
      len := 0;
    }

    method BottomUpFixHeap(i: nat)
      requires len <= nodes.Length && i < len && HeapButAbove(Used(), i)
      modifies nodes
      ensures Valid() && Content() == old(multiset(Used()))
    {
      var cur: nat := i;
      while cur > 0
        invariant cur < len && HeapButAbove(Used(), cur)
        invariant multiset(Used()) == old(multiset(Used()))
      {
        var par := (cur - 1) / 2;
        if nodes[par].key <= nodes[cur].key {
          assert Link(Used(), cur);
          break;
        }
        ghost var s := Used();
        SwapUp(s, cur);
        SwapKeeps(s, cur, par);
        nodes[cur], nodes[par] := nodes[par], nodes[cur];
        assert Used() == Swap(s, cur, par);
        cur := par;
      }
    }

    /** The new content is the old one and `n`. */
    method PushUnchecked(n: Node)
      requires Valid() && len < nodes.Length
      modifies this, nodes
      ensures Valid() && Content() == old(Content()) + multiset{n}
      ensures len == old(len) + 1
    {
      ghost var s := Used();
      nodes[len] := n;
      len := len + 1;
      assert Used() == s + [n];
      forall i | 0 < i < len && i != len - 1 ensures Link(Used(), i) {
        assert Link(s, i);
      }
      BottomUpFixHeap(len - 1);
    }

    /** The choice made in each round of `TopDownFixHeap`. */
    method Smallest(cur: nat) returns (smallest: nat)
      requires len <= nodes.Length && cur < nodes.Length && (cur < len || len == 0)
      ensures len == 0 ==> smallest == cur
      ensures len > 0 && smallest == cur ==> Settled(Used(), cur)
      ensures smallest != cur ==> LeastChild(Used(), cur, smallest) && nodes[smallest].key < nodes[cur].key
    {
      var left := 2 * cur + 1;
      var right := 2 * cur + 2;
      smallest := cur;
      if left < len && nodes[left].key < nodes[smallest].key {
        smallest := left;
      }
      if right < len && nodes[right].key < nodes[smallest].key {
        smallest := right;
      }
    }

    method TopDownFixHeap(i: nat)
      requires len <= nodes.Length && i < nodes.Length
      requires len == 0 || (i < len && HeapButBelow(Used(), i))
      modifies nodes
      ensures Valid() && Content() == old(multiset(Used()))
    {
      var cur: nat := i;
      while true
        invariant if len == 0 then cur == i else cur < len && HeapButBelow(Used(), cur)
        invariant multiset(Used()) == old(multiset(Used()))
        decreases len - cur
      {
        var smallest := Smallest(cur);
        if smallest == cur {
          if len > 0 { SettledHeap(Used(), cur); }
          break;
        }
        ghost var s := Used();
        SwapDown(s, cur, smallest);
        SwapKeeps(s, cur, smallest);
        nodes[cur], nodes[smallest] := nodes[smallest], nodes[cur];
        assert Used() == Swap(s, cur, smallest);
        cur := smallest;
      }
    }

    /** Removes a node of least key: everything else stays, and nothing that stays is smaller. */
    method PopUnchecked() returns (min: Node)
      requires Valid() && len > 0
      modifies this, nodes
      ensures Valid() && len == old(len) - 1
      ensures Least(min, old(Content())) && Content() == old(Content()) - multiset{min}
    {
      ghost var s := Used();
      RootIsLeastOfAll(s);
      min := nodes[0];
      nodes[0] := nodes[len - 1];
      len := len - 1;
      ghost var t := Used();
      assert t == if |s| == 1 then [] else s[..|s| - 1][0 := s[|s| - 1]];
      Shrunk(s, t);
      TopDownFixHeap(0);
    }

    method PeekUnchecked() returns (min: Node)
      requires Valid() && len > 0
      ensures Least(min, Content())
    {
      RootIsLeastOfAll(Used());
      min := nodes[0];
    }
  }

  /** Moving the last node to the root of a heap. */
  lemma Shrunk(s: seq<Node>, t: seq<Node>)
    requires s != [] && Heap(s)
    requires t == if |s| == 1 then [] else s[..|s| - 1][0 := s[|s| - 1]]
    ensures if t == [] then Heap(t) else HeapButBelow(t, 0)
    ensures multiset(t) == multiset(s) - multiset{s[0]}
  {
    var last := s[|s| - 1];
    if |s| == 1 {
      assert s == [s[0]];
    } else {
      forall i | 0 < i < |t| && Parent(i) != 0 ensures Link(t, i) {
        assert Link(s, i);
      }
      var mid := s[1..|s| - 1];
      assert s == [s[0]] + mid + [last];
      assert t == [last] + mid;
    }
  }
}
