/** The k-way merge of muxer.c. */
module Muxer {
  import opened Arith
  import opened Wrappers
  import opened Events
  import PQ = PrioQueue

  datatype State = Fresh | Ongoing | Done | Error

  /** What a run of the muxer did: called a generator, or put out an event of one. */
  datatype Act = Called(gen: nat, answer: Answer) | Emitted(gen: nat, ev: Event)

  /** The events put out. */
  function Output(log: seq<Act>): seq<Event> {
    if log == [] then [] else
      var last := log[|log| - 1];
      Output(log[..|log| - 1]) + if last.Emitted? then [last.ev] else []
  }

  /** The events put out that came from generator `g`. */
  function From(log: seq<Act>, g: nat): seq<Event> {
    if log == [] then [] else
      var last := log[|log| - 1];
      From(log[..|log| - 1], g) + if last.Emitted? && last.gen == g then [last.ev] else []
  }

  lemma Extend(log: seq<Act>, a: Act)
    ensures Output(log + [a]) == Output(log) + if a.Emitted? then [a.ev] else []
    ensures forall g: nat :: From(log + [a], g) == From(log, g) + if a.Emitted? && a.gen == g then [a.ev] else []
  {
    assert (log + [a])[..|log|] == log;
  }

  /** `log[at[k]]` puts out `evs[k]`, in the order of the log, and nothing else puts out an event, of `g` if given. */
  ghost predicate PutOutAt(log: seq<Act>, g: Option<nat>, evs: seq<Event>, at: seq<nat>) {
    && |at| == |evs|
    && (forall k | 0 <= k < |at| :: at[k] < |log| && Emits(log[at[k]], g) && log[at[k]].ev == evs[k])
    && (forall j, k | 0 <= j < k < |at| :: at[j] < at[k])
    && forall i: nat | i < |log| && Emits(log[i], g) :: i in at
  }

  predicate Emits(a: Act, g: Option<nat>) {
    a.Emitted? && (g.Some? ==> a.gen == g.value)
  }

  /** The output is what the log puts out, and the part of a generator what it puts out of that. */
  lemma {:induction false} OutputAt(log: seq<Act>, g: Option<nat>) returns (at: seq<nat>)
    ensures PutOutAt(log, g, if g.Some? then From(log, g.value) else Output(log), at)
    decreases |log|
  {
    if log == [] {
      at := [];
    } else {
      var n := |log| - 1;
      at := OutputAt(log[..n], g);
      assert log == log[..n] + [log[n]];
      var evs := if g.Some? then From(log[..n], g.value) else Output(log[..n]);
      if Emits(log[n], g) {
        at := PutOutNext(log[..n], log[n], g, evs, at);
      } else {
        NotPutOut(log[..n], log[n], g, evs, at);
        assert evs + [] == evs;
      }
    }
  }

  lemma PutOutNext(log: seq<Act>, a: Act, g: Option<nat>, evs: seq<Event>, at: seq<nat>) returns (next: seq<nat>)
    requires PutOutAt(log, g, evs, at) && Emits(a, g)
    ensures PutOutAt(log + [a], g, evs + [a.ev], next)
  {
    var more := log + [a];
    next := at + [|log|];
    forall i: nat | i < |more| && Emits(more[i], g) ensures i in next {
      if i < |log| {
        assert i in at;
      } else {
        assert next[|at|] == i;
      }
    }
  }

  lemma NotPutOut(log: seq<Act>, a: Act, g: Option<nat>, evs: seq<Event>, at: seq<nat>)
    requires PutOutAt(log, g, evs, at) && !Emits(a, g)
    ensures PutOutAt(log + [a], g, evs, at)
  {
    assert forall i: nat | i < |log| :: (log + [a])[i] == log[i];
  }

  /**
    One call of the muxer: first some generators were called, then exactly the events of `out` were
    put out, so no generator was called once the output buffer held an event.
   */
  ghost predicate OneCall(was: seq<Act>, log: seq<Act>, out: seq<Event>) {
    && was <= log
    && |was| + |out| <= |log|
    && (forall i | |was| <= i < |log| - |out| :: log[i].Called?)
    && (forall i | 0 <= i < |out| :: EmittedAt(log, |log| - |out| + i, out[i]))
  }

  ghost predicate EmittedAt(log: seq<Act>, i: int, ev: Event)
    requires 0 <= i < |log|
  {
    log[i].Emitted? && log[i].ev == ev
  }

  /** Every event put out came from one of `n` generators. */
  ghost predicate FromBelow(log: seq<Act>, n: nat) {
    forall i | 0 <= i < |log| :: log[i].Emitted? ==> log[i].gen < n
  }

  /** `log` puts out every event of the streams exactly once, those of one stream in their order. */
  ghost predicate Interleaves(log: seq<Act>, streams: seq<seq<Event>>) {
    && FromBelow(log, |streams|)
    && forall g | 0 <= g < |streams| :: From(log, g) == streams[g]
  }

  ghost predicate AllSorted(streams: seq<seq<Event>>) {
    forall g | 0 <= g < |streams| :: Sorted(streams[g])
  }

  /**
    The generators with their buffers: what is to come, what is buffered, how much of it is used up, and who has
    ended.
   */
  datatype Feed = Feed(gens: seq<Script>, bufs: seq<seq<Event>>, curs: seq<nat>, ended: seq<bool>)

  ghost predicate Shaped(f: Feed) {
    && |f.bufs| == |f.curs| == |f.ended| == |f.gens|
    && (forall g | 0 <= g < |f.gens| :: f.curs[g] <= |f.bufs[g]|)
    && (forall g | 0 <= g < |f.gens| :: f.ended[g] ==> f.bufs[g] == [])
  }

  /** Generator `g` has an event in its buffer. */
  ghost predicate Active(f: Feed, g: nat)
    requires Shaped(f) && g < |f.gens|
  {
    f.curs[g] < |f.bufs[g]|
  }

  /** The node that stands for generator `g` in the queue. */
  ghost function Head(f: Feed, g: nat): PQ.Node
    requires Shaped(f) && g < |f.gens| && Active(f, g)
  {
    PQ.Node(f.bufs[g][f.curs[g]].tstamp, g)
  }

  /** What generator `g` has not yet put out. */
  ghost function Left(f: Feed, g: nat): seq<Event>
    requires Shaped(f) && g < |f.gens|
  {
    f.bufs[g][f.curs[g]..] + if f.ended[g] then [] else Stream(f.gens[g])
  }

  /** No event of a stream is lost, repeated or moved before another of the same stream. */
  ghost predicate Conserved(f: Feed, log: seq<Act>, streams: seq<seq<Event>>)
    requires Shaped(f)
  {
    && |streams| == |f.gens|
    && FromBelow(log, |streams|)
    && forall g | 0 <= g < |f.gens| :: streams[g] == From(log, g) + Left(f, g)
  }

  /** Everything put out is in order and not later than what is left. */
  ghost predicate InOrder(f: Feed, log: seq<Act>)
    requires Shaped(f)
  {
    Sorted(Output(log)) && forall g | 0 <= g < |f.gens| :: NotAfter(Output(log), Left(f, g))
  }

  /** How the stream of each generator is still to end; one that has ended ended well. */
  ghost predicate Fated(f: Feed, fates: seq<Result<(), Code>>)
    requires Shaped(f)
  {
    |fates| == |f.gens| && forall g | 0 <= g < |f.gens| :: fates[g] == if f.ended[g] then Ok(()) else Fate(f.gens[g])
  }

  /** What every step keeps: nothing lost, and, the streams being sorted, nothing out of order. */
  ghost predicate Kept(f: Feed, log: seq<Act>, streams: seq<seq<Event>>)
    requires Shaped(f)
  {
    Conserved(f, log, streams) && (AllSorted(streams) ==> InOrder(f, log))
  }

  ghost predicate Wanted(f: Feed, n: PQ.Node)
    requires Shaped(f)
  {
    n.value < |f.gens| && Active(f, n.value) && n == Head(f, n.value)
  }

  /** The queue holds one node for each generator with an event in its buffer, and nothing else. */
  ghost predicate Queued(f: Feed, content: multiset<PQ.Node>)
    requires Shaped(f)
  {
    forall n :: content[n] == if Wanted(f, n) then 1 else 0
  }

  /** Only `pending` may have an empty buffer without having ended. */
  ghost predicate Waiting(f: Feed, pending: nat)
    requires Shaped(f)
  {
    && (pending < |f.gens| ==> !Active(f, pending) && !f.ended[pending])
    && forall g | 0 <= g < |f.gens| && g != pending :: Active(f, g) || f.ended[g]
  }

  /** The first answers of the first `n` generators are no errors. */
  ghost predicate AllAnswer(gens: seq<Script>, n: int) {
    n <= |gens| && forall g | 0 <= g < n :: Next(gens[g]).Ok?
  }

  /** The first `n` generators have given their first batch; the others, not called yet, still have `was` to say. */
  ghost predicate Started(f: Feed, was: seq<Script>, n: nat)
    requires Shaped(f)
  {
    && n <= |was| == |f.gens|
    && AllAnswer(was, n) && (forall g | 0 <= g < n :: Active(f, g) || f.ended[g])
    && (forall g | n <= g < |was| :: f.bufs[g] == [] && !f.ended[g] && f.gens[g] == was[g])
  }

  // The number of queued nodes.

  lemma {:induction false} DistinctValues(m: multiset<PQ.Node>, vs: set<nat>)
    requires forall n | n in m :: m[n] == 1 && n.value in vs
    requires forall a, b | a in m && b in m :: a.value == b.value ==> a == b
    ensures |m| <= |vs|
    decreases |m|
  {
    if m != multiset{} {
      var n :| n in m;
      var rest := m - multiset{n};
      forall a | a in rest ensures rest[a] == 1 && a.value in vs - {n.value} {
        assert a in m;
      }
      DistinctValues(rest, vs - {n.value});
    }
  }

  /** While some generator has nothing queued, the queue is not full. */
  lemma QueueHasRoom(f: Feed, content: multiset<PQ.Node>, g: nat)
    requires Shaped(f) && Queued(f, content) && g < |f.gens| && !Active(f, g)
    ensures |content| < |f.gens|
  {
    var vs := NatsBelow(|f.gens|) - {g};
    forall n | n in content ensures content[n] == 1 && n.value in vs {
      assert Wanted(f, n);
    }
    forall a, b | a in content && b in content && a.value == b.value ensures a == b {
      assert Wanted(f, a) && Wanted(f, b);
    }
    DistinctValues(content, vs);
  }

  // A generator's answer arrives.

  ghost function Refilled(f: Feed, g: nat): Feed
    requires Shaped(f) && g < |f.gens| && Next(f.gens[g]).Ok?
  {
    var batch := Next(f.gens[g]).value;
    Feed(f.gens[g := Rest(f.gens[g])], f.bufs[g := batch], f.curs[g := 0], f.ended[g := batch == []])
  }

  lemma CalledKeeps(f: Feed, log: seq<Act>, a: Act, streams: seq<seq<Event>>)
    requires Shaped(f) && a.Called? && Kept(f, log, streams)
    ensures Kept(f, log + [a], streams)
  {
    Extend(log, a);
    assert Output(log + [a]) == Output(log);
    forall h | 0 <= h < |f.gens| ensures streams[h] == From(log + [a], h) + Left(f, h) {
      assert From(log + [a], h) == From(log, h);
    }
  }

  lemma RefilledKeeps(f: Feed, g: nat, log: seq<Act>, streams: seq<seq<Event>>)
    requires Shaped(f) && g < |f.gens| && Next(f.gens[g]).Ok? && !Active(f, g) && !f.ended[g]
    ensures Shaped(Refilled(f, g))
    ensures Kept(f, log, streams) ==> Kept(Refilled(f, g), log, streams)
  {
    var t := Refilled(f, g);
    forall h | 0 <= h < |f.gens| ensures Left(t, h) == Left(f, h) {
      if h == g {
        assert f.bufs[g][f.curs[g]..] == [];
        assert t.bufs[g][0..] == t.bufs[g];
      }
    }
  }

  lemma RefilledQueued(f: Feed, g: nat, content: multiset<PQ.Node>)
    requires Shaped(f) && g < |f.gens| && Next(f.gens[g]).Ok? && !Active(f, g) && Queued(f, content)
    requires Shaped(Refilled(f, g))
    ensures var t := Refilled(f, g);
      Queued(t, if Active(t, g) then content + multiset{Head(t, g)} else content)
  {
    var t := Refilled(f, g);
    forall n ensures Wanted(t, n) <==> (Wanted(f, n) || (Active(t, g) && n == Head(t, g))) {
    }
  }

  lemma RefilledFated(f: Feed, g: nat, fates: seq<Result<(), Code>>)
    requires Shaped(f) && g < |f.gens| && Next(f.gens[g]).Ok? && !f.ended[g] && Fated(f, fates)
    requires Shaped(Refilled(f, g))
    ensures Fated(Refilled(f, g), fates)
  {
  }

  lemma StartedNext(f: Feed, was: seq<Script>, n: nat)
    requires Shaped(f) && Started(f, was, n) && n < |was| && Next(was[n]).Ok?
    requires Shaped(Refilled(f, n))
    ensures Started(Refilled(f, n), was, n + 1)
  {
  }

  // An event is put out.

  ghost function Advanced(f: Feed, g: nat): Feed
    requires Shaped(f) && g < |f.gens| && Active(f, g)
  {
    f.(curs := f.curs[g := f.curs[g] + 1])
  }

  lemma AdvancedLeft(f: Feed, g: nat)
    requires Shaped(f) && g < |f.gens| && Active(f, g)
    ensures Shaped(Advanced(f, g))
    ensures forall h | 0 <= h < |f.gens| ::
      Left(f, h) == (if h == g then [f.bufs[g][f.curs[g]]] else []) + Left(Advanced(f, g), h)
  {
    var b, c := f.bufs[g], f.curs[g];
    assert b[c..] == [b[c]] + b[c + 1..];
  }

  lemma AdvancedConserved(f: Feed, g: nat, log: seq<Act>, streams: seq<seq<Event>>)
    requires Shaped(f) && g < |f.gens| && Active(f, g) && Conserved(f, log, streams)
    ensures Shaped(Advanced(f, g))
    ensures Conserved(Advanced(f, g), log + [Emitted(g, f.bufs[g][f.curs[g]])], streams)
  {
    var a := Emitted(g, f.bufs[g][f.curs[g]]);
    AdvancedLeft(f, g);
    Extend(log, a);
    forall h | 0 <= h < |f.gens| ensures streams[h] == From(log + [a], h) + Left(Advanced(f, g), h) {
      assert streams[h] == From(log, h) + Left(f, h);
    }
  }

  /** The head of a least node precedes everything that is left. */
  lemma LeastIsFirst(f: Feed, n: PQ.Node, content: multiset<PQ.Node>, h: nat)
    requires Shaped(f) && Queued(f, content) && Waiting(f, |f.gens|) && h < |f.gens| && Sorted(Left(f, h))
    requires PQ.Least(n, content)
    ensures Wanted(f, n) && NotAfter([f.bufs[n.value][f.curs[n.value]]], Left(f, h))
  {
    assert Wanted(f, n);
    if Active(f, h) {
      assert Wanted(f, Head(f, h));
      assert content[Head(f, h)] == 1;
      assert Left(f, h)[0] == f.bufs[h][f.curs[h]];
    } else {
      assert Left(f, h) == [];
    }
  }

  lemma LeftIsSorted(f: Feed, log: seq<Act>, streams: seq<seq<Event>>, h: nat)
    requires Shaped(f) && Conserved(f, log, streams) && AllSorted(streams) && h < |f.gens|
    ensures Sorted(Left(f, h))
  {
    SortedSplit(From(log, h), Left(f, h));
  }

  lemma AdvancedInOrder(f: Feed, n: PQ.Node, content: multiset<PQ.Node>, log: seq<Act>, streams: seq<seq<Event>>)
    requires Shaped(f) && Queued(f, content) && Waiting(f, |f.gens|)
    requires Conserved(f, log, streams) && AllSorted(streams) && InOrder(f, log)
    requires PQ.Least(n, content)
    ensures Wanted(f, n) && Shaped(Advanced(f, n.value))
    ensures InOrder(Advanced(f, n.value), log + [Emitted(n.value, f.bufs[n.value][f.curs[n.value]])])
  {
    assert Wanted(f, n);
    var g, ev := n.value, f.bufs[n.value][f.curs[n.value]];
    var t := Advanced(f, g);
    AdvancedLeft(f, g);
    Extend(log, Emitted(g, ev));
    assert Output(log + [Emitted(g, ev)]) == Output(log) + [ev];
    assert Left(f, g)[0] == ev;
    SortedSplit(Output(log), [ev]);
    forall h | 0 <= h < |f.gens| ensures NotAfter(Output(log) + [ev], Left(t, h)) {
      LeftIsSorted(f, log, streams, h);
      LeastIsFirst(f, n, content, h);
      AfterBoth(Output(log), ev, Left(f, h), Left(t, h));
    }
  }

  lemma AfterBoth(a: seq<Event>, ev: Event, b: seq<Event>, c: seq<Event>)
    requires NotAfter(a, b) && NotAfter([ev], b) && (b == c || b == [ev] + c)
    ensures NotAfter(a + [ev], c)
  {
    forall i, j | 0 <= i < |a + [ev]| && 0 <= j < |c| ensures (a + [ev])[i].tstamp <= c[j].tstamp {
      var k := j + |b| - |c|;
      assert b[k] == c[j];
      assert [ev][0].tstamp <= b[k].tstamp;
    }
  }

  lemma AdvancedKeeps(f: Feed, n: PQ.Node, content: multiset<PQ.Node>, log: seq<Act>, streams: seq<seq<Event>>)
    requires Shaped(f) && Queued(f, content) && Waiting(f, |f.gens|) && Kept(f, log, streams)
    requires PQ.Least(n, content)
    ensures Wanted(f, n) && Shaped(Advanced(f, n.value))
    ensures Kept(Advanced(f, n.value), log + [Emitted(n.value, f.bufs[n.value][f.curs[n.value]])], streams)
  {
    assert Wanted(f, n);
    AdvancedConserved(f, n.value, log, streams);
    if AllSorted(streams) {
      AdvancedInOrder(f, n, content, log, streams);
    }
  }

  lemma AdvancedQueued(f: Feed, n: PQ.Node, content: multiset<PQ.Node>)
    requires Shaped(f) && Queued(f, content) && n in content
    ensures Wanted(f, n) && Shaped(Advanced(f, n.value))
    ensures var t := Advanced(f, n.value);
      var rest := content - multiset{n};
      Queued(t, if Active(t, n.value) then rest + multiset{Head(t, n.value)} else rest)
  {
    assert Wanted(f, n);
    var t := Advanced(f, n.value);
    forall k ensures Wanted(t, k) <==>
      if k.value == n.value then Active(t, n.value) && k == Head(t, n.value) else Wanted(f, k) {
    }
  }

  /** All that putting out the event of the least node `n` keeps; `t` is the feed after it. */
  lemma PutOutKeeps(f: Feed, t: Feed, n: PQ.Node, content: multiset<PQ.Node>, ev: Event, log: seq<Act>,
                    streams: seq<seq<Event>>, fates: seq<Result<(), Code>>)
    requires Shaped(f) && Queued(f, content) && Waiting(f, |f.gens|) && Kept(f, log, streams) && Fated(f, fates)
    requires PQ.Least(n, content)
    requires Wanted(f, n) && t == Advanced(f, n.value) && ev == f.bufs[n.value][f.curs[n.value]]
    ensures Shaped(t) && Kept(t, log + [Emitted(n.value, ev)], streams) && Fated(t, fates)
    ensures var rest := content - multiset{n};
      Queued(t, if Active(t, n.value) then rest + multiset{Head(t, n.value)} else rest)
    ensures Waiting(t, if Active(t, n.value) then |t.gens| else n.value)
  {
    AdvancedQueued(f, n, content);
    AdvancedKeeps(f, n, content, log, streams);
  }

  // How a run ends.

  /** Every stream ends without an error. */
  ghost predicate AllEnd(fates: seq<Result<(), Code>>) {
    forall g | 0 <= g < |fates| :: fates[g].Ok?
  }

  /** The run was ended by the error with which the stream of generator `g` ends. */
  ghost predicate FailedAt(log: seq<Act>, fates: seq<Result<(), Code>>, g: nat, code: Code) {
    g < |fates| && fates[g] == Err(code) && log != [] && log[|log| - 1] == Called(g, Err(code))
  }

  ghost predicate FailedWith(log: seq<Act>, fates: seq<Result<(), Code>>, code: Code) {
    exists g: nat :: FailedAt(log, fates, g, code)
  }

  lemma FailedIsFate(log: seq<Act>, fates: seq<Result<(), Code>>, code: Code)
    requires FailedWith(log, fates, code)
    ensures Err(code) in fates && !AllEnd(fates)
  {
    var g: nat :| FailedAt(log, fates, g, code);
  }

  // A whole call.

  /** The last act of a call that did something: another generator called, or the last event put out. */
  lemma OneCallLast(was: seq<Act>, log: seq<Act>, out: seq<Event>)
    requires OneCall(was, log, out) && |was| < |log|
    ensures var last := log[|log| - 1];
      if out == [] then last.Called? else last.Emitted? && last.ev == out[|out| - 1]
    ensures OneCall(was, log[..|log| - 1], if out == [] then [] else out[..|out| - 1])
  {
    var front := log[..|log| - 1];
    var most := if out == [] then [] else out[..|out| - 1];
    assert out != [] ==> EmittedAt(log, |log| - |out| + (|out| - 1), out[|out| - 1]);
    forall i | 0 <= i < |most| ensures EmittedAt(front, |front| - |most| + i, most[i]) {
      assert EmittedAt(log, |log| - |out| + i, out[i]);
    }
  }

  lemma OutputLast(log: seq<Act>)
    requires log != []
    ensures var last, before := log[|log| - 1], Output(log[..|log| - 1]);
      Output(log) == if last.Emitted? then before + [last.ev] else before
  {
    var before := Output(log[..|log| - 1]);
    assert before + [] == before;
  }

  lemma AppendLast(was: seq<Event>, out: seq<Event>)
    requires out != []
    ensures was + out[..|out| - 1] + [out[|out| - 1]] == was + out
  {
  }

  lemma {:induction false} OneCallOutput(was: seq<Act>, log: seq<Act>, out: seq<Event>)
    requires OneCall(was, log, out)
    ensures Output(log) == Output(was) + out
    decreases |log|
  {
    if |log| == |was| {
      assert log == was && out == [];
      assert Output(was) + [] == Output(was);
    } else {
      OneCallLast(was, log, out);
      OutputLast(log);
      if out == [] {
        OneCallOutput(was, log[..|log| - 1], []);
      } else {
        OneCallOutput(was, log[..|log| - 1], out[..|out| - 1]);
        AppendLast(Output(was), out);
      }
    }
  }

  lemma OneCallMore(was: seq<Act>, log: seq<Act>, out: seq<Event>, g: nat, ev: Event)
    requires OneCall(was, log, out)
    ensures OneCall(was, log + [Emitted(g, ev)], out + [ev])
  {
    var l, o := log + [Emitted(g, ev)], out + [ev];
    forall i | 0 <= i < |o| ensures EmittedAt(l, |l| - |o| + i, o[i]) {
      if i < |out| { assert EmittedAt(log, |log| - |out| + i, out[i]); }
    }
  }

  /** The first calls of the first `n` generators. */
  function FirstCalls(gens: seq<Script>, n: nat): seq<Act>
    requires n <= |gens|
  {
    seq(n, g requires 0 <= g < n => Called(g, Next(gens[g])))
  }

  lemma CallsAreOneCall(was: seq<Act>, log: seq<Act>, gens: seq<Script>, n: nat)
    requires n <= |gens| && OneCall(was, log, [])
    ensures OneCall(was, log + FirstCalls(gens, n), [])
  {
    var more := log + FirstCalls(gens, n);
    forall i | |was| <= i < |more| ensures more[i].Called? {
      if i < |log| { assert more[i] == log[i]; }
    }
  }

  lemma CallsSnoc(log: seq<Act>, gens: seq<Script>, n: nat)
    requires n < |gens|
    ensures log + FirstCalls(gens, n + 1) == log + FirstCalls(gens, n) + [Called(n, Next(gens[n]))]
  {
  }

  function Copies<T>(x: T, n: nat): (s: seq<T>)
    ensures |s| == n && forall i | 0 <= i < n :: s[i] == x
  {
    seq(n, _ => x)
  }

  function Streams(gens: seq<Script>): (s: seq<seq<Event>>)
    ensures |s| == |gens| && forall g | 0 <= g < |gens| :: s[g] == Stream(gens[g])
  {
    seq(|gens|, g requires 0 <= g < |gens| => Stream(gens[g]))
  }

  function Fates(gens: seq<Script>): (s: seq<Result<(), Code>>)
    ensures |s| == |gens| && forall g | 0 <= g < |gens| :: s[g] == Fate(gens[g])
  {
    seq(|gens|, g requires 0 <= g < |gens| => Fate(gens[g]))
  }

  /** Before anything has been called. */
  lemma FreshFeed(f: Feed, streams: seq<seq<Event>>, fates: seq<Result<(), Code>>)
    requires f == Feed(f.gens, Copies([], |f.gens|), Copies(0, |f.gens|), Copies(false, |f.gens|))
    requires streams == Streams(f.gens) && fates == Fates(f.gens)
    ensures Shaped(f) && Kept(f, [], streams) && Fated(f, fates) && Queued(f, multiset{}) && Started(f, f.gens, 0)
  {
    forall g | 0 <= g < |f.gens| ensures streams[g] == From([], g) + Left(f, g) {
      assert f.bufs[g][f.curs[g]..] == [];
    }
  }

  /** A muxer over generators that are known by the answers they will give. */
  class Muxer {
    var gens: seq<Script>
    var inEvs: seq<seq<Event>>
    var inEvsCurIs: seq<nat>
    const evsCap: nat
    const pq: PQ.PrioQueue
    var state: State
    var pendingGen: nat
    /** The generators that have answered with an empty batch. */
    ghost var ended: seq<bool>
    /** What each generator was to yield and how to end when the muxer was last fresh, and what happened since. */
    ghost var streams: seq<seq<Event>>
    ghost var fates: seq<Result<(), Code>>
    ghost var log: seq<Act>

    ghost function Input(): Feed
      reads this
    {
      Feed(gens, inEvs, inEvsCurIs, ended)
    }

    ghost predicate Sized()
      reads this, pq, pq.nodes
    {
      && evsCap > 0
      && pq.Valid()
      && pq.nodes.Length == |gens| == |inEvs| == |inEvsCurIs| == |ended| == |streams| == |fates|
      && pendingGen <= |gens|
    }

    /** What every step of a run keeps. */
    ghost predicate Merging()
      reads this, pq, pq.nodes
    {
      && Sized()
      && Shaped(Input())
      && Kept(Input(), log, streams)
      && Fated(Input(), fates)
      && Queued(Input(), pq.Content())
    }

    ghost predicate Valid()
      reads this, pq, pq.nodes
    {
      match state
      case Fresh => Merging() && pendingGen == |gens| && Started(Input(), gens, 0) && log == []
      case Ongoing => Merging() && Waiting(Input(), pendingGen)
      case Done => Merging() && Interleaves(log, streams) && AllEnd(fates)
      case Error => Sized()
    }

    constructor (scripts: seq<Script>, cap: nat)
      ensures Valid() && fresh(pq) && fresh(pq.nodes)
      ensures state == Fresh && gens == scripts && log == []
      ensures evsCap == if cap == 0 then ACTF_DEFAULT_EVS_CAP else cap
      ensures |streams| == |fates| == |scripts|
      ensures forall g | 0 <= g < |scripts| :: streams[g] == Stream(scripts[g]) && fates[g] == Fate(scripts[g])
    {
      gens := scripts;
      inEvs := Copies([], |scripts|);
      inEvsCurIs := Copies(0, |scripts|);
      evsCap := if cap == 0 then ACTF_DEFAULT_EVS_CAP else cap;
      pq := new PQ.PrioQueue(|scripts|);
      state := Fresh;
      pendingGen := |scripts|;
      ended := Copies(false, |scripts|);
      streams := Streams(scripts);
      fates := Fates(scripts);
      log := [];
    }

    /** What the queue holds once the buffer of `g` is accounted for. */
    ghost predicate QueuedBut(g: nat)
      requires Shaped(Input()) && pq.Valid() && g < |gens|
      reads this, pq, pq.nodes
    {
      Queued(Input(), if Active(Input(), g) then pq.Content() + multiset{Head(Input(), g)} else pq.Content())
    }

    /** Calls a generator whose buffer is used up. */
    method TakeBatch(g: nat) returns (r: Result<(), Code>)
      requires Merging() && g < |gens| && !Active(Input(), g) && !ended[g]
      modifies this
      ensures streams == old(streams) && fates == old(fates) && pendingGen == old(pendingGen) && |gens| == old(|gens|)
      ensures log == old(log) + [Called(g, old(Next(gens[g])))]
      ensures r.Ok? <==> old(Next(gens[g])).Ok?
      ensures r.Err? ==> state == Error && FailedAt(log, fates, g, r.error)
      ensures |inEvs| == |inEvsCurIs| == |ended| == |gens|
      ensures r.Ok? ==> state == old(state) && Input() == Refilled(old(Input()), g)
      ensures r.Ok? ==> Shaped(Input()) && Kept(Input(), log, streams) && Fated(Input(), fates)
      ensures r.Ok? ==> pq.len < |gens| && QueuedBut(g)
    {
      var answer := Next(gens[g]);
      ghost var was, content := Input(), pq.Content();
      CalledKeeps(was, log, Called(g, answer), streams);
      log := log + [Called(g, answer)];
      inEvsCurIs := inEvsCurIs[g := 0];
      gens := gens[g := Rest(gens[g])];
      if answer.Err? {
        state := Error;
        return Err(answer.error);
      }
      QueueHasRoom(was, content, g);
      RefilledKeeps(was, g, log, streams);
      RefilledFated(was, g, fates);
      RefilledQueued(was, g, content);
      inEvs := inEvs[g := answer.value];
      ended := ended[g := answer.value == []];
      assert Input() == Refilled(was, g);
      return Ok(());
    }

    /** Takes and queues the next batch of a generator. */
    method PushFreshEvsToPq(g: nat) returns (r: Result<(), Code>)
      requires Merging() && g < |gens| && !Active(Input(), g) && !ended[g]
      modifies this, pq, pq.nodes
      ensures streams == old(streams) && fates == old(fates) && pendingGen == old(pendingGen)
      ensures log == old(log) + [Called(g, old(Next(gens[g])))]
      ensures r.Ok? <==> old(Next(gens[g])).Ok?
      ensures r.Err? ==> Sized() && state == Error && FailedAt(log, fates, g, r.error)
      ensures r.Ok? ==> Merging() && state == old(state) && Input() == Refilled(old(Input()), g)
    {
      r := TakeBatch(g);
      if r.Ok? && |inEvs[g]| > 0 {
        pq.PushUnchecked(PQ.Node(inEvs[g][0].tstamp, g));
      }
    }

    /** Takes the earliest event left anywhere. */
    method PopEarliest() returns (g: nat, ev: Event)
      requires Merging() && Waiting(Input(), |gens|) && pendingGen == |gens| && pq.len > 0
      modifies this, pq, pq.nodes
      ensures Sized() && Shaped(Input()) && Kept(Input(), log, streams) && Fated(Input(), fates)
      ensures g < |gens| && pq.len < |gens| && QueuedBut(g)
      ensures Waiting(Input(), if Active(Input(), g) then |gens| else g)
      ensures streams == old(streams) && fates == old(fates) && state == old(state) && gens == old(gens)
        && pendingGen == |gens|
      ensures log == old(log) + [Emitted(g, ev)]
    {
      ghost var was, content := Input(), pq.Content();
      var n := pq.PopUnchecked();
      g := n.value;
      assert Wanted(was, n);
      ev := inEvs[g][inEvsCurIs[g]];
      Advance(was, n, content, ev);
    }

    /** Takes the event of `n` out of its buffer. */
    method Advance(ghost was: Feed, n: PQ.Node, ghost content: multiset<PQ.Node>, ghost ev: Event)
      requires Sized() && was == Input() && Shaped(was) && Queued(was, content) && Waiting(was, |was.gens|)
      requires Kept(was, log, streams) && Fated(was, fates) && PQ.Least(n, content) && Wanted(was, n)
      requires ev == was.bufs[n.value][was.curs[n.value]]
      modifies this`inEvsCurIs, this`log
      ensures Sized() && Shaped(Input()) && Kept(Input(), log, streams) && Fated(Input(), fates)
      ensures log == old(log) + [Emitted(n.value, ev)] && n.value < |gens|
      ensures Waiting(Input(), if Active(Input(), n.value) then |gens| else n.value)
      ensures var rest := content - multiset{n};
        Queued(Input(), if Active(Input(), n.value) then rest + multiset{Head(Input(), n.value)} else rest)
    {
      var g := n.value;
      inEvsCurIs := inEvsCurIs[g := inEvsCurIs[g] + 1];
      PutOutKeeps(was, Input(), n, content, ev, log, streams, fates);
      log := log + [Emitted(g, ev)];
    }

    /** Queues the generator again, or notes that its buffer is used up. */
    method Settle(g: nat)
      requires Sized() && Shaped(Input()) && Kept(Input(), log, streams) && Fated(Input(), fates)
      requires g < |gens| && pq.len < |gens| && QueuedBut(g)
      requires Waiting(Input(), if Active(Input(), g) then |gens| else g) && pendingGen == |gens|
      modifies this`pendingGen, pq, pq.nodes
      ensures Merging() && Waiting(Input(), pendingGen)
    {
      if inEvsCurIs[g] < |inEvs[g]| {
        pq.PushUnchecked(PQ.Node(inEvs[g][inEvsCurIs[g]].tstamp, g));
      } else {
        pendingGen := g;
      }
    }

    /** One round of the loop that fills the output buffer: puts out the earliest event left anywhere. */
    method PutOut() returns (ev: Event, ghost g: nat)
      requires Merging() && Waiting(Input(), |gens|) && pendingGen == |gens| && pq.len > 0
      modifies this, pq, pq.nodes
      ensures Merging() && Waiting(Input(), pendingGen)
      ensures streams == old(streams) && fates == old(fates) && state == old(state) && gens == old(gens)
      ensures log == old(log) + [Emitted(g, ev)]
    {
      var gen;
      gen, ev := PopEarliest();
      g := gen;
      Settle(gen);
    }

    /** Amid the first calls: the first `n` of the `scripts` have given their first batch. */
    ghost predicate Starting(before: seq<Act>, scripts: seq<Script>, n: nat)
      reads this, pq, pq.nodes
    {
      && Merging() && pendingGen == |gens| && Started(Input(), scripts, n)
      && log == before + FirstCalls(scripts, n)
    }

    /** One of the first calls. */
    method StartOne(g: nat, ghost before: seq<Act>, ghost scripts: seq<Script>) returns (r: Result<(), Code>)
      requires g < |gens| && Starting(before, scripts, g)
      modifies this, pq, pq.nodes
      ensures streams == old(streams) && fates == old(fates) && log == before + FirstCalls(scripts, g + 1)
      ensures if Next(scripts[g]).Ok? then r.Ok? else r == Err(Next(scripts[g]).error)
      ensures r.Ok? ==> state == old(state) && |gens| == old(|gens|) && Starting(before, scripts, g + 1)
      ensures r.Err? ==> Sized() && state == Error && FailedWith(log, fates, r.error)
    {
      ghost var f := Input();
      CallsSnoc(before, scripts, g);
      r := PushFreshEvsToPq(g);
      if r.Ok? {
        StartedNext(f, scripts, g);
      }
    }

    /**
      The first batch of every generator: each is called once, one after the other, up to the first that fails.
      `n` is how many are called.
     */
    method Bootstrap(ghost was: seq<Act>) returns (r: Result<(), Code>, ghost n: nat)
      requires Valid() && state == Fresh && OneCall(was, log, [])
      modifies this, pq, pq.nodes
      ensures streams == old(streams) && fates == old(fates) && OneCall(was, log, [])
      ensures n <= old(|gens|) && log == old(log) + FirstCalls(old(gens), n)
      ensures r.Ok? ==> n == |gens| == old(|gens|) && AllAnswer(old(gens), n)
      ensures r.Err? ==> 0 < n && old(Next(gens[n - 1])) == Err(r.error) && AllAnswer(old(gens), n - 1)
      ensures r.Ok? ==> Merging() && state == Fresh && pendingGen == |gens| && Waiting(Input(), |gens|)
      ensures r.Err? ==> Sized() && state == Error && |was| < |log| && FailedWith(log, fates, r.error)
    {
      n := 0;
      r := Ok(());
      var i := 0;
      ghost var before, scripts := log, gens;
      while i < |gens|
        invariant 0 <= i == n <= |gens| == |scripts| && r.Ok? && state == Fresh && Starting(before, scripts, i)
        invariant streams == old(streams) && fates == old(fates)
        decreases |gens| - i
      {
        n := n + 1;
        r := StartOne(i, before, scripts);
        if r.Err? {
          break;
        }
        i := i + 1;
      }
      CallsAreOneCall(was, before, scripts, n);
    }

    /** `actf_muxer_mux`. */
    method Mux() returns (r: Answer)
      requires Valid()
      modifies this, pq, pq.nodes
      ensures Valid() && streams == old(streams) && fates == old(fates)
      ensures OneCall(old(log), log, if r.Ok? then r.value else [])
      ensures r.Ok? ==> |r.value| <= evsCap && (if r.value == [] then state == Done else state == Ongoing)
      ensures r.Ok? && old(state) != Done ==> |r.value| == evsCap || pq.len == 0 || pendingGen < |gens|
      ensures r.Err? ==> state == Error
      ensures r.Err? && old(state) == Error ==> r.error == ACTF_ERROR
      ensures r.Err? && old(state) != Error ==> |old(log)| < |log| && FailedWith(log, fates, r.error)
      ensures old(state) == Done ==> r == Ok([]) && log == old(log)
      ensures old(state) == Error ==> r.Err? && log == old(log)
    {
      if state == Done {
        return Ok([]);
      }
      if state == Error {
        return Err(ACTF_ERROR);
      }
      ghost var was := log;
      if state == Fresh {
        var rc;
        ghost var n;
        rc, n := Bootstrap(was);
        if rc.Err? {
          return Err(rc.error);
        }
        state := Ongoing;
      }
      r := MuxOngoing(was);
    }

    /** Calls the generator, if any, whose buffer the last call used up. */
    method RefillPending(ghost was: seq<Act>) returns (r: Result<(), Code>)
      requires Merging() && Waiting(Input(), pendingGen) && state == Ongoing && OneCall(was, log, [])
      modifies this, pq, pq.nodes
      ensures streams == old(streams) && fates == old(fates) && OneCall(was, log, [])
      ensures r.Ok? ==> Merging() && Waiting(Input(), |gens|) && state == Ongoing && pendingGen == |gens|
      ensures r.Err? ==> Sized() && state == Error && |was| < |log| && FailedWith(log, fates, r.error)
    {
      if pendingGen < |gens| {
        r := PushFreshEvsToPq(pendingGen);
        if r.Err? {
          return;
        }
        pendingGen := |gens|;
      }
      return Ok(());
    }

    /** The case of `actf_muxer_mux` for a muxer whose generators have all been called. */
    method MuxOngoing(ghost was: seq<Act>) returns (r: Answer)
      requires Merging() && Waiting(Input(), pendingGen) && state == Ongoing && OneCall(was, log, [])
      modifies this, pq, pq.nodes
      ensures Valid() && streams == old(streams) && fates == old(fates)
      ensures OneCall(was, log, if r.Ok? then r.value else [])
      ensures r.Ok? ==> |r.value| <= evsCap && (if r.value == [] then state == Done else state == Ongoing)
      ensures r.Ok? ==> |r.value| == evsCap || pq.len == 0 || pendingGen < |gens|
      ensures r.Err? ==> state == Error && |was| < |log| && FailedWith(log, fates, r.error)
    {
      var rc := RefillPending(was);
      if rc.Err? {
        return Err(rc.error);
      }
      var evs := Fill(was);
      if evs == [] {
        NothingLeft();
        state := Done;
      }
      return Ok(evs);
    }

    /** The loop of `actf_muxer_mux` that fills the output buffer. */
    method Fill(ghost was: seq<Act>) returns (evs: seq<Event>)
      requires Merging() && Waiting(Input(), |gens|) && pendingGen == |gens| && OneCall(was, log, [])
      modifies this, pq, pq.nodes
      ensures Merging() && Waiting(Input(), pendingGen)
      ensures streams == old(streams) && fates == old(fates) && state == old(state)
      ensures OneCall(was, log, evs) && |evs| <= evsCap
      ensures evs == [] ==> pq.len == 0 && pendingGen == |gens|
      ensures |evs| == evsCap || pq.len == 0 || pendingGen < |gens|
    {
      evs := [];
      var i := 0;
      while i < evsCap && pq.len > 0
        invariant 0 <= i <= evsCap && |evs| == i
        invariant Merging() && Waiting(Input(), |gens|) && pendingGen == |gens|
        invariant streams == old(streams) && fates == old(fates) && state == old(state)
        invariant OneCall(was, log, evs)
      {
        ghost var before := log;
        var ev, g := PutOut();
        OneCallMore(was, before, evs, g, ev);
        evs := evs + [ev];
        if pendingGen < |gens| {
          break;
        }
        i := i + 1;
      }
    }

    lemma NothingLeft()
      requires Merging() && Waiting(Input(), |gens|) && pq.len == 0
      ensures Interleaves(log, streams) && AllEnd(fates)
    {
      var f := Input();
      forall g | 0 <= g < |f.gens| ensures From(log, g) == streams[g] && fates[g].Ok? {
        assert Active(f, g) ==> Wanted(f, Head(f, g));
        assert Left(f, g) == [];
      }
    }

    /** `actf_muxer_seek_ns_from_origin`, given what each generator answers to the seek and yields after it. */
    method Seek(answers: seq<Result<Script, Code>>) returns (r: Result<(), Code>)
      requires Valid() && |answers| == |gens|
      modifies this, pq, pq.nodes
      ensures Valid()
      ensures r.Ok? <==> forall g | 0 <= g < |answers| :: answers[g].Ok?
      ensures r.Ok? ==> state == Fresh && |streams| == |fates| == |answers|
      ensures r.Ok? ==> forall g | 0 <= g < |answers| ::
        streams[g] == Stream(answers[g].value) && fates[g] == Fate(answers[g].value)
      ensures r.Err? ==> state == Error && exists g | 0 <= g < |answers| :: answers[g] == Err(r.error)
    {
      var i := 0;
      while i < |gens|
        invariant 0 <= i <= |gens| == |answers| && Sized()
        invariant forall g | 0 <= g < i :: answers[g].Ok? && gens[g] == answers[g].value
      {
        if answers[i].Err? {
          state := Error;
          return Err(answers[i].error);
        }
        gens := gens[i := answers[i].value];
        i := i + 1;
      }
      Reset();
      return Ok(());
    }

    /** `muxer_reset`. */
    method Reset()
      requires Sized()
      modifies this, pq, pq.nodes
      ensures Valid() && state == Fresh && gens == old(gens) && streams == Streams(gens) && fates == Fates(gens)
    {
      pq.Clear();
      var n := |gens|;
      pendingGen, state, inEvs, inEvsCurIs := n, Fresh, Copies([], n), Copies(0, n);
      ended, log, streams, fates := Copies(false, n), [], Streams(gens), Fates(gens);
      FreshFeed(Input(), streams, fates);
    }
  }

  // A whole run.

  function Total(streams: seq<seq<Event>>): nat {
    if streams == [] then 0 else Total(streams[..|streams| - 1]) + |streams[|streams| - 1]|
  }

  /** What `log` put out for each of `n` generators. */
  function Parts(log: seq<Act>, n: nat): (p: seq<seq<Event>>)
    ensures |p| == n && forall g | 0 <= g < n :: p[g] == From(log, g)
  {
    seq(n, g requires 0 <= g < n => From(log, g))
  }

  lemma {:induction false} TotalBump(p: seq<seq<Event>>, g: nat, s: seq<Event>)
    requires g < |p|
    ensures Total(p[g := s]) == Total(p) - |p[g]| + |s|
  {
    var k := |p| - 1;
    if g < k {
      TotalBump(p[..k], g, s);
      assert p[g := s][..k] == p[..k][g := s];
    } else {
      assert p[g := s][..k] == p[..k];
    }
  }

  /** The output is nothing but the parts of the generators. */
  lemma {:induction false} OutputIsParts(log: seq<Act>, n: nat)
    requires FromBelow(log, n)
    ensures |Output(log)| == Total(Parts(log, n))
  {
    if log == [] {
      NoParts(n);
    } else {
      var front, last := log[..|log| - 1], log[|log| - 1];
      assert log == front + [last];
      Extend(front, last);
      OutputIsParts(front, n);
      forall g | 0 <= g < n
        ensures From(log, g) == if last.Emitted? && last.gen == g then From(front, g) + [last.ev] else From(front, g)
      {
        assert From(log, g) == From(front, g) + if last.Emitted? && last.gen == g then [last.ev] else [];
      }
      if last.Emitted? {
        TotalBump(Parts(front, n), last.gen, From(log, last.gen));
        assert Parts(log, n) == Parts(front, n)[last.gen := From(log, last.gen)];
      } else {
        assert Parts(log, n) == Parts(front, n);
      }
    }
  }

  lemma {:induction false} NoParts(n: nat)
    ensures Total(Parts([], n)) == 0
  {
    if n > 0 {
      NoParts(n - 1);
      assert Parts([], n)[..n - 1] == Parts([], n - 1);
    }
  }

  lemma {:induction false} TotalMono(p: seq<seq<Event>>, q: seq<seq<Event>>)
    requires |p| == |q| && forall g | 0 <= g < |p| :: |p[g]| <= |q[g]|
    ensures Total(p) <= Total(q)
  {
    if p != [] { TotalMono(p[..|p| - 1], q[..|q| - 1]); }
  }

  lemma OutputBound(f: Feed, log: seq<Act>, streams: seq<seq<Event>>)
    requires Shaped(f) && Conserved(f, log, streams)
    ensures |Output(log)| <= Total(streams)
  {
    OutputIsParts(log, |streams|);
    forall g | 0 <= g < |streams| ensures |Parts(log, |streams|)[g]| <= |streams[g]| {
      assert streams[g] == From(log, g) + Left(f, g);
    }
    TotalMono(Parts(log, |streams|), streams);
  }

  /** Calls alone put nothing out. */
  lemma {:induction false} CallsOnly(was: seq<Act>, log: seq<Act>)
    requires OneCall(was, log, [])
    ensures Output(log) == Output(was) && forall g: nat :: From(log, g) == From(was, g)
    ensures forall n: nat :: FromBelow(was, n) ==> FromBelow(log, n)
    decreases |log|
  {
    if |log| == |was| {
      assert log == was;
    } else {
      var front := log[..|log| - 1];
      OneCallLast(was, log, []);
      CallsOnly(was, front);
      OutputLast(log);
      forall g: nat ensures From(log, g) == From(was, g) {
        assert From(log, g) == From(front, g) + [];
      }
    }
  }

  /**
    Of each stream a beginning has been put out; if the streams are sorted, all in time order and nothing later than
    what is left.
   */
  ghost predicate Partial(log: seq<Act>, streams: seq<seq<Event>>) {
    && FromBelow(log, |streams|)
    && (forall g | 0 <= g < |streams| :: From(log, g) <= streams[g])
    && (AllSorted(streams) ==>
          Sorted(Output(log)) && forall g | 0 <= g < |streams| :: NotAfter(Output(log), streams[g][|From(log, g)|..]))
  }

  lemma KeptIsPartial(f: Feed, log: seq<Act>, streams: seq<seq<Event>>)
    requires Shaped(f) && Kept(f, log, streams)
    ensures Partial(log, streams) && |Output(log)| <= Total(streams)
  {
    OutputBound(f, log, streams);
    forall g | 0 <= g < |streams|
      ensures From(log, g) <= streams[g] && streams[g][|From(log, g)|..] == Left(f, g)
    {
      assert streams[g] == From(log, g) + Left(f, g);
    }
  }

  lemma CallsKeepPartial(was: seq<Act>, log: seq<Act>, streams: seq<seq<Event>>)
    requires OneCall(was, log, []) && Partial(was, streams)
    ensures Output(log) == Output(was) && Partial(log, streams)
  {
    CallsOnly(was, log);
  }

  /** One call made by a consumer. */
  method Round(m: Muxer) returns (answer: Answer)
    requires m.Valid() && m.state in {Fresh, Ongoing}
    modifies m, m.pq, m.pq.nodes
    ensures m.Valid() && m.streams == old(m.streams) && m.fates == old(m.fates)
    ensures Partial(m.log, m.streams)
    ensures Output(m.log) == old(Output(m.log)) + if answer.Ok? then answer.value else []
    ensures answer.Err? ==> FailedWith(m.log, m.fates, answer.error)
    ensures answer == Ok([]) ==> Interleaves(m.log, m.streams) && AllEnd(m.fates)
    ensures answer.Ok? ==>
      m.state == (if answer.value == [] then Done else Ongoing) && |Output(m.log)| <= Total(m.streams)
  {
    ghost var was := m.log;
    KeptIsPartial(m.Input(), was, m.streams);
    answer := m.Mux();
    if answer.Ok? {
      OneCallOutput(was, m.log, answer.value);
      KeptIsPartial(m.Input(), m.log, m.streams);
    } else {
      CallsKeepPartial(was, m.log, m.streams);
    }
  }

  /**
    The loop of a consumer: it ends. It succeeds exactly if the stream of every generator ends without an error, and
    then the consumer has been given every event of every generator exactly once; else the error is one with which a
    stream ends, and the consumer has been given a beginning of each. Time-sorted streams come out time-sorted.
   */
  method Drain(m: Muxer) returns (r: Result<(), Code>, out: seq<Event>)
    requires m.Valid() && m.state == Fresh
    modifies m, m.pq, m.pq.nodes
    ensures m.Valid() && m.streams == old(m.streams) && m.fates == old(m.fates) && out == Output(m.log)
    ensures Partial(m.log, m.streams)
    ensures r.Ok? <==> AllEnd(m.fates)
    ensures r.Ok? ==> Interleaves(m.log, m.streams)
    ensures r.Err? ==> FailedWith(m.log, m.fates, r.error)
  {
    out := [];
    ghost var total := Total(m.streams);
    while true
      invariant m.Valid() && m.state in {Fresh, Ongoing} && m.streams == old(m.streams) && m.fates == old(m.fates)
      invariant out == Output(m.log)
      decreases total - |out|
    {
      var answer := Round(m);
      if answer.Err? {
        FailedIsFate(m.log, m.fates, answer.error);
        return Err(answer.error), out;
      }
      out := out + answer.value;
      if answer.value == [] {
        return Ok(()), out;
      }
    }
  }
}
