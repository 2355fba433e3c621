/** The stages joined as actf.c joins them: decoders feed the merge, and the merge feeds the time filter. */
module Trace {
  import opened Wrappers
  import opened Events
  import P = Pipeline
  import M = Muxer
  import F = Filter

  // A stage's answers as the script of a generator.

  /** Batches of events, and behind them the end or an error. */
  ghost predicate Complete(s: Script, last: Answer) {
    && s != [] && s[|s| - 1] == last && (last.Ok? ==> last.value == [])
    && Batches(s[..|s| - 1])
  }

  ghost predicate Batches(s: Script) {
    forall i | 0 <= i < |s| :: s[i].Ok? && s[i].value != []
  }

  /** What one more answer makes of a script. */
  lemma OneMore(s: Script, a: Answer)
    requires Batches(s)
    ensures Stream(s + [a]) == Stream(s) + if a.Ok? then a.value else []
    ensures if a.Ok? && a.value != [] then Batches(s + [a]) else Complete(s + [a], a)
  {
    StreamSnoc(s, a);
    assert (s + [a])[..|s|] == s;
  }

  lemma Regroup(a: seq<Event>, b: seq<Event>, c: seq<Event>)
    ensures a + (b + c) == (a + b) + c
  {
  }

  lemma {:induction false} StreamSnoc(s: Script, a: Answer)
    requires Batches(s)
    ensures Stream(s + [a]) == Stream(s) + if a.Ok? then a.value else []
  {
    if s == [] {
      assert s + [a] == [a] && [a][1..] == [];
      if a.Ok? { assert a.value + [] == a.value; }
    } else {
      assert (s + [a])[1..] == s[1..] + [a];
      StreamSnoc(s[1..], a);
    }
  }

  /**
    What a decoder answers to all the calls that a consumer makes: the batches are a script whose stream is the decoding
    without batches, and it ends or fails as that does.
   */
  method Record<D(0, !new)>(dec: P.Decoder<D>, ghost steps: nat) returns (s: Script, ghost last: Answer)
    requires dec.Valid() && P.Halted(P.Run(dec.src, dec.Here(), steps).0)
    modifies dec
    ensures Complete(s, last) && Stream(s) == old(dec.Pending() + P.Run(dec.src, dec.Here(), steps).1)
    ensures old(P.Run(dec.src, dec.Here(), steps).0) == if last.Ok? then P.Ended else P.Failed(last.error)
  {
    s := [];
    ghost var left := steps;
    ghost var end, all := P.Run(dec.src, dec.Here(), steps).0, dec.Pending() + P.Run(dec.src, dec.Here(), steps).1;
    ghost var rest := all;
    while true
      invariant P.Owes(dec, left, end, rest) && all == Stream(s) + rest && Batches(s)
      decreases left, dec.resumeSeek
    {
      var rc, evs;
      ghost var owed := rest;
      rc, evs, left, rest := P.CollectOne(dec, left, end, owed);
      var answer: Answer := if rc < 0 then Err(rc) else Ok(evs);
      OneMore(s, answer);
      Regroup(Stream(s), evs, rest);
      s := s + [answer];
      if rc < 0 || evs == [] {
        return s, answer;
      }
    }
  }

  /** How a stream ends whose last answer this is. */
  function FateOf(last: Answer): Result<(), Code> {
    match last
    case Ok(_) => Ok(())
    case Err(code) => Err(code)
  }

  lemma {:induction false} FateOfBatches(s: Script, last: Answer)
    requires Complete(s, last)
    ensures Fate(s) == FateOf(last)
  {
    if |s| > 1 {
      assert s[0] == s[..|s| - 1][0];
      assert s[1..][..|s| - 2] == s[..|s| - 1][1..];
      FateOfBatches(s[1..], last);
    }
  }

  /** All events of a decoder's stream, which ends in so many steps. */
  ghost function All<D(0, !new)>(dec: P.Decoder<D>, steps: nat): seq<Event> {
    P.Run(dec.src, P.AtPacket(0), steps).1
  }

  /** How that stream ends. */
  ghost function FateOfDecoder<D(0, !new)>(dec: P.Decoder<D>, steps: nat): Result<(), Code> {
    match P.Run(dec.src, P.AtPacket(0), steps).0
    case Failed(code) => Err(code)
    case _ => Ok(())
  }

  /** The stream ends in so many steps, and the way to its first event at `t` or later is clear. */
  ghost predicate CanSeek<D(0, !new)>(dec: P.Decoder<D>, t: int, steps: nat) {
    && P.WellFormed(dec.src) && dec.evsCap > 0
    && P.Clear(dec.src, P.AtPacket(0), steps, t) && P.NoneEmpty(dec.src, P.AtPacket(0), steps, t)
    && P.Halted(P.Run(dec.src, P.AtPacket(0), steps).0)
  }

  /**
    What a generator with the events `all`, which ends so, answers to a seek to `t`: the script of the events from `t`
    on, or at once the error that it ends with.
   */
  ghost predicate Gives(answer: Result<Script, Code>, all: seq<Event>, fate: Result<(), Code>, t: int) {
    match answer
    case Ok(s) => Stream(s) == DropBefore(t, all) && Fate(s) == fate
    case Err(code) => DropBefore(t, all) == [] && fate == Err(code)
  }

  /** The same after a seek. */
  method RecordFrom<D(0, !new)>(dec: P.Decoder<D>, t: int, ghost steps: nat) returns (answer: Result<Script, Code>)
    requires CanSeek(dec, t, steps)
    modifies dec
    ensures Gives(answer, All(dec, steps), FateOfDecoder(dec, steps), t)
  {
    var rc;
    ghost var left, last;
    P.SoughtIsRest(dec.src, P.AtPacket(0), steps, t);
    rc, left := dec.Seek(t, steps);
    if rc < 0 {
      P.HaltedStays(dec.src, dec.Here(), left);
      return Err(rc);
    }
    var s;
    s, last := Record(dec, left);
    FateOfBatches(s, last);
    return Ok(s);
  }

  /** What a fresh muxer answers to all the calls that a consumer makes. */
  method RecordMuxer(m: M.Muxer) returns (s: Script, ghost last: Answer)
    requires m.Valid() && m.state == M.Fresh
    modifies m, m.pq, m.pq.nodes
    ensures m.Valid() && m.streams == old(m.streams) && m.fates == old(m.fates)
    ensures Complete(s, last) && Stream(s) == M.Output(m.log) && M.Partial(m.log, m.streams)
    ensures last.Ok? <==> M.AllEnd(m.fates)
    ensures last.Ok? ==> M.Interleaves(m.log, m.streams)
    ensures last.Err? ==> M.FailedWith(m.log, m.fates, last.error)
  {
    s := [];
    ghost var total := M.Total(m.streams);
    while true
      invariant m.Valid() && m.state in {M.Fresh, M.Ongoing} && m.streams == old(m.streams) && m.fates == old(m.fates)
      invariant Batches(s) && Stream(s) == M.Output(m.log)
      decreases total - |Stream(s)|
    {
      var answer := M.Round(m);
      OneMore(s, answer);
      s := s + [answer];
      if answer.Err? || answer.value == [] {
        if answer.Err? { M.FailedIsFate(m.log, m.fates, answer.error); }
        return s, answer;
      }
    }
  }

  // Cutting a merged stream off at a time.

  /** The first `k` acts put out events up to `end`, and those behind them only later ones. */
  ghost predicate Cut(log: seq<M.Act>, end: int, k: nat) {
    && k <= |log|
    && (forall i | 0 <= i < k && log[i].Emitted? :: log[i].ev.tstamp <= end)
    && (forall i | k <= i < |log| && log[i].Emitted? :: log[i].ev.tstamp > end)
    && (k < |log| ==> log[k].Emitted?)
  }

  lemma {:induction false} EmittedIsOutput(log: seq<M.Act>, i: nat)
    requires i < |log| && log[i].Emitted?
    ensures log[i].ev in M.Output(log) && log[i].ev in M.From(log, log[i].gen)
    decreases |log|
  {
    if i < |log| - 1 {
      EmittedIsOutput(log[..|log| - 1], i);
    }
  }

  lemma {:induction false} CutExists(log: seq<M.Act>, end: int) returns (k: nat)
    requires Sorted(M.Output(log))
    ensures Cut(log, end, k)
    decreases |log|
  {
    if log == [] {
      return 0;
    }
    var front, last := log[..|log| - 1], log[|log| - 1];
    if last.Emitted? {
      SortedSplit(M.Output(front), [last.ev]);
    } else {
      assert M.Output(log) == M.Output(front);
    }
    k := CutExists(front, end);
    if k < |front| {
      EmittedIsOutput(front, k);
      assert forall i | 0 <= i < |front| :: log[i] == front[i];
      if last.Emitted? {
        var put := M.Output(front);
        var j :| 0 <= j < |put| && put[j] == front[k].ev;
        assert put[j].tstamp <= [last.ev][0].tstamp;
      }
    } else if !(last.Emitted? && last.ev.tstamp > end) {
      k := |log|;
    }
  }

  lemma {:induction false} UpToSnoc(s: seq<Event>, e: Event, end: int)
    ensures e.tstamp > end ==> F.UpTo(s + [e], end) == F.UpTo(s, end)
    ensures e.tstamp <= end && F.UpTo(s, end) == s ==> F.UpTo(s + [e], end) == s + [e]
  {
    F.UpToSplit(s, [e], end);
    assert [e][1..] == [];
    if e.tstamp > end {
      assert F.UpTo([e], end) == [];
      assert s + [] == s;
    }
  }

  /** The events before the cut are those up to `end`. */
  lemma {:induction false} CutOutput(log: seq<M.Act>, end: int, k: nat)
    requires Cut(log, end, k)
    ensures M.Output(log[..k]) == F.UpTo(M.Output(log), end)
    decreases |log|
  {
    if log == [] {
      assert log[..k] == [];
    } else {
      var k' := CutFront(log, end, k);
      var front, last := log[..|log| - 1], log[|log| - 1];
      CutOutput(front, end, k');
      if last.Emitted? {
        UpToSnoc(M.Output(front), last.ev, end);
      } else {
        assert M.Output(front) + [] == M.Output(front);
      }
    }
  }

  /** So are those of each generator. */
  lemma {:induction false} CutFrom(log: seq<M.Act>, end: int, k: nat, g: nat)
    requires Cut(log, end, k)
    ensures M.From(log[..k], g) == F.UpTo(M.From(log, g), end)
    decreases |log|
  {
    if log == [] {
      assert log[..k] == [];
    } else {
      var k' := CutFront(log, end, k);
      var front, last := log[..|log| - 1], log[|log| - 1];
      CutFrom(front, end, k', g);
      if last.Emitted? && last.gen == g {
        UpToSnoc(M.From(front, g), last.ev, end);
      } else {
        assert M.From(front, g) + [] == M.From(front, g);
      }
    }
  }

  /** The cut without the last act. */
  lemma CutFront(log: seq<M.Act>, end: int, k: nat) returns (k': nat)
    requires Cut(log, end, k) && log != []
    ensures var front := log[..|log| - 1];
      && Cut(front, end, k')
      && if k == |log| then log[..k] == log && front[..k'] == front else k' == k && front[..k'] == log[..k]
  {
    var front := log[..|log| - 1];
    k' := if k < |log| then k else |front|;
    assert forall i | 0 <= i < |front| :: front[i] == log[i];
  }

  // The whole.

  /**
    `out` is in time order and made of exactly the events of the streams that lie in the range, each of them once and
    those of one stream in their order; `log` tells which stream each comes from.
   */
  ghost predicate Selection(out: seq<Event>, log: seq<M.Act>, streams: seq<seq<Event>>, begin: int, end: int) {
    && out == M.Output(log) && Sorted(out) && M.FromBelow(log, |streams|)
    && forall g | 0 <= g < |streams| :: M.From(log, g) == F.InRange(streams[g], begin, end)
  }

  /** A beginning of such a selection. */
  ghost predicate Beginning(out: seq<Event>, log: seq<M.Act>, streams: seq<seq<Event>>, begin: int, end: int) {
    && out == M.Output(log) && Sorted(out) && M.FromBelow(log, |streams|)
    && forall g | 0 <= g < |streams| :: M.From(log, g) <= F.InRange(streams[g], begin, end)
  }

  /** Nothing is a beginning of every selection, and of an empty range it is the whole. */
  lemma NothingSelected(streams: seq<seq<Event>>, begin: int, end: int)
    ensures Beginning([], [], streams, begin, end)
    ensures begin > end ==> Selection([], [], streams, begin, end) && F.InRange([], begin, end) == []
    ensures begin > end ==> forall evs: seq<Event> :: F.InRange(evs, begin, end) == []
  {
    if begin > end {
      forall evs: seq<Event> ensures F.InRange(evs, begin, end) == [] {
        F.EmptyRange(evs, begin, end);
      }
    }
  }

  lemma UpToSorted(s: seq<Event>, end: int)
    requires Sorted(s)
    ensures Sorted(F.UpTo(s, end))
  {
    F.UpToSplit(s, [], end);
  }

  /** Of a stream whose rest lies behind `end`, the beginning tells what it has up to there. */
  lemma EnoughForEnd(part: seq<Event>, stream: seq<Event>, end: int)
    requires part <= stream && forall i | |part| <= i < |stream| :: stream[i].tstamp > end
    ensures F.UpTo(part, end) == F.UpTo(stream, end)
  {
    var rest := stream[|part|..];
    assert stream == part + rest;
    forall i | 0 <= i < |rest| ensures rest[i].tstamp > end {
      assert rest[i] == stream[|part| + i];
    }
    F.NoneInRange(rest, end, end);
    F.UpToSplit(part, rest, end);
    assert part + [] == part;
  }

  /** A merge that has put out an event behind `end` has put out all that the streams have up to there. */
  lemma EnoughMerged(log: seq<M.Act>, late: seq<seq<Event>>, end: int, g: nat)
    requires M.AllSorted(late) && M.Partial(log, late) && g < |late|
    requires M.Interleaves(log, late) || F.UpTo(M.Output(log), end) != M.Output(log)
    ensures F.UpTo(M.From(log, g), end) == F.UpTo(late[g], end)
  {
    if F.UpTo(M.Output(log), end) != M.Output(log) {
      var part := M.From(log, g);
      var i := F.OnePast(M.Output(log), end);
      forall j | |part| <= j < |late[g]| ensures late[g][j].tstamp > end {
        assert late[g][j] == late[g][|part|..][j - |part|];
      }
      EnoughForEnd(part, late[g], end);
    }
  }

  /**
    Merging what each stream has from `begin` on and cutting that off behind `end` selects the range; a merge that fails
    behind the range does too.
   */
  lemma MergedRange(streams: seq<seq<Event>>, log: seq<M.Act>, late: seq<seq<Event>>, begin: int, end: int)
    returns (k: nat)
    requires M.AllSorted(streams) && M.Partial(log, late)
    requires Later(late, streams, begin)
    requires M.Interleaves(log, late) || F.UpTo(M.Output(log), end) != M.Output(log)
    ensures k <= |log| && Selection(F.InRange(M.Output(log), begin, end), log[..k], streams, begin, end)
  {
    LateSorted(streams, late, begin);
    NoneEarly(streams, log, late, begin);
    k := CutExists(log, end);
    CutOutput(log, end, k);
    F.InRangeIsMiddle(M.Output(log), begin, end);
    UpToSorted(M.Output(log), end);
    forall g | 0 <= g < |streams| ensures M.From(log[..k], g) == F.InRange(streams[g], begin, end) {
      CutFrom(log, end, k, g);
      EnoughMerged(log, late, end, g);
      F.InRangeIsMiddle(streams[g], begin, end);
    }
  }

  /** The acts up to the one that puts out so many events. */
  lemma {:induction false} OutputFront(log: seq<M.Act>, n: nat) returns (k: nat)
    requires n <= |M.Output(log)|
    ensures k <= |log| && M.Output(log[..k]) == M.Output(log)[..n]
    ensures forall g: nat :: M.From(log[..k], g) <= M.From(log, g)
    decreases |log|
  {
    if n == |M.Output(log)| {
      k := |log|;
      assert log[..k] == log;
    } else {
      var front := log[..|log| - 1];
      k := OutputFront(front, n);
      assert log[..k] == front[..k];
    }
  }

  lemma UpToPart(part: seq<Event>, stream: seq<Event>, end: int)
    requires part <= stream
    ensures F.UpTo(part, end) <= F.UpTo(stream, end)
  {
    var rest := stream[|part|..];
    F.UpToSplit(part, rest, end);
    assert part + rest == stream;
  }

  /** The first `n` events of the merge that lie in the range, as far as it has come. */
  lemma MergedPart(streams: seq<seq<Event>>, log: seq<M.Act>, late: seq<seq<Event>>, begin: int, end: int, n: nat)
    returns (k: nat)
    requires M.AllSorted(streams) && M.Partial(log, late) && Later(late, streams, begin)
    requires n <= |F.InRange(M.Output(log), begin, end)|
    ensures k <= |log| && Beginning(F.InRange(M.Output(log), begin, end)[..n], log[..k], streams, begin, end)
  {
    LateSorted(streams, late, begin);
    NoneEarly(streams, log, late, begin);
    var cut := CutExists(log, end);
    CutOutput(log, end, cut);
    F.InRangeIsMiddle(M.Output(log), begin, end);
    UpToSorted(M.Output(log), end);
    k := OutputFront(log[..cut], n);
    assert log[..cut][..k] == log[..k];
    forall g | 0 <= g < |streams| ensures M.From(log[..k], g) <= F.InRange(streams[g], begin, end) {
      CutFrom(log, end, cut, g);
      UpToPart(M.From(log, g), late[g], end);
      F.InRangeIsMiddle(streams[g], begin, end);
    }
  }

  /** The streams from `begin` on. */
  ghost predicate Later(late: seq<seq<Event>>, streams: seq<seq<Event>>, begin: int) {
    |late| == |streams| && forall g | 0 <= g < |streams| :: late[g] == DropBefore(begin, streams[g])
  }

  /** Generators that have sought a time put out nothing earlier. */
  lemma NoneEarly(streams: seq<seq<Event>>, log: seq<M.Act>, late: seq<seq<Event>>, begin: int)
    requires M.AllSorted(streams) && M.Partial(log, late) && Later(late, streams, begin)
    ensures DropBefore(begin, M.Output(log)) == M.Output(log)
  {
    if M.Output(log) != [] {
      var i := FirstOutput(log);
      EmittedIsOutput(log, i);
      DropBeforeSorted(begin, streams[log[i].gen]);
    }
  }

  /** The act that puts out the first event. */
  lemma {:induction false} FirstOutput(log: seq<M.Act>) returns (i: nat)
    requires M.Output(log) != []
    ensures i < |log| && log[i].Emitted? && log[i].ev == M.Output(log)[0]
    decreases |log|
  {
    var front := log[..|log| - 1];
    if M.Output(front) == [] {
      i := |log| - 1;
    } else {
      i := FirstOutput(front);
    }
  }

  /** All events of each decoder's stream. */
  ghost function Streams<D(0, !new)>(decs: seq<P.Decoder<D>>, steps: seq<nat>): (streams: seq<seq<Event>>)
    requires |steps| == |decs|
    ensures |streams| == |decs| && forall g | 0 <= g < |decs| :: streams[g] == All(decs[g], steps[g])
  {
    seq(|decs|, g requires 0 <= g < |decs| => All(decs[g], steps[g]))
  }

  /** How each decoder's stream ends. */
  ghost function Fates<D(0, !new)>(decs: seq<P.Decoder<D>>, steps: seq<nat>): (fates: seq<Result<(), Code>>)
    requires |steps| == |decs|
    ensures |fates| == |decs| && forall g | 0 <= g < |decs| :: fates[g] == FateOfDecoder(decs[g], steps[g])
  {
    seq(|decs|, g requires 0 <= g < |decs| => FateOfDecoder(decs[g], steps[g]))
  }

  /**
    A dated time range of several data streams, as the command line asks for it: every decoder seeks, the muxer
    merges, the filter cuts off. If no decoding fails, or none before the range is over, then what comes out is exactly
    the events of the streams that lie in the range, in time order, whatever the capacities; else it is a beginning of
    that and the error with which one of the decodings fails.
   */
  method Range<D(0, !new)>(decs: seq<P.Decoder<D>>, begin: int, end: int, cap: nat, ghost steps: seq<nat>)
    returns (r: Result<(), Code>, out: seq<Event>, ghost log: seq<M.Act>)
    requires |steps| == |decs|
    requires forall g | 0 <= g < |decs| :: CanSeek(decs[g], begin, steps[g]) && Sorted(All(decs[g], steps[g]))
    modifies decs
    ensures r.Ok? ==> Selection(out, log, Streams(decs, steps), begin, end)
    ensures (forall g | 0 <= g < |decs| :: P.Run(decs[g].src, P.AtPacket(0), steps[g]).0 == P.Ended) ==> r.Ok?
    ensures r.Err? ==> Beginning(out, log, Streams(decs, steps), begin, end)
    ensures r.Err? ==> exists g | 0 <= g < |decs| :: P.Run(decs[g].src, P.AtPacket(0), steps[g]).0 == P.Failed(r.error)
  {
    ghost var streams, fates := Streams(decs, steps), Fates(decs, steps);
    var answers := RecordAll(decs, begin, steps);
    r, out, log := MergeRange(answers, streams, fates, begin, end, cap);
    if r.Err? {
      ghost var g: nat :| g < |fates| && fates[g] == Err(r.error);
      assert P.Run(decs[g].src, P.AtPacket(0), steps[g]).0 == P.Failed(r.error);
    } else {
    }
  }

  /** So many answers are those of the first decoders. */
  ghost predicate AllGive(answers: seq<Result<Script, Code>>, streams: seq<seq<Event>>, fates: seq<Result<(), Code>>,
                          t: int) {
    && |answers| <= |streams| == |fates|
    && forall g | 0 <= g < |answers| :: Gives(answers[g], streams[g], fates[g], t)
  }

  lemma OneMoreGives(answers: seq<Result<Script, Code>>, answer: Result<Script, Code>, streams: seq<seq<Event>>,
                     fates: seq<Result<(), Code>>, t: int)
    requires AllGive(answers, streams, fates, t) && |answers| < |streams|
    requires Gives(answer, streams[|answers|], fates[|answers|], t)
    ensures AllGive(answers + [answer], streams, fates, t)
  {
    var more := answers + [answer];
    forall g | 0 <= g < |more| ensures Gives(more[g], streams[g], fates[g], t) {
      if g < |answers| { assert more[g] == answers[g]; }
    }
  }

  /** All decoders seek and are recorded. */
  method RecordAll<D(0, !new)>(decs: seq<P.Decoder<D>>, begin: int, ghost steps: seq<nat>)
    returns (answers: seq<Result<Script, Code>>)
    requires |steps| == |decs|
    requires forall g | 0 <= g < |decs| :: CanSeek(decs[g], begin, steps[g])
    modifies decs
    ensures |answers| == |decs| && AllGive(answers, Streams(decs, steps), Fates(decs, steps), begin)
  {
    answers := [];
    ghost var streams, fates := Streams(decs, steps), Fates(decs, steps);
    while |answers| < |decs|
      invariant |answers| <= |decs| && AllGive(answers, streams, fates, begin)
      decreases |decs| - |answers|
    {
      var g := |answers|;
      var answer := RecordFrom(decs[g], begin, steps[g]);
      OneMoreGives(answers, answer, streams, fates, begin);
      answers := answers + [answer];
    }
  }

  /** The muxer seeks `begin` and is recorded; `answers` are what its generators answer to that. */
  method MergeFrom(answers: seq<Result<Script, Code>>, ghost streams: seq<seq<Event>>,
                   ghost fates: seq<Result<(), Code>>, begin: int, cap: nat)
    returns (answer: Result<Script, Code>, ghost log: seq<M.Act>, ghost late: seq<seq<Event>>)
    requires |answers| == |streams| && AllGive(answers, streams, fates, begin)
    ensures answer.Ok? ==> Later(late, streams, begin) && M.Partial(log, late) && Stream(answer.value) == M.Output(log)
    ensures answer.Ok? && Fate(answer.value).Ok? ==> M.Interleaves(log, late)
    ensures answer.Ok? && Fate(answer.value).Err? ==> Err(Fate(answer.value).error) in fates
    ensures answer.Err? ==> Err(answer.error) in fates
    ensures M.AllEnd(fates) ==> answer.Ok? && Fate(answer.value).Ok?
  {
    log, late := [], [];
    var m := new M.Muxer(M.Copies([], |answers|), cap);
    var sought := m.Seek(answers);
    if sought.Err? {
      ErrorIsFate(answers, streams, fates, begin, sought.error);
      return Err(sought.error), log, late;
    }
    AllSought(answers, streams, fates, begin, m.streams, m.fates);
    var s;
    ghost var last;
    s, last := RecordMuxer(m);
    FateOfBatches(s, last);
    if last.Err? { M.FailedIsFate(m.log, fates, last.error); }
    return Ok(s), m.log, m.streams;
  }

  /** What the muxer's generators are to yield when all have sought `begin`. */
  lemma AllSought(answers: seq<Result<Script, Code>>, streams: seq<seq<Event>>, fates: seq<Result<(), Code>>,
                  begin: int, late: seq<seq<Event>>, ends: seq<Result<(), Code>>)
    requires |late| == |ends| == |answers| == |streams| && AllGive(answers, streams, fates, begin)
    requires forall g | 0 <= g < |answers| ::
      answers[g].Ok? && late[g] == Stream(answers[g].value) && ends[g] == Fate(answers[g].value)
    ensures Later(late, streams, begin) && ends == fates
  {
    forall g | 0 <= g < |answers| ensures late[g] == DropBefore(begin, streams[g]) && ends[g] == fates[g] {
      assert Gives(answers[g], streams[g], fates[g], begin);
    }
  }

  /** A generator's error is one with which a stream ends. */
  lemma ErrorIsFate(answers: seq<Result<Script, Code>>, streams: seq<seq<Event>>, fates: seq<Result<(), Code>>,
                    begin: int, code: Code)
    requires |answers| == |streams| && AllGive(answers, streams, fates, begin) && Err(code) in answers
    ensures Err(code) in fates && !M.AllEnd(fates)
  {
    var g :| 0 <= g < |answers| && answers[g] == Err(code);
    assert Gives(answers[g], streams[g], fates[g], begin);
  }

  /** The merge and the filter over generators that answer so to a seek to `begin`. */
  method MergeRange(answers: seq<Result<Script, Code>>, ghost streams: seq<seq<Event>>,
                    ghost fates: seq<Result<(), Code>>, begin: int, end: int, cap: nat)
    returns (r: Result<(), Code>, out: seq<Event>, ghost log: seq<M.Act>)
    requires |answers| == |streams| && AllGive(answers, streams, fates, begin) && M.AllSorted(streams)
    ensures r.Ok? ==> Selection(out, log, streams, begin, end)
    ensures M.AllEnd(fates) ==> r.Ok?
    ensures r.Err? ==> Err(r.error) in fates && Beginning(out, log, streams, begin, end)
  {
    var merged;
    ghost var late;
    merged, log, late := MergeFrom(answers, streams, fates, begin, cap);
    if merged.Ok? {
      LateSorted(streams, late, begin);
      NoneEarly(streams, log, late, begin);
      F.ReadFate(merged.value, end);
    }
    r, out := FilterAnswer(merged, begin, end);
    if merged.Err? || begin > end {
      NothingSelected(streams, begin, end);
      log := [];
    } else if r.Ok? {
      ghost var k := MergedRange(streams, log, late, begin, end);
      log := log[..k];
    } else {
      ghost var k := MergedPart(streams, log, late, begin, end, |out|);
      log := log[..k];
    }
  }

  lemma LateSorted(streams: seq<seq<Event>>, late: seq<seq<Event>>, begin: int)
    requires M.AllSorted(streams) && Later(late, streams, begin)
    ensures M.AllSorted(late)
  {
    forall g | 0 <= g < |late| ensures Sorted(late[g]) {
      DropBeforeSorted(begin, streams[g]);
    }
  }

  /** How the filter ends over a generator that answers so to a seek to `begin`. */
  function RangeFate(merged: Result<Script, Code>, begin: int, end: int): Result<(), Code> {
    if begin > end then Ok(())
    else match merged
      case Err(code) => Err(code)
      case Ok(s) => F.CutFate(s, end)
  }

  /** A filter for a dated range over a generator that answers so to a seek to `begin`. */
  method FilterAnswer(merged: Result<Script, Code>, begin: int, end: int) returns (r: Result<(), Code>, out: seq<Event>)
    requires merged.Ok? ==>
      Sorted(Stream(merged.value)) && DropBefore(begin, Stream(merged.value)) == Stream(merged.value)
    ensures r == RangeFate(merged, begin, end)
    ensures var all := if merged.Ok? then Stream(merged.value) else [];
      && out <= F.InRange(all, begin, end)
      && (r.Ok? ==> out == F.InRange(all, begin, end))
  {
    var range := F.TimeRange(begin, true, end, true);
    var f := new F.Filter([], t => if t == begin then merged else Err(ACTF_ERROR), range);
    ghost var all := if merged.Ok? then Stream(merged.value) else [];
    r, out := F.Drain(f, all, range, F.InRange(all, begin, end));
  }
}
