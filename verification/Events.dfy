/** Events and the generator contract of event_generator.h. */
module Events {
  import opened Wrappers

  const INT64_MAX: int := 0x7FFF_FFFF_FFFF_FFFF

  type Int64 = x: int | -INT64_MAX - 1 <= x <= INT64_MAX

  /** An event with its nanoseconds from the origin of time. */
  datatype Event = Event(tstamp: Int64, payload: nat)

  /** An error code; 0 is success. */
  type Code = c: int | c < 0 witness -1

  const ACTF_ERROR: Code := -1

  const ACTF_DEFAULT_EVS_CAP := 64

  /** What one call of a generator answers: a batch of events or an error, never both. */
  type Answer = Result<seq<Event>, Code>

  /** The answers a generator gives to its coming calls. */
  type Script = seq<Answer>

  /** The answer to the next call; a generator that has nothing more to say is at its end. */
  function Next(s: Script): Answer {
    if s == [] then Ok([]) else s[0]
  }

  function Rest(s: Script): Script {
    if s == [] then [] else s[1..]
  }

  /** The events a generator yields before its first empty batch or error. */
  function Stream(s: Script): seq<Event> {
    if s == [] || s[0].Err? || s[0].value == [] then [] else s[0].value + Stream(s[1..])
  }

  /** How a generator's stream ends: with an empty batch, or with an error. */
  function Fate(s: Script): Result<(), Code> {
    if s == [] then Ok(())
    else if s[0].Err? then Err(s[0].error)
    else if s[0].value == [] then Ok(())
    else Fate(s[1..])
  }

  /** Answer `k` is a batch, and its events are those from `ends[k]` up to `ends[k + 1]` in `evs`. */
  ghost predicate BatchAt(s: Script, evs: seq<Event>, ends: seq<nat>, k: nat) {
    && k < |s| && k + 1 < |ends| && ends[k] < ends[k + 1] <= |evs|
    && s[k] == Ok(evs[ends[k]..ends[k + 1]])
  }

  /**
    The first `n` answers are batches of at least one event, and `evs` is all their events in order; behind them comes
    the end of the stream or the error `fate`.
   */
  ghost predicate Yields(s: Script, evs: seq<Event>, n: nat, ends: seq<nat>, fate: Result<(), Code>) {
    && n <= |s| && |ends| == n + 1 && ends[0] == 0 && ends[n] == |evs|
    && (forall k | 0 <= k < n :: BatchAt(s, evs, ends, k))
    && match fate
       case Ok(_) => n == |s| || s[n] == Ok([])
       case Err(code) => n < |s| && s[n] == Err(code)
  }

  /** That is what the stream of a generator and its fate are. */
  lemma {:induction false} StreamYields(s: Script) returns (n: nat, ends: seq<nat>)
    ensures Yields(s, Stream(s), n, ends, Fate(s))
  {
    if s == [] || s[0].Err? || s[0].value == [] {
      n, ends := 0, [0];
    } else {
      var m, later := StreamYields(s[1..]);
      var first := |s[0].value|;
      n, ends := m + 1, [0] + seq(m + 1, k requires 0 <= k < m + 1 => first + later[k]);
      forall k | 0 <= k < n ensures BatchAt(s, Stream(s), ends, k) {
        if k == 0 {
          assert Stream(s)[0..first] == s[0].value;
        } else {
          BatchLater(s, ends, later, k - 1);
        }
      }
    }
  }

  lemma BatchLater(s: Script, ends: seq<nat>, later: seq<nat>, k: nat)
    requires s != [] && s[0].Ok? && s[0].value != [] && BatchAt(s[1..], Stream(s[1..]), later, k)
    requires |ends| == |later| + 1
    requires ends[k + 1] == |s[0].value| + later[k] && ends[k + 2] == |s[0].value| + later[k + 1]
    ensures BatchAt(s, Stream(s), ends, k + 1)
  {
    var first, rest := s[0].value, Stream(s[1..]);
    assert s[k + 1] == s[1..][k];
    assert (first + rest)[ends[k + 1]..ends[k + 2]] == rest[later[k]..later[k + 1]];
  }

  ghost predicate Sorted(s: seq<Event>) {
    forall i, j | 0 <= i < j < |s| :: s[i].tstamp <= s[j].tstamp
  }

  /** No event of `a` is later than one of `b`. */
  ghost predicate NotAfter(a: seq<Event>, b: seq<Event>) {
    forall i, j | 0 <= i < |a| && 0 <= j < |b| :: a[i].tstamp <= b[j].tstamp
  }

  lemma SortedSplit(a: seq<Event>, b: seq<Event>)
    ensures Sorted(a + b) <==> Sorted(a) && Sorted(b) && NotAfter(a, b)
  {
    var s := a + b;
    if Sorted(s) {
      forall i, j | 0 <= i < |a| && 0 <= j < |b| ensures a[i].tstamp <= b[j].tstamp {
        assert s[i] == a[i] && s[|a| + j] == b[j];
      }
      forall i, j | 0 <= i < j < |b| ensures b[i].tstamp <= b[j].tstamp {
        assert s[|a| + i] == b[i] && s[|a| + j] == b[j];
      }
      forall i, j | 0 <= i < j < |a| ensures a[i].tstamp <= a[j].tstamp {
        assert s[i] == a[i] && s[j] == a[j];
      }
    }
  }

  /** The first events earlier than `t` taken away. */
  function DropBefore(t: int, evs: seq<Event>): seq<Event> {
    if evs == [] || evs[0].tstamp >= t then evs else DropBefore(t, evs[1..])
  }

  ghost predicate AllBefore(t: int, evs: seq<Event>) {
    forall i | 0 <= i < |evs| :: evs[i].tstamp < t
  }

  lemma AllBeforeSplit(t: int, a: seq<Event>, b: seq<Event>)
    requires AllBefore(t, a + b)
    ensures AllBefore(t, a) && AllBefore(t, b)
  {
    assert forall i | 0 <= i < |a| :: a[i] == (a + b)[i];
    assert forall i | 0 <= i < |b| :: b[i] == (a + b)[|a| + i];
  }

  lemma {:induction false} DropAll(t: int, a: seq<Event>, b: seq<Event>)
    requires AllBefore(t, a)
    ensures DropBefore(t, a + b) == DropBefore(t, b)
  {
    if a == [] {
      assert a + b == b;
    } else {
      assert (a + b)[1..] == a[1..] + b;
      DropAll(t, a[1..], b);
    }
  }

  lemma DropTo(t: int, a: seq<Event>, i: nat, b: seq<Event>)
    requires i < |a| && AllBefore(t, a[..i]) && a[i].tstamp >= t
    ensures DropBefore(t, a + b) == a[i..] + b
  {
    DropAll(t, a[..i], a[i..] + b);
    assert a + b == a[..i] + (a[i..] + b);
  }

  /** Of time-sorted events exactly those from `t` on are left. */
  lemma {:induction false} DropBeforeSorted(t: int, evs: seq<Event>)
    requires Sorted(evs)
    ensures var r := DropBefore(t, evs);
      |r| <= |evs| && r == evs[|evs| - |r|..] && AllBefore(t, evs[..|evs| - |r|]) && forall e | e in r :: e.tstamp >= t
  {
    if evs != [] && evs[0].tstamp < t {
      DropBeforeSorted(t, evs[1..]);
    }
  }
}
