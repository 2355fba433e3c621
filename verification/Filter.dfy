/** The time filter of filter.c. */
module Filter {
  import opened Wrappers
  import opened Events

  datatype State = Fresh | Ongoing | Done | Error

  /** A time range, both ends included; an end without a date is a time of day. */
  datatype TimeRange = TimeRange(begin: int, beginHasDate: bool, end: int, endHasDate: bool)

  const DAY_NS: int := 24 * 60 * 60 * 1_000_000_000

  /** C's `%`: the remainder has the sign of the dividend. */
  function CRem(a: int, b: int): int
    requires b > 0
  {
    if a >= 0 then a % b else -(-a % b)
  }

  /** The date that `ensure_range_has_dates` takes from a time. */
  function DateOff(ns: int): int {
    ns - CRem(ns, DAY_NS)
  }

  /** The start of the day that holds `ns`. */
  function Midnight(ns: int): int {
    ns / DAY_NS * DAY_NS
  }

  /** The date is right exactly for times from the origin on and for earlier midnights; else it is the next day's. */
  lemma DateOfTime(ns: int)
    ensures Midnight(ns) <= ns < Midnight(ns) + DAY_NS && Midnight(ns) % DAY_NS == 0
    ensures DateOff(ns) == Midnight(ns) <==> ns >= 0 || ns % DAY_NS == 0
    ensures DateOff(ns) != Midnight(ns) ==> DateOff(ns) == Midnight(ns) + DAY_NS
  {
  }

  /** A nanosecond before the origin of time is taken for the day after it. */
  lemma DateBeforeOrigin()
    ensures DateOff(-1) == 0 && Midnight(-1) == -DAY_NS
  {
  }

  /** A range with the dates it lacks taken from `first`. */
  function Dated(r: TimeRange, first: Event): TimeRange {
    var off := DateOff(first.tstamp);
    TimeRange(if r.beginHasDate then r.begin else r.begin + off, true,
              if r.endHasDate then r.end else r.end + off, true)
  }

  /** The range that applies to a whole stream. */
  function Applied(r: TimeRange, all: seq<Event>): TimeRange {
    if (r.beginHasDate && r.endHasDate) || all == [] then r else Dated(r, all[0])
  }

  /**
    A time of day that has been given the date of an event at `t`: it is the same time of the day on which `t` is if `t`
    is not before the origin or is a midnight, and else of the day after that.
   */
  ghost predicate OnDayOf(was: int, now: int, t: int) {
    && now % DAY_NS == was % DAY_NS
    && (now - was == Midnight(t) <==> t >= 0 || t % DAY_NS == 0)
    && (now - was != Midnight(t) ==> now - was == Midnight(t) + DAY_NS)
  }

  /** `now` is `was` where that has dates, and has the date of an event at `t` where not. */
  ghost predicate TakesDates(was: TimeRange, now: TimeRange, t: int) {
    && now.beginHasDate && now.endHasDate
    && (if was.beginHasDate then now.begin == was.begin else OnDayOf(was.begin, now.begin, t))
    && (if was.endHasDate then now.end == was.end else OnDayOf(was.end, now.end, t))
  }

  lemma MovedByDate(was: int, t: int)
    ensures OnDayOf(was, was + DateOff(t), t)
  {
    DateOfTime(t);
    assert DateOff(t) % DAY_NS == 0;
    SameTimeOfDay(was, DateOff(t));
  }

  lemma SameTimeOfDay(was: int, off: int)
    requires off % DAY_NS == 0
    ensures (was + off) % DAY_NS == was % DAY_NS
  {
  }

  /** The range that applies to a stream has its dates from the first event. */
  lemma AppliedTakesDates(r: TimeRange, all: seq<Event>)
    requires all != []
    ensures TakesDates(r, Applied(r, all), all[0].tstamp)
  {
    MovedByDate(r.begin, all[0].tstamp);
    MovedByDate(r.end, all[0].tstamp);
  }

  /** A generator that has come to its end yields nothing more. */
  ghost predicate Absorbing(s: Script) {
    s != [] && s[0] == Ok([]) ==> Stream(s[1..]) == [] && Absorbing(s[1..])
  }

  /** The range with the dates it lacks taken from the generator's next batch, or the error that comes in its place. */
  function WithDates(gen: Script, range: TimeRange): Result<TimeRange, Code> {
    if range.beginHasDate && range.endHasDate then Ok(range)
    else match Next(gen)
      case Err(code) => Err(code)
      case Ok(evs) => Ok(if evs == [] then range else Dated(range, evs[0]))
  }

  /** What the generator has left to say after that. */
  function AfterDates(gen: Script, range: TimeRange): Script {
    if range.beginHasDate && range.endHasDate then gen else Rest(gen)
  }

  /** How the reading of a generator ends that stops at the first batch without an event up to `end`. */
  function CutFate(s: Script, end: int): Result<(), Code> {
    if s == [] then Ok(())
    else if s[0].Err? then Err(s[0].error)
    else if UpTo(s[0].value, end) == [] then Ok(())
    else CutFate(s[1..], end)
  }

  /** Reading up to `end` fails only as reading on would, and escapes a failure only behind an event past `end`. */
  lemma {:induction false} ReadFate(s: Script, end: int)
    ensures CutFate(s, end).Err? ==> CutFate(s, end) == Fate(s)
    ensures CutFate(s, end) != Fate(s) ==> UpTo(Stream(s), end) != Stream(s)
  {
    if s != [] && s[0].Ok? && s[0].value != [] {
      var batch, later := s[0].value, Stream(s[1..]);
      ReadFate(s[1..], end);
      UpToSplit(batch, later, end);
      assert (batch + UpTo(later, end))[|batch|..] == UpTo(later, end) && (batch + later)[|batch|..] == later;
    }
  }

  // What filtering should give.

  function InRange(evs: seq<Event>, begin: int, end: int): seq<Event> {
    if evs == [] then [] else
      (if begin <= evs[0].tstamp <= end then [evs[0]] else []) + InRange(evs[1..], begin, end)
  }

  /** The first events up to `end`. */
  function UpTo(evs: seq<Event>, end: int): seq<Event> {
    if evs == [] || evs[0].tstamp > end then [] else [evs[0]] + UpTo(evs[1..], end)
  }

  lemma {:induction false} NoneInRange(evs: seq<Event>, begin: int, end: int)
    requires forall i | 0 <= i < |evs| :: evs[i].tstamp > end
    ensures InRange(evs, begin, end) == [] && UpTo(evs, end) == []
  {
    if evs != [] { NoneInRange(evs[1..], begin, end); }
  }

  /** Of a sorted stream, what is left of it from `begin` on and up to `end` is what lies in the range. */
  lemma {:induction false} InRangeIsMiddle(evs: seq<Event>, begin: int, end: int)
    requires Sorted(evs)
    ensures InRange(evs, begin, end) == UpTo(DropBefore(begin, evs), end)
  {
    if evs != [] {
      InRangeIsMiddle(evs[1..], begin, end);
      if evs[0].tstamp > end {
        NoneInRange(evs, begin, end);
        if evs[0].tstamp < begin { LaterThan(evs[1..], begin, end); }
      } else if evs[0].tstamp >= begin {
        AllFrom(evs[1..], begin);
      }
    }
  }

  lemma {:induction false} UpToSorted(evs: seq<Event>, end: int)
    requires Sorted(evs)
    ensures var r := UpTo(evs, end);
      r <= evs && (forall e | e in r :: e.tstamp <= end) && forall e | e in evs[|r|..] :: e.tstamp > end
  {
    if evs != [] && evs[0].tstamp <= end {
      UpToSorted(evs[1..], end);
      assert evs[|UpTo(evs, end)|..] == evs[1..][|UpTo(evs[1..], end)|..];
    }
  }

  /** It is a stretch of the stream: all before it is too early, and all behind it too late. */
  lemma InRangeIsStretch(evs: seq<Event>, begin: int, end: int) returns (i: nat, j: nat)
    requires Sorted(evs)
    ensures i <= j <= |evs| && InRange(evs, begin, end) == evs[i..j]
    ensures AllBefore(begin, evs[..i]) && (forall e | e in evs[i..j] :: begin <= e.tstamp <= end)
      && forall e | e in evs[j..] :: e.tstamp > end
  {
    var later := DropBefore(begin, evs);
    InRangeIsMiddle(evs, begin, end);
    DropBeforeSorted(begin, evs);
    UpToSorted(later, end);
    i := |evs| - |later|;
    j := i + |UpTo(later, end)|;
    assert evs[i..j] == later[..j - i] && evs[j..] == later[j - i..];
  }

  lemma {:induction false} AllFrom(evs: seq<Event>, t: int)
    requires forall i | 0 <= i < |evs| :: evs[i].tstamp >= t
    ensures DropBefore(t, evs) == evs
  {
  }

  lemma {:induction false} LaterThan(evs: seq<Event>, begin: int, end: int)
    requires forall i | 0 <= i < |evs| :: evs[i].tstamp > end
    ensures UpTo(DropBefore(begin, evs), end) == []
  {
    if evs != [] { LaterThan(evs[1..], begin, end); }
  }

  lemma {:induction false} UpToSplit(a: seq<Event>, b: seq<Event>, end: int)
    ensures UpTo(a + b, end) == if UpTo(a, end) == a then a + UpTo(b, end) else UpTo(a, end)
    ensures UpTo(a, end) <= a
  {
    if a == [] {
      assert a + b == b;
    } else {
      assert (a + b)[1..] == a[1..] + b;
      UpToSplit(a[1..], b, end);
    }
  }

  /** Behind an event past `end` a sorted stream has nothing up to `end`. */
  lemma CutOff(a: seq<Event>, b: seq<Event>, end: int)
    requires Sorted(a + b) && UpTo(a, end) != a
    ensures UpTo(b, end) == []
  {
    SortedSplit(a, b);
    var i := OnePast(a, end);
    assert b != [] ==> a[i].tstamp <= b[0].tstamp;
  }

  lemma {:induction false} OnePast(a: seq<Event>, end: int) returns (i: nat)
    requires UpTo(a, end) != a
    ensures i < |a| && a[i].tstamp > end
  {
    if a[0].tstamp > end {
      i := 0;
    } else {
      i := OnePast(a[1..], end);
      i := i + 1;
    }
  }

  /**
    A filter over a generator that is known by the answers it will give and, for each time, by those
    it would give after a seek to it.
   */
  class Filter {
    var gen: Script
    const seekTo: int -> Result<Script, Code>
    var range: TimeRange
    var state: State

    constructor (gen: Script, seekTo: int -> Result<Script, Code>, range: TimeRange)
      ensures this.gen == gen && this.seekTo == seekTo && this.range == range && state == Fresh
    {
      this.gen := gen;
      this.seekTo := seekTo;
      this.range := range;
      state := Fresh;
    }

    /** The stream `all` is sorted, and if the generator seeks to `t`, then to its first event at `t` or later. */
    ghost predicate Over(all: seq<Event>, t: int)
      reads this
    {
      Sorted(all) && (seekTo(t).Ok? ==> Stream(seekTo(t).value) == DropBefore(t, all))
    }

    /** The dates that `all` gives are there, or the generator can still tell them. */
    ghost predicate Datable(all: seq<Event>, given: TimeRange)
      reads this
    {
      || (range == Applied(given, all) && range.beginHasDate && range.endHasDate)
      || (range == given && Stream(gen) == all && Absorbing(gen))
    }

    /** How a seek to `t` and the calls after it end. */
    ghost function SeekFate(gen: Script, range: TimeRange, t: int): Result<(), Code>
      reads this
    {
      match WithDates(gen, range)
      case Err(code) => Err(code)
      case Ok(r) =>
        if r.begin <= t && r.end < t then Ok(())
        else match seekTo(Later(t, r.begin))
          case Err(code) => Err(code)
          case Ok(s) => CutFate(s, r.end)
    }

    /** How the calls to come end: the error that one of them gives, if any. */
    ghost function Fate(): Result<(), Code>
      reads this
    {
      match state
      case Fresh =>
        (match WithDates(gen, range)
         case Err(code) => Err(code)
         case Ok(r) => SeekFate(AfterDates(gen, range), r, r.begin))
      case Ongoing => CutFate(gen, range.end)
      case Done => Ok(())
      case Error => Err(ACTF_ERROR)
    }

    /** `ensure_range_has_dates`. */
    method EnsureRangeHasDates(ghost all: seq<Event>, ghost given: TimeRange) returns (r: Result<(), Code>)
      requires Datable(all, given)
      modifies this`gen, this`range, this`state
      ensures r.Ok? ==> range == Applied(given, all) && state == old(state) && Datable(all, given)
      ensures r.Ok? ==> old(WithDates(gen, range)) == Ok(range) && gen == old(AfterDates(gen, range))
      ensures r.Ok? && old(range.beginHasDate && range.endHasDate) ==> range == old(range)
      ensures r.Ok? && !old(range.beginHasDate && range.endHasDate) ==>
        && old(Next(gen)).Ok? && var evs := old(Next(gen)).value;
           if evs == [] then range == old(range) else TakesDates(old(range), range, evs[0].tstamp)
      ensures r.Err? ==> old(WithDates(gen, range)) == Err(r.error) && state == Error && range == old(range)
    {
      if range.beginHasDate && range.endHasDate {
        return Ok(());
      }
      var answer := Next(gen);
      gen := Rest(gen);
      if answer.Err? {
        state := Error;
        return Err(answer.error);
      }
      var evs := answer.value;
      if |evs| == 0 {
        return Ok(());
      }
      var nsFromOrigin := evs[0].tstamp;
      MovedByDate(range.begin, nsFromOrigin);
      MovedByDate(range.end, nsFromOrigin);
      var dateOff := nsFromOrigin - CRem(nsFromOrigin, 24 * 60 * 60 * 1_000_000_000);
      if !range.beginHasDate {
        range := range.(begin := range.begin + dateOff, beginHasDate := true);
      }
      if !range.endHasDate {
        range := range.(end := range.end + dateOff, endHasDate := true);
      }
      return Ok(());
    }

    /** The events that the filter has yet to yield. */
    ghost predicate Owes(all: seq<Event>, given: TimeRange, rest: seq<Event>)
      reads this
    {
      match state
      case Fresh =>
        var r := Applied(given, all);
        Over(all, r.begin) && Datable(all, given) && rest == InRange(all, r.begin, r.end)
      case Ongoing => range == Applied(given, all) && Sorted(Stream(gen)) && rest == UpTo(Stream(gen), range.end)
      case Done => range == Applied(given, all) && rest == []
      case Error => false
    }

    /** `actf_filter_seek_ns_from_origin`. */
    method Seek(t: int, ghost all: seq<Event>, ghost given: TimeRange) returns (r: Result<(), Code>)
      requires Over(all, Later(t, Applied(given, all).begin)) && Datable(all, given)
      modifies this`gen, this`range, this`state
      ensures r.Ok? ==> state != Fresh && range == Applied(given, all)
      ensures r.Ok? ==> Owes(all, given, InRange(all, Later(t, range.begin), range.end))
      ensures r.Ok? ==> Fate() == old(SeekFate(gen, range, t))
      ensures r.Err? ==> state == Error && r == old(SeekFate(gen, range, t))
    {
      var dates := EnsureRangeHasDates(all, given);
      if dates.Err? {
        return dates;
      }
      var to := t;
      InRangeIsMiddle(all, Later(t, range.begin), range.end);
      if to < range.begin {
        to := range.begin;
      } else if to > range.end {
        EmptyRange(all, to, range.end);
        state := Done;
        return Ok(());
      }
      var answer := seekTo(to);
      if answer.Err? {
        state := Error;
        return Err(answer.error);
      }
      DropBeforeSorted(to, all);
      gen := answer.value;
      state := Ongoing;
      return Ok(());
    }

    /** The batch without the events past the end; an end of `INT64_MAX` cuts nothing off. */
    method Trim(evs: seq<Event>) returns (out: seq<Event>)
      ensures out == UpTo(evs, range.end)
    {
      out := evs;
      if range.end != INT64_MAX {
        var i := 0;
        while i < |evs| && evs[i].tstamp <= range.end
          invariant 0 <= i <= |evs| && UpTo(evs, range.end) == evs[..i] + UpTo(evs[i..], range.end)
        {
          assert evs[i..][1..] == evs[i + 1..];
          i := i + 1;
        }
        out := evs[..i];
      } else {
        AllUpTo(evs);
      }
    }

    /**
      `actf_filter_filter` in a state other than fresh: trims the next batch, and is done when nothing of it is left.
     */
    method Continue() returns (r: Answer)
      requires state != Fresh
      modifies this`gen, this`state
      ensures old(state) == Done ==> r == Ok([]) && state == Done && gen == old(gen)
      ensures old(state) == Error ==> r == Err(ACTF_ERROR) && state == Error
      ensures old(state) == Ongoing ==> gen == old(Rest(gen))
      ensures old(state) == Ongoing ==> match old(Next(gen))
        case Err(code) => r == Err(code) && state == Error
        case Ok(evs) => r == Ok(UpTo(evs, range.end)) && state == (if UpTo(evs, range.end) == [] then Done else Ongoing)
    {
      match state {
        case Ongoing =>
          var answer := Next(gen);
          gen := Rest(gen);
          if answer.Err? {
            state := Error;
            return answer;
          }
          var evs := Trim(answer.value);
          if |evs| == 0 {
            state := Done;
          }
          return Ok(evs);
        case Done => return Ok([]);
        case Error => return Err(ACTF_ERROR);
      }
    }

    /** `actf_filter_filter`: a batch is the next part of what is owed, and an empty one comes when nothing is. */
    method Filter(ghost all: seq<Event>, ghost given: TimeRange, ghost owed: seq<Event>)
      returns (r: Answer, ghost rest: seq<Event>)
      requires Owes(all, given, owed)
      modifies this`gen, this`range, this`state
      ensures r.Ok? ==> state in {Ongoing, Done} && owed == r.value + rest && Owes(all, given, rest)
      ensures r.Ok? ==> range == Applied(given, all)
      ensures r.Ok? ==> (r.value == [] <==> state == Done)
      ensures r.Ok? ==> Fate() == old(Fate())
      ensures r.Err? ==> state == Error && old(Fate()) == Err(r.error)
      ensures old(state) == Done ==> r == Ok([])
      ensures old(state) == Ongoing ==> gen == old(Rest(gen)) && (old(gen) == [] ==> r == Ok([]))
    {
      rest := [];
      if state == Fresh {
        var dates := EnsureRangeHasDates(all, given);
        if dates.Err? {
          return Err(dates.error), rest;
        }
        var sought := Seek(range.begin, all, given);
        if sought.Err? {
          return Err(sought.error), rest;
        }
      }
      if state == Ongoing && Next(gen).Ok? {
        NextPart(gen, range.end);
      }
      r := Continue();
      if r.Ok? && r.value != [] {
        rest := UpTo(Stream(gen), range.end);
      }
    }
  }

  /** What a sorted generator owes up to `end` begins with what is left of its next batch. */
  lemma NextPart(s: Script, end: int)
    requires Sorted(Stream(s)) && Next(s).Ok?
    ensures var part := UpTo(Next(s).value, end);
      UpTo(Stream(s), end) == if part == [] then [] else part + UpTo(Stream(Rest(s)), end)
    ensures UpTo(Next(s).value, end) != [] ==> Sorted(Stream(Rest(s)))
  {
    if s != [] && s[0].value != [] {
      var batch, later := s[0].value, Stream(s[1..]);
      UpToSplit(batch, later, end);
      SortedSplit(batch, later);
      if UpTo(batch, end) != batch {
        CutOff(batch, later, end);
        assert UpTo(batch, end) + [] == UpTo(batch, end);
      }
    }
  }

  /**
    The loop of a consumer: it is given exactly the events in the range, whose missing dates are those of the stream's
    first event, unless the generator has an error among the answers that are needed for that; then it is given that
    error behind a beginning of these events.
   */
  method Drain(f: Filter, ghost all: seq<Event>, ghost given: TimeRange, ghost owed: seq<Event>)
    returns (r: Result<(), Code>, out: seq<Event>)
    requires f.Owes(all, given, owed)
    modifies f
    ensures r == old(f.Fate())
    ensures r.Ok? ==> out == owed && f.state == Done
    ensures r.Err? ==> out <= owed && f.state == Error
  {
    out := [];
    ghost var rest := owed;
    var answer;
    answer, rest := f.Filter(all, given, rest);
    if answer.Err? {
      return Err(answer.error), out;
    }
    out := answer.value;
    while answer.value != []
      invariant f.Owes(all, given, rest) && f.state in {Ongoing, Done} && owed == out + rest && answer.Ok?
      invariant (answer.value == [] <==> f.state == Done) && f.Fate() == old(f.Fate())
      decreases answer.value != [], |f.gen|
    {
      answer, rest := f.Filter(all, given, rest);
      if answer.Err? {
        return Err(answer.error), out;
      }
      out := out + answer.value;
    }
    return Ok(()), out;
  }

  function Later(a: int, b: int): (r: int)
    ensures a <= r && b <= r && (r == a || r == b)
  {
    if a < b then b else a
  }

  lemma EmptyRange(evs: seq<Event>, begin: int, end: int)
    requires begin > end
    ensures InRange(evs, begin, end) == []
  {
  }

  lemma AllUpTo(evs: seq<Event>)
    ensures UpTo(evs, INT64_MAX) == evs
  {
  }
}
