/** The packet and event loops of decoder.c: batches, delayed errors and seeking. */
module Pipeline {
  import opened Arith
  import opened Wrappers
  import opened Events

  /** `UINT64_MAX`, a length that the packet does not tell. */
  const UNKNOWN: nat := UINT64_MAX

  const ACTF_INVALID_CONTENT_LEN: Code := -46

  /** A packet: where it starts, its lengths in bits, and the time of its end if it tells it. */
  datatype Packet = Packet(off: nat, contentLen: Uint64, totLen: Uint64, endNs: Option<int>)

  /** The reader's position and all else that decoding an event depends on. */
  datatype Cursor<D> = Cursor(pos: nat, rest: D)

  /** What decoding a packet's header and context at some position tells. */
  datatype Header<D> = Header(contentLen: Uint64, totLen: Uint64, endNs: Option<int>, cur: Cursor<D>)

  /** A data stream of `end` bits with the outcome of decoding a header or an event anywhere in it. */
  datatype Source<!D> = Source(end: nat, hdr: nat -> Result<Header<D>, Code>,
                               ev: (Packet, Cursor<D>) -> Result<(Cursor<D>, Event), Code>)

  /** The data are whole bytes, and decoding only moves on in them. */
  ghost predicate WellFormed<D(!new)>(src: Source<D>) {
    && src.end % 8 == 0 && src.end < TWO64
    && (forall pos: nat | pos <= src.end && src.hdr(pos).Ok? :: pos <= src.hdr(pos).value.cur.pos <= src.end)
    && forall pkt: Packet, cur: Cursor<D> | cur.pos <= src.end && src.ev(pkt, cur).Ok? ::
         cur.pos <= src.ev(pkt, cur).value.0.pos <= src.end
  }

  /** `actf_decoder_pkt_hdrctx_decode`: of two lengths the one that is told stands for both. */
  function PktHdr<D>(src: Source<D>, pos: nat): Result<(Packet, Cursor<D>), Code> {
    match src.hdr(pos)
    case Err(code) => Err(code)
    case Ok(h) =>
      var totLen := if h.totLen == UNKNOWN && h.contentLen != UNKNOWN then h.contentLen else h.totLen;
      var contentLen := if h.contentLen == UNKNOWN && totLen != UNKNOWN then totLen else h.contentLen;
      if contentLen > totLen then Err(ACTF_INVALID_CONTENT_LEN)
      else Ok((Packet(pos, contentLen, totLen, h.endNs), h.cur))
  }

  /** `pkt_bits_remaining`. */
  function PktBitsRemaining(pkt: Packet, pos: nat): nat {
    if pos - pkt.off < pkt.contentLen then pkt.contentLen - (pos - pkt.off) else 0
  }

  /** Whether the loop over the events of a packet goes on. */
  predicate More<D>(src: Source<D>, pkt: Packet, pos: nat) {
    pos < src.end && PktBitsRemaining(pkt, pos) > 0
  }

  /** Where the reader is left when the loop has ended at `pos`. */
  function AfterPacket<D>(src: Source<D>, pkt: Packet, pos: nat): nat {
    if pkt.totLen != UNKNOWN && pkt.contentLen != UNKNOWN then
      Min(pos + (pkt.off + pkt.totLen - pos) % TWO64, src.end)
    else pos
  }

  // Decoding without batches, one small step at a time.

  /** Where decoding has got to; `got` counts the events of the packet. */
  datatype Place<D> = AtPacket(pos: nat) | InPacket(pkt: Packet, cur: Cursor<D>, got: nat) | Ended | Failed(code: Code)

  /** The next step and the event it yields, if any. A packet without events ends the decoding. */
  function Step<D>(src: Source<D>, p: Place<D>): (Place<D>, seq<Event>) {
    match p
    case AtPacket(pos) =>
      if pos >= src.end then (Ended, []) else (
        match PktHdr(src, pos)
        case Err(code) => (Failed(code), [])
        case Ok((pkt, cur)) => (InPacket(pkt, cur, 0), []))
    case InPacket(pkt, cur, got) =>
      if More(src, pkt, cur.pos) then (
        match src.ev(pkt, cur)
        case Err(code) => (Failed(code), [])
        case Ok((next, e)) => (InPacket(pkt, next, got + 1), [e]))
      else if got == 0 then (Ended, [])
      else (AtPacket(AfterPacket(src, pkt, cur.pos)), [])
    case _ => (p, [])
  }

  /** The place after `n` steps and the events on the way. */
  function Run<D>(src: Source<D>, p: Place<D>, n: nat): (Place<D>, seq<Event>)
    decreases n
  {
    if n == 0 then (p, []) else
      var (q, e) := Step(src, p);
      var (r, es) := Run(src, q, n - 1);
      (r, e + es)
  }

  predicate Halted<D>(p: Place<D>) { p.Ended? || p.Failed? }

  lemma {:induction false} RunAdds<D>(src: Source<D>, p: Place<D>, a: nat, b: nat)
    ensures Run(src, p, a + b).0 == Run(src, Run(src, p, a).0, b).0
    ensures Run(src, p, a + b).1 == Run(src, p, a).1 + Run(src, Run(src, p, a).0, b).1
    decreases a
  {
    if a > 0 {
      RunAdds(src, Step(src, p).0, a - 1, b);
    }
  }

  lemma {:induction false} HaltedStays<D>(src: Source<D>, p: Place<D>, n: nat)
    requires Halted(p)
    ensures Run(src, p, n).0 == p && Run(src, p, n).1 == []
  {
    if n > 0 {
      HaltedStays(src, p, n - 1);
      assert Step(src, p) == (p, []);
      assert Run(src, p, n).1 == [] + Run(src, p, n - 1).1;
    }
  }

  /** One more step after `n`. */
  lemma RunOneMore<D>(src: Source<D>, p: Place<D>, n: nat)
    ensures Run(src, p, n + 1).0 == Step(src, Run(src, p, n).0).0
    ensures Run(src, p, n + 1).1 == Run(src, p, n).1 + Step(src, Run(src, p, n).0).1
  {
    var q := Run(src, p, n).0;
    RunAdds(src, p, n, 1);
    assert Run(src, q, 1).1 == Step(src, q).1;
  }

  /** A step that yields nothing. */
  lemma QuietStep<D>(src: Source<D>, p: Place<D>, n: nat)
    requires n > 0 && Step(src, p).1 == []
    ensures Run(src, p, n).0 == Run(src, Step(src, p).0, n - 1).0
    ensures Run(src, p, n).1 == Run(src, Step(src, p).0, n - 1).1
  {
    assert Run(src, p, n).1 == [] + Run(src, Step(src, p).0, n - 1).1;
  }

  /** Two runs that both halt agree: a halted run is the whole story. */
  lemma HaltsOnce<D>(src: Source<D>, p: Place<D>, a: nat, b: nat)
    requires Halted(Run(src, p, a).0) && a <= b
    ensures Run(src, p, b).0 == Run(src, p, a).0 && Run(src, p, b).1 == Run(src, p, a).1
  {
    RunAdds(src, p, a, b - a);
    HaltedStays(src, Run(src, p, a).0, b - a);
    assert Run(src, p, b).1 == Run(src, p, a).1 + [];
  }

  /** A packet that has ended without an event. */
  ghost predicate NoEvents<D>(src: Source<D>, p: Place<D>) {
    p.InPacket? && p.got == 0 && !More(src, p.pkt, p.cur.pos)
  }

  /** An event that cannot be decoded. */
  ghost predicate EventFails<D>(src: Source<D>, p: Place<D>) {
    p.InPacket? && More(src, p.pkt, p.cur.pos) && src.ev(p.pkt, p.cur).Err?
  }

  /** The end of the packet `pkt`, from which the reader moves on to `pos`. */
  ghost predicate PacketEnds<D>(src: Source<D>, p: Place<D>, pkt: Packet, pos: nat) {
    p.InPacket? && p.pkt == pkt && !More(src, pkt, p.cur.pos) && pos == AfterPacket(src, pkt, p.cur.pos)
  }

  /** The lengths that the header tells stand, and so does its end time; a length that it does not tell is the other. */
  ghost predicate Told<D>(h: Header<D>, pkt: Packet) {
    && pkt.endNs == h.endNs
    && (h.contentLen != UNKNOWN ==> pkt.contentLen == h.contentLen)
    && (h.totLen != UNKNOWN ==> pkt.totLen == h.totLen)
    && (h.contentLen == UNKNOWN || h.totLen == UNKNOWN ==> pkt.contentLen == pkt.totLen)
    && (h.contentLen == h.totLen == UNKNOWN ==> pkt.contentLen == UNKNOWN)
  }

  /** A packet that has started before the end of the data and is what its header tells. */
  ghost predicate PacketOk<D>(src: Source<D>, pkt: Packet) {
    && pkt.off < src.end && pkt.contentLen <= pkt.totLen
    && src.hdr(pkt.off).Ok? && Told(src.hdr(pkt.off).value, pkt)
  }

  lemma HdrLengths<D>(src: Source<D>, pos: nat)
    requires pos < src.end
    ensures match PktHdr(src, pos)
      case Ok((pkt, cur)) => pkt.off == pos && PacketOk(src, pkt) && cur == src.hdr(pos).value.cur
      case Err(code) =>
        if src.hdr(pos).Err? then code == src.hdr(pos).error
        else code == ACTF_INVALID_CONTENT_LEN && src.hdr(pos).value.totLen < src.hdr(pos).value.contentLen != UNKNOWN
  {
  }

  /** Places that decoding can get to. */
  ghost predicate Possible<D>(src: Source<D>, p: Place<D>) {
    match p
    case AtPacket(pos) => pos <= src.end
    case InPacket(pkt, cur, _) => PacketOk(src, pkt) && pkt.off <= cur.pos <= src.end
    case _ => true
  }

  lemma StepPossible<D(!new)>(src: Source<D>, p: Place<D>)
    requires WellFormed(src) && Possible(src, p)
    ensures Possible(src, Step(src, p).0)
  {
    if p.AtPacket? && p.pos < src.end { HdrLengths(src, p.pos); }
  }

  lemma {:induction false} RunPossible<D(!new)>(src: Source<D>, p: Place<D>, n: nat)
    requires WellFormed(src) && Possible(src, p)
    ensures Possible(src, Run(src, p, n).0)
    decreases n
  {
    if n > 0 {
      StepPossible(src, p);
      RunPossible(src, Step(src, p).0, n - 1);
    }
  }

  /**
    Where decoding goes on behind a packet: at its end or the end of the data, whichever comes first, wherever its
    events have ended; only if the reader is behind the packet's end, the rest of the data is skipped.
   */
  lemma PacketLeft<D(!new)>(src: Source<D>, pkt: Packet, pos: nat)
    requires WellFormed(src) && PacketOk(src, pkt) && pkt.off <= pos <= src.end
    ensures AfterPacket(src, pkt, pos) ==
      if pkt.totLen == UNKNOWN then pos
      else if pos <= pkt.off + pkt.totLen then Min(pkt.off + pkt.totLen, src.end)
      else src.end
  {
    if pkt.totLen != UNKNOWN {
      var left := pkt.off + pkt.totLen - pos;
      assert left % TWO64 == if left >= 0 then left else left + TWO64;
    }
  }

  /** A packet without events is taken for the end of the stream, whatever comes behind it. */
  lemma {:induction false} EmptyPacketEnds<D>(src: Source<D>, pos: nat, n: nat)
    requires pos < src.end && PktHdr(src, pos).Ok? && n >= 2
    requires var (pkt, cur) := PktHdr(src, pos).value; !More(src, pkt, cur.pos)
    ensures Run(src, AtPacket(pos), n).0 == Ended && Run(src, AtPacket(pos), n).1 == []
  {
    var (pkt, cur) := PktHdr(src, pos).value;
    QuietStep(src, AtPacket(pos), n);
    QuietStep(src, InPacket(pkt, cur, 0), n - 1);
    HaltedStays<D>(src, Ended, n - 2);
  }

  // When decoding ends.

  /** Every event takes at least one bit. */
  ghost predicate EventsTakeBits<D(!new)>(src: Source<D>) {
    forall pkt: Packet, cur: Cursor<D> | cur.pos <= src.end && src.ev(pkt, cur).Ok? ::
      cur.pos < src.ev(pkt, cur).value.0.pos
  }

  /** A bound on the steps that are left. */
  ghost function StepsLeft<D>(src: Source<D>, p: Place<D>): int {
    match p
    case AtPacket(pos) => 3 * (src.end - pos) + 1
    case InPacket(_, cur, got) => 3 * (src.end - cur.pos) + if got == 0 then 0 else 2
    case _ => -1
  }

  /** If every event takes at least one bit, decoding ends from anywhere, however long the packets say they are. */
  lemma {:induction false} Halts<D(!new)>(src: Source<D>, p: Place<D>, n: nat)
    requires WellFormed(src) && EventsTakeBits(src) && Possible(src, p) && StepsLeft(src, p) < n
    ensures Halted(Run(src, p, n).0)
    decreases n
  {
    if Halted(p) {
      HaltedStays(src, p, n);
    } else {
      StepPossible(src, p);
      if p.InPacket? {
        PacketLeft(src, p.pkt, p.cur.pos);
      } else if p.pos < src.end {
        HdrLengths(src, p.pos);
      }
      Halts(src, Step(src, p).0, n - 1);
    }
  }

  /** With an event that takes none, it goes on for ever. */
  lemma {:induction false} NeverHalts<D>(src: Source<D>, pkt: Packet, cur: Cursor<D>, got: nat, n: nat)
    requires More(src, pkt, cur.pos) && src.ev(pkt, cur).Ok? && src.ev(pkt, cur).value.0 == cur
    ensures Run(src, InPacket(pkt, cur, got), n).0 == InPacket(pkt, cur, got + n)
    ensures |Run(src, InPacket(pkt, cur, got), n).1| == n
    decreases n
  {
    if n > 0 { NeverHalts(src, pkt, cur, got + 1, n - 1); }
  }

  // What seeking relies on.

  /** A packet of known length ends on a whole byte or with the data, and no event goes past its end. */
  ghost predicate Fits<D>(src: Source<D>, pkt: Packet, pos: nat) {
    var end := pkt.off + pkt.totLen;
    pkt.totLen != UNKNOWN ==> pos <= end && (end % 8 == 0 || end >= src.end)
  }

  /** The time of its end that the packet's header tells, if any, is not before `e`. */
  ghost predicate EndBounds<D>(src: Source<D>, pkt: Packet, e: Event) {
    src.hdr(pkt.off).Ok? && src.hdr(pkt.off).value.endNs.Some? ==> e.tstamp <= src.hdr(pkt.off).value.endNs.value
  }

  /** What a step passed over must meet for the way past a packet to make no difference. */
  ghost predicate Meets<D>(src: Source<D>, p: Place<D>) {
    match p
    case InPacket(pkt, cur, got) =>
      if More(src, pkt, cur.pos) then src.ev(pkt, cur).Ok? && EndBounds(src, pkt, src.ev(pkt, cur).value.1)
      else Fits(src, pkt, cur.pos)
    case _ => true
  }

  /** The next step yields an event at `t` or later. */
  ghost predicate Lands<D>(src: Source<D>, p: Place<D>, t: int) {
    Step(src, p).1 != [] && Step(src, p).1[0].tstamp >= t
  }

  /** The next step of a seek, for which a packet without events is not the end. */
  ghost function Pass<D>(src: Source<D>, p: Place<D>): Place<D> {
    if NoEvents(src, p) then AtPacket(AfterPacket(src, p.pkt, p.cur.pos)) else Step(src, p).0
  }

  /** Of at most `n` steps of a seek from `p`, those up to the first event at `t` or later, or to the end, meet it. */
  ghost predicate Clear<D>(src: Source<D>, p: Place<D>, n: nat, t: int)
    decreases n
  {
    Halted(p) || (n > 0 && Meets(src, p) && (Lands(src, p, t) || Clear(src, Pass(src, p), n - 1, t)))
  }

  /**
    What `n` steps come to and yield when those before `t` are steps of a seek, whose events are passed over, and the
    others decode from the first event at `t` or later on.
   */
  ghost function Sought<D>(src: Source<D>, p: Place<D>, n: nat, t: int): (Place<D>, seq<Event>)
    decreases n
  {
    if n == 0 then (p, [])
    else if Lands(src, p, t) then Run(src, p, n)
    else Sought(src, Pass(src, p), n - 1, t)
  }

  /** No packet without events comes before the first event at `t` or later. */
  ghost predicate NoneEmpty<D>(src: Source<D>, p: Place<D>, n: nat, t: int)
    decreases n
  {
    n == 0 || Lands(src, p, t) || (!NoEvents(src, p) && NoneEmpty(src, Pass(src, p), n - 1, t))
  }

  lemma {:induction false} HaltedSought<D>(src: Source<D>, p: Place<D>, n: nat, t: int)
    requires Halted(p)
    ensures Sought(src, p, n, t) == (p, [])
    decreases n
  {
    if n > 0 { HaltedSought(src, p, n - 1, t); }
  }

  /**
    A seek finds what decoding finds, and ends as it does, if no packet without events comes before that. If one does,
    decoding ends there, so what a seek finds behind it is too much.
   */
  lemma {:induction false} SoughtIsRest<D>(src: Source<D>, p: Place<D>, n: nat, t: int)
    requires Halted(Run(src, p, n).0)
    ensures NoneEmpty(src, p, n, t) ==> Sought(src, p, n, t) == (Run(src, p, n).0, DropBefore(t, Run(src, p, n).1))
    ensures !NoneEmpty(src, p, n, t) ==> Run(src, p, n).0 == Ended && DropBefore(t, Run(src, p, n).1) == []
    decreases n
  {
    if n > 0 {
      var (q, e) := Step(src, p);
      var rest := Run(src, q, n - 1).1;
      assert Run(src, p, n).1 == e + rest;
      if NoEvents(src, p) {
        HaltedStays<D>(src, Ended, n - 1);
      } else if Lands(src, p, t) {
        assert (e + rest)[0] == e[0];
      } else {
        SoughtIsRest(src, q, n - 1, t);
        DropAll(t, e, rest);
      }
    }
  }

  /** That is the exact condition: a seek finds something else just if there is something behind an empty packet. */
  lemma SeekIsExact<D>(src: Source<D>, p: Place<D>, n: nat, t: int)
    requires Halted(Run(src, p, n).0)
    ensures Sought(src, p, n, t) == (Run(src, p, n).0, DropBefore(t, Run(src, p, n).1)) <==>
      NoneEmpty(src, p, n, t) || Sought(src, p, n, t) == (Ended, [])
  {
    SoughtIsRest(src, p, n, t);
  }

  /** Every packet header takes at least one bit. */
  ghost predicate HeadersTakeBits<D(!new)>(src: Source<D>) {
    forall pos: nat | pos <= src.end && src.hdr(pos).Ok? :: pos < src.hdr(pos).value.cur.pos
  }

  /** A bound on the steps that a seek has left. */
  ghost function SeekStepsLeft<D>(src: Source<D>, p: Place<D>): int {
    match p
    case AtPacket(pos) => 3 * (src.end - pos) + 1
    case InPacket(_, cur, _) => 3 * (src.end - cur.pos) + 2
    case _ => -1
  }

  /** If every header and event takes at least one bit, a seek ends, and so does the decoding behind it. */
  lemma {:induction false} SeekHalts<D(!new)>(src: Source<D>, p: Place<D>, n: nat, t: int)
    requires WellFormed(src) && EventsTakeBits(src) && HeadersTakeBits(src) && Possible(src, p)
      && SeekStepsLeft(src, p) < n
    ensures Halted(Sought(src, p, n, t).0)
    decreases n
  {
    if Lands(src, p, t) {
      Halts(src, p, n);
    } else if Halted(p) {
      HaltedSought(src, p, n, t);
    } else {
      StepPossible(src, p);
      if p.InPacket? {
        PacketLeft(src, p.pkt, p.cur.pos);
      } else if p.pos < src.end {
        HdrLengths(src, p.pos);
      }
      SeekHalts(src, Pass(src, p), n - 1, t);
    }
  }

  /** A packet that has neither header nor events and does not end elsewhere is passed over for ever. */
  lemma {:induction false} SeekNeverHalts<D>(src: Source<D>, pos: nat, n: nat, t: int)
    requires pos < src.end && PktHdr(src, pos).Ok?
    requires var (pkt, cur) := PktHdr(src, pos).value; !More(src, pkt, cur.pos) && AfterPacket(src, pkt, cur.pos) == pos
    ensures !Halted(Sought(src, AtPacket(pos), n, t).0)
    decreases n
  {
    var (pkt, cur) := PktHdr(src, pos).value;
    var p := InPacket(pkt, cur, 0);
    if n >= 2 {
      assert Pass(src, AtPacket(pos)) == p && Pass(src, p) == AtPacket(pos);
      assert !Lands(src, AtPacket(pos), t) && !Lands(src, p, t);
      assert Sought(src, AtPacket(pos), n, t) == Sought(src, p, n - 1, t) == Sought(src, AtPacket(pos), n - 2, t);
      SeekNeverHalts(src, pos, n - 2, t);
    }
  }

  /** Two packets of one byte each, the first of which has no event. */
  ghost function EmptyFirst(e: Event): Source<bool> {
    Source(16, pos => Ok(Header(if pos == 0 then 0 else 8, 8, None, Cursor(pos, true))),
           (_, cur: Cursor<bool>) => if cur.pos + 8 <= 16 then Ok((Cursor(cur.pos + 8, true), e)) else Err(ACTF_ERROR))
  }

  /** Decoding them yields nothing, while a seek finds the event of the second. */
  lemma EmptyPacketPassed(e: Event)
    ensures var src, p := EmptyFirst(e), AtPacket(0);
      && WellFormed(src) && Clear(src, p, 6, e.tstamp)
      && Run(src, p, 6) == (Ended, []) && Sought(src, p, 6, e.tstamp) == (Ended, [e])
  {
    var src := EmptyFirst(e);
    var pkt0, pkt1 := Packet(0, 0, 8, None), Packet(8, 8, 8, None);
    var a, b := InPacket(pkt0, Cursor(0, true), 0), AtPacket(8);
    var c, d := InPacket(pkt1, Cursor(8, true), 0), InPacket(pkt1, Cursor(16, true), 1);
    assert Step(src, AtPacket(0)) == (a, []) && Pass(src, AtPacket(0)) == a && NoEvents(src, a) && Pass(src, a) == b;
    assert Step(src, b) == (c, []) && Pass(src, b) == c && Step(src, c) == (d, [e]) && Lands(src, c, e.tstamp);
    assert Step(src, d) == (AtPacket(16), []) && Step(src, AtPacket(16)) == (Ended, []);
    QuietStep(src, AtPacket(0), 6);
    QuietStep(src, a, 5);
    HaltedStays<bool>(src, Ended, 4);
    QuietStep(src, d, 2);
    QuietStep(src, AtPacket(16), 1);
    HaltedStays<bool>(src, Ended, 0);
    assert Run(src, d, 2) == (Ended, []) && Run(src, c, 3) == (Ended, [e] + []) && [e] + [] == [e];
    assert Sought(src, c, 3, e.tstamp) == (Ended, [e]) && Sought(src, b, 4, e.tstamp) == (Ended, [e]);
    assert Sought(src, a, 5, e.tstamp) == (Ended, [e]);
    assert Clear(src, b, 4, e.tstamp) && Clear(src, a, 5, e.tstamp);
  }

  /** The place before the last of some steps that yield only events before `t`. */
  lemma {:induction false} BeforeLast<D(!new)>(src: Source<D>, p: Place<D>, n: nat, t: int, k: nat)
    requires Clear(src, p, n, t) && k > 0 && AllBefore(t, Run(src, p, k).1)
    requires WellFormed(src) && Possible(src, p)
    ensures var q := Run(src, p, k - 1).0; Possible(src, q) && Meets(src, q) && !EventFails(src, q)
    decreases k
  {
    if Halted(p) {
      HaltedStays(src, p, k - 1);
    } else if k > 1 {
      var e, rest := Step(src, p).1, Run(src, Step(src, p).0, k - 1).1;
      assert Run(src, p, k).1 == e + rest;
      AllBeforeSplit(t, e, rest);
      StepPossible(src, p);
      if NoEvents(src, p) {
        HaltedStays<D>(src, Ended, k - 2);
      } else {
        BeforeLast(src, Step(src, p).0, n - 1, t, k - 1);
      }
    }
  }

  /** From `p` the way is clear, and a seek comes to `end` in `n` steps and finds `kept`. */
  ghost predicate Leads<D>(src: Source<D>, p: Place<D>, n: nat, end: Place<D>, t: int, kept: seq<Event>) {
    Clear(src, p, n, t) && Halted(end) && Sought(src, p, n, t) == (end, kept)
  }

  /** The events `first` and those from `p` on are `kept`. */
  ghost predicate Delivers<D>(src: Source<D>, first: seq<Event>, p: Place<D>, n: nat, end: Place<D>, kept: seq<Event>) {
    Halted(end) && Run(src, p, n).0 == end && first + Run(src, p, n).1 == kept
  }

  lemma LeadsOn<D>(src: Source<D>, p: Place<D>, n: nat, end: Place<D>, t: int, kept: seq<Event>)
    requires Leads(src, p, n, end, t, kept) && !Halted(p) && !Lands(src, p, t)
    ensures n > 0 && Leads(src, Pass(src, p), n - 1, end, t, kept)
  {
  }

  /** Before a packet at the end of the data, or in one without events. */
  ghost predicate AtEnd<D>(src: Source<D>, p: Place<D>) {
    match p
    case AtPacket(pos) => pos >= src.end
    case InPacket(pkt, cur, got) => got == 0 && cur.pos >= src.end
    case _ => false
  }

  lemma LeadsToEnd<D>(src: Source<D>, p: Place<D>, n: nat, end: Place<D>, t: int, kept: seq<Event>)
    requires Leads(src, p, n, end, t, kept) && (Halted(p) || AtEnd(src, p))
    ensures Delivers(src, [], p, n, end, kept)
  {
    if Halted(p) {
      HaltedStays(src, p, n);
      HaltedSought(src, p, n, t);
    } else if p.InPacket? {
      var q := Pass(src, p);
      assert NoEvents(src, p) && q.AtPacket? && q.pos >= src.end && Sought(src, p, n, t) == Sought(src, q, n - 1, t);
      QuietStep(src, p, n);
      HaltedStays<D>(src, Ended, n - 1);
      assert Pass(src, q) == Ended && !Lands(src, q, t);
      HaltedSought<D>(src, Ended, n - 2, t);
    } else {
      QuietStep(src, p, n);
      HaltedStays<D>(src, Ended, n - 1);
      HaltedSought<D>(src, Ended, n - 1, t);
    }
  }

  /** The first step of a run that yields something. */
  lemma RunFirst<D>(src: Source<D>, p: Place<D>, k: nat)
    requires Run(src, p, k).1 != []
    ensures k > 0 && !Halted(p) && !NoEvents(src, p) && Run(src, p, k).0 == Run(src, Step(src, p).0, k - 1).0
    ensures Run(src, p, k).1 == Step(src, p).1 + Run(src, Step(src, p).0, k - 1).1
  {
    if Halted(p) { HaltedStays(src, p, k); }
    if NoEvents(src, p) {
      QuietStep(src, p, k);
      HaltedStays<D>(src, Ended, k - 1);
    }
  }

  /** A batch with an event at `t` or later, the first of them at `i`. */
  lemma {:induction false} LeadsInto<D>(src: Source<D>, p: Place<D>, n: nat, end: Place<D>, t: int, kept: seq<Event>,
                                        k: nat, i: nat)
    returns (left: nat)
    requires Leads(src, p, n, end, t, kept)
    requires i < |Run(src, p, k).1| && AllBefore(t, Run(src, p, k).1[..i]) && Run(src, p, k).1[i].tstamp >= t
    ensures left <= n && Delivers(src, Run(src, p, k).1[i..], Run(src, p, k).0, left, end, kept)
    decreases k
  {
    RunFirst(src, p, k);
    var batch, e, later := Run(src, p, k).1, Step(src, p).1, Run(src, Step(src, p).0, k - 1).1;
    assert i > 0 ==> batch[..i][0] == batch[0];
    if Lands(src, p, t) {
      assert batch[0] == e[0];
      RunRest(src, p, k, n);
      left := if k <= n then n - k else 0;
      assert k > n ==> batch + Run(src, Run(src, p, k).0, left).1 == batch;
      assert batch[i..] == batch;
    } else {
      assert e != [] ==> i > 0 && batch[0] == e[0];
      var i' := i - |e|;
      assert later[i'] == batch[i] && later[..i'] == batch[..i][|e|..] && later[i'..] == batch[i..];
      left := LeadsInto(src, Step(src, p).0, n - 1, end, t, kept, k - 1, i');
    }
  }

  /** A batch before `t`. */
  lemma {:induction false} LeadsBeyond<D(!new)>(src: Source<D>, p: Place<D>, n: nat, end: Place<D>, t: int,
                                                kept: seq<Event>, k: nat)
    returns (left: nat)
    requires Leads(src, p, n, end, t, kept) && !Halted(Run(src, p, k).0) && AllBefore(t, Run(src, p, k).1)
    ensures left + k == n && Leads(src, Run(src, p, k).0, left, end, t, kept)
    decreases k
  {
    if k == 0 {
      left := n;
    } else {
      var (q, e) := Step(src, p);
      var rest := Run(src, q, k - 1).1;
      assert Run(src, p, k).1 == e + rest;
      AllBeforeSplit(t, e, rest);
      if Halted(p) { HaltedStays(src, p, k); }
      if NoEvents(src, p) { HaltedStays<D>(src, Ended, k - 1); }
      left := LeadsBeyond(src, q, n - 1, end, t, kept, k - 1);
    }
  }

  /** A run without events that ends at an empty packet has not moved. */
  lemma EmptyFromStart<D>(src: Source<D>, p: Place<D>, n: nat)
    requires p.InPacket? && (p.got > 0 ==> More(src, p.pkt, p.cur.pos))
    requires Run(src, p, n).1 == [] && NoEvents(src, Run(src, p, n).0)
    ensures NoEvents(src, p) && Run(src, p, n).0 == p
  {
    if n > 0 {
      assert Run(src, p, n).1 == Step(src, p).1 + Run(src, Step(src, p).0, n - 1).1;
      assert |Step(src, p).1| == 0;
      assert Halted(Step(src, p).0);
      HaltedStays(src, Step(src, p).0, n - 1);
    }
  }

  /** `sataddu64` and the seek to a whole byte that follows it. */
  function SeekTarget<D>(src: Source<D>, pkt: Packet): nat {
    var r := (pkt.off + pkt.totLen) % TWO64;
    var off := if r < pkt.totLen then UNKNOWN else r;
    Min(8 * (off / 8), src.end)
  }

  /**
    Both ways past a packet lead to the same place exactly if it ends on a whole byte or with the data, and behind its
    events.
   */
  lemma TargetIsEnd<D(!new)>(src: Source<D>, pkt: Packet, pos: nat)
    requires WellFormed(src) && PacketOk(src, pkt) && pkt.off <= pos <= src.end && !More(src, pkt, pos)
    ensures AfterPacket(src, pkt, pos) == SeekTarget(src, pkt) <==> Fits(src, pkt, pos)
  {
    PacketLeft(src, pkt, pos);
    SeekTargetIs(src, pkt);
  }

  lemma SeekTargetIs<D(!new)>(src: Source<D>, pkt: Packet)
    requires WellFormed(src) && pkt.off < src.end
    ensures var end := pkt.off + pkt.totLen;
      SeekTarget(src, pkt) == if end >= src.end then src.end else 8 * (end / 8)
  {
    var end := pkt.off + pkt.totLen;
    assert end % TWO64 == if end < TWO64 then end else end - TWO64;
  }

  /** The bits of content are used up wherever a packet has left the reader before the end of the data. */
  lemma NothingRemains<D(!new)>(src: Source<D>, pkt: Packet, pos: nat)
    requires WellFormed(src) && PacketOk(src, pkt) && pkt.off <= pos <= src.end
    requires !More(src, pkt, pos) && Fits(src, pkt, pos)
    ensures AfterPacket(src, pkt, pos) <= src.end
    ensures AfterPacket(src, pkt, pos) < src.end ==> PktBitsRemaining(pkt, AfterPacket(src, pkt, pos)) == 0
  {
    PacketLeft(src, pkt, pos);
  }

  /** Skipping a packet unread that ends before `t` loses only events before `t`. */
  lemma {:induction false} SkipIsExact<D(!new)>(src: Source<D>, p: Place<D>, n: nat, t: int) returns (k: nat)
    requires WellFormed(src) && Clear(src, p, n, t) && p.InPacket? && Possible(src, p)
    requires var told := src.hdr(p.pkt.off).value.endNs; told.Some? && told.value < t
    ensures var q := AtPacket(SeekTarget(src, p.pkt));
      k < n && Clear(src, q, k, t) && Sought(src, p, n, t) == Sought(src, q, k, t)
    decreases n
  {
    if More(src, p.pkt, p.cur.pos) {
      StepPossible(src, p);
      k := SkipIsExact(src, Step(src, p).0, n - 1, t);
    } else {
      TargetIsEnd(src, p.pkt, p.cur.pos);
      k := n - 1;
    }
  }

  /** A run continued for `k` steps, and one step less. */
  lemma Follows<D>(src: Source<D>, p: Place<D>, n: nat, q: Place<D>, k: nat)
    requires Run(src, p, n) == (q, [])
    ensures Run(src, p, n + k).0 == Run(src, q, k).0 && Run(src, p, n + k).1 == Run(src, q, k).1
    ensures k > 0 ==> Run(src, p, n + k - 1).0 == Run(src, q, k - 1).0
  {
    RunAdds(src, p, n, k);
    assert Run(src, p, n + k).1 == [] + Run(src, q, k).1;
    if k > 0 { RunAdds(src, p, n, k - 1); }
  }

  class Decoder<D(0, !new)> {
    const src: Source<D>
    const evsCap: nat
    // The three state flags, and what goes with them.
    var resumePkt: bool
    var resumeSeek: bool
    var error: bool
    var errRc: Code
    var evs: seq<Event>
    var seekEvsOff: nat
    var seekEvsLen: nat
    // The reader and the packet state.
    var cur: Cursor<D>
    var pkt: Packet
    ghost var got: nat

    ghost predicate Valid()
      reads this
    {
      && evsCap > 0
      && WellFormed(src)
      && Possible(src, Here())
      && (resumePkt && got > 0 ==> More(src, pkt, cur.pos))
      && (resumeSeek ==> seekEvsLen > 0 && seekEvsOff + seekEvsLen == |evs|)
    }

    /** Where in the decoding without batches this decoder is. */
    ghost function Here(): Place<D>
      reads this
    {
      if error then Failed(errRc) else if resumePkt then InPacket(pkt, cur, got) else AtPacket(cur.pos)
    }

    /** The events found by a seek and not yet handed out. */
    ghost function Pending(): seq<Event>
      requires Valid()
      reads this
    {
      if resumeSeek then evs[seekEvsOff..] else []
    }

    /** `actf_decoder_init`. */
    constructor (src: Source<D>, cap: nat)
      requires WellFormed(src)
      ensures Valid() && this.src == src && Here() == AtPacket(0) && Pending() == []
      ensures evsCap == if cap == 0 then ACTF_DEFAULT_EVS_CAP else cap
    {
      this.src := src;
      evsCap := if cap == 0 then ACTF_DEFAULT_EVS_CAP else cap;
      resumePkt, resumeSeek, error := false, false, false;
      errRc := ACTF_ERROR;
      evs := [];
      seekEvsOff, seekEvsLen := 0, 0;
      var rest: D := *;
      cur := Cursor(0, rest);
      pkt := Packet(0, UNKNOWN, UNKNOWN, None);
    }

    /**
      `actf_decoder_pkt_hdrctx_decode`: one step of the decoding; the lengths a packet gets stand in for those not
      told.
     */
    method DecodeHdr() returns (rc: int)
      requires WellFormed(src) && cur.pos < src.end
      modifies this`cur, this`pkt, this`got
      ensures rc <= 0 && got == 0 && cur.pos <= src.end
      ensures Step(src, AtPacket(old(cur.pos))) == (if rc < 0 then Failed(rc) else InPacket(pkt, cur, 0), [])
      ensures rc == 0 ==>
        && pkt.off == old(cur.pos) <= cur.pos && PacketOk(src, pkt)
        && cur == src.hdr(pkt.off).value.cur && pkt.endNs == src.hdr(pkt.off).value.endNs
      ensures rc < 0 ==> cur == old(cur)
      ensures rc < 0 && src.hdr(cur.pos).Ok? ==>
        rc == ACTF_INVALID_CONTENT_LEN && src.hdr(cur.pos).value.totLen < src.hdr(cur.pos).value.contentLen != UNKNOWN
    {
      HdrLengths(src, cur.pos);
      match PktHdr(src, cur.pos) {
        case Err(code) => rc, got := code, 0;
        case Ok((p, c)) =>
          rc := 0;
          pkt, cur, got := p, c, 0;
      }
    }

    /** The first part of `actf_decoder_pkt_decode`: goes on with a packet or starts the next. */
    method EnterPacket() returns (rc: int, ghost n: nat)
      requires Valid() && !error && cur.pos < src.end
      modifies this`resumePkt, this`cur, this`pkt, this`got
      ensures !resumePkt && rc <= 0 && (got > 0 ==> More(src, pkt, cur.pos)) && cur.pos <= src.end
      ensures rc == 0 ==> PacketOk(src, pkt) && pkt.off <= cur.pos
      ensures old(resumePkt) ==> rc == 0 && pkt == old(pkt)
      ensures rc < 0 ==> n == 1 && Run(src, old(Here()), n) == (Failed(rc), []) && !resumePkt
      ensures rc == 0 ==> Run(src, old(Here()), n) == (InPacket(pkt, cur, got), [])
    {
      ghost var from := Here();
      n := 0;
      rc := 0;
      if resumePkt {
        resumePkt := false;
      } else {
        rc := DecodeHdr();
        n := 1;
        RunOneMore(src, from, 0);
        assert Run(src, from, 1).1 == [] + [];
      }
    }

    /** The loop of `actf_decoder_pkt_decode`: `full` if it ended because the buffer is full. */
    method DecodeEvents() returns (rc: int, full: bool, out: seq<Event>, ghost n: nat)
      requires evsCap > 0 && WellFormed(src) && cur.pos <= src.end
      modifies this`cur, this`got
      ensures old(cur.pos) <= cur.pos <= src.end
      ensures rc <= 0 && |out| <= evsCap && |out| <= got
      ensures Run(src, old(InPacket(pkt, cur, got)), n).1 == out
      ensures rc == 0 ==> Run(src, old(InPacket(pkt, cur, got)), n).0 == InPacket(pkt, cur, got)
      ensures rc < 0 ==> n > 0 && Run(src, old(InPacket(pkt, cur, got)), n).0 == Failed(rc)
      ensures rc < 0 ==> !full && EventFails(src, Run(src, old(InPacket(pkt, cur, got)), n - 1).0)
      ensures rc == 0 ==> (More(src, pkt, cur.pos) <==> full) && (full ==> |out| == evsCap)
      ensures out == [] ==> got == old(got) && cur == old(cur)
    {
      ghost var from := InPacket(pkt, cur, got);
      out, n := [], 0;
      while More(src, pkt, cur.pos)
        invariant Run(src, from, n) == (InPacket(pkt, cur, got), out)
        invariant |out| <= evsCap && |out| <= got && old(cur.pos) <= cur.pos <= src.end
        invariant out == [] ==> got == old(got) && cur == old(cur)
        decreases evsCap - |out|
      {
        if |out| >= evsCap {
          return 0, true, out, n;
        }
        RunOneMore(src, from, n);
        n := n + 1;
        match src.ev(pkt, cur) {
          case Err(code) =>
            return code, false, out, n;
          case Ok((next, e)) =>
            cur, got := next, got + 1;
            out := out + [e];
        }
      }
      return 0, false, out, n;
    }

    /** `actf_decoder_pkt_decode`: the rest of a packet, but no more events than the buffer takes. */
    method DecodePkt() returns (rc: int, out: seq<Event>, ghost n: nat)
      requires Valid() && !error && cur.pos < src.end
      modifies this`resumePkt, this`cur, this`pkt, this`got
      ensures Valid() && rc <= 0 && |out| <= evsCap && n > 0
      ensures Run(src, old(Here()), n).1 == out
      ensures rc < 0 ==> Run(src, old(Here()), n).0 == Failed(rc)
      ensures rc == 0 && out != [] ==> Run(src, old(Here()), n).0 == Here()
      ensures rc == 0 && out == [] ==> NoEvents(src, Run(src, old(Here()), n - 1).0)
      ensures rc < 0 && old(resumePkt) ==> EventFails(src, Run(src, old(Here()), n - 1).0)
      ensures old(resumePkt) ==> pkt == old(pkt)
      ensures resumePkt ==> rc == 0 && |out| == evsCap && More(src, pkt, cur.pos)
      ensures rc == 0 && !resumePkt ==> PacketEnds(src, Run(src, old(Here()), n - 1).0, pkt, cur.pos)
    {
      ghost var from := Here();
      rc, n := EnterPacket();
      if rc < 0 {
        return rc, [], n;
      }
      ghost var inside, k := InPacket(pkt, cur, got), 0;
      rc, out, k := FinishPkt();
      Follows(src, from, n, inside, k);
      n := n + k;
    }

    /** The second part of `actf_decoder_pkt_decode`: the events, and the skip to the end of the packet behind them. */
    method FinishPkt() returns (rc: int, out: seq<Event>, ghost n: nat)
      requires evsCap > 0 && WellFormed(src) && PacketOk(src, pkt) && pkt.off <= cur.pos <= src.end
      requires got > 0 ==> More(src, pkt, cur.pos)
      modifies this`resumePkt, this`cur, this`got
      ensures rc <= 0 && |out| <= evsCap && n > 0 && Run(src, old(InPacket(pkt, cur, got)), n).1 == out
      ensures Possible(src, if resumePkt then InPacket(pkt, cur, got) else AtPacket(cur.pos))
      ensures rc < 0 ==> !resumePkt && Run(src, old(InPacket(pkt, cur, got)), n).0 == Failed(rc)
      ensures rc < 0 ==> EventFails(src, Run(src, old(InPacket(pkt, cur, got)), n - 1).0)
      ensures resumePkt ==> |out| == evsCap && More(src, pkt, cur.pos)
      ensures rc == 0 && out != [] ==>
        Run(src, old(InPacket(pkt, cur, got)), n).0 == if resumePkt then InPacket(pkt, cur, got) else AtPacket(cur.pos)
      ensures rc == 0 && !resumePkt ==> PacketEnds(src, Run(src, old(InPacket(pkt, cur, got)), n - 1).0, pkt, cur.pos)
      ensures rc == 0 && out == [] ==> NoEvents(src, Run(src, old(InPacket(pkt, cur, got)), n - 1).0)
    {
      ghost var inside := InPacket(pkt, cur, got);
      rc, resumePkt, out, n := DecodeEvents();
      if rc < 0 || resumePkt {
        return;
      }
      EndPacket(inside, n, out);
      n := n + 1;
    }

    /** The step from the end of a packet. */
    method EndPacket(ghost from: Place<D>, ghost n: nat, ghost out: seq<Event>)
      requires WellFormed(src) && PacketOk(src, pkt) && pkt.off <= cur.pos <= src.end && !More(src, pkt, cur.pos)
      requires Run(src, from, n) == (InPacket(pkt, cur, got), out)
      modifies this`cur
      ensures Run(src, from, n + 1) == (if got == 0 then Ended else AtPacket(cur.pos), out)
      ensures cur.pos <= src.end && PacketEnds(src, Run(src, from, n).0, pkt, cur.pos)
      ensures got == 0 ==> NoEvents(src, Run(src, from, n).0)
    {
      RunOneMore(src, from, n);
      assert out + [] == out;
      LeavePacket();
    }

    /** The last part of `actf_decoder_pkt_decode`: to the end of a packet that tells its length. */
    method LeavePacket()
      requires WellFormed(src) && PacketOk(src, pkt) && pkt.off <= cur.pos <= src.end
      modifies this`cur
      ensures cur == old(cur).(pos := AfterPacket(src, pkt, old(cur.pos)))
      ensures pkt.totLen != UNKNOWN && old(cur.pos) <= pkt.off + pkt.totLen ==>
        cur.pos == Min(pkt.off + pkt.totLen, src.end)
      ensures pkt.totLen != UNKNOWN && old(cur.pos) > pkt.off + pkt.totLen ==> cur.pos == src.end
      ensures pkt.totLen == UNKNOWN ==> cur.pos == old(cur.pos)
    {
      PacketLeft(src, pkt, cur.pos);
      if pkt.totLen != UNKNOWN && pkt.contentLen != UNKNOWN {
        var skipCnt := (pkt.off + pkt.totLen - cur.pos) % TWO64;
        cur := cur.(pos := Min(cur.pos + skipCnt, src.end));
      }
    }

    /**
      `actf_decoder_decode`. Events and an error are never returned together; a batch holds what the
      decoding without batches yields next, and an error or the end are reported when it reaches them.
     */
    method Decode() returns (rc: int, out: seq<Event>, ghost n: nat)
      requires Valid()
      modifies this`resumePkt, this`resumeSeek, this`error, this`errRc, this`evs, this`cur, this`pkt, this`got
      ensures Valid() && rc <= 0 && !resumeSeek
      ensures rc < 0 ==> out == []
      ensures old(resumeSeek) ==> rc == 0 && out == old(Pending()) != [] && Here() == old(Here()) && n == 0
      ensures !old(resumeSeek || error) ==> Decoded(old(Here()), old(resumePkt), rc, out, n)
      ensures !old(resumeSeek) && old(error) ==> rc == errRc == old(errRc) && Here() == old(Here()) && n == 0
      ensures !old(resumeSeek) && out != [] ==> evs == out
    {
      n := 0;
      if resumeSeek {
        resumeSeek := false;
        return 0, evs[seekEvsOff..seekEvsOff + seekEvsLen], n;
      }
      if error {
        return errRc, [], n;
      }
      rc, out, n := DecodeNext();
    }

    /** What a call that decodes makes of the place `from`; `inPkt` tells whether a packet was to be resumed. */
    ghost predicate Decoded(from: Place<D>, inPkt: bool, rc: int, out: seq<Event>, n: nat)
      reads this
    {
      var (to, yielded) := Run(src, from, n);
      && |out| <= evsCap && yielded == out && n > 0 && (out != [] ==> rc == 0)
      && (AtEnd(src, from) ==> rc == 0 && out == [])
      && var before := Run(src, from, n - 1).0;
      if rc < 0 then to == Here() == Failed(rc) && (inPkt ==> EventFails(src, before))
      else if out != [] then
        && to == Here()
        && if error then inPkt ==> EventFails(src, before)
           else if resumePkt then
             |out| == evsCap && More(src, pkt, cur.pos) && (from.InPacket? ==> from.pkt == pkt)
           else PacketEnds(src, before, pkt, cur.pos)
      else
        && to == Ended && !error
        && if AtEnd(src, from) then Here() == from
           else NoEvents(src, before) && !resumePkt && PacketEnds(src, before, pkt, cur.pos)
    }

    /** The case of `actf_decoder_decode` in which there is something to decode. */
    method DecodeNext() returns (rc: int, out: seq<Event>, ghost n: nat)
      requires Valid() && !resumeSeek && !error
      modifies this`resumePkt, this`error, this`errRc, this`evs, this`cur, this`pkt, this`got
      ensures Valid() && rc <= 0 && Decoded(old(Here()), old(resumePkt), rc, out, n) && (out != [] ==> evs == out)
    {
      ghost var from := Here();
      rc, out, n := 0, [], 0;
      if cur.pos < src.end {
        rc, out, n := DecodePkt();
        evs := out;
        if rc == 0 && out == [] {
          RunOneMore(src, from, n - 1);
        }
        if rc < 0 {
          error := true;
          errRc := rc;
          if out == [] {
            return;
          }
        }
        rc := 0;
      } else {
        RunOneMore(src, from, 0);
        assert Run(src, from, 1).1 == [] + [];
        n := 1;
      }
    }

    /**
      `actf_decoder_seek_ns_from_origin`. If what comes before the first event at `t` or later meets what seeking relies
      on, then what is pending and what decoding will yield are the events that come from that one on, and decoding ends
      behind them as it would have without the seek. What comes behind that event may fail.
     */
    method Seek(t: int, ghost steps: nat) returns (rc: int, ghost left: nat)
      requires WellFormed(src) && evsCap > 0
      requires Clear(src, AtPacket(0), steps, t) && Halted(Sought(src, AtPacket(0), steps, t).0)
      modifies this
      ensures Valid() && rc <= 0
      ensures rc < 0 ==> Here() == Failed(rc) && Pending() == []
      ensures var (end, found) := Sought(src, AtPacket(0), steps, t);
        Delivers(src, Pending(), Here(), left, end, found)
    {
      resumePkt, resumeSeek, error := false, false, false;
      cur := cur.(pos := 0);
      rc, left := 0, steps;
      ghost var (end, kept) := Sought(src, AtPacket(0), steps, t);
      while cur.pos < src.end
        invariant Valid() && !resumeSeek && !error && rc == 0 && (!resumePkt || AtEnd(src, Here()))
        invariant Leads(src, Here(), left, end, t, kept)
        decreases left
      {
        var found;
        rc, found, left := SeekPacket(t, left, end, kept);
        if rc < 0 || found {
          return;
        }
      }
      LeadsToEnd(src, Here(), left, end, t, kept);
    }

    /** The header of a packet in a seek, and the error if it fails. */
    method StartPacket(t: int, ghost left: nat, ghost end: Place<D>, ghost kept: seq<Event>) returns (rc: int)
      requires Valid() && !resumePkt && !resumeSeek && !error && cur.pos < src.end
      requires Leads(src, Step(src, Here()).0, left, end, t, kept)
      modifies this`cur, this`pkt, this`got, this`error, this`errRc
      ensures Valid() && rc <= 0 && got == 0
      ensures rc < 0 ==> Here() == Failed(rc) && Delivers(src, [], Here(), left, end, kept)
      ensures rc == 0 ==>
        !error && Possible(src, InPacket(pkt, cur, 0)) && Leads(src, InPacket(pkt, cur, 0), left, end, t, kept)
    {
      rc := DecodeHdr();
      if rc < 0 {
        error := true;
        errRc := rc;
        LeadsToEnd(src, Here(), left, end, t, kept);
      }
    }

    /** One packet of the seek: skipped, or searched. */
    method SeekPacket(t: int, ghost steps: nat, ghost end: Place<D>, ghost kept: seq<Event>)
      returns (rc: int, found: bool, ghost left: nat)
      requires Valid() && !resumePkt && !resumeSeek && !error && cur.pos < src.end
      requires Leads(src, Here(), steps, end, t, kept)
      modifies this
      ensures Valid() && rc <= 0 && (rc < 0 ==> Here() == Failed(rc) && Pending() == [])
      ensures rc < 0 || found ==> Delivers(src, Pending(), Here(), left, end, kept)
      ensures rc == 0 && !found ==>
        && left < steps && !resumeSeek && !error && Leads(src, Here(), left, end, t, kept)
        && (!resumePkt || AtEnd(src, Here()))
    {
      LeadsOn(src, Here(), steps, end, t, kept);
      left := steps - 1;
      found := false;
      rc := StartPacket(t, left, end, kept);
      if rc < 0 {
        return;
      }
      if pkt.endNs.Some? && pkt.endNs.value < t {
        left := SkipIsExact(src, InPacket(pkt, cur, 0), left, t);
        SeekPast();
        return;
      }
      resumePkt := true;
      found, left := Scan(t, left, end, kept);
    }

    /** The jump over a packet. */
    method SeekPast()
      requires WellFormed(src) && pkt.off < src.end
      modifies this`cur
      ensures cur == old(cur).(pos := SeekTarget(src, pkt)) && cur.pos <= src.end
    {
      var off := (pkt.off + pkt.totLen) % TWO64;
      off := if off < pkt.totLen then UNKNOWN else off;
      cur := cur.(pos := Min(8 * (off / 8), src.end));
    }

    /** The loop over a batch. */
    method FirstAt(t: int, batch: seq<Event>) returns (i: nat)
      ensures i <= |batch| && AllBefore(t, batch[..i]) && (i < |batch| ==> batch[i].tstamp >= t)
    {
      i := 0;
      while i < |batch|
        invariant i <= |batch| && AllBefore(t, batch[..i])
      {
        if batch[i].tstamp >= t {
          return;
        }
        i := i + 1;
      }
    }

    /** The inner loops of the seek: decodes on through the packet until an event at `t` or later turns up. */
    method Scan(t: int, ghost steps: nat, ghost end: Place<D>, ghost kept: seq<Event>)
      returns (found: bool, ghost left: nat)
      requires Valid() && resumePkt && !resumeSeek && !error
      requires Leads(src, Here(), steps, end, t, kept)
      modifies this`resumePkt, this`resumeSeek, this`error, this`errRc, this`evs, this`cur, this`pkt, this`got
      modifies this`seekEvsOff, this`seekEvsLen
      ensures Valid() && left <= steps
      ensures found ==> Pending() != [] && Delivers(src, Pending(), Here(), left, end, kept)
      ensures !found ==> !resumeSeek && !error && Leads(src, Here(), left, end, t, kept)
      ensures !found ==> !resumePkt || AtEnd(src, Here())
    {
      left := steps;
      while true
        invariant Valid() && !resumeSeek && !error && left <= steps
        invariant Leads(src, Here(), left, end, t, kept)
        invariant resumePkt || cur.pos >= src.end
        decreases left
      {
        var done;
        found, done, left := ScanBatch(t, left, end, kept);
        if done {
          return;
        }
      }
    }

    /** One round: a batch, and the loop over it. */
    method ScanBatch(t: int, ghost steps: nat, ghost end: Place<D>, ghost kept: seq<Event>)
      returns (found: bool, done: bool, ghost left: nat)
      requires Valid() && !resumeSeek && !error && (resumePkt || cur.pos >= src.end)
      requires Leads(src, Here(), steps, end, t, kept)
      modifies this`resumePkt, this`resumeSeek, this`error, this`errRc, this`evs, this`cur, this`pkt, this`got
      modifies this`seekEvsOff, this`seekEvsLen
      ensures Valid() && left <= steps && (found ==> done)
      ensures found ==> Pending() != [] && Delivers(src, Pending(), Here(), left, end, kept)
      ensures !found ==> !resumeSeek && !error && Leads(src, Here(), left, end, t, kept)
      ensures !found ==>
        if done then !resumePkt || AtEnd(src, Here()) else left < steps && (resumePkt || cur.pos >= src.end)
    {
      ghost var here, inPkt := Here(), resumePkt;
      var rc, batch;
      ghost var n;
      rc, batch, n := Decode();
      if rc < 0 || batch == [] {
        left := NothingScanned(here, inPkt, rc, n, t, steps, end, kept);
        return false, true, left;
      }
      var i := FirstAt(t, batch);
      if i < |batch| {
        left := LeadsInto(src, here, steps, end, t, kept, n, i);
        resumeSeek := true;
        seekEvsOff := i;
        seekEvsLen := |batch| - i;
        return true, true, left;
      }
      left := BatchScanned(here, inPkt, batch, n, t, steps, end, kept);
      done := PktBitsRemaining(pkt, cur.pos) == 0;
      return false, done, left;
    }

    /** Where a scan stands: in a packet, or at the end of the data. */
    ghost predicate Scanning(here: Place<D>, inPkt: bool) {
      && Possible(src, here)
      && if inPkt then here.InPacket? && (here.got > 0 ==> More(src, here.pkt, here.cur.pos)) else AtEnd(src, here)
    }

    /** A scan that has been given nothing has come to the end of a packet without events or of the data. */
    lemma NothingScanned(here: Place<D>, inPkt: bool, rc: int, n: nat, t: int, steps: nat, end: Place<D>,
                         kept: seq<Event>)
      returns (left: nat)
      requires Valid() && Scanning(here, inPkt) && Decoded(here, inPkt, rc, [], n)
        && Leads(src, here, steps, end, t, kept)
      ensures rc >= 0 && left <= steps && !error && Leads(src, Here(), left, end, t, kept)
      ensures !resumePkt || AtEnd(src, Here())
    {
      BeforeLast(src, here, steps, t, n);
      left := steps;
      if rc >= 0 && !AtEnd(src, here) {
        EmptyFromStart(src, here, n - 1);
        LeadsOn(src, here, steps, end, t, kept);
        left := steps - 1;
      }
    }

    /** A scan that has been given only events before `t`. */
    lemma BatchScanned(here: Place<D>, inPkt: bool, batch: seq<Event>, n: nat, t: int, steps: nat, end: Place<D>,
                       kept: seq<Event>)
      returns (left: nat)
      requires Valid() && Scanning(here, inPkt) && batch != [] && AllBefore(t, batch)
      requires Decoded(here, inPkt, 0, batch, n) && Leads(src, here, steps, end, t, kept)
      ensures left < steps && !error && Leads(src, Here(), left, end, t, kept)
      ensures !resumePkt ==> cur.pos >= src.end || PktBitsRemaining(pkt, cur.pos) == 0
      ensures resumePkt ==> PktBitsRemaining(pkt, cur.pos) > 0
    {
      BeforeLast(src, here, steps, t, n);
      if !error && !resumePkt { NothingRemains(src, pkt, Run(src, here, n - 1).0.cur.pos); }
      left := LeadsBeyond(src, here, steps, end, t, kept, n);
    }
  }

  /**
    The loop of a consumer, up to the first empty batch or error. Whatever the capacity, it is given exactly
    what the decoding without batches yields, and is told of an error exactly if that fails.
   */
  method Collect<D(0, !new)>(dec: Decoder<D>, ghost steps: nat) returns (rc: int, out: seq<Event>)
    requires dec.Valid() && Halted(Run(dec.src, dec.Here(), steps).0)
    modifies dec
    ensures rc <= 0 && out == old(dec.Pending() + Run(dec.src, dec.Here(), steps).1)
    ensures old(Run(dec.src, dec.Here(), steps).0) == if rc == 0 then Ended else Failed(rc)
  {
    out := [];
    ghost var left := steps;
    ghost var last, all := Run(dec.src, dec.Here(), steps).0, dec.Pending() + Run(dec.src, dec.Here(), steps).1;
    ghost var rest := all;
    while true
      invariant Owes(dec, left, last, rest) && all == out + rest
      decreases left, dec.resumeSeek
    {
      var evs;
      ghost var owed := rest;
      rc, evs, left, rest := CollectOne(dec, left, last, owed);
      assert out + owed == (out + evs) + rest;
      if rc < 0 || evs == [] {
        return;
      }
      out := out + evs;
    }
  }

  /** A consumer has yet to be given `rest`, and then decoding is at `last`. */
  ghost predicate Owes<D(0, !new)>(dec: Decoder<D>, steps: nat, last: Place<D>, rest: seq<Event>)
    reads dec
  {
    && dec.Valid() && Halted(last)
    && Run(dec.src, dec.Here(), steps).0 == last
    && dec.Pending() + Run(dec.src, dec.Here(), steps).1 == rest
  }

  /** One call made by a consumer. */
  method CollectOne<D(0, !new)>(dec: Decoder<D>, ghost steps: nat, ghost last: Place<D>, ghost owed: seq<Event>)
    returns (rc: int, evs: seq<Event>, ghost left: nat, ghost rest: seq<Event>)
    requires Owes(dec, steps, last, owed)
    modifies dec
    ensures rc <= 0 && owed == evs + rest
    ensures evs == [] ==> rest == [] && last == if rc == 0 then Ended else Failed(rc)
    ensures evs != [] ==> rc == 0 && Owes(dec, left, last, rest)
    ensures evs != [] ==> left < steps || (left == steps && old(dec.resumeSeek) && !dec.resumeSeek)
  {
    ghost var here, seeked, n := dec.Here(), dec.resumeSeek, 0;
    left := steps;
    rc, evs, n := dec.Decode();
    if !seeked {
      RunRest(dec.src, here, n, steps);
      left := if n <= steps then steps - n else 0;
    }
    rest := if evs == [] then [] else Run(dec.src, dec.Here(), left).1;
  }

  /** What is left of a halting run after `n` steps of it. */
  lemma RunRest<D>(src: Source<D>, p: Place<D>, n: nat, steps: nat)
    requires Halted(Run(src, p, steps).0)
    ensures n <= steps ==> Run(src, p, steps).0 == Run(src, Run(src, p, n).0, steps - n).0
    ensures n <= steps ==> Run(src, p, steps).1 == Run(src, p, n).1 + Run(src, Run(src, p, n).0, steps - n).1
    ensures n >= steps || Halted(Run(src, p, n).0) ==> Run(src, p, n).0 == Run(src, p, steps).0
    ensures n >= steps || Halted(Run(src, p, n).0) ==> Run(src, p, n).1 == Run(src, p, steps).1
  {
    if n <= steps {
      RunAdds(src, p, n, steps - n);
    }
    if n >= steps {
      HaltsOnce(src, p, steps, n);
    } else if Halted(Run(src, p, n).0) {
      HaltsOnce(src, p, n, steps);
    }
  }

  /**
    Seeking and then decoding to the end: the consumer is given what the seek finds, whatever the capacity and whichever
    packets were skipped unread. Unless a packet without events comes first, that is the stream's events from the first
    one at `t` or later.
   */
  method CollectFrom<D(0, !new)>(dec: Decoder<D>, t: int, ghost steps: nat) returns (rc: int, out: seq<Event>)
    requires WellFormed(dec.src) && dec.evsCap > 0
    requires Clear(dec.src, AtPacket(0), steps, t) && Halted(Sought(dec.src, AtPacket(0), steps, t).0)
    modifies dec
    ensures rc <= 0
    ensures Sought(dec.src, AtPacket(0), steps, t) == (if rc == 0 then Ended else Failed(rc), out)
    ensures Halted(Run(dec.src, AtPacket(0), steps).0) && NoneEmpty(dec.src, AtPacket(0), steps, t) ==>
      && Run(dec.src, AtPacket(0), steps).0 == (if rc == 0 then Ended else Failed(rc))
      && out == DropBefore(t, Run(dec.src, AtPacket(0), steps).1)
  {
    ghost var left;
    rc, left := dec.Seek(t, steps);
    rc, out := Collect(dec, left);
    if Halted(Run(dec.src, AtPacket(0), steps).0) { SoughtIsRest(dec.src, AtPacket(0), steps, t); }
  }
}
