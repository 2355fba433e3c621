/** What the steps of Pipeline come to: the packets of a data stream one behind another, and the events in each. */
module PktReading {
  import opened Arith
  import opened Wrappers
  import opened Events
  import opened Pipeline

  /** A packet, the events read of it, and the cursors before the first of them, between them, and behind the last. */
  datatype PacketRead<D> = PacketRead(pkt: Packet, curs: seq<Cursor<D>>, evs: seq<Event>) {
    ghost predicate Whole() { |curs| == |evs| + 1 }

    ghost function Last(): Cursor<D>
      requires Whole()
    {
      curs[|evs|]
    }
  }

  /** Event `k` of the packet is read where the one before it ends, which is in the content and in the data. */
  ghost predicate EventRead<D>(src: Source<D>, r: PacketRead<D>, k: nat)
    requires r.Whole() && k < |r.evs|
  {
    && r.curs[k].pos < src.end && r.curs[k].pos < r.pkt.off + r.pkt.contentLen
    && src.ev(r.pkt, r.curs[k]) == Ok((r.curs[k + 1], r.evs[k]))
  }

  /** The packet that starts at `pos` is what its header tells, and behind the header come the events of `r`. */
  ghost predicate IsRead<D>(src: Source<D>, pos: nat, r: PacketRead<D>) {
    && r.Whole() && r.pkt.off == pos && PacketOk(src, r.pkt) && r.curs[0] == src.hdr(pos).value.cur
    && forall k | 0 <= k < |r.evs| :: EventRead(src, r, k)
  }

  /** Nothing more is to be read of the packet. */
  ghost predicate IsOver<D>(src: Source<D>, r: PacketRead<D>)
    requires r.Whole()
  {
    r.Last().pos >= src.end || r.Last().pos >= r.pkt.off + r.pkt.contentLen
  }

  /** Where the next packet starts. */
  ghost function NextPacket<D>(src: Source<D>, r: PacketRead<D>): nat
    requires r.Whole()
  {
    var told := r.pkt.off + r.pkt.totLen;
    if r.pkt.totLen == UNKNOWN then r.Last().pos
    else if r.Last().pos <= told then Min(told, src.end)
    else src.end
  }

  /** From `from` to `upTo` there are the packets `rs`, each with at least one event. */
  ghost predicate Packets<D>(src: Source<D>, from: nat, rs: seq<PacketRead<D>>, upTo: nat)
    decreases |rs|
  {
    if rs == [] then from == upTo else
      && IsRead(src, from, rs[0]) && IsOver(src, rs[0]) && rs[0].evs != []
      && Packets(src, NextPacket(src, rs[0]), rs[1..], upTo)
  }

  ghost function AllEvents<D>(rs: seq<PacketRead<D>>): seq<Event> {
    if rs == [] then [] else rs[0].evs + AllEvents(rs[1..])
  }

  /** A header that fails, or tells more content than there is packet. */
  ghost predicate HeaderFails<D>(src: Source<D>, pos: nat, code: Code) {
    pos < src.end &&
    match src.hdr(pos)
    case Err(e) => code == e
    case Ok(h) => code == ACTF_INVALID_CONTENT_LEN && h.totLen < h.contentLen != UNKNOWN
  }

  /** The packet at `pos` comes to an end after the events `evs`. */
  ghost predicate OverAfter<D(!new)>(src: Source<D>, pos: nat, evs: seq<Event>) {
    exists r: PacketRead<D> :: IsRead(src, pos, r) && r.evs == evs && IsOver(src, r)
  }

  /** The packet at `pos` has the events `evs`, and then one that fails. */
  ghost predicate FailsAfter<D(!new)>(src: Source<D>, pos: nat, evs: seq<Event>, code: Code) {
    exists r: PacketRead<D> ::
      IsRead(src, pos, r) && r.evs == evs && !IsOver(src, r) && src.ev(r.pkt, r.Last()) == Err(code)
  }

  /**
    Reading that has got to a packet at `pos` ends there as `place` says, with the events `tail`: the data end, or the
    packet has no events, or it fails.
   */
  ghost predicate EndsAt<D(!new)>(src: Source<D>, pos: nat, tail: seq<Event>, place: Place<D>) {
    match place
    case Ended => tail == [] && (pos >= src.end || OverAfter(src, pos, []))
    case Failed(code) => (tail == [] && HeaderFails(src, pos, code)) || FailsAfter(src, pos, tail, code)
    case _ => false
  }

  lemma MoreIs<D>(src: Source<D>, pkt: Packet, pos: nat)
    ensures More(src, pkt, pos) <==> pos < src.end && pos < pkt.off + pkt.contentLen
  {
  }

  /**
    However long decoding takes, what it has yielded when it halts are the events of the packets that are in the data
    one behind another, and it halts where they end.
   */
  lemma {:induction false} RunReads<D(!new)>(src: Source<D>, pos: nat, n: nat)
    returns (rs: seq<PacketRead<D>>, at: nat, tail: seq<Event>)
    requires WellFormed(src) && pos <= src.end && Halted(Run(src, AtPacket(pos), n).0)
    ensures Packets(src, pos, rs, at) && EndsAt(src, at, tail, Run(src, AtPacket(pos), n).0)
    ensures Run(src, AtPacket(pos), n).1 == AllEvents(rs) + tail
    decreases n, 2
  {
    QuietStep(src, AtPacket(pos), n);
    if pos >= src.end {
      rs, at, tail := [], pos, [];
      HaltedStays<D>(src, Ended, n - 1);
    } else {
      HdrLengths(src, pos);
      match PktHdr(src, pos) {
        case Err(code) =>
          rs, at, tail := [], pos, [];
          HaltedStays<D>(src, Failed(code), n - 1);
        case Ok((pkt, cur)) =>
          var r := PacketRead(pkt, [cur], []);
          rs, at, tail := PacketReads(src, r, n - 1);
          assert [] + Run(src, In(r), n - 1).1 == Run(src, In(r), n - 1).1;
      }
    }
  }

  /** The place in the packet behind the events that have been read. */
  ghost function In<D>(r: PacketRead<D>): Place<D>
    requires r.Whole()
  {
    InPacket(r.pkt, r.Last(), |r.evs|)
  }

  /** The same in a packet of which some events have been read. */
  lemma {:induction false} PacketReads<D(!new)>(src: Source<D>, r: PacketRead<D>, n: nat)
    returns (rs: seq<PacketRead<D>>, at: nat, tail: seq<Event>)
    requires WellFormed(src) && IsRead(src, r.pkt.off, r) && r.pkt.off <= r.Last().pos <= src.end
    requires Halted(Run(src, In(r), n).0)
    ensures Packets(src, r.pkt.off, rs, at) && EndsAt(src, at, tail, Run(src, In(r), n).0)
    ensures r.evs + Run(src, In(r), n).1 == AllEvents(rs) + tail
    decreases n, 1
  {
    MoreIs(src, r.pkt, r.Last().pos);
    if IsOver(src, r) {
      rs, at, tail := OverReads(src, r, n);
    } else {
      match src.ev(r.pkt, r.Last()) {
        case Err(code) =>
          rs, at, tail := [], r.pkt.off, r.evs;
          FailedRun(src, r, code, n);
        case Ok((next, e)) =>
          var more := EventMore(src, r, next, e);
          EventRun(src, r, more, n);
          rs, at, tail := PacketReads(src, more, n - 1);
      }
    }
  }

  /** A packet that has come to its end. */
  lemma {:induction false} OverReads<D(!new)>(src: Source<D>, r: PacketRead<D>, n: nat)
    returns (rs: seq<PacketRead<D>>, at: nat, tail: seq<Event>)
    requires WellFormed(src) && IsRead(src, r.pkt.off, r) && r.pkt.off <= r.Last().pos <= src.end && IsOver(src, r)
    requires Halted(Run(src, In(r), n).0)
    ensures Packets(src, r.pkt.off, rs, at) && EndsAt(src, at, tail, Run(src, In(r), n).0)
    ensures r.evs + Run(src, In(r), n).1 == AllEvents(rs) + tail
    decreases n, 0
  {
    MoreIs(src, r.pkt, r.Last().pos);
    QuietStep(src, In(r), n);
    if r.evs == [] {
      rs, at, tail := [], r.pkt.off, [];
      assert OverAfter(src, r.pkt.off, []);
      HaltedStays<D>(src, Ended, n - 1);
    } else {
      PacketLeft(src, r.pkt, r.Last().pos);
      var later;
      later, at, tail := RunReads(src, NextPacket(src, r), n - 1);
      rs := [r] + later;
      PacketFirst(r, later, tail);
      assert rs[1..] == later;
    }
  }

  lemma PacketFirst<D>(r: PacketRead<D>, rs: seq<PacketRead<D>>, tail: seq<Event>)
    ensures AllEvents([r] + rs) + tail == r.evs + (AllEvents(rs) + tail)
  {
    assert ([r] + rs)[1..] == rs;
  }

  lemma FailedRun<D(!new)>(src: Source<D>, r: PacketRead<D>, code: Code, n: nat)
    requires IsRead(src, r.pkt.off, r) && !IsOver(src, r) && src.ev(r.pkt, r.Last()) == Err(code) && n > 0
    ensures Run(src, In(r), n).0 == Failed(code) && Run(src, In(r), n).1 == []
    ensures FailsAfter(src, r.pkt.off, r.evs, code)
  {
    MoreIs(src, r.pkt, r.Last().pos);
    QuietStep(src, In(r), n);
    HaltedStays<D>(src, Failed(code), n - 1);
  }

  /** A step that reads an event. */
  lemma EventRun<D>(src: Source<D>, r: PacketRead<D>, more: PacketRead<D>, n: nat)
    requires r.Whole() && more.Whole() && !IsOver(src, r) && n > 0 && |more.evs| == |r.evs| + 1
    requires more.pkt == r.pkt && src.ev(r.pkt, r.Last()) == Ok((more.Last(), more.evs[|r.evs|]))
    requires more.evs == r.evs + [more.evs[|r.evs|]]
    ensures Run(src, In(r), n).0 == Run(src, In(more), n - 1).0
    ensures r.evs + Run(src, In(r), n).1 == more.evs + Run(src, In(more), n - 1).1
  {
    MoreIs(src, r.pkt, r.Last().pos);
    var e, later := more.evs[|r.evs|], Run(src, In(more), n - 1).1;
    assert Step(src, In(r)) == (In(more), [e]);
    assert Run(src, In(r), n).1 == [e] + later;
    assert r.evs + ([e] + later) == (r.evs + [e]) + later;
  }

  lemma EventMore<D>(src: Source<D>, r: PacketRead<D>, next: Cursor<D>, e: Event) returns (more: PacketRead<D>)
    requires IsRead(src, r.pkt.off, r) && !IsOver(src, r) && src.ev(r.pkt, r.Last()) == Ok((next, e))
    ensures more == PacketRead(r.pkt, r.curs + [next], r.evs + [e])
    ensures IsRead(src, r.pkt.off, more) && more.Last() == next
  {
    more := PacketRead(r.pkt, r.curs + [next], r.evs + [e]);
    forall k | 0 <= k < |more.evs| ensures EventRead(src, more, k) {
      if k < |r.evs| { assert EventRead(src, r, k); }
    }
  }
}
