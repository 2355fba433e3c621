/** The recursive decoding of field classes, and the events of a packet, in decoder.c. */
module FldTree {
  import opened Arith
  import opened Wrappers
  import opened Bits
  import opened BitReader
  import opened Leb128
  import opened FldLocs
  import opened FldParse
  import opened FldPaths
  import opened FldValues
  import FldDecode

  /** All that locating a field depends on, and the position. */
  datatype Snap = Snap(arena: Arena, done: map<Ptr, nat>, pos: nat)

  /**
    What decoding the field `val` may change: that field but for what contains it, fields allocated
    meanwhile, and what is finished among them; the reader only moves on.
   */
  ghost predicate Decodes(s: Snap, t: Snap, val: Ptr) {
    && s.pos <= t.pos
    && |s.arena| <= |t.arena|
    && (forall i | 0 <= i < |s.arena| && i != val :: t.arena[i] == s.arena[i])
    && (val < |s.arena| ==> t.arena[val].parent == s.arena[val].parent)
    && (forall i | i in t.done :: i in s.done || i == val || i >= |s.arena|)
    && (forall i | i in s.done :: i in t.done && t.done[i] == s.done[i])
  }

  lemma DecodesOn(s: Snap, t: Snap, u: Snap, val: Ptr, part: Ptr)
    requires Decodes(s, t, val) && Decodes(t, u, part) && (part == val || |s.arena| <= part)
    ensures Decodes(s, u, val)
  {
  }

  lemma ChangedOk(a: Arena, i: Ptr, f: Fld)
    requires AllParts(a) && i < |a| && PartsOk(a[i := f], i)
    ensures AllParts(a[i := f])
  {
    var b := a[i := f];
    forall k | 0 <= k < |b| ensures PartsOk(b, k) {
      assert PartsOk(a, k);
    }
  }

  lemma GrownOk(a: Arena, more: seq<Fld>)
    requires AllParts(a) && a != [] && forall k | 0 <= k < |more| :: more[k] == Fresh(NONE)
    ensures AllParts(a + more)
  {
    var b := a + more;
    forall k | 0 <= k < |b| ensures PartsOk(b, k) {
      if k < |a| { assert PartsOk(a, k); }
    }
  }

  // What decoding leaves in the arena.

  /**
    The field `i` holds a complete value of class `c`, all parts of it at `lo` or later: every member of a structure,
    every element of an array, what an optional field contains unless it is left out, and one option of a variant.
   */
  ghost predicate Built(a: Arena, done: map<Ptr, nat>, c: Cls, i: Ptr, lo: Ptr)
    decreases c, 0
  {
    && i < |a| && i in done && a[i].cls.Some?
    && match c
       case Struct(_, members) =>
         && a[i].ty == StructT && a[i].members == Names(members) && lo <= a[i].first
         && forall k | 0 <= k < |members| :: PartBuilt(a, done, members[k].cls, a[i].first, k, |members|, i)
       case Arr(_, ele, _) =>
         && a[i].ty == ArrT && a[i].nVals == a[i].len && lo <= a[i].first
         && forall k | 0 <= k < a[i].len :: PartBuilt(a, done, ele, a[i].first, k, a[i].len, a[i].parent)
       case OptionalOf(_, _, cls) => (a[i].cls.value == c && a[i].ty == Nil) || Built(a, done, cls, i, lo)
       case Variant(_, opts) => exists k :: 0 <= k < |opts| && Built(a, done, opts[k].cls, i, lo)
       case _ => a[i].cls.value == c && a[i].ty == TypeOfCls(c)
  }

  /** Part `k` of the `n` from `first` on is complete, and `owner` is its containing structure. */
  ghost predicate PartBuilt(a: Arena, done: map<Ptr, nat>, c: Cls, first: Ptr, k: nat, n: nat, owner: Ptr)
    decreases c, 1
  {
    first + k < |a| && a[first + k].parent == owner && Built(a, done, c, first + k, first + n)
  }

  /** Nothing of what starts at `lo` changes. */
  ghost predicate Same(a: Arena, done: map<Ptr, nat>, b: Arena, done': map<Ptr, nat>, lo: Ptr) {
    |a| <= |b| && (forall k | lo <= k < |a| :: a[k] == b[k]) && forall k | k in done :: k in done'
  }

  /** A complete value stays one when nothing of it changes. */
  lemma {:induction false} BuiltStays(a: Arena, done: map<Ptr, nat>, b: Arena, done': map<Ptr, nat>, c: Cls, i: Ptr,
                                      lo: Ptr)
    requires Built(a, done, c, i, lo) && Same(a, done, b, done', lo) && a[i] == b[i]
    ensures Built(b, done', c, i, lo)
    decreases c, 0
  {
    match c {
      case Struct(_, members) =>
        forall k | 0 <= k < |members| ensures PartBuilt(b, done', members[k].cls, a[i].first, k, |members|, i) {
          assert PartBuilt(a, done, members[k].cls, a[i].first, k, |members|, i);
          PartStays(a, done, b, done', members[k].cls, a[i].first, k, |members|, i);
        }
      case Arr(_, ele, _) =>
        forall k | 0 <= k < a[i].len ensures PartBuilt(b, done', ele, a[i].first, k, a[i].len, a[i].parent) {
          assert PartBuilt(a, done, ele, a[i].first, k, a[i].len, a[i].parent);
          PartStays(a, done, b, done', ele, a[i].first, k, a[i].len, a[i].parent);
        }
      case OptionalOf(_, _, cls) =>
        if Built(a, done, cls, i, lo) { BuiltStays(a, done, b, done', cls, i, lo); }
      case Variant(_, opts) =>
        var k :| 0 <= k < |opts| && Built(a, done, opts[k].cls, i, lo);
        BuiltStays(a, done, b, done', opts[k].cls, i, lo);
      case _ =>
    }
  }

  lemma {:induction false} PartStays(a: Arena, done: map<Ptr, nat>, b: Arena, done': map<Ptr, nat>, c: Cls, first: Ptr,
                                     k: nat, n: nat, owner: Ptr)
    requires PartBuilt(a, done, c, first, k, n, owner) && Same(a, done, b, done', first + n)
      && a[first + k] == b[first + k]
    ensures PartBuilt(b, done', c, first, k, n, owner)
    decreases c, 1
  {
    BuiltStays(a, done, b, done', c, first + k, first + n);
  }

  /** The first `i` parts of `owner`, of the classes `cs`, are complete. */
  ghost predicate PartsBuilt(a: Arena, done: map<Ptr, nat>, cs: seq<Cls>, first: Ptr, i: nat, owner: Ptr)
    requires i <= |cs|
  {
    forall k | 0 <= k < i :: PartBuilt(a, done, cs[k], first, k, |cs|, owner)
  }

  /** They stay so when of the arena only `x` changes, which is none of them, and when it grows. */
  lemma PartsStay(a: Arena, done: map<Ptr, nat>, b: Arena, done': map<Ptr, nat>, cs: seq<Cls>, first: Ptr, i: nat,
                  owner: Ptr, x: Ptr)
    requires i <= |cs| && PartsBuilt(a, done, cs, first, i, owner) && |a| <= |b|
    requires forall k | first <= k < |a| && k != x :: a[k] == b[k]
    requires x < first || first + i <= x < first + |cs|
    requires forall k | k in done :: k in done'
    ensures PartsBuilt(b, done', cs, first, i, owner)
  {
    forall k | 0 <= k < i ensures PartBuilt(b, done', cs[k], first, k, |cs|, owner) {
      assert PartBuilt(a, done, cs[k], first, k, |cs|, owner);
      PartStays(a, done, b, done', cs[k], first, k, |cs|, owner);
    }
  }

  lemma StructBuilt(a: Arena, done: map<Ptr, nat>, c: Cls, i: Ptr, cs: seq<Cls>, first: Ptr, lo: Ptr)
    requires c.Struct? && |cs| == |c.members| && forall k | 0 <= k < |cs| :: cs[k] == c.members[k].cls
    requires i < |a| && i in done && a[i].cls.Some? && a[i].ty == StructT && a[i].members == Names(c.members)
    requires lo <= first == a[i].first && PartsBuilt(a, done, cs, first, |cs|, i)
    ensures Built(a, done, c, i, lo)
  {
    forall k | 0 <= k < |cs| ensures PartBuilt(a, done, c.members[k].cls, first, k, |cs|, i) {
      assert PartBuilt(a, done, cs[k], first, k, |cs|, i);
    }
  }

  lemma ArrBuilt(a: Arena, done: map<Ptr, nat>, c: Cls, i: Ptr, cs: seq<Cls>, first: Ptr, lo: Ptr)
    requires c.Arr? && forall k | 0 <= k < |cs| :: cs[k] == c.ele
    requires i < |a| && i in done && a[i].cls.Some? && a[i].ty == ArrT && a[i].nVals == a[i].len == |cs|
    requires lo <= first == a[i].first && PartsBuilt(a, done, cs, first, |cs|, a[i].parent)
    ensures Built(a, done, c, i, lo)
  {
    forall k | 0 <= k < |cs| ensures PartBuilt(a, done, c.ele, first, k, |cs|, a[i].parent) {
      assert PartBuilt(a, done, cs[k], first, k, |cs|, a[i].parent);
    }
  }

  /** Where its parts are at least. */
  lemma {:induction false} BuiltFrom(a: Arena, done: map<Ptr, nat>, c: Cls, i: Ptr, lo: Ptr, lo': Ptr)
    requires Built(a, done, c, i, lo) && lo' <= lo
    ensures Built(a, done, c, i, lo')
    decreases c
  {
    match c {
      case OptionalOf(_, _, cls) =>
        if Built(a, done, cls, i, lo) { BuiltFrom(a, done, cls, i, lo, lo'); }
      case Variant(_, opts) =>
        var k :| 0 <= k < |opts| && Built(a, done, opts[k].cls, i, lo);
        BuiltFrom(a, done, opts[k].cls, i, lo, lo');
      case _ =>
    }
  }

  /** `t` stands between two parts of `val`, of which those from `i` on are still to be decoded; `s` was before all. */
  ghost predicate Amid(s: Snap, t: Snap, val: Ptr, owner: Ptr, first: Ptr, i: nat, cs: seq<Cls>)
    requires i <= |cs|
  {
    && Decodes(s, t, val)
    && |s.arena| <= first && first + |cs| <= |t.arena| && val < |s.arena| && val !in t.done
    && ROOTS < |s.arena| && owner < |s.arena|
    && (forall k | first + i <= k < first + |cs| :: t.arena[k].ty == Nil && k !in t.done)
    && PartsBuilt(t.arena, t.done, cs, first, i, owner)
  }

  /** Setting the containing structure of part `i`. */
  lemma AmidAdopted(s: Snap, t: Snap, u: Snap, val: Ptr, owner: Ptr, first: Ptr, i: nat, cs: seq<Cls>)
    requires i < |cs| && Amid(s, t, val, owner, first, i, cs)
    requires u == t.(arena := t.arena[first + i := t.arena[first + i].(parent := owner)])
    ensures Amid(s, u, val, owner, first, i, cs)
  {
    PartsStay(t.arena, t.done, u.arena, u.done, cs, first, i, owner, first + i);
  }

  /** One more part is complete once it has been decoded. */
  lemma AmidNext(s: Snap, t: Snap, u: Snap, val: Ptr, owner: Ptr, first: Ptr, i: nat, cs: seq<Cls>)
    requires i < |cs| && Amid(s, t, val, owner, first, i, cs)
    requires t.arena[first + i].parent == owner && Decodes(t, u, first + i)
    requires Built(u.arena, u.done, cs[i], first + i, |t.arena|)
    ensures Amid(s, u, val, owner, first, i + 1, cs) && u.arena[val] == t.arena[val]
  {
    PartsStay(t.arena, t.done, u.arena, u.done, cs, first, i, owner, first + i);
    BuiltFrom(u.arena, u.done, cs[i], first + i, |t.arena|, first + |cs|);
    DecodesOn(s, t, u, val, first + i);
  }

  /** Changing `val` itself, or marking it as finished, does nothing to its parts. */
  lemma AmidCounted(s: Snap, t: Snap, u: Snap, val: Ptr, owner: Ptr, first: Ptr, i: nat, cs: seq<Cls>, f: Fld)
    requires i <= |cs| && Amid(s, t, val, owner, first, i, cs) && f.parent == t.arena[val].parent
    requires u == t.(arena := t.arena[val := f])
    ensures Amid(s, u, val, owner, first, i, cs)
  {
    PartsStay(t.arena, t.done, u.arena, u.done, cs, first, i, owner, val);
  }

  // Lengths.

  /** `len * 8` in 64 bits. */
  function SizeInBits(n: nat): (r: nat)
    ensures 8 * n < TWO64 ==> r == 8 * n
  {
    n * 8 % TWO64
  }

  // The events of a packet.

  /** Decoding events leaves the header and the context of the packet as they are. */
  ghost predicate KeepsPacket(s: Snap, t: Snap) {
    && ROOTS < |s.arena| <= |t.arena| && s.pos <= t.pos
    && (forall i | 0 <= i < EVENT :: t.arena[i] == s.arena[i])
    && (forall i | 0 <= i < EVENT :: i in t.done <==> i in s.done)
    && forall i | 0 <= i < EVENT && i in s.done :: t.done[i] == s.done[i]
  }

  lemma KeepsOn(s: Snap, t: Snap, u: Snap)
    requires KeepsPacket(s, t) && KeepsPacket(t, u)
    ensures KeepsPacket(s, u)
  {
  }

  /**
    The positions behind the events that decode: they rise from `lo` on to `pos`, where the reader is, and none is past
    `hi`.
   */
  ghost predicate Rising(ends: seq<nat>, lo: nat, hi: nat, pos: nat) {
    && lo <= pos && (ends != [] ==> pos <= hi)
    && (forall k: nat :: RisesAt(ends, lo, hi, k))
    && pos == if ends == [] then lo else ends[|ends| - 1]
  }

  /** Position `k` is not before the one before it. */
  ghost predicate RisesAt(ends: seq<nat>, lo: nat, hi: nat, k: nat) {
    k < |ends| ==> (if k == 0 then lo else ends[k - 1]) <= ends[k] <= hi
  }

  lemma RisingOn(ends: seq<nat>, lo: nat, hi: nat, pos: nat, p: nat)
    requires Rising(ends, lo, hi, pos) && pos <= p <= hi
    ensures Rising(ends + [p], lo, hi, p)
  {
    forall k: nat ensures RisesAt(ends + [p], lo, hi, k) {
      assert RisesAt(ends, lo, hi, k);
    }
  }

  /** The root `r` of an event is complete if its class has it. */
  ghost predicate HasRoot(a: Arena, done: map<Ptr, nat>, c: Option<Cls>, r: Ptr) {
    c.Some? ==> Built(a, done, c.value, r, EVENT + 4)
  }

  /** Part `k` of an event is complete if its class has it. */
  ghost predicate HasPart(a: Arena, done: map<Ptr, nat>, c: Option<Cls>, k: nat) {
    HasRoot(a, done, c, EVENT + k)
  }

  ghost predicate HasParts(a: Arena, done: map<Ptr, nat>, parts: seq<Option<Cls>>, n: nat)
    requires n <= |parts|
  {
    forall k | 0 <= k < n :: HasPart(a, done, parts[k], k)
  }

  /** The parts of an event before part `k`, and all that lies behind the roots, are as they were. */
  ghost predicate KeepsFirst(s: Snap, t: Snap, k: nat) {
    && |s.arena| <= |t.arena|
    && (forall i | 0 <= i < |s.arena| && i != EVENT + k :: t.arena[i] == s.arena[i])
    && forall i | i in s.done :: i in t.done
  }

  /** The parts of an event from part `k` on are still to be decoded. */
  ghost predicate PendingFrom(s: Snap, k: nat) {
    ROOTS < |s.arena| && forall i | EVENT + k <= i < EVENT + 4 :: s.arena[i].ty == Nil && i !in s.done
  }

  lemma DecodedPart(s: Snap, t: Snap, k: nat)
    requires k < 4 && PendingFrom(s, k) && Decodes(s, t, EVENT + k)
    ensures KeepsPacket(s, t) && KeepsFirst(s, t, k) && PendingFrom(t, k + 1)
  {
  }

  lemma HasPartsOn(s: Snap, t: Snap, parts: seq<Option<Cls>>, n: nat)
    requires n < |parts| && n < 4 && ROOTS < |s.arena| && HasParts(s.arena, s.done, parts, n)
    requires KeepsFirst(s, t, n) && HasPart(t.arena, t.done, parts[n], n)
    ensures HasParts(t.arena, t.done, parts, n + 1)
  {
    forall k | 0 <= k < n && parts[k].Some? ensures HasPart(t.arena, t.done, parts[k], k) {
      assert HasPart(s.arena, s.done, parts[k], k);
      BuiltStays(s.arena, s.done, t.arena, t.done, parts[k].value, EVENT + k, EVENT + 4);
    }
  }

  /** The arena holds a complete event of class `id`. */
  ghost predicate EventOf(cls: DstreamCls, id: nat, a: Arena, done: map<Ptr, nat>) {
    && id in cls.events
    && HasRoot(a, done, cls.eventHdr, RootOf(EventHeader)) && HasRoot(a, done, cls.commonCtx, RootOf(EventCommonCtx))
    && HasRoot(a, done, cls.events[id].specCtx, RootOf(EventSpecificCtx))
    && HasRoot(a, done, cls.events[id].payload, RootOf(EventPayload))
  }

  lemma EventHasParts(cls: DstreamCls, id: nat, a: Arena, done: map<Ptr, nat>, parts: seq<Option<Cls>>)
    requires id in cls.events
    requires parts == [cls.eventHdr, cls.commonCtx, cls.events[id].specCtx, cls.events[id].payload]
    requires HasParts(a, done, parts, 4)
    ensures EventOf(cls, id, a, done)
  {
    assert HasPart(a, done, parts[0], 0) && HasPart(a, done, parts[1], 1);
    assert HasPart(a, done, parts[2], 2) && HasPart(a, done, parts[3], 3);
  }

  /** The arena `a` has since changed in nothing but the roots of an event behind its header. */
  ghost predicate KeepsHeader(a: Arena, b: Arena) {
    ROOTS < |a| <= |b| && forall i | 0 <= i < |a| && !(EVENT < i < EVENT + 4) :: b[i] == a[i]
  }

  lemma ResetOk(a: Arena, done: map<Ptr, nat>, done': map<Ptr, nat>, pos: nat)
    requires ArenaOk(a, done, pos)
    requires done' == map i | i in done && !(EVENT <= i < EVENT + 4) :: done[i]
    ensures ArenaOk(Reset(a), done', pos)
    ensures KeepsPacket(Snap(a, done, pos), Snap(Reset(a), done', pos)) && PendingFrom(Snap(Reset(a), done', pos), 0)
  {
    var b := Reset(a);
    forall i | 0 <= i < |b| ensures PartsOk(b, i) {
      assert PartsOk(a, i);
    }
  }

  /** The decoding of the fields of one packet on top of its reader. */
  class TreeDecoder {
    const dec: FldDecode.Decoder
    var arena: Arena
    ghost var done: map<Ptr, nat>

    function Pos(): nat
      reads dec.br
    {
      dec.br.pos
    }

    ghost predicate Valid()
      reads this, dec, dec.br
    {
      dec.Valid() && 8 * |dec.br.data| < TWO64 && ArenaOk(arena, done, Pos())
    }

    /** A packet at whose start no field is decoded yet. */
    constructor (dec: FldDecode.Decoder)
      requires dec.Valid() && 8 * |dec.br.data| < TWO64
      ensures Valid() && this.dec == dec && done == map[]
      ensures forall f | 0 < f <= ROOTS :: Pending(f)
    {
      this.dec := dec;
      arena := seq(ROOTS + 1, _ => Fresh(NONE));
      done := map[];
    }

    ghost function Now(): Snap
      reads this, dec.br
    {
      Snap(arena, done, Pos())
    }

    /** A field that is about to be decoded. */
    ghost predicate Pending(val: Ptr)
      reads this
    {
      ROOTS < |arena| && val < |arena| && arena[val].ty == Nil && val !in done
    }

    /** The same once `fld_cls_decode` has set its class. */
    ghost predicate Ready(c: Cls, val: Ptr)
      reads this
    {
      Pending(val) && arena[val].cls == Some(c)
    }

    /** What bounds the decoding. */
    ghost function Bounds(): Env
      reads dec`bitOff, dec`contentLen
    {
      Env(dec.br.data, dec.bitOff + dec.contentLen)
    }

    /** What decoding depends on. */
    ghost function Cur(): State
      reads this`arena, dec`lastBo, dec.br
    {
      State(arena, Pos(), dec.br.bo, dec.lastBo)
    }

    /** Decoding has had the outcome `o`. */
    ghost predicate Agrees(r: Result<(), Error>, o: Outcome)
      reads this`arena, dec`lastBo, dec.br
    {
      match o
      case Done(t) => r.Ok? && Cur() == t && dec.br.Right()
      case Fails(e) => r == Err(e)
      case Unsure => true
    }

    /** If all fields have the byte order `bo`, the reader holds what the stream holds, and so does every integer. */
    ghost predicate Steady(bo: Option<ByteOrder>)
      reads this, dec.br
    {
      bo.Some? ==>
        && dec.br.Right() && (dec.br.bo == bo.value || Pos() % 8 == 0)
        && AllExact(dec.br.data, arena, done)
    }

    /** `do_align`. */
    method DoAlign(align: nat, ghost bo: Option<ByteOrder>, ghost right: bool) returns (ok: bool)
      requires Valid() && align > 0 && Steady(bo) && (bo.Some? ==> Friendly(align)) && (right ==> dec.br.Right())
      modifies dec.br
      ensures Valid() && Steady(bo) && dec.br.bo == old(dec.br.bo) && (right ==> dec.br.Right())
      ensures old(Pos()) <= Pos() == FldDecode.Start(dec.br.data, old(Pos()), align)
      ensures ok <==> dec.Confined()
    {
      if Friendly(align) && Pos() % 8 == 0 { FriendlyStart(dec.br.data, Pos(), align); }
      ok := dec.DoAlign(align);
    }

    /** Gives the field its type and value. */
    method Finish(val: Ptr, ty: FldType, v: int, ghost bo: Option<ByteOrder>)
      requires Valid() && Pending(val) && ty != StructT && ty != ArrT && (ty == UintT ==> v >= 0)
      requires Steady(bo) && (bo.Some? ==> Exact(dec.br.data, arena[val].(ty := ty, val := v), Pos()))
      modifies this
      ensures Valid() && Decodes(old(Now()), Now(), val) && Steady(bo)
      ensures val in done && arena == old(arena)[val := old(arena[val]).(ty := ty, val := v)]
    {
      assert PartsOk(arena, val);
      ChangedOk(arena, val, arena[val].(ty := ty, val := v));
      ghost var a, d := arena, done;
      arena := arena[val := arena[val].(ty := ty, val := v)];
      done := done[val := Pos()];
      if bo.Some? { StillExact(dec.br.data, a, d, arena, done, val); }
    }

    /** `fxd_len_bit_arr_decode` and the value that the class makes of the bits. */
    method DecodeFxdLen(c: Cls, val: Ptr, ghost bo: Option<ByteOrder>, ghost right: bool)
      returns (r: Result<(), Error>, ghost p: nat)
      requires Valid() && Ready(c, val) && WellFormed(c) && c.FxdLen? && Steady(bo) && Uniform(c, bo)
      requires right ==> dec.br.Right()
      modifies this, dec`lastBo, dec.br
      ensures Valid() && Decodes(old(Now()), Now(), val)
      ensures r.Ok? ==> dec.Confined() && Steady(bo) && Built(arena, done, c, val, old(|arena|))
      ensures p == FldDecode.Start(dec.br.data, old(Pos()), c.bits.align)
      ensures r.Ok? <==> old(dec.Decodable(c.bits, p))
      ensures r.Ok? ==> Pos() == p + c.bits.len <= 8 * |dec.br.data|
      ensures r.Ok? && old(dec.Faithful(c.bits.bo, c.bits.align)) ==>
        arena[val].val == FxdLenValue(dec.br.data, c.bits, c.kind, p)
      ensures right ==> Agrees(r, ParseFxdLen(Bounds(), c, val, old(Cur())))
    {
      ghost var s, at := Now(), Cur();
      var w;
      w, p := ReadFxdLen(c, bo);
      FxdLenOutcome(Bounds(), c, val, at, p);
      if w.Err? {
        return Err(w.error), p;
      }
      TakeFxdLen(c, val, FxdLenOf(w.value, c.bits.len, c.kind), p, s, bo);
      return Ok(()), p;
    }

    /** Reads the word for a fixed-length field. */
    method ReadFxdLen(c: Cls, ghost bo: Option<ByteOrder>) returns (w: Result<Word, Error>, ghost p: nat)
      requires Valid() && WellFormed(c) && c.FxdLen? && Steady(bo) && Uniform(c, bo)
      modifies dec`lastBo, dec.br
      ensures Valid() && old(Pos()) <= Pos() && p == FldDecode.Start(dec.br.data, old(Pos()), c.bits.align)
      ensures w.Ok? ==> dec.Confined() && Steady(bo)
      ensures w.Ok? <==> old(dec.Decodable(c.bits, p))
      ensures w.Err? ==> FxdLenError(Bounds(), c.bits, p, old(dec.lastBo)) == Some(w.error)
      ensures w.Ok? ==>
        Pos() == p + c.bits.len <= 8 * |dec.br.data| && dec.br.bo == c.bits.bo && dec.lastBo == Some(c.bits.bo)
      ensures old(dec.Faithful(c.bits.bo, c.bits.align)) ==> dec.br.Right()
      ensures w.Ok? && (bo.Some? || old(dec.Faithful(c.bits.bo, c.bits.align))) ==>
        FxdLenOf(w.value, c.bits.len, c.kind) == FxdLenValue(dec.br.data, c.bits, c.kind, p)
    {
      p := FldDecode.Start(dec.br.data, Pos(), c.bits.align);
      ghost var lastBo := dec.lastBo;
      var word := dec.FxdLenDecode(c.bits);
      match word {
        case Err(e) =>
          FxdLenErrorIs(Bounds(), c.bits, p, lastBo, !e.NotEnoughBits?);
          return Err(if e.NotEnoughBits? then NotEnoughBits else MidByteEndianSwap), p;
        case Ok(v) =>
          if FldDecode.IsField(dec.br.data, c.bits, p, v) { FxdLenOfField(dec.br.data, c.bits, c.kind, p, v); }
          return Ok(v), p;
      }
    }

    /** Gives the field its value. */
    method TakeFxdLen(c: Cls, val: Ptr, v: int, ghost p: nat, ghost s: Snap, ghost bo: Option<ByteOrder>)
      requires Valid() && Ready(c, val) && c.FxdLen? && (c.kind != Sint ==> v >= 0) && Steady(bo)
      requires s == Snap(arena, done, s.pos) && s.pos <= Pos() == p + c.bits.len <= 8 * |dec.br.data|
      requires bo.Some? ==> v == FxdLenValue(dec.br.data, c.bits, c.kind, p)
      modifies this
      ensures Valid() && Decodes(s, Now(), val) && Steady(bo) && Built(arena, done, c, val, old(|arena|))
      ensures Cur() == Finished(old(Cur()), val, TypeOf(c.kind), v)
    {
      ExactFxdLen(dec.br.data, arena[val].(ty := TypeOf(c.kind), val := v), c.bits, c.kind, p, Pos());
      Finish(val, TypeOf(c.kind), v, bo);
    }

    /** `fld_cls_var_len_uint_decode` and `fld_cls_var_len_sint_decode`. */
    method DecodeVarLen(c: Cls, val: Ptr, ghost bo: Option<ByteOrder>, ghost right: bool) returns (r: Result<(), Error>)
      requires Valid() && Ready(c, val) && c.VarLen? && Steady(bo) && Uniform(c, bo) && (right ==> dec.br.Right())
      modifies this, dec.br
      ensures Valid() && Decodes(old(Now()), Now(), val)
      ensures r.Ok? ==> dec.Confined() && Steady(bo) && Built(arena, done, c, val, old(|arena|))
      ensures var at := FldDecode.Start(dec.br.data, old(Pos()), 8) / 8;
        old(dec.Faithful(LilEndian, 8)) ==>
          && (r.Ok? <==> old(dec.VarLenDecodable(at)))
          && (r.Ok? ==> Encoded(dec.br.data, at, c.signed, arena[val].val, Pos()))
      ensures right ==> Agrees(r, ParseVarLen(Bounds(), c, val, old(Cur())))
    {
      ghost var s, at := Now(), FldDecode.Start(dec.br.data, Pos(), 8) / 8;
      VarLenOutcome(Bounds(), c, val, Cur());
      var w := ReadVarLen(c, bo);
      if w.Err? {
        return Err(w.error);
      }
      TakeVarLen(c, val, w.value, at, s, bo);
      return Ok(());
    }

    /** Gives the field its value. */
    method TakeVarLen(c: Cls, val: Ptr, v: int, ghost at: nat, ghost s: Snap, ghost bo: Option<ByteOrder>)
      requires Valid() && Ready(c, val) && c.VarLen? && (!c.signed ==> v >= 0) && Steady(bo)
      requires s == Snap(arena, done, s.pos) && s.pos <= Pos()
      requires bo.Some? ==> Encoded(dec.br.data, at, c.signed, v, Pos())
      modifies this
      ensures Valid() && Decodes(s, Now(), val) && Steady(bo) && Built(arena, done, c, val, old(|arena|))
      ensures Cur() == Finished(old(Cur()), val, if c.signed then SintT else UintT, v)
    {
      Finish(val, if c.signed then SintT else UintT, v, bo);
    }

    /** Reads the value of a variable-length field. */
    method ReadVarLen(c: Cls, ghost bo: Option<ByteOrder>) returns (w: Result<int, Error>)
      requires Valid() && c.VarLen? && Steady(bo) && Uniform(c, bo)
      modifies dec.br
      ensures Valid() && old(Pos()) <= Pos() && dec.br.bo == LilEndian && (w.Err? ==> w.error == NotEnoughBits)
      ensures w.Ok? ==> dec.Confined() && Steady(bo) && (!c.signed ==> w.value >= 0)
      ensures var at := FldDecode.Start(dec.br.data, old(Pos()), 8) / 8;
        bo.Some? || old(dec.Faithful(LilEndian, 8)) ==>
          && dec.br.Right() && (w.Ok? <==> old(dec.VarLenDecodable(at)))
          && (w.Ok? ==> Encoded(dec.br.data, at, c.signed, w.value, Pos()))
    {
      ghost var at := FldDecode.Start(dec.br.data, Pos(), 8) / 8;
      var r := dec.VarLenIntDecode();
      if r.Err? {
        return Err(NotEnoughBits);
      }
      var (word, n) := r.value;
      if dec.HasRead(at, r.value) { VarLenIsEncoded(dec.br.data, at, c.signed, word, n, Pos()); }
      return Ok(VarLenOf(word, n, c.signed));
    }

    /** The length of a blob, string or array. */
    method GetLength(len: Length, val: Ptr) returns (r: Result<nat, Error>)
      requires Valid() && Pending(val)
      ensures r == LengthOf(arena, len, val) && IsLength(arena, len, val, r)
    {
      LengthOfIsLength(arena, len, val);
      match len {
        case Static(n) => return Ok(n);
        case Dynamic(loc) =>
          var f := Locate(loc, val);
          if f.Aborts? {
            return Err(AssertionFails);
          }
          if f.NotFound? {
            return Err(MissingFldLoc);
          }
          if arena[f.fld].ty != UintT {
            return Err(WrongFldType);
          }
          assert PartsOk(arena, f.fld);
          return Ok(arena[f.fld].val);
      }
    }

    /** One path element in the loop of `fld_loc_locate`. */
    method Follow(fld: Ptr, step: Option<string>) returns (r: Located)
      requires Valid() && fld < |arena|
      ensures r == Next(arena, fld, step)
    {
      assert PartsOk(arena, fld);
      match step {
        case Some(name) =>
          if arena[fld].ty != StructT {
            return Aborts;
          }
          var k := MemberIndex(arena[fld].members, name);
          if k.None? {
            return NotFound;
          }
          return Found(arena[fld].first + k.value);
        case None =>
          if arena[fld].parent == NONE {
            return NotFound;
          }
          return Found(arena[fld].parent);
      }
    }

    /** `fld_loc_locate`: what it finds is finished, and from bits before the reader. */
    method Locate(loc: FldLoc, cur: Ptr) returns (r: Located)
      requires Valid() && Pending(cur)
      ensures r == Denoted(arena, loc, cur) && IsLocated(arena, loc, cur, r)
      ensures r.Found? ==> r.fld != cur && r.fld in done && done[r.fld] <= Pos() && IsLeaf(arena[r.fld].ty)
    {
      LocatedIsFinished(arena, done, Pos(), loc, cur);
      DenotedIsLocated(arena, loc, cur);
      assert PartsOk(arena, cur);
      var fld: Ptr := if loc.origin == Relative then arena[cur].parent else RootOf(loc.origin);
      if fld == NONE || arena[fld].ty != StructT {
        return NotFound;
      }
      var i := 0;
      while i < |loc.path|
        invariant 0 <= i <= |loc.path| && fld < |arena|
        invariant Denoted(arena, loc, cur) == Walk(arena, fld, loc.path[i..])
      {
        assert loc.path[i..][1..] == loc.path[i + 1..];
        var next := Follow(fld, loc.path[i]);
        if !next.Found? {
          return next;
        }
        fld := next.fld;
        if IsLeaf(arena[fld].ty) {
          return if i == |loc.path| - 1 then Found(fld) else NotFound;
        } else if arena[fld].ty == ArrT {
          var e := CurrentElement(fld);
          if e.None? {
            return NotFound;
          }
          fld := e.value;
        } else if arena[fld].ty != StructT {
          return NotFound;
        }
        i := i + 1;
      }
      return NotFound;
    }

    /** The loop of `fld_loc_locate` that goes down into nested arrays. */
    method CurrentElement(f: Ptr) returns (r: Option<Ptr>)
      requires Valid() && f < |arena|
      ensures r == Current(arena, f)
    {
      var fld := f;
      while arena[fld].ty == ArrT
        invariant fld < |arena| && Current(arena, f) == Current(arena, fld)
        decreases |arena| - fld
      {
        assert PartsOk(arena, fld);
        if arena[fld].nVals == arena[fld].len {
          return None;
        }
        fld := arena[fld].first + arena[fld].nVals;
      }
      return Some(fld);
    }

    /**
      `fld_cls_static_len_blob_decode` and its siblings for other lengths and for strings of one-byte units: so many
      bytes from the next byte boundary on, exactly if the length is known and they are in the content and the data.
     */
    method DecodeBytes(c: Cls, len: Length, val: Ptr, ghost bo: Option<ByteOrder>, ghost right: bool)
      returns (r: Result<(), Error>)
      requires Valid() && Ready(c, val) && (c.Blob? || c.Str?) && Steady(bo) && (right ==> dec.br.Right())
      modifies this, dec.br
      ensures Valid() && Decodes(old(Now()), Now(), val)
      ensures r.Ok? ==> dec.Confined() && Steady(bo) && Built(arena, done, c, val, old(|arena|))
      ensures var n, from := old(LengthOf(arena, len, val)), FldDecode.Start(dec.br.data, old(Pos()), 8);
        && (r.Ok? <==>
              n.Ok? && from + 8 * n.value <= dec.bitOff + dec.contentLen && from + 8 * n.value <= 8 * |dec.br.data|)
        && (r.Ok? ==> Pos() == from + 8 * n.value)
      ensures right ==> Agrees(r, ParseBytes(Bounds(), old(LengthOf(arena, len, val)), val, old(Cur())))
    {
      ghost var s := Now();
      var n := PrepareBytes(len, val, bo, right);
      if n.Err? {
        return Err(n.error);
      }
      var ok := TakeBytes(c, val, n.value, s, bo, right);
      return if ok then Ok(()) else Err(NotEnoughBits);
    }

    /** Finds the length, goes to the next byte boundary, and checks that the content has so many bytes left. */
    method PrepareBytes(len: Length, val: Ptr, ghost bo: Option<ByteOrder>, ghost right: bool)
      returns (r: Result<nat, Error>)
      requires Valid() && Pending(val) && Steady(bo) && (right ==> dec.br.Right())
      modifies dec.br
      ensures Valid() && Steady(bo) && old(Pos()) <= Pos() && dec.br.bo == old(dec.br.bo) && (right ==> dec.br.Right())
      ensures var n, from := LengthOf(arena, len, val), FldDecode.Start(dec.br.data, old(Pos()), 8);
        && (r.Ok? ==> n == r && Pos() == from && from % 8 == 0)
        && (n.Ok? && from + 8 * n.value <= dec.bitOff + dec.contentLen && 8 * n.value < TWO64 ==> r.Ok?)
        && (r.Ok? && 8 * r.value < TWO64 ==> from + 8 * r.value <= dec.bitOff + dec.contentLen)
        && (r.Err? ==> r.error == if n.Err? then n.error else NotEnoughBits)
    {
      var n := GetLength(len, val);
      if n.Err? {
        return n;
      }
      FldDecode.StartIsByte(dec.br.data, Pos());
      var ok := DoAlign(8, bo, right);
      if !ok || dec.PktBitsRemaining() < SizeInBits(n.value) {
        return Err(NotEnoughBits);
      }
      return n;
    }

    /** Reads `n` bytes for a field, if they are in the data. */
    method TakeBytes(c: Cls, val: Ptr, n: nat, ghost s: Snap, ghost bo: Option<ByteOrder>, ghost right: bool)
      returns (ok: bool)
      requires Valid() && Ready(c, val) && (c.Blob? || c.Str? || c.NullTermStr?) && Steady(bo) && Pos() % 8 == 0
      requires Decodes(s, Now(), val) && (right ==> dec.br.Right())
      modifies this, dec.br
      ensures Valid() && Decodes(s, Now(), val)
      ensures ok <==> old(Pos()) + 8 * n <= 8 * |dec.br.data|
      ensures ok ==> Steady(bo) && Built(arena, done, c, val, old(|arena|)) && (right ==> dec.br.Right())
      ensures ok ==> Cur() == At(Finished(old(Cur()), val, OtherT, 0), old(Pos()) + 8 * n)
    {
      var start;
      ok, start := dec.br.ReadBytes(n);
      if ok { TakeOther(c, val, s, bo); }
    }

    /** Finishes a blob or a string. */
    method TakeOther(c: Cls, val: Ptr, ghost s: Snap, ghost bo: Option<ByteOrder>)
      requires Valid() && Ready(c, val) && (c.Blob? || c.Str? || c.NullTermStr?) && Steady(bo) && Decodes(s, Now(), val)
      modifies this
      ensures Valid() && Decodes(s, Now(), val) && Steady(bo) && Built(arena, done, c, val, old(|arena|))
      ensures Cur() == Finished(old(Cur()), val, OtherT, 0)
    {
      ghost var t := Now();
      Finish(val, OtherT, 0, bo);
      DecodesOn(s, t, Now(), val, val);
    }

    /** `memchr(data + from, 0, n)`. */
    method FindZero(from: nat, n: nat) returns (at: Option<nat>)
      requires from + n <= |dec.br.data|
      ensures at.Some? ==> at.value < n && dec.br.data[from + at.value] == 0 && 0 !in dec.br.data[from..from + at.value]
      ensures at.None? ==> 0 !in dec.br.data[from..from + n]
    {
      var data := dec.br.data;
      var i := 0;
      while i < n
        invariant 0 <= i <= n && 0 !in data[from..from + i]
      {
        if data[from + i] == 0 {
          return Some(i);
        }
        assert data[from..from + i + 1] == data[from..from + i] + [data[from + i]];
        i := i + 1;
      }
      return None;
    }

    /** `fld_cls_null_term_str_decode` for one-byte units: up to and with the first zero byte within the content. */
    method DecodeNullTermStr(c: Cls, val: Ptr, ghost bo: Option<ByteOrder>, ghost right: bool)
      returns (r: Result<(), Error>)
      requires Valid() && Ready(c, val) && c.NullTermStr? && Steady(bo) && (right ==> dec.br.Right())
      modifies this, dec.br
      ensures Valid() && Decodes(old(Now()), Now(), val)
      ensures r.Ok? ==> dec.Confined() && Steady(bo) && Built(arena, done, c, val, old(|arena|))
      ensures var z := FirstZero(dec.br.data, FldDecode.Start(dec.br.data, old(Pos()), 8) / 8);
        && (r.Ok? <==> z.Some? && 8 * (z.value + 1) <= dec.bitOff + dec.contentLen)
        && (r.Ok? ==> Pos() == 8 * (z.value + 1))
      ensures right ==> Agrees(r, ParseNullTermStr(Bounds(), val, old(Cur())))
    {
      ghost var s := Now();
      var n := PrepareStr(bo, right);
      if n.None? {
        return Err(NotEnoughBits);
      }
      var ok := TakeBytes(c, val, n.value, s, bo, right);
      return Ok(());
    }

    /** Goes to the next byte boundary and finds how many bytes the string takes. */
    method PrepareStr(ghost bo: Option<ByteOrder>, ghost right: bool) returns (n: Option<nat>)
      requires Valid() && Steady(bo) && (right ==> dec.br.Right())
      modifies dec.br
      ensures Valid() && Steady(bo) && old(Pos()) <= Pos() && dec.br.bo == old(dec.br.bo) && (right ==> dec.br.Right())
      ensures var z := FirstZero(dec.br.data, FldDecode.Start(dec.br.data, old(Pos()), 8) / 8);
        && (n.Some? <==> z.Some? && 8 * (z.value + 1) <= dec.bitOff + dec.contentLen)
        && (n.Some? ==> Pos() % 8 == 0 && Pos() + 8 * n.value == 8 * (z.value + 1))
    {
      FldDecode.StartIsByte(dec.br.data, Pos());
      var ok := DoAlign(8, bo, right);
      if !ok || dec.PktBitsRemaining() < 8 {
        return None;
      }
      n := StrBytes();
    }

    /** How many bytes a string of one-byte units takes, if its terminator is in the data and the content. */
    method StrBytes() returns (n: Option<nat>)
      requires Valid() && Pos() % 8 == 0
      ensures var z := FirstZero(dec.br.data, Pos() / 8);
        && (n.Some? <==> z.Some? && 8 * (z.value + 1) <= dec.bitOff + dec.contentLen)
        && (n.Some? ==> Pos() / 8 + n.value == z.value + 1)
    {
      var ptr := dec.br.PeekBytes();
      var inData := dec.br.BytesRemaining();
      var left := dec.PktBitsRemaining() / 8;
      var count := if inData < left then inData else left;
      var term := FindZero(ptr, count);
      FirstZeroAt(dec.br.data, ptr, if term.Some? then ptr + term.value else ptr + count);
      return if term.None? then None else Some(term.value + 1);
    }

    /** Makes `val` a structure or array with `n` new parts. */
    method Open(val: Ptr, ty: FldType, members: seq<string>, n: nat, ghost bo: Option<ByteOrder>)
      requires Valid() && Pending(val) && ty in {StructT, ArrT} && (ty == StructT ==> |members| == n) && Steady(bo)
      modifies this`arena
      ensures Valid() && Decodes(old(Now()), Now(), val) && Steady(bo)
      ensures |arena| == old(|arena|) + n && val !in done
      ensures Cur() == Opened(old(Cur()), val, ty, members, n)
      ensures forall k | old(|arena|) <= k < |arena| :: arena[k] == Fresh(NONE) && k !in done
    {
      var more := seq(n, _ => Fresh(NONE));
      var f := Fld(arena[val].cls, ty, arena[val].parent, members, |arena|, if ty == ArrT then n else 0, 0, 0);
      assert PartsOk(arena, val);
      GrownOk(arena, more);
      ghost var grown := arena + more;
      ChangedOk(grown, val, f);
      ghost var a := arena;
      arena := (arena + more)[val := f];
      if bo.Some? { StillExact(dec.br.data, a, done, arena, done, val); }
    }

    /** Sets the containing structure of a part before it is decoded. */
    method Adopt(part: Ptr, parent: Ptr, ghost bo: Option<ByteOrder>)
      requires Valid() && Pending(part) && parent < |arena| && Steady(bo)
      modifies this`arena
      ensures Valid() && Pending(part) && arena == old(arena)[part := old(arena[part]).(parent := parent)] && Steady(bo)
    {
      assert PartsOk(arena, part);
      ChangedOk(arena, part, arena[part].(parent := parent));
      ghost var a := arena;
      arena := arena[part := arena[part].(parent := parent)];
      if bo.Some? { StillExact(dec.br.data, a, done, arena, done, part); }
    }

    /** `val->cls = cls`. */
    method Classify(c: Cls, val: Ptr, ghost bo: Option<ByteOrder>)
      requires Valid() && Pending(val) && Steady(bo)
      modifies this`arena
      ensures Valid() && Ready(c, val) && arena == old(arena)[val := old(arena[val]).(cls := Some(c))] && Steady(bo)
      ensures Decodes(old(Now()), Now(), val)
    {
      assert PartsOk(arena, val);
      ChangedOk(arena, val, arena[val].(cls := Some(c)));
      ghost var a := arena;
      arena := arena[val := arena[val].(cls := Some(c))];
      if bo.Some? { StillExact(dec.br.data, a, done, arena, done, val); }
    }

    /** The state between two parts of `val`. */
    ghost predicate Between(s: Snap, val: Ptr, owner: Ptr, first: Ptr, i: nat, cs: seq<Cls>, bo: Option<ByteOrder>)
      requires i <= |cs|
      reads this, dec, dec.br
    {
      Valid() && dec.Confined() && Steady(bo) && Amid(s, Now(), val, owner, first, i, cs)
    }

    /** Marks a structure or array as finished once all its parts are. */
    method Close(val: Ptr, ghost s: Snap, ghost owner: Ptr, ghost first: Ptr, ghost cs: seq<Cls>,
                 ghost bo: Option<ByteOrder>)
      requires Between(s, val, owner, first, |cs|, cs, bo) && arena[val].cls.Some?
      requires !arena[val].cls.value.FxdLen? && !arena[val].cls.value.VarLen?
      modifies this`done
      ensures Valid() && dec.Confined() && Decodes(s, Now(), val) && Steady(bo)
      ensures val in done && PartsBuilt(arena, done, cs, first, |cs|, owner)
    {
      ghost var was := done;
      done := done[val := Pos()];
      if bo.Some? { StillExact(dec.br.data, arena, was, arena, done, val); }
      PartsStay(arena, was, arena, done, cs, first, |cs|, owner, val);
    }

    /** Sets the containing structure of part `i`. */
    method AdoptPart(first: Ptr, i: nat, owner: Ptr, ghost s: Snap, ghost val: Ptr, ghost cs: seq<Cls>,
                     ghost bo: Option<ByteOrder>)
      requires i < |cs| && Between(s, val, owner, first, i, cs, bo)
      modifies this`arena
      ensures Between(s, val, owner, first, i, cs, bo) && Pending(first + i) && arena[first + i].parent == owner
      ensures |arena| == old(|arena|) && arena[val] == old(arena[val]) && Cur() == Adopted(old(Cur()), first + i, owner)
    {
      ghost var t := Now();
      Adopt(first + i, owner, bo);
      AmidAdopted(s, t, Now(), val, owner, first, i, cs);
    }

    /** Decodes part `i` of `val`. */
    method DecodePart(c: Cls, first: Ptr, i: nat, owner: Ptr, ghost s: Snap, ghost val: Ptr, ghost cs: seq<Cls>,
                      ghost bo: Option<ByteOrder>, ghost right: bool)
      returns (r: Result<(), Error>)
      requires WellFormed(c) && Uniform(c, bo) && i < |cs| && cs[i] == c && Between(s, val, owner, first, i, cs, bo)
      requires Pending(first + i) && arena[first + i].parent == owner && (right ==> dec.br.Right())
      modifies this, dec`lastBo, dec.br
      ensures Valid() && Decodes(s, Now(), val)
      ensures r.Ok? ==> Between(s, val, owner, first, i + 1, cs, bo) && arena[val] == old(arena[val])
      ensures right ==> Agrees(r, Parse(Bounds(), c, first + i, old(Cur())))
      decreases c, 3
    {
      ghost var t := Now();
      r := Decode(c, first + i, bo, right);
      ghost var u := Now();
      if r.Ok? {
        AmidNext(s, t, u, val, owner, first, i, cs);
      } else {
        DecodesOn(s, t, u, val, first + i);
      }
    }

    /** Sets the containing structure of part `i` and decodes it. */
    method DecodeNext(c: Cls, first: Ptr, i: nat, owner: Ptr, ghost s: Snap, ghost val: Ptr, ghost cs: seq<Cls>,
                      ghost bo: Option<ByteOrder>, ghost right: bool)
      returns (r: Result<(), Error>)
      requires WellFormed(c) && Uniform(c, bo) && i < |cs| && cs[i] == c && Between(s, val, owner, first, i, cs, bo)
      requires right ==> dec.br.Right()
      modifies this, dec`lastBo, dec.br
      ensures Valid() && Decodes(s, Now(), val)
      ensures r.Ok? ==> Between(s, val, owner, first, i + 1, cs, bo) && arena[val] == old(arena[val])
      ensures right ==> Agrees(r, Parse(Bounds(), c, first + i, Adopted(old(Cur()), first + i, owner)))
      decreases c, 4
    {
      AdoptPart(first, i, owner, s, val, cs, bo);
      r := DecodePart(c, first, i, owner, s, val, cs, bo, right);
    }

    /** `fld_cls_struct_decode`. */
    method DecodeStruct(c: Cls, val: Ptr, ghost bo: Option<ByteOrder>, ghost right: bool) returns (r: Result<(), Error>)
      requires Valid() && Ready(c, val) && WellFormed(c) && c.Struct? && Steady(bo) && Uniform(c, bo)
      requires right ==> dec.br.Right()
      modifies this, dec`lastBo, dec.br
      ensures Valid() && Decodes(old(Now()), Now(), val)
      ensures r.Ok? ==> dec.Confined() && Steady(bo) && Built(arena, done, c, val, old(|arena|))
      ensures right ==> Agrees(r, ParseAs(Bounds(), c, val, old(Cur())))
      decreases c, 0, 3
    {
      ghost var s := Now();
      var ok := DoAlign(c.align, bo, right);
      if !ok {
        return Err(NotEnoughBits);
      }
      r := FillStruct(c, val, s, bo, right);
    }

    /** Allocates the members and decodes them. */
    method FillStruct(c: Cls, val: Ptr, ghost s: Snap, ghost bo: Option<ByteOrder>, ghost right: bool)
      returns (r: Result<(), Error>)
      requires Valid() && dec.Confined() && Ready(c, val) && WellFormed(c) && c.Struct? && Steady(bo) && Uniform(c, bo)
      requires s == Snap(arena, done, s.pos) && s.pos <= Pos() && (right ==> dec.br.Right())
      modifies this, dec`lastBo, dec.br
      ensures Valid() && Decodes(s, Now(), val)
      ensures r.Ok? ==> dec.Confined() && Steady(bo) && Built(arena, done, c, val, old(|arena|))
      ensures right ==>
        var t := old(Opened(Cur(), val, StructT, Names(c.members), |c.members|));
        Agrees(r, ParseMembers(Bounds(), c, val, old(|arena|), 0, t))
      decreases c, 0, 2
    {
      var first, n := |arena|, |c.members|;
      ghost var cs := seq(n, k requires 0 <= k < n => c.members[k].cls);
      Open(val, StructT, Names(c.members), n, bo);
      r := DecodeMembers(c, val, first, s, cs, bo, right);
      if r.Ok? {
        Close(val, s, val, first, cs, bo);
        StructBuilt(arena, done, c, val, cs, first, |s.arena|);
      }
    }

    /** The loop over the members. */
    method DecodeMembers(c: Cls, val: Ptr, first: Ptr, ghost s: Snap, ghost cs: seq<Cls>, ghost bo: Option<ByteOrder>,
                         ghost right: bool)
      returns (r: Result<(), Error>)
      requires WellFormed(c) && Uniform(c, bo) && c.Struct? && Between(s, val, val, first, 0, cs, bo)
      requires |cs| == |c.members| && forall k | 0 <= k < |cs| :: cs[k] == c.members[k].cls
      requires right ==> dec.br.Right()
      modifies this, dec`lastBo, dec.br
      ensures r.Err? ==> Valid() && Decodes(s, Now(), val)
      ensures r.Ok? ==> Between(s, val, val, first, |cs|, cs, bo) && arena[val] == old(arena[val])
      ensures right ==> Agrees(r, ParseMembers(Bounds(), c, val, first, 0, old(Cur())))
      decreases c, 0, 1
    {
      ghost var f, want := arena[val], ParseMembers(Bounds(), c, val, first, 0, Cur());
      ghost var sure := right && !want.Unsure?;
      var i := 0;
      while i < |c.members|
        invariant 0 <= i <= |cs| && Between(s, val, val, first, i, cs, bo) && arena[val] == f
        invariant sure ==> dec.br.Right() && want == ParseMembers(Bounds(), c, val, first, i, Cur())
        decreases |cs| - i
      {
        r := DecodeMember(c, val, first, i, s, cs, bo, sure, want);
        if r.Err? {
          return;
        }
        i := i + 1;
      }
      return Ok(());
    }

    /** One round of it. */
    method DecodeMember(c: Cls, val: Ptr, first: Ptr, i: nat, ghost s: Snap, ghost cs: seq<Cls>,
                        ghost bo: Option<ByteOrder>, ghost right: bool, ghost want: Outcome)
      returns (r: Result<(), Error>)
      requires WellFormed(c) && Uniform(c, bo) && c.Struct? && i < |cs| == |c.members| && cs[i] == c.members[i].cls
      requires Between(s, val, val, first, i, cs, bo)
      requires right ==> dec.br.Right() && !want.Unsure? && want == ParseMembers(Bounds(), c, val, first, i, Cur())
      modifies this, dec`lastBo, dec.br
      ensures Valid() && Decodes(s, Now(), val)
      ensures r.Ok? ==> Between(s, val, val, first, i + 1, cs, bo) && arena[val] == old(arena[val])
      ensures r.Ok? && right ==> dec.br.Right() && want == ParseMembers(Bounds(), c, val, first, i + 1, Cur())
      ensures r.Err? && right ==> want == Fails(r.error)
      decreases c, 0, 0
    {
      r := DecodeNext(c.members[i].cls, first, i, val, s, val, cs, bo, right);
    }

    /**
      `fld_cls_arr_decode`, as many elements as the length says; their containing structure is that of the array.
     */
    method DecodeArr(c: Cls, val: Ptr, ghost bo: Option<ByteOrder>, ghost right: bool) returns (r: Result<(), Error>)
      requires Valid() && Ready(c, val) && WellFormed(c) && c.Arr? && Steady(bo) && Uniform(c, bo)
      requires right ==> dec.br.Right()
      modifies this, dec`lastBo, dec.br
      ensures Valid() && Decodes(old(Now()), Now(), val)
      ensures r.Ok? ==> dec.Confined() && Steady(bo) && Built(arena, done, c, val, old(|arena|))
      ensures r.Ok? ==> old(LengthOf(arena, c.len, val)) == Ok(arena[val].nVals)
      ensures right ==> Agrees(r, ParseAs(Bounds(), c, val, old(Cur())))
      decreases c, 0, 4
    {
      ghost var s := Now();
      var len := GetLength(c.len, val);
      if len.Err? {
        return Err(len.error);
      }
      AlignReqPositive(c);
      var ok := DoAlign(AlignReq(c), bo, right);
      if !ok {
        return Err(NotEnoughBits);
      }
      r := FillArr(c, val, len.value, s, bo, right);
    }

    /** Allocates the elements and decodes them. */
    method FillArr(c: Cls, val: Ptr, n: nat, ghost s: Snap, ghost bo: Option<ByteOrder>, ghost right: bool)
      returns (r: Result<(), Error>)
      requires Valid() && dec.Confined() && Ready(c, val) && WellFormed(c) && c.Arr? && Steady(bo) && Uniform(c, bo)
      requires s == Snap(arena, done, s.pos) && s.pos <= Pos() && (right ==> dec.br.Right())
      modifies this, dec`lastBo, dec.br
      ensures Valid() && Decodes(s, Now(), val)
      ensures r.Ok? ==>
        dec.Confined() && Steady(bo) && Built(arena, done, c, val, old(|arena|)) && arena[val].nVals == n
      ensures right ==>
        var t := old(Opened(Cur(), val, ArrT, [], n));
        Agrees(r, ParseElements(Bounds(), c, val, old(arena[val].parent), old(|arena|), 0, n, t))
      decreases c, 0, 3
    {
      var first, parent := |arena|, arena[val].parent;
      ghost var cs := seq(n, _ => c.ele);
      assert PartsOk(arena, val);
      Open(val, ArrT, [], n, bo);
      r := DecodeElements(c, val, parent, first, n, s, cs, bo, right);
      if r.Ok? {
        Close(val, s, parent, first, cs, bo);
        ArrBuilt(arena, done, c, val, cs, first, |s.arena|);
      }
    }

    /** The loop over the elements. */
    method DecodeElements(c: Cls, val: Ptr, parent: Ptr, first: Ptr, n: nat, ghost s: Snap, ghost cs: seq<Cls>,
                          ghost bo: Option<ByteOrder>, ghost right: bool)
      returns (r: Result<(), Error>)
      requires WellFormed(c) && Uniform(c, bo) && c.Arr? && Between(s, val, parent, first, 0, cs, bo)
      requires |cs| == n && forall k | 0 <= k < n :: cs[k] == c.ele
      requires arena[val].ty == ArrT && arena[val].nVals == 0 && arena[val].len == n
      requires right ==> dec.br.Right()
      modifies this, dec`lastBo, dec.br
      ensures r.Err? ==> Valid() && Decodes(s, Now(), val)
      ensures r.Ok? ==> Between(s, val, parent, first, n, cs, bo) && arena[val] == old(arena[val]).(nVals := n)
      ensures right ==> Agrees(r, ParseElements(Bounds(), c, val, parent, first, 0, n, old(Cur())))
      decreases c, 0, 2
    {
      ghost var f, want := arena[val], ParseElements(Bounds(), c, val, parent, first, 0, n, Cur());
      ghost var sure := right && !want.Unsure?;
      var i := 0;
      while i < n
        invariant 0 <= i <= n && Between(s, val, parent, first, i, cs, bo) && arena[val] == f.(nVals := i)
        invariant sure ==> dec.br.Right() && want == ParseElements(Bounds(), c, val, parent, first, i, n, Cur())
        decreases n - i
      {
        r := DecodeElement(c, val, parent, first, i, n, s, cs, bo, sure, want);
        if r.Err? {
          return;
        }
        i := i + 1;
      }
      return Ok(());
    }

    /** One round of it. */
    method DecodeElement(c: Cls, val: Ptr, parent: Ptr, first: Ptr, i: nat, n: nat, ghost s: Snap, ghost cs: seq<Cls>,
                         ghost bo: Option<ByteOrder>, ghost right: bool, ghost want: Outcome)
      returns (r: Result<(), Error>)
      requires WellFormed(c) && Uniform(c, bo) && c.Arr? && i < |cs| == n && cs[i] == c.ele
      requires Between(s, val, parent, first, i, cs, bo) && arena[val].ty == ArrT && arena[val].nVals == i
        && arena[val].len == n
      requires right ==>
        dec.br.Right() && !want.Unsure? && want == ParseElements(Bounds(), c, val, parent, first, i, n, Cur())
      modifies this, dec`lastBo, dec.br
      ensures Valid() && Decodes(s, Now(), val)
      ensures r.Ok? ==> Between(s, val, parent, first, i + 1, cs, bo) && arena[val] == old(arena[val]).(nVals := i + 1)
      ensures r.Ok? && right ==>
        dec.br.Right() && want == ParseElements(Bounds(), c, val, parent, first, i + 1, n, Cur())
      ensures r.Err? && right ==> want == Fails(r.error)
      decreases c, 0, 1
    {
      r := DecodeUncounted(c, val, parent, first, i, n, s, cs, bo, right, want);
      if r.Ok? {
        CountElement(val, s, parent, first, i, cs, bo);
      }
    }

    /** The element itself. */
    method DecodeUncounted(c: Cls, val: Ptr, parent: Ptr, first: Ptr, i: nat, n: nat, ghost s: Snap, ghost cs: seq<Cls>,
                           ghost bo: Option<ByteOrder>, ghost right: bool, ghost want: Outcome)
      returns (r: Result<(), Error>)
      requires WellFormed(c) && Uniform(c, bo) && c.Arr? && i < |cs| == n && cs[i] == c.ele
      requires Between(s, val, parent, first, i, cs, bo)
      requires right ==>
        dec.br.Right() && !want.Unsure? && want == ParseElements(Bounds(), c, val, parent, first, i, n, Cur())
      modifies this, dec`lastBo, dec.br
      ensures Valid() && Decodes(s, Now(), val)
      ensures r.Ok? ==> Between(s, val, parent, first, i + 1, cs, bo) && arena[val] == old(arena[val])
      ensures r.Ok? && right ==>
        dec.br.Right() && want == ParseElements(Bounds(), c, val, parent, first, i + 1, n, Counted(Cur(), val))
      ensures r.Err? && right ==> want == Fails(r.error)
      decreases c, 0, 0
    {
      r := DecodeNext(c.ele, first, i, parent, s, val, cs, bo, right);
    }

    /** `val->d.arr.n_vals++`. */
    method CountElement(val: Ptr, ghost s: Snap, ghost owner: Ptr, ghost first: Ptr, ghost i: nat, ghost cs: seq<Cls>,
                        ghost bo: Option<ByteOrder>)
      requires i < |cs| && Between(s, val, owner, first, i + 1, cs, bo)
      requires arena[val].ty == ArrT && arena[val].nVals == i && arena[val].len == |cs|
      modifies this`arena
      ensures Between(s, val, owner, first, i + 1, cs, bo)
      ensures arena[val] == old(arena[val]).(nVals := i + 1) && Cur() == Counted(old(Cur()), val)
    {
      ghost var t := Now();
      assert PartsOk(arena, val);
      ChangedOk(arena, val, arena[val].(nVals := arena[val].nVals + 1));
      arena := arena[val := arena[val].(nVals := arena[val].nVals + 1)];
      if bo.Some? { StillExact(dec.br.data, t.arena, done, arena, done, val); }
      AmidCounted(s, t, Now(), val, owner, first, i + 1, cs, arena[val]);
    }

    /** Finds a selector field, which is finished. */
    method Selector(loc: FldLoc, val: Ptr) returns (r: Result<Fld, Error>)
      requires Valid() && Pending(val)
      ensures r == SelectorOf(arena, loc, val)
    {
      var f := Locate(loc, val);
      match f {
        case Found(fld) => return Ok(arena[fld]);
        case NotFound => return Err(MissingFldLoc);
        case Aborts => return Err(AssertionFails);
      }
    }

    /** `fld_cls_optional_decode`: the field is decoded exactly if its selector says so, and is left out otherwise. */
    method DecodeOptional(c: Cls, val: Ptr, ghost bo: Option<ByteOrder>, ghost right: bool)
      returns (r: Result<(), Error>)
      requires Valid() && dec.Confined() && Ready(c, val) && WellFormed(c) && c.OptionalOf? && Steady(bo)
        && Uniform(c, bo)
      requires right ==> dec.br.Right()
      modifies this, dec`lastBo, dec.br
      ensures Valid() && Decodes(old(Now()), Now(), val)
      ensures r.Ok? ==> dec.Confined() && Steady(bo) && Built(arena, done, c, val, old(|arena|))
      ensures r.Ok? ==>
        var sel := old(SelectorOf(arena, c.selLoc, val));
        && sel.Ok? && (sel.value.ty == BoolT || c.sel != [])
        && if Present(c.sel, sel.value) then Built(arena, done, c.cls, val, old(|arena|))
           else arena[val].ty == Nil && |arena| == old(|arena|) && Pos() == old(Pos())
      ensures right ==> Agrees(r, ParseAs(Bounds(), c, val, old(Cur())))
      decreases c, 0, 1
    {
      var sel := Selector(c.selLoc, val);
      if sel.Err? {
        return Err(sel.error);
      }
      if sel.value.ty != BoolT && |c.sel| == 0 {
        return Err(NoSelectorFld);
      }
      if Present(c.sel, sel.value) {
        r := Decode(c.cls, val, bo, right);
      } else {
        LeaveOut(c, val, bo);
        return Ok(());
      }
    }

    /** Finishes an optional field that is not there. */
    method LeaveOut(c: Cls, val: Ptr, ghost bo: Option<ByteOrder>)
      requires Valid() && Ready(c, val) && c.OptionalOf? && Steady(bo)
      modifies this
      ensures Valid() && Decodes(old(Now()), Now(), val) && Steady(bo) && Built(arena, done, c, val, old(|arena|))
      ensures Cur() == Finished(old(Cur()), val, Nil, old(arena[val].val)) && arena[val].ty == Nil
    {
      Finish(val, Nil, arena[val].val, bo);
    }

    /** The loop of `fld_cls_variant_decode` over the options. */
    method SelectOpt(opts: seq<VariantOpt>, v: int) returns (r: Option<nat>)
      ensures r == Selected(opts, v)
    {
      r := None;
      var i := 0;
      while i < |opts|
        invariant 0 <= i <= |opts| && r == Selected(opts[..i], v)
      {
        assert opts[..i + 1][..i] == opts[..i];
        if InRngs(opts[i].sel, v) {
          r := Some(i);
        }
        i := i + 1;
      }
      assert opts[..i] == opts;
    }

    /** `fld_cls_variant_decode`: the last option that has the selector's value is decoded. */
    method DecodeVariant(c: Cls, val: Ptr, ghost bo: Option<ByteOrder>, ghost right: bool)
      returns (r: Result<(), Error>)
      requires Valid() && dec.Confined() && Ready(c, val) && WellFormed(c) && c.Variant? && Steady(bo) && Uniform(c, bo)
      requires right ==> dec.br.Right()
      modifies this, dec`lastBo, dec.br
      ensures Valid() && Decodes(old(Now()), Now(), val)
      ensures r.Ok? ==> dec.Confined() && Steady(bo) && Built(arena, done, c, val, old(|arena|))
      ensures r.Ok? ==>
        var sel := old(SelectorOf(arena, c.selLoc, val));
        && sel.Ok? && sel.value.ty != BoolT && Selected(c.opts, sel.value.val).Some?
        && Built(arena, done, c.opts[Selected(c.opts, sel.value.val).value].cls, val, old(|arena|))
      ensures right ==> Agrees(r, ParseAs(Bounds(), c, val, old(Cur())))
      decreases c, 0, 1
    {
      var sel := Selector(c.selLoc, val);
      if sel.Err? {
        return Err(sel.error);
      }
      if sel.value.ty == BoolT {
        return Err(WrongFldType);
      }
      var opt := SelectOpt(c.opts, sel.value.val);
      if opt.None? {
        return Err(NoSelectorFld);
      }
      r := Decode(c.opts[opt.value].cls, val, bo, right);
    }

    /**
      `fld_cls_decode`. A field that decodes is complete and ends within the content of the packet, however deep its
      class; decoding changes nothing but it and fields allocated meanwhile, every field that a location led to was
      finished before it, and if all integers have one byte order they have the values that the stream holds. If the
      reader holds what the stream holds, the outcome is the one that `Parse` gives, unless that is not sure.
     */
    method Decode(c: Cls, val: Ptr, ghost bo: Option<ByteOrder>, ghost right: bool) returns (r: Result<(), Error>)
      requires Valid() && dec.Confined() && Pending(val) && WellFormed(c) && Steady(bo) && Uniform(c, bo)
      requires right ==> dec.br.Right()
      modifies this, dec`lastBo, dec.br
      ensures Valid() && Decodes(old(Now()), Now(), val)
      ensures r.Ok? ==> dec.Confined() && Steady(bo) && Built(arena, done, c, val, old(|arena|))
      ensures right ==> Agrees(r, Parse(Bounds(), c, val, old(Cur())))
      decreases c, 2
    {
      ghost var s := Now();
      Classify(c, val, bo);
      ghost var t := Now();
      r := DecodeAs(c, val, bo, right);
      DecodesOn(s, t, Now(), val, val);
    }

    /** The cases of `fld_cls_decode`. */
    method DecodeAs(c: Cls, val: Ptr, ghost bo: Option<ByteOrder>, ghost right: bool) returns (r: Result<(), Error>)
      requires Valid() && dec.Confined() && Ready(c, val) && WellFormed(c) && Steady(bo) && Uniform(c, bo)
      requires right ==> dec.br.Right()
      modifies this, dec`lastBo, dec.br
      ensures Valid() && Decodes(old(Now()), Now(), val)
      ensures r.Ok? ==> dec.Confined() && Steady(bo) && Built(arena, done, c, val, old(|arena|))
      ensures right ==> Agrees(r, ParseAs(Bounds(), c, val, old(Cur())))
      decreases c, 1
    {
      match c {
        case FxdLen(_, _) =>
          ghost var p;
          r, p := DecodeFxdLen(c, val, bo, right);
        case VarLen(_) => r := DecodeVarLen(c, val, bo, right);
        case Blob(len) => r := DecodeBytes(c, len, val, bo, right);
        case Str(len) => r := DecodeBytes(c, len, val, bo, right);
        case NullTermStr => r := DecodeNullTermStr(c, val, bo, right);
        case Struct(_, _) => r := DecodeStruct(c, val, bo, right);
        case Arr(_, _, _) => r := DecodeArr(c, val, bo, right);
        case OptionalOf(_, _, _) => r := DecodeOptional(c, val, bo, right);
        case Variant(_, _) => r := DecodeVariant(c, val, bo, right);
      }
    }

    /** `actf_event_init`: the four fields of an event, as they are before one is decoded. */
    method InitEvent(ghost bo: Option<ByteOrder>)
      requires Valid() && Steady(bo)
      modifies this
      ensures Valid() && Steady(bo) && KeepsPacket(old(Now()), Now())
      ensures PendingFrom(Now(), 0) && arena == Reset(old(arena))
    {
      ghost var a, d := arena, done;
      arena := Reset(arena);
      done := map i | i in done && !(EVENT <= i < EVENT + 4) :: done[i];
      if bo.Some? { StillExact(dec.br.data, a, d, arena, done, EVENT); }
      ResetOk(a, d, done, Pos());
    }

    /** One of the four parts of an event, if its class has it. */
    method DecodePartOfEvent(c: Option<Cls>, k: nat, ghost bo: Option<ByteOrder>, ghost right: bool)
      returns (r: Result<(), Error>)
      requires Valid() && dec.Confined() && k < 4 && Steady(bo)
      requires c.Some? ==> WellFormed(c.value) && Uniform(c.value, bo)
      requires PendingFrom(Now(), k) && (right ==> dec.br.Right())
      modifies this, dec`lastBo, dec.br
      ensures Valid() && KeepsPacket(old(Now()), Now())
      ensures r.Ok? ==> dec.Confined() && Steady(bo)
      ensures r.Ok? ==> PendingFrom(Now(), k + 1)
      ensures r.Ok? ==> KeepsFirst(old(Now()), Now(), k) && HasPart(arena, done, c, k)
      ensures right ==> Agrees(r, ParsePart(Bounds(), c, k, old(Cur())))
    {
      if c.None? {
        return Ok(());
      }
      ghost var s := Now();
      r := Decode(c.value, EVENT + k, bo, right);
      ghost var t := Now();
      DecodedPart(s, t, k);
      if r.Ok? { BuiltFrom(t.arena, t.done, c.value, EVENT + k, |s.arena|, EVENT + 4); }
    }

    /**
      `actf_decoder_ev_decode`. `idOf` stands for the field of the event header that has the role of the event class id.
      The event class comes from the id, which is taken from the fields as they are behind the header, `hdr`; an event
      that decodes has every part its classes ask for, within the content.
     */
    method DecodeEvent(cls: DstreamCls, idOf: Arena -> nat, ghost bo: Option<ByteOrder>, ghost right: bool)
      returns (r: Result<(), Error>, ghost hdr: Arena)
      requires Valid() && dec.Confined() && ClsOk(cls, bo) && Steady(bo) && (right ==> dec.br.Right())
      modifies this, dec`lastBo, dec.br
      ensures Valid() && KeepsPacket(old(Now()), Now())
      ensures r.Ok? ==> dec.Confined() && Steady(bo)
      ensures r.Ok? ==> EventOf(cls, idOf(hdr), arena, done) && KeepsHeader(hdr, arena)
      ensures right ==> Agrees(r, ParseEvent(Bounds(), cls, idOf, old(Cur())))
    {
      ghost var s, head := Now(), ParseHeader(Bounds(), cls, Cur());
      r := DecodeHeader(cls, bo, right);
      hdr := arena;
      if r.Err? {
        return;
      }
      var id := idOf(arena);
      if id !in cls.events {
        return Err(NoSuchId), hdr;
      }
      r := DecodeRest(cls, id, bo, right && head.Done?);
    }

    /** What an event of class `id` has behind its header. */
    method DecodeRest(cls: DstreamCls, id: nat, ghost bo: Option<ByteOrder>, ghost right: bool)
      returns (r: Result<(), Error>)
      requires Valid() && dec.Confined() && ClsOk(cls, bo) && id in cls.events && Steady(bo)
      requires PendingFrom(Now(), 1) && HasPart(arena, done, cls.eventHdr, 0) && (right ==> dec.br.Right())
      modifies this, dec`lastBo, dec.br
      ensures Valid() && KeepsPacket(old(Now()), Now())
      ensures r.Ok? ==> dec.Confined() && Steady(bo) && EventOf(cls, id, arena, done) && KeepsHeader(old(arena), arena)
      ensures right ==> Agrees(r, ParseParts(Bounds(),
        [cls.eventHdr, cls.commonCtx, cls.events[id].specCtx, cls.events[id].payload], 1, old(Cur())))
    {
      var parts := [cls.eventHdr, cls.commonCtx, cls.events[id].specCtx, cls.events[id].payload];
      assert HasParts(arena, done, parts, 1);
      r := DecodeParts(parts, bo, right);
      if r.Ok? { EventHasParts(cls, id, arena, done, parts); }
    }

    /** The header of an event. */
    method DecodeHeader(cls: DstreamCls, ghost bo: Option<ByteOrder>, ghost right: bool) returns (r: Result<(), Error>)
      requires Valid() && dec.Confined() && PartOk(cls.eventHdr, bo) && Steady(bo) && (right ==> dec.br.Right())
      modifies this, dec`lastBo, dec.br
      ensures Valid() && KeepsPacket(old(Now()), Now())
      ensures r.Ok? ==> dec.Confined() && Steady(bo) && PendingFrom(Now(), 1) && HasPart(arena, done, cls.eventHdr, 0)
      ensures right ==> Agrees(r, ParseHeader(Bounds(), cls, old(Cur())))
    {
      ghost var s := Now();
      InitEvent(bo);
      ghost var t := Now();
      r := DecodePartOfEvent(cls.eventHdr, 0, bo, right);
      KeepsOn(s, t, Now());
    }

    /** The parts of an event behind its header. */
    method DecodeParts(parts: seq<Option<Cls>>, ghost bo: Option<ByteOrder>, ghost right: bool)
      returns (r: Result<(), Error>)
      requires Valid() && dec.Confined() && |parts| == 4 && Steady(bo) && (right ==> dec.br.Right())
      requires forall k | 0 <= k < 4 && parts[k].Some? :: WellFormed(parts[k].value) && Uniform(parts[k].value, bo)
      requires HasParts(arena, done, parts, 1) && PendingFrom(Now(), 1)
      modifies this, dec`lastBo, dec.br
      ensures Valid() && KeepsPacket(old(Now()), Now())
      ensures r.Ok? ==> dec.Confined() && Steady(bo) && HasParts(arena, done, parts, 4)
      ensures r.Ok? ==> KeepsHeader(old(arena), arena)
      ensures right ==> Agrees(r, ParseParts(Bounds(), parts, 1, old(Cur())))
    {
      ghost var s, want := Now(), ParseParts(Bounds(), parts, 1, Cur());
      ghost var sure := right && !want.Unsure?;
      var k := 1;
      while k < 4
        invariant 1 <= k <= 4 && AmidEvent(s, parts, k, bo)
        invariant sure ==> dec.br.Right() && want == ParseParts(Bounds(), parts, k, Cur())
      {
        r := DecodeNextPart(parts, k, s, bo, sure, want);
        if r.Err? {
          return;
        }
        k := k + 1;
      }
      return Ok(());
    }

    /** The state between two parts of an event. */
    ghost predicate AmidEvent(s: Snap, parts: seq<Option<Cls>>, k: nat, bo: Option<ByteOrder>)
      requires k <= |parts|
      reads this, dec, dec.br
    {
      && Valid() && dec.Confined() && Steady(bo) && KeepsPacket(s, Now()) && KeepsHeader(s.arena, arena)
      && HasParts(arena, done, parts, k) && PendingFrom(Now(), k)
    }

    /** One of its parts. */
    method DecodeNextPart(parts: seq<Option<Cls>>, k: nat, ghost s: Snap, ghost bo: Option<ByteOrder>,
                          ghost right: bool, ghost want: Outcome)
      returns (r: Result<(), Error>)
      requires |parts| == 4 && 0 < k < 4 && AmidEvent(s, parts, k, bo)
      requires forall k | 0 <= k < 4 && parts[k].Some? :: WellFormed(parts[k].value) && Uniform(parts[k].value, bo)
      requires right ==> dec.br.Right() && !want.Unsure? && want == ParseParts(Bounds(), parts, k, Cur())
      modifies this, dec`lastBo, dec.br
      ensures Valid() && KeepsPacket(s, Now()) && (r.Ok? ==> AmidEvent(s, parts, k + 1, bo))
      ensures r.Ok? && right ==> dec.br.Right() && want == ParseParts(Bounds(), parts, k + 1, Cur())
      ensures r.Err? && right ==> want == Fails(r.error)
    {
      ghost var t := Now();
      r := DecodePartOfEvent(parts[k], k, bo, right);
      KeepsOn(s, t, Now());
      if r.Ok? { HasPartsOn(t, Now(), parts, k); }
    }

    /**
      The loop of `actf_decoder_pkt_decode` over the events of a packet, at most `cap` of them. `ends` are the positions
      behind the events that decode: they rise, and each of them is within the content of the packet.
     */
    method DecodeEvents(cls: DstreamCls, idOf: Arena -> nat, cap: nat, ghost bo: Option<ByteOrder>, ghost right: bool)
      returns (r: Result<(), Error>, n: nat, full: bool, ghost ends: seq<nat>, ghost last: nat)
      requires Valid() && ClsOk(cls, bo) && Steady(bo) && (right ==> dec.br.Right())
      modifies this, dec`lastBo, dec.br
      ensures Valid() && KeepsPacket(old(Now()), Now())
      ensures n == |ends| <= cap && Rising(ends, old(Pos()), dec.bitOff + dec.contentLen, last)
      ensures r.Ok? ==> Steady(bo) && Pos() == last
      ensures r.Ok? && old(dec.Confined()) ==> dec.Confined()
      ensures r.Ok? ==> (Pos() == dec.br.End() || dec.PktBitsRemaining() == 0 <==> !full) && (full ==> n == cap)
      ensures right ==>
        var (want, count) := ParseEvents(Bounds(), cls, idOf, cap, old(Cur()));
        Agrees(r, want) && (!want.Unsure? ==> n == count)
    {
      assert ClsOk(cls, None);
      ghost var env := Bounds();
      ghost var spec := (k: nat, s: State) => ParseEvents(env, cls, idOf, k, s);
      assert forall k: nat, s: State :: SpecAt(spec, env, cls, idOf, k, s);
      ghost var (want, count) := ParseEvents(env, cls, idOf, cap, Cur());
      r, n, full, ends, last := LoopEvents(cls, idOf, cap, Now(), bo, right && !want.Unsure?, spec, env, want, count);
      if r.Ok? { EventsEnd(cls, idOf, spec, env, cap - n); }
    }

    /** The loop; `spec` is `ParseEvents`, and `want` and `count` what it gives. */
    method LoopEvents(cls: DstreamCls, idOf: Arena -> nat, cap: nat, ghost s: Snap, ghost bo: Option<ByteOrder>,
                      ghost sure: bool, ghost spec: (nat, State) -> (Outcome, nat), ghost env: Env,
                      ghost want: Outcome, ghost count: int)
      returns (r: Result<(), Error>, n: nat, full: bool, ghost ends: seq<nat>, ghost last: nat)
      requires env == Bounds() && Valid() && ClsOk(cls, bo) && Steady(bo) && IsSpec(spec, env, cls, idOf)
      requires KeepsPacket(s, Now()) && s.pos == Pos()
      requires sure ==> dec.br.Right() && !want.Unsure? && spec(cap, Cur()) == (want, count)
      modifies this, dec`lastBo, dec.br
      ensures Valid() && KeepsPacket(s, Now())
      ensures n == |ends| <= cap && Rising(ends, s.pos, dec.bitOff + dec.contentLen, last)
      ensures r.Ok? ==> Steady(bo) && Pos() == last
      ensures r.Ok? ==> (Pos() == dec.br.End() || dec.PktBitsRemaining() == 0 <==> !full) && (full ==> n == cap)
      ensures r.Ok? && sure ==> dec.br.Right() && spec(cap - n, Cur()) == (want, count - n)
      ensures r.Err? && sure ==> want == Fails(r.error) && n == count
    {
      r, n, full, ends, last := Ok(()), 0, false, [], Pos();
      while true
        invariant Valid() && Steady(bo) && KeepsPacket(s, Now()) && r.Ok? && !full && n == |ends| <= cap
        invariant Rising(ends, s.pos, dec.bitOff + dec.contentLen, last) && last == Pos()
        invariant sure ==> dec.br.Right() && spec(cap - n, Cur()) == (want, count - n)
        decreases cap - n
      {
        var has := dec.br.HasBitsRemaining();
        if !has || dec.PktBitsRemaining() == 0 || n >= cap {
          full := has && dec.PktBitsRemaining() > 0;
          break;
        }
        r, ends, last := DecodeNextEvent(cls, idOf, s, ends, bo, sure, spec, env, cap - n, want, count - n);
        if r.Err? {
          return;
        }
        n := n + 1;
      }
    }

    lemma EventsEnd(cls: DstreamCls, idOf: Arena -> nat, spec: (nat, State) -> (Outcome, nat), env: Env, cap: nat)
      requires env == Bounds() && Valid() && ClsOk(cls, None) && IsSpec(spec, env, cls, idOf)
      requires cap == 0 || Pos() >= dec.br.End() || dec.PktBitsRemaining() == 0
      ensures spec(cap, Cur()) == (Done(Cur()), 0)
    {
      SpecEnds(spec, env, cls, idOf, cap, Cur());
    }

    /** One of at most `cap` events; `was` and `ends` are the positions behind the events before and after it. */
    method DecodeNextEvent(cls: DstreamCls, idOf: Arena -> nat, ghost s: Snap, ghost was: seq<nat>,
                           ghost bo: Option<ByteOrder>, ghost right: bool,
                           ghost spec: (nat, State) -> (Outcome, nat), ghost env: Env, ghost cap: nat,
                           ghost want: Outcome, ghost count: int)
      returns (r: Result<(), Error>, ghost ends: seq<nat>, ghost last: nat)
      requires env == Bounds() && Valid() && ClsOk(cls, bo) && Steady(bo) && cap > 0 && IsSpec(spec, env, cls, idOf)
      requires Pos() < dec.br.End() && dec.PktBitsRemaining() > 0 && KeepsPacket(s, Now())
      requires Rising(was, s.pos, dec.bitOff + dec.contentLen, Pos())
      requires right ==> dec.br.Right() && !want.Unsure? && spec(cap, Cur()) == (want, count)
      modifies this, dec`lastBo, dec.br
      ensures Valid() && KeepsPacket(s, Now()) && |ends| == |was| + if r.Ok? then 1 else 0
      ensures Rising(ends, s.pos, dec.bitOff + dec.contentLen, last) && (r.Ok? ==> last == Pos() && Steady(bo))
      ensures r.Ok? && right ==> dec.br.Right() && spec(cap - 1, Cur()) == (want, count - 1)
      ensures r.Err? && right ==> want == Fails(r.error) && count == 0
    {
      ghost var t := Now();
      ends, last := was, Pos();
      r := DecodeSpecified(cls, idOf, bo, right, spec, env, cap, want, count);
      KeepsOn(s, t, Now());
      if r.Ok? {
        RisingOn(was, s.pos, dec.bitOff + dec.contentLen, last, Pos());
        ends, last := was + [Pos()], Pos();
      }
    }

    /** The event itself. */
    method DecodeSpecified(cls: DstreamCls, idOf: Arena -> nat, ghost bo: Option<ByteOrder>, ghost right: bool,
                           ghost spec: (nat, State) -> (Outcome, nat), ghost env: Env, ghost cap: nat,
                           ghost want: Outcome, ghost count: int)
      returns (r: Result<(), Error>)
      requires env == Bounds() && Valid() && ClsOk(cls, bo) && Steady(bo) && cap > 0 && IsSpec(spec, env, cls, idOf)
      requires Pos() < dec.br.End() && dec.PktBitsRemaining() > 0
      requires right ==> dec.br.Right() && !want.Unsure? && spec(cap, Cur()) == (want, count)
      modifies this, dec`lastBo, dec.br
      ensures Valid() && KeepsPacket(old(Now()), Now()) && (r.Ok? ==> dec.Confined() && Steady(bo))
      ensures r.Ok? && right ==> dec.br.Right() && spec(cap - 1, Cur()) == (want, count - 1)
      ensures r.Err? && right ==> want == Fails(r.error) && count == 0
    {
      ghost var hdr;
      if right { SpecStep(spec, env, cls, idOf, cap, Cur()); }
      r, hdr := DecodeEvent(cls, idOf, bo, right);
    }

    /** Where decoding goes on behind a packet of `totLen` bits when the reader is at `p`. */
    ghost function Behind(totLen: nat, p: nat): (q: nat)
      reads dec
      ensures p <= dec.bitOff + totLen <= dec.br.End() ==> q == dec.bitOff + totLen
      ensures p > dec.bitOff + totLen || dec.bitOff + totLen > dec.br.End() ==> q == dec.br.End()
    {
      if p <= dec.bitOff + totLen then Min(dec.bitOff + totLen, dec.br.End()) else dec.br.End()
    }

    /**
      The end of `actf_decoder_pkt_decode` for a packet that tells its lengths: the skip to its end, in 64 bits. If the
      reader is already behind it, the number of bits to skip wraps around, and the rest of the data is skipped.
     */
    method FinishPacket(totLen: nat)
      requires Valid() && totLen < TWO64
      modifies dec.br
      ensures Valid() && Pos() == Behind(totLen, old(Pos()))
    {
      var skipCnt := (dec.bitOff + totLen - Pos()) % TWO64;
      SkipCount(dec.bitOff, totLen, Pos());
      dec.br.ConsumeChecked(skipCnt);
    }

    /**
      A packet of known lengths: either the buffer is full with events left in it, or, wherever its events have ended,
      decoding goes on at its end, or stops with the data; it stops there as well if the packet's header and context
      alone are longer than its total length.
     */
    method DecodePacket(cls: DstreamCls, idOf: Arena -> nat, cap: nat, totLen: nat, ghost bo: Option<ByteOrder>,
                        ghost right: bool)
      returns (r: Result<(), Error>, n: nat, full: bool)
      requires Valid() && ClsOk(cls, bo) && Steady(bo) && (right ==> dec.br.Right())
      requires dec.contentLen <= totLen < TWO64
      modifies this, dec`lastBo, dec.br
      ensures Valid() && n <= cap && KeepsPacket(old(Now()), Now())
      ensures r.Ok? && !full ==> Pos() == Behind(totLen, old(Pos()))
      ensures r.Ok? && full ==> n == cap && Pos() < Min(dec.bitOff + dec.contentLen, dec.br.End())
      ensures right ==>
        match ParseEvents(Bounds(), cls, idOf, cap, old(Cur()))
        case (Done(_), count) => r.Ok? && n == count
        case (Fails(e), count) => r == Err(e) && n == count
        case (Unsure, _) => true
    {
      ghost var ends, last;
      r, n, full, ends, last := DecodeEvents(cls, idOf, cap, bo, right);
      if r.Ok? && !full {
        ghost var s := Now();
        FinishPacket(totLen);
        KeepsOn(old(Now()), s, Now());
      }
    }
  }

  /** The skip to the end of a packet that starts at `off`. */
  lemma SkipCount(off: nat, totLen: nat, pos: nat)
    requires off <= pos < TWO64 && totLen < TWO64
    ensures (off + totLen - pos) % TWO64 == off + totLen - pos + if pos <= off + totLen then 0 else TWO64
  {
  }

  /** An encoding that has been read. */
  lemma VarLenIsEncoded(data: seq<Byte>, at: nat, signed: bool, w: Word, n: nat, end: nat)
    requires Groups(data, at).Some? && 0 < n <= 64
    requires var m := Groups(data, at).value;
      end == 8 * (at + m) && n == Min(7 * m, 64) && (m <= 10 ==> w == Truncated(Payload(data, at, m)))
    ensures Encoded(data, at, signed, VarLenOf(w, n, signed), end)
  {
    var m := Groups(data, at).value;
    if m <= 10 { VarLenOfPayload(data, at, m, signed, w); }
  }
}
