/** What decoding a field class makes of the bits at some position, as a function: the specification of FldTree. */
module FldParse {
  import opened Arith
  import opened Wrappers
  import opened Bits
  import opened BitReader
  import opened Leb128
  import opened FldLocs
  import opened FldValues
  import FldDecode

  datatype Error =
    | NotEnoughBits
    | MidByteEndianSwap
    | MissingFldLoc
    | WrongFldType
    | NoSelectorFld
    | NoSuchId
    | AssertionFails

  // Lengths and selectors.

  predicate InRngs(rs: seq<Rng>, v: int) {
    exists i | 0 <= i < |rs| :: rs[i].lower <= v <= rs[i].upper
  }

  /** The option of a variant that the loop over all of them leaves selected: the last that has `v`. */
  function Selected(opts: seq<VariantOpt>, v: int): (r: Option<nat>)
    ensures r.Some? ==> r.value < |opts| && InRngs(opts[r.value].sel, v)
    ensures forall i | (if r.Some? then r.value < i else true) && 0 <= i < |opts| :: !InRngs(opts[i].sel, v)
  {
    if opts == [] then None
    else if InRngs(opts[|opts| - 1].sel, v) then Some(|opts| - 1)
    else Selected(opts[..|opts| - 1], v)
  }

  /** The length that `len` stands for; one held by another field must be unsigned. */
  ghost function LengthOf(a: Arena, len: Length, cur: Ptr): (r: Result<nat, Error>)
    requires cur < |a| && |a| > ROOTS && AllParts(a)
  {
    match len
    case Static(n) => Ok(n)
    case Dynamic(loc) =>
      match Denoted(a, loc, cur)
      case Found(f) =>
        assert PartsOk(a, f);
        if a[f].ty == UintT then Ok(a[f].val) else Err(WrongFldType)
      case NotFound => Err(MissingFldLoc)
      case Aborts => Err(AssertionFails)
  }

  /** The field that selects. */
  ghost function SelectorOf(a: Arena, loc: FldLoc, cur: Ptr): (r: Result<Fld, Error>)
    requires cur < |a| && |a| > ROOTS && AllParts(a)
    ensures r.Ok? ==> IsLeaf(r.value.ty)
  {
    match Denoted(a, loc, cur)
    case Found(f) => Ok(a[f])
    case NotFound => Err(MissingFldLoc)
    case Aborts => Err(AssertionFails)
  }

  /** Whether the selector says that an optional field is there. */
  predicate Present(sel: seq<Rng>, f: Fld) {
    if f.ty == BoolT then f.val != 0 else InRngs(sel, f.val)
  }

  lemma {:induction false} AlignReqPositive(c: Cls)
    requires WellFormed(c)
    ensures AlignReq(c) > 0
  {
  }

  /** The names of a structure's members. */
  function Names(ms: seq<Member>): (s: seq<string>)
    ensures |s| == |ms|
  {
    seq(|ms|, i requires 0 <= i < |ms| => ms[i].name)
  }

  // The outcome.

  /** The data of a stream, and where the content of the packet ends. */
  datatype Env = Env(data: seq<Byte>, end: nat)

  /**
    What decoding depends on: the fields known, the position, and the byte orders of the reader and of the last field.
   */
  datatype State = State(arena: Arena, pos: nat, bo: ByteOrder, lastBo: Option<ByteOrder>)

  /**
    `Unsure` where the outcome depends on more: on what the reader has looked ahead at if its byte order changes in the
    middle of a byte, or on what C makes of an encoding of more than ten groups.
   */
  datatype Outcome = Done(state: State) | Fails(error: Error) | Unsure

  /** The state in which `c` can be asked to fill the field `val`. */
  ghost predicate Fillable(s: State, val: Ptr) {
    ROOTS < |s.arena| && val < |s.arena| && AllParts(s.arena)
  }

  /** The reader has got to `p`. */
  function At(s: State, p: nat): State {
    s.(pos := p)
  }

  /** The field has its type and value. */
  function Finished(s: State, val: Ptr, ty: FldType, v: int): State
    requires val < |s.arena|
  {
    s.(arena := s.arena[val := s.arena[val].(ty := ty, val := v)])
  }

  /** The field has its class. */
  function Classified(s: State, val: Ptr, c: Cls): State
    requires val < |s.arena|
  {
    s.(arena := s.arena[val := s.arena[val].(cls := Some(c))])
  }

  /** The field is a structure or array with `n` new parts. */
  function Opened(s: State, val: Ptr, ty: FldType, members: seq<string>, n: nat): State
    requires val < |s.arena|
  {
    var f := Fld(s.arena[val].cls, ty, s.arena[val].parent, members, |s.arena|, if ty == ArrT then n else 0, 0, 0);
    s.(arena := (s.arena + seq(n, _ => Fresh(NONE)))[val := f])
  }

  /** The part has its containing structure. */
  function Adopted(s: State, part: Ptr, owner: Ptr): State {
    if part < |s.arena| then s.(arena := s.arena[part := s.arena[part].(parent := owner)]) else s
  }

  /** The array has one more element. */
  function Counted(s: State, val: Ptr): State {
    if val < |s.arena| then s.(arena := s.arena[val := s.arena[val].(nVals := s.arena[val].nVals + 1)]) else s
  }

  /** Why a fixed-length field at `p` cannot be decoded. */
  function FxdLenError(env: Env, bits: FldDecode.FxdLen, p: nat, lastBo: Option<ByteOrder>): Option<Error> {
    if p + bits.len > env.end then Some(NotEnoughBits)
    else if lastBo.Some? && lastBo.value != bits.bo && p % 8 != 0 then Some(MidByteEndianSwap)
    else if p + bits.len > 8 * |env.data| then Some(NotEnoughBits)
    else None
  }

  /** A fixed-length integer. */
  ghost function ParseFxdLen(env: Env, c: Cls, val: Ptr, s: State): Outcome
    requires WellFormed(c) && c.FxdLen? && Fillable(s, val)
  {
    var p := FldDecode.Start(env.data, s.pos, c.bits.align);
    var e := FxdLenError(env, c.bits, p, s.lastBo);
    if e.Some? then Fails(e.value)
    else if s.bo != c.bits.bo && s.pos % 8 != 0 then Unsure
    else
      var t := Finished(s, val, TypeOf(c.kind), FxdLenValue(env.data, c.bits, c.kind, p));
      Done(State(t.arena, p + c.bits.len, c.bits.bo, Some(c.bits.bo)))
  }

  lemma FxdLenErrorIs(env: Env, bits: FldDecode.FxdLen, p: nat, lastBo: Option<ByteOrder>, swaps: bool)
    requires swaps <==>
      p + bits.len <= env.end && p % 8 != 0 && lastBo.Some? && lastBo.value != bits.bo
    requires p + bits.len > env.end || p + bits.len > 8 * |env.data| || swaps
    ensures FxdLenError(env, bits, p, lastBo) == Some(if swaps then MidByteEndianSwap else NotEnoughBits)
  {
  }

  lemma FxdLenOutcome(env: Env, c: Cls, val: Ptr, s: State, p: nat)
    requires WellFormed(c) && c.FxdLen? && Fillable(s, val) && p == FldDecode.Start(env.data, s.pos, c.bits.align)
    ensures var e, o := FxdLenError(env, c.bits, p, s.lastBo), ParseFxdLen(env, c, val, s);
      if e.Some? then o == Fails(e.value)
      else if s.bo != c.bits.bo && s.pos % 8 != 0 then o.Unsure?
      else
        && o.Done? && o.state.pos == p + c.bits.len && o.state.bo == c.bits.bo && o.state.lastBo == Some(c.bits.bo)
        && o.state.arena ==
             s.arena[val := s.arena[val].(ty := TypeOf(c.kind), val := FxdLenValue(env.data, c.bits, c.kind, p))]
  {
  }

  /** A variable-length integer. */
  ghost function ParseVarLen(env: Env, c: Cls, val: Ptr, s: State): Outcome
    requires c.VarLen? && Fillable(s, val)
  {
    var at := FldDecode.Start(env.data, s.pos, 8) / 8;
    var m := Groups(env.data, at);
    if s.bo != LilEndian && s.pos % 8 != 0 then Unsure
    else if m.None? || 8 * (at + m.value) > env.end then Fails(NotEnoughBits)
    else if m.value > 10 then Unsure
    else
      var t := Finished(s, val, if c.signed then SintT else UintT, VarLenValue(env.data, at, m.value, c.signed));
      Done(t.(pos := 8 * (at + m.value), bo := LilEndian))
  }

  lemma VarLenOutcome(env: Env, c: Cls, val: Ptr, s: State)
    requires c.VarLen? && Fillable(s, val)
    ensures var at, o := FldDecode.Start(env.data, s.pos, 8) / 8, ParseVarLen(env, c, val, s);
      var m := Groups(env.data, at);
      if s.bo != LilEndian && s.pos % 8 != 0 then o.Unsure?
      else if m.None? || 8 * (at + m.value) > env.end then o == Fails(NotEnoughBits)
      else if m.value > 10 then o.Unsure?
      else
        && o.Done? && o.state.pos == 8 * (at + m.value) && o.state.bo == LilEndian && o.state.lastBo == s.lastBo
        && var v := VarLenValue(env.data, at, m.value, c.signed);
        o.state.arena == s.arena[val := s.arena[val].(ty := if c.signed then SintT else UintT, val := v)]
  {
  }

  /** So many bytes. */
  ghost function ParseBytes(env: Env, n: Result<nat, Error>, val: Ptr, s: State): Outcome
    requires Fillable(s, val)
  {
    if n.Err? then Fails(n.error) else
    var end := FldDecode.Start(env.data, s.pos, 8) + 8 * n.value;
    if end > env.end || end > 8 * |env.data| then Fails(NotEnoughBits)
    else Done(At(Finished(s, val, OtherT, 0), end))
  }

  /** The first zero byte from `from` on. */
  function FirstZero(data: seq<Byte>, from: nat): (r: Option<nat>)
    ensures r.Some? ==> from <= r.value < |data| && data[r.value] == 0 && 0 !in data[from..r.value]
    ensures r.None? && from <= |data| ==> 0 !in data[from..]
    decreases |data| - from
  {
    if from >= |data| then None
    else if data[from] == 0 then Some(from)
    else FirstZero(data, from + 1)
  }

  lemma {:induction false} FirstZeroAt(data: seq<Byte>, from: nat, until: nat)
    requires from <= until <= |data| && 0 !in data[from..until]
    ensures until < |data| && data[until] == 0 ==> FirstZero(data, from) == Some(until)
    ensures FirstZero(data, from).Some? ==> FirstZero(data, from).value >= until
    decreases until - from
  {
    if from < until {
      assert data[from] in data[from..until];
      assert data[from..until][1..] == data[from + 1..until];
      FirstZeroAt(data, from + 1, until);
    }
  }

  /** A string of one-byte units, with its terminator. */
  ghost function ParseNullTermStr(env: Env, val: Ptr, s: State): Outcome
    requires Fillable(s, val)
  {
    var z := FirstZero(env.data, FldDecode.Start(env.data, s.pos, 8) / 8);
    if z.None? || 8 * (z.value + 1) > env.end then Fails(NotEnoughBits)
    else Done(At(Finished(s, val, OtherT, 0), 8 * (z.value + 1)))
  }

  /** A field of class `c`. */
  ghost function Parse(env: Env, c: Cls, val: Ptr, s: State): Outcome
    requires WellFormed(c)
    decreases c, 2
  {
    if !Fillable(s, val) then Fails(AssertionFails) else
    var t := Classified(s, val, c);
    if !Fillable(t, val) then Fails(AssertionFails) else ParseAs(env, c, val, t)
  }

  /** A field that has its class. */
  ghost function ParseAs(env: Env, c: Cls, val: Ptr, s: State): Outcome
    requires WellFormed(c) && Fillable(s, val)
    decreases c, 1
  {
    match c
    case FxdLen(_, _) => ParseFxdLen(env, c, val, s)
    case VarLen(_) => ParseVarLen(env, c, val, s)
    case Blob(len) => ParseBytes(env, LengthOf(s.arena, len, val), val, s)
    case Str(len) => ParseBytes(env, LengthOf(s.arena, len, val), val, s)
    case NullTermStr => ParseNullTermStr(env, val, s)
    case Struct(align, members) =>
      var p := FldDecode.Start(env.data, s.pos, align);
      if p > env.end then Fails(NotEnoughBits)
      else ParseMembers(env, c, val, |s.arena|, 0, Opened(At(s, p), val, StructT, Names(members), |members|))
    case Arr(_, _, len) =>
      var n := LengthOf(s.arena, len, val);
      if n.Err? then Fails(n.error) else
      AlignReqPositive(c);
      var p := FldDecode.Start(env.data, s.pos, AlignReq(c));
      if p > env.end then Fails(NotEnoughBits)
      else
        var t := Opened(At(s, p), val, ArrT, [], n.value);
        ParseElements(env, c, val, s.arena[val].parent, |s.arena|, 0, n.value, t)
    case OptionalOf(selLoc, sel, cls) =>
      var f := SelectorOf(s.arena, selLoc, val);
      if f.Err? then Fails(f.error)
      else if f.value.ty != BoolT && sel == [] then Fails(NoSelectorFld)
      else if Present(sel, f.value) then Parse(env, cls, val, s)
      else Done(Finished(s, val, Nil, s.arena[val].val))
    case Variant(selLoc, opts) =>
      var f := SelectorOf(s.arena, selLoc, val);
      if f.Err? then Fails(f.error)
      else if f.value.ty == BoolT then Fails(WrongFldType)
      else
        var k := Selected(opts, f.value.val);
        if k.None? then Fails(NoSelectorFld) else Parse(env, opts[k.value].cls, val, s)
  }

  /** The members of a structure from the `i`th on. */
  ghost function ParseMembers(env: Env, c: Cls, val: Ptr, first: Ptr, i: nat, s: State): Outcome
    requires WellFormed(c) && c.Struct?
    decreases c, 0, |c.members| - i
  {
    if i >= |c.members| then Done(s)
    else match Parse(env, c.members[i].cls, first + i, Adopted(s, first + i, val))
      case Done(t) => ParseMembers(env, c, val, first, i + 1, t)
      case Fails(e) => Fails(e)
      case Unsure => Unsure
  }

  /** The elements of an array from the `i`th on. */
  ghost function ParseElements(env: Env, c: Cls, val: Ptr, owner: Ptr, first: Ptr, i: nat, n: nat, s: State): Outcome
    requires WellFormed(c) && c.Arr?
    decreases c, 0, n - i
  {
    if i >= n then Done(s)
    else match Parse(env, c.ele, first + i, Adopted(s, first + i, owner))
      case Done(t) => ParseElements(env, c, val, owner, first, i + 1, n, Counted(t, val))
      case Fails(e) => Fails(e)
      case Unsure => Unsure
  }

  /** The parts behind part `i`, if that is decoded. */
  lemma MembersStep(env: Env, c: Cls, val: Ptr, first: Ptr, i: nat, s: State) returns (o: Outcome)
    requires WellFormed(c) && c.Struct? && i < |c.members|
    ensures o == Parse(env, c.members[i].cls, first + i, Adopted(s, first + i, val))
    ensures ParseMembers(env, c, val, first, i, s) ==
      if o.Done? then ParseMembers(env, c, val, first, i + 1, o.state) else o
  {
    o := Parse(env, c.members[i].cls, first + i, Adopted(s, first + i, val));
  }

  /** The elements behind element `i`, if that is decoded, from the state `t` in which the array has counted it. */
  lemma ElementsStep(env: Env, c: Cls, val: Ptr, owner: Ptr, first: Ptr, i: nat, n: nat, s: State)
    returns (o: Outcome, t: State)
    requires WellFormed(c) && c.Arr? && i < n
    ensures o == Parse(env, c.ele, first + i, Adopted(s, first + i, owner))
    ensures o.Done? ==> t.pos == o.state.pos && t.bo == o.state.bo
    ensures ParseElements(env, c, val, owner, first, i, n, s) ==
      if o.Done? then ParseElements(env, c, val, owner, first, i + 1, n, t) else o
  {
    o := Parse(env, c.ele, first + i, Adopted(s, first + i, owner));
    t := if o.Done? then Counted(o.state, val) else s;
  }

  // The events of a packet.

  /** The first of the four roots of an event. */
  const EVENT: Ptr := RootOf(EventHeader)

  datatype EventCls = EventCls(specCtx: Option<Cls>, payload: Option<Cls>)

  /** What a data stream class tells of its events. */
  datatype DstreamCls = DstreamCls(eventHdr: Option<Cls>, commonCtx: Option<Cls>, events: map<nat, EventCls>)

  ghost predicate PartOk(c: Option<Cls>, bo: Option<ByteOrder>) {
    c.Some? ==> WellFormed(c.value) && Uniform(c.value, bo)
  }

  ghost predicate ClsOk(cls: DstreamCls, bo: Option<ByteOrder>) {
    && PartOk(cls.eventHdr, bo) && PartOk(cls.commonCtx, bo)
    && forall id | id in cls.events :: PartOk(cls.events[id].specCtx, bo) && PartOk(cls.events[id].payload, bo)
  }

  /** An event's four fields reset. */
  function Reset(a: Arena): (b: Arena)
    requires |a| > ROOTS
    ensures |b| == |a| && forall i | 0 <= i < |a| :: b[i] == if EVENT <= i < EVENT + 4 then Fresh(NONE) else a[i]
  {
    a[..EVENT] + seq(4, _ => Fresh(NONE)) + a[EVENT + 4..]
  }

  /** Part `k` of an event, if its class has it. */
  ghost function ParsePart(env: Env, c: Option<Cls>, k: nat, s: State): Outcome
    requires c.Some? ==> WellFormed(c.value)
  {
    if c.None? then Done(s) else Parse(env, c.value, EVENT + k, s)
  }

  /** The parts from part `k` on. */
  ghost function ParseParts(env: Env, parts: seq<Option<Cls>>, k: nat, s: State): Outcome
    requires forall i | 0 <= i < |parts| && parts[i].Some? :: WellFormed(parts[i].value)
    decreases |parts| - k
  {
    if k >= |parts| then Done(s)
    else match ParsePart(env, parts[k], k, s)
      case Done(t) => ParseParts(env, parts, k + 1, t)
      case Fails(e) => Fails(e)
      case Unsure => Unsure
  }

  /** The header of an event, whose four fields start afresh. */
  ghost function ParseHeader(env: Env, cls: DstreamCls, s: State): Outcome
    requires PartOk(cls.eventHdr, None)
  {
    if |s.arena| <= ROOTS then Fails(AssertionFails)
    else ParsePart(env, cls.eventHdr, 0, s.(arena := Reset(s.arena)))
  }

  /** An event: its header, and the parts that the event class with the id in the header has. */
  ghost function ParseEvent(env: Env, cls: DstreamCls, idOf: Arena -> nat, s: State): Outcome
    requires ClsOk(cls, None)
  {
    match ParseHeader(env, cls, s)
    case Done(t) =>
      var id := idOf(t.arena);
      if id !in cls.events then Fails(NoSuchId)
      else ParseParts(env, [cls.eventHdr, cls.commonCtx, cls.events[id].specCtx, cls.events[id].payload], 1, t)
    case Fails(e) => Fails(e)
    case Unsure => Unsure
  }

  /** The events of a packet as long as there is content and data, at most `cap`, and how many decode. */
  ghost function ParseEvents(env: Env, cls: DstreamCls, idOf: Arena -> nat, cap: nat, s: State): (Outcome, nat)
    requires ClsOk(cls, None)
    decreases cap
  {
    if cap == 0 || s.pos >= 8 * |env.data| || s.pos >= env.end then (Done(s), 0)
    else match ParseEvent(env, cls, idOf, s)
      case Done(t) =>
        var (o, n) := ParseEvents(env, cls, idOf, cap - 1, t);
        (o, n + 1)
      case Fails(e) => (Fails(e), 0)
      case Unsure => (Unsure, 0)
  }

  lemma EventsStep(env: Env, cls: DstreamCls, idOf: Arena -> nat, cap: nat, s: State)
    requires ClsOk(cls, None) && cap > 0 && s.pos < 8 * |env.data| && s.pos < env.end
    ensures var o, all := ParseEvent(env, cls, idOf, s), ParseEvents(env, cls, idOf, cap, s);
      if o.Done? then
        var rest := ParseEvents(env, cls, idOf, cap - 1, o.state);
        all == (rest.0, rest.1 + 1)
      else all == (o, 0)
  {
  }

  ghost predicate SpecAt(spec: (nat, State) -> (Outcome, nat), env: Env, cls: DstreamCls, idOf: Arena -> nat, k: nat,
                         s: State)
    requires ClsOk(cls, None)
  {
    spec(k, s) == ParseEvents(env, cls, idOf, k, s)
  }

  /** `spec` is what decoding at most so many events comes to. */
  ghost predicate IsSpec(spec: (nat, State) -> (Outcome, nat), env: Env, cls: DstreamCls, idOf: Arena -> nat)
    requires ClsOk(cls, None)
  {
    forall k: nat, s: State :: SpecAt(spec, env, cls, idOf, k, s)
  }

  lemma SpecEnds(spec: (nat, State) -> (Outcome, nat), env: Env, cls: DstreamCls, idOf: Arena -> nat, cap: nat,
                 s: State)
    requires ClsOk(cls, None) && IsSpec(spec, env, cls, idOf)
    requires cap == 0 || s.pos >= 8 * |env.data| || s.pos >= env.end
    ensures spec(cap, s) == (Done(s), 0)
  {
    assert SpecAt(spec, env, cls, idOf, cap, s);
  }

  lemma SpecStep(spec: (nat, State) -> (Outcome, nat), env: Env, cls: DstreamCls, idOf: Arena -> nat, cap: nat,
                 s: State)
    requires ClsOk(cls, None) && IsSpec(spec, env, cls, idOf)
    requires cap > 0 && s.pos < 8 * |env.data| && s.pos < env.end
    ensures var o := ParseEvent(env, cls, idOf, s);
      if o.Done? then spec(cap, s) == (spec(cap - 1, o.state).0, spec(cap - 1, o.state).1 + 1)
      else spec(cap, s) == (o, 0)
  {
    EventsStep(env, cls, idOf, cap, s);
    assert SpecAt(spec, env, cls, idOf, cap, s);
    var o := ParseEvent(env, cls, idOf, s);
    if o.Done? { assert SpecAt(spec, env, cls, idOf, cap - 1, o.state); }
  }
}
