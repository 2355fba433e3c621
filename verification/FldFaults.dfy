/** Why decoding a field fails: what at some place in it is not as its class asks for. */
module FldFaults {
  import opened Arith
  import opened Wrappers
  import opened Bits
  import opened BitReader
  import opened Leb128
  import opened FldLocs
  import opened FldPaths
  import opened FldValues
  import opened FldParse
  import opened FldLaws
  import opened FldLayout
  import FldDecode

  /** The class `d` is `c` or is within it. */
  ghost predicate Contains(c: Cls, d: Cls)
    decreases c
  {
    c == d ||
    match c
    case Struct(_, members) => exists k :: 0 <= k < |members| && Contains(members[k].cls, d)
    case Arr(_, ele, _) => Contains(ele, d)
    case OptionalOf(_, _, cls) => Contains(cls, d)
    case Variant(_, opts) => exists k :: 0 <= k < |opts| && Contains(opts[k].cls, d)
    case _ => false
  }

  /** Something that starts at `p` and ends at `end` is not all in the content and the data. */
  ghost predicate TooLong(env: Env, end: nat) {
    end > env.end || end > 8 * |env.data|
  }

  /** No encoding that starts at byte `at` ends in the content and the data. */
  ghost predicate NoEncoding(env: Env, at: nat) {
    forall m: nat :: Groups(env.data, at) == Some(m) ==> TooLong(env, 8 * (at + m))
  }

  /** No zero byte from byte `at` on is in the content. */
  ghost predicate NoTerminator(env: Env, at: nat) {
    forall k: nat | at <= k < |env.data| && env.data[k] == 0 :: TooLong(env, 8 * (k + 1))
  }

  /** So many bytes from bit `p` on are not all in the content and the data. */
  ghost predicate BytesTooLong(env: Env, len: Length, val: Ptr, a: Arena, p: nat)
    requires val < |a|
  {
    exists n: nat :: IsLength(a, len, val, Ok(n)) && TooLong(env, p + 8 * n)
  }

  /** Why a field of class `c` that starts at `p` does not fit. */
  ghost predicate FaultAt(env: Env, c: Cls, val: Ptr, s: State, e: Error, p: nat)
    requires val < |s.arena|
  {
    match c
    case FxdLen(bits, _) =>
      || (e == NotEnoughBits && TooLong(env, p + bits.len))
      || (e == MidByteEndianSwap && p % 8 != 0 && s.lastBo.Some? && s.lastBo.value != bits.bo)
    case VarLen(_) => e == NotEnoughBits && p % 8 == 0 && NoEncoding(env, p / 8)
    case Blob(len) => e == NotEnoughBits && BytesTooLong(env, len, val, s.arena, p)
    case Str(len) => e == NotEnoughBits && BytesTooLong(env, len, val, s.arena, p)
    case NullTermStr => e == NotEnoughBits && p % 8 == 0 && NoTerminator(env, p / 8)
    case Struct(_, _) => e == NotEnoughBits && p > env.end
    case Arr(_, _, _) => e == NotEnoughBits && p > env.end
    case _ => false
  }

  /** Why the length or the selector of a field of class `c` is of no use. */
  ghost predicate FaultOf(c: Cls, val: Ptr, a: Arena, e: Error)
    requires val < |a|
  {
    match c
    case Blob(len) => IsLength(a, len, val, Err(e))
    case Str(len) => IsLength(a, len, val, Err(e))
    case Arr(_, _, len) => IsLength(a, len, val, Err(e))
    case OptionalOf(loc, sel, _) =>
      || IsSelector(a, loc, val, Err(e))
      || (e == NoSelectorFld && sel == [] && exists f: Fld :: IsSelector(a, loc, val, Ok(f)) && f.ty != BoolT)
    case Variant(loc, opts) =>
      || IsSelector(a, loc, val, Err(e))
      || (e == WrongFldType && exists f: Fld :: IsSelector(a, loc, val, Ok(f)) && f.ty == BoolT)
      || (e == NoSelectorFld &&
          exists f: Fld :: IsSelector(a, loc, val, Ok(f)) && f.ty != BoolT && NoOption(opts, f.val))
    case _ => false
  }

  ghost predicate NoOption(opts: seq<VariantOpt>, v: int) {
    forall k: nat | k < |opts| :: !HasValue(opts[k].sel, v)
  }

  /** The field `val` of class `c` cannot be decoded in the state `s`, and `e` says why. */
  ghost predicate Fault(env: Env, c: Cls, val: Ptr, s: State, e: Error)
    requires WellFormed(c)
  {
    if !Fillable(s, val) then e == AssertionFails
    else FaultOf(c, val, s.arena, e) || exists p: nat :: Starts(env.data, c, s.pos, p) && FaultAt(env, c, val, s, e, p)
  }

  /** A place in a field: a class, the field to be filled, and the state in which that is tried. */
  datatype Place = Place(cls: Cls, val: Ptr, state: State)

  /** At some place in a field of class `c` that is behind `pos` there is the fault `e`. */
  ghost predicate FaultIn(env: Env, c: Cls, pos: nat, e: Error, at: Place) {
    WellFormed(at.cls) && Contains(c, at.cls) && pos <= at.state.pos && Fault(env, at.cls, at.val, at.state, e)
  }

  lemma FxdLenFault(env: Env, c: Cls, val: Ptr, s: State)
    requires WellFormed(c) && PowersOfTwo(c) && c.FxdLen? && Fillable(s, val) && s.pos <= 8 * |env.data|
    requires ParseFxdLen(env, c, val, s).Fails?
    ensures Fault(env, c, val, s, ParseFxdLen(env, c, val, s).error)
  {
    StartIsFirst(env.data, c, s.pos);
    var p := FldDecode.Start(env.data, s.pos, c.bits.align);
    assert FaultAt(env, c, val, s, ParseFxdLen(env, c, val, s).error, p);
  }

  lemma VarLenFault(env: Env, c: Cls, val: Ptr, s: State)
    requires WellFormed(c) && c.VarLen? && Fillable(s, val) && s.pos <= 8 * |env.data|
    requires ParseVarLen(env, c, val, s).Fails?
    ensures Fault(env, c, val, s, ParseVarLen(env, c, val, s).error)
  {
    StartIsFirst(env.data, c, s.pos);
    FldDecode.StartIsByte(env.data, s.pos);
    assert FaultAt(env, c, val, s, NotEnoughBits, FldDecode.Start(env.data, s.pos, 8));
  }

  lemma BytesFault(env: Env, c: Cls, len: Length, val: Ptr, s: State)
    requires WellFormed(c) && (c == Blob(len) || c == Str(len)) && Fillable(s, val) && s.pos <= 8 * |env.data|
    requires ParseBytes(env, LengthOf(s.arena, len, val), val, s).Fails?
    ensures Fault(env, c, val, s, ParseBytes(env, LengthOf(s.arena, len, val), val, s).error)
  {
    var n := LengthOf(s.arena, len, val);
    LengthOfIsLength(s.arena, len, val);
    if n.Ok? {
      StartIsFirst(env.data, c, s.pos);
      assert IsLength(s.arena, len, val, Ok(n.value));
      assert FaultAt(env, c, val, s, NotEnoughBits, FldDecode.Start(env.data, s.pos, 8));
    }
  }

  lemma NullTermStrFault(env: Env, c: Cls, val: Ptr, s: State)
    requires WellFormed(c) && c.NullTermStr? && Fillable(s, val) && s.pos <= 8 * |env.data|
    requires ParseNullTermStr(env, val, s).Fails?
    ensures Fault(env, c, val, s, ParseNullTermStr(env, val, s).error)
  {
    StartIsFirst(env.data, c, s.pos);
    FldDecode.StartIsByte(env.data, s.pos);
    var p := FldDecode.Start(env.data, s.pos, 8);
    var at := p / 8;
    var z := FirstZero(env.data, at);
    var end := if z.None? then |env.data| else z.value;
    forall k: nat | at <= k < |env.data| ensures env.data[k] == 0 ==> TooLong(env, 8 * (k + 1)) {
      if k < end { assert env.data[k] in env.data[at..end]; }
    }
    assert FaultAt(env, c, val, s, NotEnoughBits, p);
  }

  /** A failure has a cause: at some place in the field its class asks for something that is not so. */
  lemma {:induction false} FailsForCause(env: Env, c: Cls, val: Ptr, s: State) returns (at: Place)
    requires WellFormed(c) && PowersOfTwo(c) && s.pos <= 8 * |env.data| && Parse(env, c, val, s).Fails?
    ensures FaultIn(env, c, s.pos, Parse(env, c, val, s).error, at)
    decreases c, 4
  {
    var t := if val < |s.arena| then Classified(s, val, c) else s;
    if !Fillable(s, val) {
      at := Place(c, val, s);
    } else if !Fillable(t, val) {
      at := Place(c, val, t);
    } else {
      at := AsFails(env, c, val, t);
    }
  }

  lemma {:induction false} AsFails(env: Env, c: Cls, val: Ptr, s: State) returns (at: Place)
    requires WellFormed(c) && PowersOfTwo(c) && Fillable(s, val) && s.pos <= 8 * |env.data|
    requires ParseAs(env, c, val, s).Fails?
    ensures FaultIn(env, c, s.pos, ParseAs(env, c, val, s).error, at)
    decreases c, 3
  {
    at := Place(c, val, s);
    match c {
      case FxdLen(_, _) => FxdLenFault(env, c, val, s);
      case VarLen(_) => VarLenFault(env, c, val, s);
      case Blob(len) => BytesFault(env, c, len, val, s);
      case Str(len) => BytesFault(env, c, len, val, s);
      case NullTermStr => NullTermStrFault(env, c, val, s);
      case Struct(_, _) => at := StructFails(env, c, val, s);
      case Arr(_, _, _) => at := ArrFails(env, c, val, s);
      case OptionalOf(_, _, _) => at := OptionalFails(env, c, val, s);
      case Variant(_, _) => at := VariantFails(env, c, val, s);
    }
  }

  lemma {:induction false} StructFails(env: Env, c: Cls, val: Ptr, s: State) returns (at: Place)
    requires WellFormed(c) && PowersOfTwo(c) && c.Struct? && Fillable(s, val) && s.pos <= 8 * |env.data|
    requires ParseAs(env, c, val, s).Fails?
    ensures FaultIn(env, c, s.pos, ParseAs(env, c, val, s).error, at)
    decreases c, 2
  {
    var p := FldDecode.Start(env.data, s.pos, c.align);
    StartMoves(env.data, s.pos, c.align);
    StartIsFirst(env.data, c, s.pos);
    if p > env.end {
      at := Place(c, val, s);
      assert FaultAt(env, c, val, s, NotEnoughBits, p);
    } else {
      at := MembersFail(env, c, val, |s.arena|, 0, Opened(At(s, p), val, StructT, Names(c.members), |c.members|));
    }
  }

  lemma {:induction false} MembersFail(env: Env, c: Cls, val: Ptr, first: Ptr, i: nat, s: State) returns (at: Place)
    requires WellFormed(c) && PowersOfTwo(c) && c.Struct? && s.pos <= 8 * |env.data|
    requires ParseMembers(env, c, val, first, i, s).Fails?
    ensures FaultIn(env, c, s.pos, ParseMembers(env, c, val, first, i, s).error, at)
    decreases c, 1, |c.members| - i
  {
    var o := MembersStep(env, c, val, first, i, s);
    if o.Done? {
      ParseMoves(env, c.members[i].cls, first + i, Adopted(s, first + i, val));
      at := MembersFail(env, c, val, first, i + 1, o.state);
    } else {
      at := FailsForCause(env, c.members[i].cls, first + i, Adopted(s, first + i, val));
    }
  }

  lemma {:induction false} ArrFails(env: Env, c: Cls, val: Ptr, s: State) returns (at: Place)
    requires WellFormed(c) && PowersOfTwo(c) && c.Arr? && Fillable(s, val) && s.pos <= 8 * |env.data|
    requires ParseAs(env, c, val, s).Fails?
    ensures FaultIn(env, c, s.pos, ParseAs(env, c, val, s).error, at)
    decreases c, 2
  {
    AlignReqPositive(c);
    var n, p := LengthOf(s.arena, c.len, val), FldDecode.Start(env.data, s.pos, AlignReq(c));
    LengthOfIsLength(s.arena, c.len, val);
    StartMoves(env.data, s.pos, AlignReq(c));
    StartIsFirst(env.data, c, s.pos);
    if n.Err? {
      at := Place(c, val, s);
    } else if p > env.end {
      at := Place(c, val, s);
      assert FaultAt(env, c, val, s, NotEnoughBits, p);
    } else {
      var t := Opened(At(s, p), val, ArrT, [], n.value);
      at := ElementsFail(env, c, val, s.arena[val].parent, |s.arena|, 0, n.value, t);
    }
  }

  lemma {:induction false} ElementsFail(env: Env, c: Cls, val: Ptr, owner: Ptr, first: Ptr, i: nat, n: nat, s: State)
    returns (at: Place)
    requires WellFormed(c) && PowersOfTwo(c) && c.Arr? && s.pos <= 8 * |env.data|
    requires ParseElements(env, c, val, owner, first, i, n, s).Fails?
    ensures FaultIn(env, c, s.pos, ParseElements(env, c, val, owner, first, i, n, s).error, at)
    decreases c, 1, n - i
  {
    var fault, t := ElementFails(env, c, val, owner, first, i, n, s);
    if fault.Some? {
      at := fault.value;
    } else {
      at := ElementsFail(env, c, val, owner, first, i + 1, n, t);
    }
  }

  /** One element, which fails or is followed by one that does. */
  lemma {:induction false} ElementFails(env: Env, c: Cls, val: Ptr, owner: Ptr, first: Ptr, i: nat, n: nat, s: State)
    returns (fault: Option<Place>, t: State)
    requires WellFormed(c) && PowersOfTwo(c) && c.Arr? && s.pos <= 8 * |env.data|
    requires ParseElements(env, c, val, owner, first, i, n, s).Fails?
    ensures i < n && s.pos <= t.pos <= 8 * |env.data|
    ensures fault.Some? ==>
      FaultIn(env, c, s.pos, ParseElements(env, c, val, owner, first, i, n, s).error, fault.value)
    ensures fault.None? ==>
      ParseElements(env, c, val, owner, first, i, n, s) == ParseElements(env, c, val, owner, first, i + 1, n, t)
    decreases c, 0
  {
    var o;
    o, t := ElementsStep(env, c, val, owner, first, i, n, s);
    if o.Done? {
      ParseMoves(env, c.ele, first + i, Adopted(s, first + i, owner));
      fault := None;
    } else {
      t := s;
      var at := FailsForCause(env, c.ele, first + i, Adopted(s, first + i, owner));
      fault := Some(at);
    }
  }

  lemma {:induction false} OptionalFails(env: Env, c: Cls, val: Ptr, s: State) returns (at: Place)
    requires WellFormed(c) && PowersOfTwo(c) && c.OptionalOf? && Fillable(s, val) && s.pos <= 8 * |env.data|
    requires ParseAs(env, c, val, s).Fails?
    ensures FaultIn(env, c, s.pos, ParseAs(env, c, val, s).error, at)
    decreases c, 2
  {
    var f := SelectorOf(s.arena, c.selLoc, val);
    SelectorOfIsSelector(s.arena, c.selLoc, val);
    at := Place(c, val, s);
    if f.Ok? && (f.value.ty == BoolT || c.sel != []) {
      at := FailsForCause(env, c.cls, val, s);
    }
  }

  lemma NoneSelected(opts: seq<VariantOpt>, v: int)
    requires Selected(opts, v).None?
    ensures NoOption(opts, v)
  {
    forall k: nat | k < |opts| ensures !HasValue(opts[k].sel, v) {
      assert !InRngs(opts[k].sel, v);
    }
  }

  lemma {:induction false} VariantFails(env: Env, c: Cls, val: Ptr, s: State) returns (at: Place)
    requires WellFormed(c) && PowersOfTwo(c) && c.Variant? && Fillable(s, val) && s.pos <= 8 * |env.data|
    requires ParseAs(env, c, val, s).Fails?
    ensures FaultIn(env, c, s.pos, ParseAs(env, c, val, s).error, at)
    decreases c, 2
  {
    var f := SelectorOf(s.arena, c.selLoc, val);
    SelectorOfIsSelector(s.arena, c.selLoc, val);
    at := Place(c, val, s);
    if f.Ok? && f.value.ty != BoolT {
      var k := Selected(c.opts, f.value.val);
      if k.Some? {
        at := FailsForCause(env, c.opts[k.value].cls, val, s);
      } else {
        NoneSelected(c.opts, f.value.val);
      }
    }
  }

  /** `c` is the class of some part of an event. */
  ghost predicate IsPart(cls: DstreamCls, c: Cls) {
    || cls.eventHdr == Some(c) || cls.commonCtx == Some(c)
    || exists id :: id in cls.events && (cls.events[id].specCtx == Some(c) || cls.events[id].payload == Some(c))
  }

  /** The header of an event lies at `pos`, and the fields `hdr` behind it give an id that no event class has. */
  ghost predicate IdUnknown(env: Env, cls: DstreamCls, idOf: Arena -> nat, pos: nat, hdr: Arena) {
    && idOf(hdr) !in cls.events
    && exists x: Extent, end: nat :: RootLies(env.data, hdr, cls.eventHdr, RootOf(EventHeader), x, pos, end)
  }

  /** The parts of an event from part `k` on. */
  lemma {:induction false} PartsFail(env: Env, parts: seq<Option<Cls>>, k: nat, s: State) returns (i: nat, at: Place)
    requires SoundParts(parts) && s.pos <= 8 * |env.data| && ParseParts(env, parts, k, s).Fails?
    ensures i < 4 && parts[i].Some? && FaultIn(env, parts[i].value, s.pos, ParseParts(env, parts, k, s).error, at)
    decreases 4 - k
  {
    var o := ParsePart(env, parts[k], k, s);
    if o.Done? {
      if parts[k].Some? { ParseMoves(env, parts[k].value, EVENT + k, s); }
      i, at := PartsFail(env, parts, k + 1, o.state);
    } else {
      i := k;
      at := FailsForCause(env, parts[k].value, EVENT + k, s);
    }
  }

  /** An event fails for a fault in one of its parts, or for an id that no event class has. */
  lemma EventFailsForCause(env: Env, cls: DstreamCls, idOf: Arena -> nat, s: State)
    returns (hdr: Arena, c: Option<Cls>, at: Place)
    requires ClsOk(cls, None) && AllPowers(cls) && ROOTS < |s.arena| && s.pos <= 8 * |env.data|
    requires ParseEvent(env, cls, idOf, s).Fails?
    ensures var e := ParseEvent(env, cls, idOf, s).error;
      || (e == NoSuchId && IdUnknown(env, cls, idOf, s.pos, hdr))
      || (c.Some? && IsPart(cls, c.value) && FaultIn(env, c.value, s.pos, e, at))
  {
    hdr, c, at := s.arena, None, Place(NullTermStr, NONE, s);
    var r := s.(arena := Reset(s.arena));
    if ParseHeader(env, cls, s).Fails? {
      c := cls.eventHdr;
      at := FailsForCause(env, c.value, EVENT, r);
    } else {
      var x, h := HeaderLaid(env, cls, s);
      hdr := h.arena;
      if idOf(hdr) in cls.events {
        var e := cls.events[idOf(hdr)];
        var parts := [cls.eventHdr, cls.commonCtx, e.specCtx, e.payload];
        var i;
        i, at := PartsFail(env, parts, 1, h);
        c := parts[i];
      }
    }
  }
}
