/** Laws of decoding a field class: what the outcome depends on, and when there is a definite one. */
module FldLaws {
  import opened Arith
  import opened Wrappers
  import opened Bits
  import opened BitReader
  import opened Leb128
  import opened FldLocs
  import opened FldValues
  import opened FldParse
  import FldDecode

  lemma StartMoves(data: seq<Byte>, pos: nat, align: nat)
    requires align > 0 && pos <= 8 * |data|
    ensures pos <= FldDecode.Start(data, pos, align) <= 8 * |data|
  {
    RoundUpLeast(pos, align);
  }

  // Decoding only moves on, and stays within the content and the data.

  /** From `p` decoding has come to `o` without going back or past the end. */
  ghost predicate Within(env: Env, p: nat, o: Outcome) {
    o.Done? ==> p <= o.state.pos <= 8 * |env.data| && (p <= env.end ==> o.state.pos <= env.end)
  }

  lemma {:induction false} ParseMoves(env: Env, c: Cls, val: Ptr, s: State)
    requires WellFormed(c) && s.pos <= 8 * |env.data|
    ensures Within(env, s.pos, Parse(env, c, val, s))
    decreases c, 3
  {
    if Fillable(s, val) {
      var t := Classified(s, val, c);
      if Fillable(t, val) { ParseAsMoves(env, c, val, t); }
    }
  }

  lemma {:induction false} ParseAsMoves(env: Env, c: Cls, val: Ptr, s: State)
    requires WellFormed(c) && Fillable(s, val) && s.pos <= 8 * |env.data|
    ensures Within(env, s.pos, ParseAs(env, c, val, s))
    decreases c, 2
  {
    match c {
      case FxdLen(bits, _) => StartMoves(env.data, s.pos, bits.align);
      case VarLen(_) => VarLenMoves(env, c, val, s);
      case Blob(_) => StartMoves(env.data, s.pos, 8);
      case Str(_) => StartMoves(env.data, s.pos, 8);
      case NullTermStr => NullTermStrMoves(env, val, s);
      case Struct(align, members) =>
        var p := FldDecode.Start(env.data, s.pos, align);
        StartMoves(env.data, s.pos, align);
        MembersMove(env, c, val, |s.arena|, 0, Opened(At(s, p), val, StructT, Names(members), |members|));
      case Arr(_, _, len) =>
        AlignReqPositive(c);
        var n, p := LengthOf(s.arena, len, val), FldDecode.Start(env.data, s.pos, AlignReq(c));
        StartMoves(env.data, s.pos, AlignReq(c));
        if n.Ok? {
          var t := Opened(At(s, p), val, ArrT, [], n.value);
          ElementsMove(env, c, val, s.arena[val].parent, |s.arena|, 0, n.value, t);
        }
      case OptionalOf(_, _, cls) => ParseMoves(env, cls, val, s);
      case Variant(selLoc, opts) =>
        var f := SelectorOf(s.arena, selLoc, val);
        if f.Ok? && Selected(opts, f.value.val).Some? {
          ParseMoves(env, opts[Selected(opts, f.value.val).value].cls, val, s);
        }
    }
  }

  lemma VarLenMoves(env: Env, c: Cls, val: Ptr, s: State)
    requires c.VarLen? && Fillable(s, val) && s.pos <= 8 * |env.data|
    ensures Within(env, s.pos, ParseVarLen(env, c, val, s))
  {
    StartMoves(env.data, s.pos, 8);
    FldDecode.StartIsByte(env.data, s.pos);
  }

  lemma NullTermStrMoves(env: Env, val: Ptr, s: State)
    requires Fillable(s, val) && s.pos <= 8 * |env.data|
    ensures Within(env, s.pos, ParseNullTermStr(env, val, s))
  {
    StartMoves(env.data, s.pos, 8);
    FldDecode.StartIsByte(env.data, s.pos);
  }

  lemma {:induction false} MembersMove(env: Env, c: Cls, val: Ptr, first: Ptr, i: nat, s: State)
    requires WellFormed(c) && c.Struct? && s.pos <= 8 * |env.data|
    ensures Within(env, s.pos, ParseMembers(env, c, val, first, i, s))
    decreases c, 0, |c.members| - i
  {
    if i < |c.members| {
      var o := MembersStep(env, c, val, first, i, s);
      ParseMoves(env, c.members[i].cls, first + i, Adopted(s, first + i, val));
      if o.Done? { MembersMove(env, c, val, first, i + 1, o.state); }
    }
  }

  lemma {:induction false} ElementsMove(env: Env, c: Cls, val: Ptr, owner: Ptr, first: Ptr, i: nat, n: nat, s: State)
    requires WellFormed(c) && c.Arr? && s.pos <= 8 * |env.data|
    ensures Within(env, s.pos, ParseElements(env, c, val, owner, first, i, n, s))
    decreases c, 1, n - i
  {
    if i < n {
      var o, t := ElementMoves(env, c, val, owner, first, i, n, s);
      if o.Done? { ElementsMove(env, c, val, owner, first, i + 1, n, t); }
    }
  }

  lemma {:induction false} ElementMoves(env: Env, c: Cls, val: Ptr, owner: Ptr, first: Ptr, i: nat, n: nat, s: State)
    returns (o: Outcome, t: State)
    requires WellFormed(c) && c.Arr? && i < n && s.pos <= 8 * |env.data|
    ensures Within(env, s.pos, o) && (o.Done? ==> t.pos == o.state.pos)
    ensures ParseElements(env, c, val, owner, first, i, n, s) ==
      if o.Done? then ParseElements(env, c, val, owner, first, i + 1, n, t) else o
    decreases c, 0
  {
    o, t := ElementsStep(env, c, val, owner, first, i, n, s);
    ParseMoves(env, c.ele, first + i, Adopted(s, first + i, owner));
  }

  // The content length only cuts off.

  /**
    The outcomes `a` with content up to `end` and `b` with more of it: the same if what is decoded ends by then, else
    `a` fails.
   */
  ghost predicate CutAt(end: nat, a: Outcome, b: Outcome) {
    (a.Done? <==> b.Done? && b.state.pos <= end) && (a.Done? ==> a == b)
  }

  ghost predicate MoreContent(env: Env, more: Env) {
    env.data == more.data && env.end <= more.end
  }

  /**
    How long the content of the packet is makes no difference to a field but whether it fits: with more content it
    decodes to the same, and with less it fails exactly if it ends behind that.
   */
  lemma {:induction false} ContentCutsOff(env: Env, more: Env, c: Cls, val: Ptr, s: State)
    requires MoreContent(env, more) && WellFormed(c) && s.pos <= env.end && s.pos <= 8 * |env.data|
    ensures CutAt(env.end, Parse(env, c, val, s), Parse(more, c, val, s))
    decreases c, 3
  {
    if Fillable(s, val) {
      var t := Classified(s, val, c);
      if Fillable(t, val) { CutsOffAs(env, more, c, val, t); }
    }
  }

  lemma CutsOffFxdLen(env: Env, more: Env, c: Cls, val: Ptr, s: State)
    requires MoreContent(env, more) && WellFormed(c) && c.FxdLen? && Fillable(s, val)
    ensures CutAt(env.end, ParseFxdLen(env, c, val, s), ParseFxdLen(more, c, val, s))
  {
  }

  lemma CutsOffVarLen(env: Env, more: Env, c: Cls, val: Ptr, s: State)
    requires MoreContent(env, more) && c.VarLen? && Fillable(s, val)
    ensures CutAt(env.end, ParseVarLen(env, c, val, s), ParseVarLen(more, c, val, s))
  {
  }

  lemma {:induction false} CutsOffAs(env: Env, more: Env, c: Cls, val: Ptr, s: State)
    requires MoreContent(env, more) && WellFormed(c) && Fillable(s, val) && s.pos <= env.end && s.pos <= 8 * |env.data|
    ensures CutAt(env.end, ParseAs(env, c, val, s), ParseAs(more, c, val, s))
    decreases c, 2
  {
    match c {
      case FxdLen(_, _) => CutsOffFxdLen(env, more, c, val, s);
      case VarLen(_) => CutsOffVarLen(env, more, c, val, s);
      case Blob(_) =>
      case Str(_) =>
      case NullTermStr =>
      case Struct(align, members) =>
        var p := FldDecode.Start(env.data, s.pos, align);
        StartMoves(env.data, s.pos, align);
        var t := Opened(At(s, p), val, StructT, Names(members), |members|);
        MembersMove(more, c, val, |s.arena|, 0, t);
        if p <= env.end { CutsOffMembers(env, more, c, val, |s.arena|, 0, t); }
      case Arr(_, _, len) =>
        AlignReqPositive(c);
        var n, p := LengthOf(s.arena, len, val), FldDecode.Start(env.data, s.pos, AlignReq(c));
        StartMoves(env.data, s.pos, AlignReq(c));
        if n.Ok? {
          var t := Opened(At(s, p), val, ArrT, [], n.value);
          ElementsMove(more, c, val, s.arena[val].parent, |s.arena|, 0, n.value, t);
          if p <= env.end { CutsOffElements(env, more, c, val, s.arena[val].parent, |s.arena|, 0, n.value, t); }
        }
      case OptionalOf(_, _, cls) => ContentCutsOff(env, more, cls, val, s);
      case Variant(selLoc, opts) =>
        var f := SelectorOf(s.arena, selLoc, val);
        if f.Ok? && Selected(opts, f.value.val).Some? {
          ContentCutsOff(env, more, opts[Selected(opts, f.value.val).value].cls, val, s);
        }
    }
  }

  lemma {:induction false} CutsOffMembers(env: Env, more: Env, c: Cls, val: Ptr, first: Ptr, i: nat, s: State)
    requires MoreContent(env, more) && WellFormed(c) && c.Struct? && s.pos <= env.end && s.pos <= 8 * |env.data|
    ensures CutAt(env.end, ParseMembers(env, c, val, first, i, s), ParseMembers(more, c, val, first, i, s))
    decreases c, 0, |c.members| - i
  {
    if i < |c.members| {
      var t := Adopted(s, first + i, val);
      ContentCutsOff(env, more, c.members[i].cls, first + i, t);
      ParseMoves(more, c.members[i].cls, first + i, t);
      var a := MembersStep(env, c, val, first, i, s);
      var o := MembersStep(more, c, val, first, i, s);
      if o.Done? {
        MembersMove(more, c, val, first, i + 1, o.state);
        if o.state.pos <= env.end { CutsOffMembers(env, more, c, val, first, i + 1, o.state); }
      }
    }
  }

  /** One element with either content. */
  lemma {:induction false} ElementCutsOff(env: Env, more: Env, c: Cls, val: Ptr, owner: Ptr, first: Ptr, i: nat, n: nat,
                                          s: State)
    returns (o: Outcome, t: State)
    requires MoreContent(env, more) && WellFormed(c) && c.Arr? && i < n && s.pos <= env.end && s.pos <= 8 * |env.data|
    ensures o.Done? ==> t.pos == o.state.pos <= 8 * |env.data|
    ensures ParseElements(more, c, val, owner, first, i, n, s) ==
      if o.Done? then ParseElements(more, c, val, owner, first, i + 1, n, t) else o
    ensures if o.Done? && t.pos <= env.end then
        ParseElements(env, c, val, owner, first, i, n, s) == ParseElements(env, c, val, owner, first, i + 1, n, t)
      else !ParseElements(env, c, val, owner, first, i, n, s).Done?
    decreases c, 0
  {
    ContentCutsOff(env, more, c.ele, first + i, Adopted(s, first + i, owner));
    ParseMoves(more, c.ele, first + i, Adopted(s, first + i, owner));
    o := Parse(more, c.ele, first + i, Adopted(s, first + i, owner));
    t := if o.Done? then Counted(o.state, val) else s;
  }

  lemma {:induction false} CutsOffElements(env: Env, more: Env, c: Cls, val: Ptr, owner: Ptr, first: Ptr, i: nat,
                                           n: nat, s: State)
    requires MoreContent(env, more) && WellFormed(c) && c.Arr? && s.pos <= env.end && s.pos <= 8 * |env.data|
    ensures CutAt(env.end, ParseElements(env, c, val, owner, first, i, n, s),
                  ParseElements(more, c, val, owner, first, i, n, s))
    decreases c, 1, n - i
  {
    if i < n {
      var o, t := ElementCutsOff(env, more, c, val, owner, first, i, n, s);
      if o.Done? {
        ElementsMove(more, c, val, owner, first, i + 1, n, t);
        if t.pos <= env.end { CutsOffElements(env, more, c, val, owner, first, i + 1, n, t); }
      }
    }
  }

  // A definite outcome.

  ghost predicate ShortAt(data: seq<Byte>, at: nat) {
    Groups(data, at).Some? ==> Groups(data, at).value <= 10
  }

  /** No encoding in the data has more than ten groups, so C gives all of them a value. */
  ghost predicate ShortEncodings(data: seq<Byte>) {
    forall at: nat :: ShortAt(data, at)
  }

  /** The reader has this byte order or is at a byte boundary. */
  ghost predicate Synced(s: State, bo: ByteOrder) {
    s.bo == bo || s.pos % 8 == 0
  }

  /** There is a definite outcome, behind which the reader is synchronised. */
  ghost predicate Sure(o: Outcome, bo: ByteOrder) {
    match o
    case Done(t) => Synced(t, bo)
    case Fails(_) => true
    case Unsure => false
  }

  lemma StartSynced(data: seq<Byte>, s: State, align: nat, bo: ByteOrder)
    requires Friendly(align) && Synced(s, bo) && s.pos <= 8 * |data|
    ensures Synced(At(s, FldDecode.Start(data, s.pos, align)), bo)
  {
    if s.pos % 8 == 0 { FriendlyStart(data, s.pos, align); }
  }

  /**
    A class whose integers have one byte order has a definite outcome wherever the reader has that order or is at a
    byte.
   */
  lemma {:induction false} OneOrderIsSure(env: Env, c: Cls, bo: ByteOrder, val: Ptr, s: State)
    requires WellFormed(c) && OneOrder(c, bo) && ShortEncodings(env.data) && Synced(s, bo) && s.pos <= 8 * |env.data|
    ensures Sure(Parse(env, c, val, s), bo)
    decreases c, 3
  {
    if Fillable(s, val) {
      var t := Classified(s, val, c);
      if Fillable(t, val) { SureAs(env, c, bo, val, t); }
    }
  }

  lemma SureFxdLen(env: Env, c: Cls, bo: ByteOrder, val: Ptr, s: State)
    requires WellFormed(c) && c.FxdLen? && Fillable(s, val) && OneOrder(c, bo) && Synced(s, bo)
    ensures Sure(ParseFxdLen(env, c, val, s), bo)
  {
  }

  lemma SureVarLen(env: Env, c: Cls, bo: ByteOrder, val: Ptr, s: State)
    requires c.VarLen? && Fillable(s, val) && OneOrder(c, bo) && ShortEncodings(env.data) && Synced(s, bo)
    ensures Sure(ParseVarLen(env, c, val, s), bo)
  {
    assert ShortAt(env.data, FldDecode.Start(env.data, s.pos, 8) / 8);
  }

  lemma SureBytes(env: Env, n: Result<nat, Error>, bo: ByteOrder, val: Ptr, s: State)
    requires Fillable(s, val)
    ensures Sure(ParseBytes(env, n, val, s), bo)
  {
    var o := ParseBytes(env, n, val, s);
    if o.Done? {
      var end := WholeBytes(env.data, s.pos, n.value);
      assert o.state.pos == end;
    }
  }

  lemma WholeBytes(data: seq<Byte>, pos: nat, n: nat) returns (end: nat)
    ensures end == FldDecode.Start(data, pos, 8) + 8 * n && end % 8 == 0
  {
    end := FldDecode.Start(data, pos, 8) + 8 * n;
    FldDecode.StartIsByte(data, pos);
    BytesOn(FldDecode.Start(data, pos, 8), n);
  }

  lemma BytesOn(p: nat, n: nat)
    requires p % 8 == 0
    ensures (p + 8 * n) % 8 == 0
  {
    ModOf(p / 8 + n, 8, 0);
  }

  lemma SureNullTermStr(env: Env, bo: ByteOrder, val: Ptr, s: State)
    requires Fillable(s, val)
    ensures Sure(ParseNullTermStr(env, val, s), bo)
  {
    var o := ParseNullTermStr(env, val, s);
    if o.Done? { BytesOn(0, o.state.pos / 8); }
  }

  lemma SureOpened(env: Env, align: nat, bo: ByteOrder, val: Ptr, ty: FldType, members: seq<string>, n: nat, s: State)
    returns (t: State)
    requires Friendly(align) && val < |s.arena| && Synced(s, bo) && s.pos <= 8 * |env.data|
    ensures t == Opened(At(s, FldDecode.Start(env.data, s.pos, align)), val, ty, members, n)
    ensures Synced(t, bo) && t.pos <= 8 * |env.data|
  {
    StartMoves(env.data, s.pos, align);
    StartSynced(env.data, s, align, bo);
    t := Opened(At(s, FldDecode.Start(env.data, s.pos, align)), val, ty, members, n);
  }

  lemma {:induction false} SureAs(env: Env, c: Cls, bo: ByteOrder, val: Ptr, s: State)
    requires WellFormed(c) && Fillable(s, val) && OneOrder(c, bo) && ShortEncodings(env.data)
    requires Synced(s, bo) && s.pos <= 8 * |env.data|
    ensures Sure(ParseAs(env, c, val, s), bo)
    decreases c, 2
  {
    match c {
      case FxdLen(_, _) => SureFxdLen(env, c, bo, val, s);
      case VarLen(_) => SureVarLen(env, c, bo, val, s);
      case Blob(len) => SureBytes(env, LengthOf(s.arena, len, val), bo, val, s);
      case Str(len) => SureBytes(env, LengthOf(s.arena, len, val), bo, val, s);
      case NullTermStr => SureNullTermStr(env, bo, val, s);
      case Struct(align, members) =>
        var t := SureOpened(env, align, bo, val, StructT, Names(members), |members|, s);
        SureMembers(env, c, bo, val, |s.arena|, 0, t);
      case Arr(_, _, _) => SureArr(env, c, bo, val, s);
      case OptionalOf(_, _, cls) => OneOrderIsSure(env, cls, bo, val, s);
      case Variant(_, _) => SureVariant(env, c, bo, val, s);
    }
  }

  lemma {:induction false} SureArr(env: Env, c: Cls, bo: ByteOrder, val: Ptr, s: State)
    requires WellFormed(c) && c.Arr? && Fillable(s, val) && OneOrder(c, bo) && ShortEncodings(env.data)
    requires Synced(s, bo) && s.pos <= 8 * |env.data|
    ensures Sure(ParseAs(env, c, val, s), bo)
    decreases c, 1
  {
    AlignReqPositive(c);
    var n := LengthOf(s.arena, c.len, val);
    if n.Ok? {
      var t := SureOpened(env, AlignReq(c), bo, val, ArrT, [], n.value, s);
      SureElements(env, c, bo, val, s.arena[val].parent, |s.arena|, 0, n.value, t);
    }
  }

  lemma {:induction false} SureVariant(env: Env, c: Cls, bo: ByteOrder, val: Ptr, s: State)
    requires WellFormed(c) && c.Variant? && Fillable(s, val) && OneOrder(c, bo) && ShortEncodings(env.data)
    requires Synced(s, bo) && s.pos <= 8 * |env.data|
    ensures Sure(ParseAs(env, c, val, s), bo)
    decreases c, 1
  {
    var f := SelectorOf(s.arena, c.selLoc, val);
    if f.Ok? {
      var k := Selected(c.opts, f.value.val);
      if k.Some? { OneOrderIsSure(env, c.opts[k.value].cls, bo, val, s); }
    }
  }

  lemma {:induction false} SureMembers(env: Env, c: Cls, bo: ByteOrder, val: Ptr, first: Ptr, i: nat, s: State)
    requires WellFormed(c) && c.Struct? && OneOrder(c, bo) && ShortEncodings(env.data)
    requires Synced(s, bo) && s.pos <= 8 * |env.data|
    ensures Sure(ParseMembers(env, c, val, first, i, s), bo)
    decreases c, 0, |c.members| - i
  {
    if i < |c.members| {
      var t := Adopted(s, first + i, val);
      OneOrderIsSure(env, c.members[i].cls, bo, first + i, t);
      ParseMoves(env, c.members[i].cls, first + i, t);
      var o := MembersStep(env, c, val, first, i, s);
      if o.Done? { SureMembers(env, c, bo, val, first, i + 1, o.state); }
    }
  }

  lemma {:induction false} SureElement(env: Env, c: Cls, bo: ByteOrder, val: Ptr, owner: Ptr, first: Ptr, i: nat,
                                       n: nat, s: State)
    returns (o: Outcome, t: State)
    requires WellFormed(c) && c.Arr? && OneOrder(c.ele, bo) && ShortEncodings(env.data) && i < n
    requires Synced(s, bo) && s.pos <= 8 * |env.data|
    ensures !o.Unsure? && (o.Done? ==> Synced(t, bo) && t.pos <= 8 * |env.data|)
    ensures ParseElements(env, c, val, owner, first, i, n, s) ==
      if o.Done? then ParseElements(env, c, val, owner, first, i + 1, n, t) else o
    decreases c, 0, 0
  {
    o, t := ElementsStep(env, c, val, owner, first, i, n, s);
    OneOrderIsSure(env, c.ele, bo, first + i, Adopted(s, first + i, owner));
    ParseMoves(env, c.ele, first + i, Adopted(s, first + i, owner));
  }

  lemma {:induction false} SureElements(env: Env, c: Cls, bo: ByteOrder, val: Ptr, owner: Ptr, first: Ptr, i: nat,
                                        n: nat, s: State)
    requires WellFormed(c) && c.Arr? && OneOrder(c.ele, bo) && ShortEncodings(env.data)
    requires Synced(s, bo) && s.pos <= 8 * |env.data|
    ensures Sure(ParseElements(env, c, val, owner, first, i, n, s), bo)
    decreases c, 0, 1, n - i
  {
    if i < n {
      var o, t := SureElement(env, c, bo, val, owner, first, i, n, s);
      if o.Done? { SureElements(env, c, bo, val, owner, first, i + 1, n, t); }
    }
  }

  // The same for events.

  lemma PartIsSure(env: Env, c: Option<Cls>, bo: ByteOrder, k: nat, s: State)
    requires PartOk(c, Some(bo)) && ShortEncodings(env.data) && Synced(s, bo) && s.pos <= 8 * |env.data|
    ensures Sure(ParsePart(env, c, k, s), bo) && Within(env, s.pos, ParsePart(env, c, k, s))
  {
    if c.Some? {
      OneOrderIsSure(env, c.value, bo, EVENT + k, s);
      ParseMoves(env, c.value, EVENT + k, s);
    }
  }

  lemma {:induction false} PartsAreSure(env: Env, parts: seq<Option<Cls>>, bo: ByteOrder, k: nat, s: State)
    requires forall i | 0 <= i < |parts| && parts[i].Some? :: WellFormed(parts[i].value) && OneOrder(parts[i].value, bo)
    requires ShortEncodings(env.data) && Synced(s, bo) && s.pos <= 8 * |env.data|
    ensures Sure(ParseParts(env, parts, k, s), bo)
    decreases |parts| - k
  {
    if k < |parts| {
      PartIsSure(env, parts[k], bo, k, s);
      var o := ParsePart(env, parts[k], k, s);
      if o.Done? { PartsAreSure(env, parts, bo, k + 1, o.state); }
    }
  }

  /**
    So whether an event decodes, and to what, depends on the data, the position, the byte orders and the fields alone.
   */
  lemma OneOrderEventIsSure(env: Env, cls: DstreamCls, bo: ByteOrder, idOf: Arena -> nat, s: State)
    requires ClsOk(cls, Some(bo)) && ClsOk(cls, None)
    requires ShortEncodings(env.data) && Synced(s, bo) && s.pos <= 8 * |env.data|
    ensures Sure(ParseEvent(env, cls, idOf, s), bo)
  {
    if |s.arena| > ROOTS {
      var t := s.(arena := Reset(s.arena));
      PartIsSure(env, cls.eventHdr, bo, 0, t);
      var o := ParseHeader(env, cls, s);
      if o.Done? && idOf(o.state.arena) in cls.events {
        var e := cls.events[idOf(o.state.arena)];
        PartsAreSure(env, [cls.eventHdr, cls.commonCtx, e.specCtx, e.payload], bo, 1, o.state);
      }
    }
  }
}
