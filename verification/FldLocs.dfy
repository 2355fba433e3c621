/** Structured fields and field locations in decoder.c. */
module FldLocs {
  import opened Arith
  import opened Wrappers
  import FldDecode

  /** The index of a field in the arena; 0 is no field. */
  type Ptr = nat

  const NONE: Ptr := 0

  datatype Origin = Relative | PktHeader | PktCtx | EventHeader | EventCommonCtx | EventSpecificCtx | EventPayload

  /** A field location; a path element without a name means the containing structure. */
  datatype FldLoc = FldLoc(origin: Origin, path: seq<Option<string>>)

  datatype IntKind = Bool | Uint | Sint | NotAnInt

  /** A length that the class tells or that another field holds. */
  datatype Length = Static(n: nat) | Dynamic(loc: FldLoc)

  datatype Rng = Rng(lower: int, upper: int)

  datatype Member = Member(name: string, cls: Cls)

  datatype VariantOpt = VariantOpt(sel: seq<Rng>, cls: Cls)

  /**
    Field classes; a bit array is a `FxdLen` of kind `Uint`, bit maps and floating-point numbers are of kind
    `NotAnInt`.
   */
  datatype Cls =
    | FxdLen(bits: FldDecode.FxdLen, kind: IntKind)
    | VarLen(signed: bool)
    | Blob(len: Length)
    | Str(len: Length)
    | NullTermStr
    | Struct(align: nat, members: seq<Member>)
    | Arr(minAlign: nat, ele: Cls, len: Length)
    | OptionalOf(selLoc: FldLoc, sel: seq<Rng>, cls: Cls)
    | Variant(selLoc: FldLoc, opts: seq<VariantOpt>)

  /** What metadata parsing lets through. */
  ghost predicate WellFormed(c: Cls) {
    match c
    case FxdLen(bits, _) => FldDecode.WellFormed(bits)
    case Struct(align, members) => align > 0 && forall i | 0 <= i < |members| :: WellFormed(members[i].cls)
    case Arr(minAlign, ele, _) => minAlign > 0 && WellFormed(ele)
    case OptionalOf(_, _, cls) => WellFormed(cls)
    case Variant(_, opts) => forall i | 0 <= i < |opts| :: WellFormed(opts[i].cls)
    case _ => true
  }

  /** `actf_fld_cls_get_align_req`. */
  function AlignReq(c: Cls): nat {
    match c
    case FxdLen(bits, _) => bits.align
    case Struct(align, _) => align
    case Arr(minAlign, ele, _) => Max(minAlign, AlignReq(ele))
    case OptionalOf(_, _, _) => 1
    case Variant(_, _) => 1
    case _ => 8
  }

  /** The types of field values, as far as field locations tell them apart. */
  datatype FldType = Nil | BoolT | UintT | SintT | StructT | ArrT | OtherT

  predicate IsLeaf(t: FldType) { t == BoolT || t == UintT || t == SintT }

  function TypeOf(k: IntKind): FldType {
    match k
    case Bool => BoolT
    case Uint => UintT
    case Sint => SintT
    case NotAnInt => OtherT
  }

  /** The type that the value of a decoded field has; an optional field that is left out has none. */
  function TypeOfCls(c: Cls): FldType {
    match c
    case FxdLen(_, kind) => TypeOf(kind)
    case VarLen(signed) => if signed then SintT else UintT
    case Struct(_, _) => StructT
    case Arr(_, _, _) => ArrT
    case OptionalOf(_, _, _) => Nil
    case Variant(_, _) => Nil
    case _ => OtherT
  }

  /**
    `struct actf_fld`: its class and type, the containing structure, the members or elements with where they start,
    how many elements are decoded, and the value of an integer. `len` is the length found for an array.
   */
  datatype Fld = Fld(cls: Option<Cls>, ty: FldType, parent: Ptr, members: seq<string>, first: Ptr, len: nat, nVals: nat,
                     val: int)

  /** A field that has just been allocated. */
  function Fresh(parent: Ptr): Fld {
    Fld(None, Nil, parent, [], 0, 0, 0, 0)
  }

  /** The fields known to the decoder. The six roots of field locations come after the unused field 0. */
  type Arena = seq<Fld>

  const ROOTS: nat := 6

  function RootOf(o: Origin): Ptr {
    match o
    case PktHeader => 1
    case PktCtx => 2
    case EventHeader => 3
    case EventCommonCtx => 4
    case EventSpecificCtx => 5
    case EventPayload => 6
    case Relative => NONE
  }

  /** Where the parts of a field are; parts lie behind the field they belong to. */
  ghost predicate PartsOk(a: Arena, i: Ptr)
    requires i < |a|
  {
    && (a[i].ty == StructT ==> i < a[i].first && a[i].first + |a[i].members| <= |a|)
    && (a[i].ty == ArrT ==> i < a[i].first && a[i].first + a[i].len <= |a| && a[i].nVals <= a[i].len)
    && a[i].parent < |a|
    && (a[i].ty == UintT ==> a[i].val >= 0)
  }

  ghost predicate AllParts(a: Arena) {
    forall i | 0 <= i < |a| :: PartsOk(a, i)
  }

  /** The arena while `done` tells for each finished field where the reader stood when it was finished. */
  ghost predicate ArenaOk(a: Arena, done: map<Ptr, nat>, pos: nat) {
    && |a| > ROOTS
    && AllParts(a)
    && (forall i | 0 <= i < |a| :: IsLeaf(a[i].ty) ==> i in done)
    && forall i | i in done :: i < |a| && done[i] <= pos
  }

  // Field locations, section 6.3.2 of CTF2-SPEC-2.0.

  /** The outcome of locating a field; `Aborts` where the code asserts that a value is a structure. */
  datatype Located = Found(fld: Ptr) | NotFound | Aborts

  /** `get_struct_member`. */
  function MemberIndex(names: seq<string>, name: string): (r: Option<nat>)
    ensures r.Some? ==> r.value < |names| && names[r.value] == name && name !in names[..r.value]
    ensures r.None? ==> name !in names
    decreases |names|
  {
    if names == [] then None
    else if names[0] == name then Some(0)
    else
      var r := MemberIndex(names[1..], name);
      assert r.Some? ==> names[..r.value + 1] == [names[0]] + names[1..][..r.value];
      if r.Some? then Some(r.value + 1) else None
  }

  /** The element of `f` being decoded, and of it in turn while it is an array. */
  function Current(a: Arena, f: Ptr): (r: Option<Ptr>)
    requires f < |a| && AllParts(a)
    ensures r.Some? ==> r.value < |a|
    decreases |a| - f
  {
    assert PartsOk(a, f);
    if a[f].ty != ArrT then Some(f)
    else if a[f].nVals == a[f].len then None
    else Current(a, a[f].first + a[f].nVals)
  }

  /** The field that one path element leads to from `f`. */
  function Next(a: Arena, f: Ptr, step: Option<string>): (r: Located)
    requires f < |a| && AllParts(a)
    ensures r.Found? ==> NONE < r.fld < |a|
  {
    assert PartsOk(a, f);
    match step
    case None => if a[f].parent == NONE then NotFound else Found(a[f].parent)
    case Some(name) =>
      if a[f].ty != StructT then Aborts
      else if MemberIndex(a[f].members, name).None? then NotFound
      else Found(a[f].first + MemberIndex(a[f].members, name).value)
  }

  /** The procedure of the specification, one path element at a time, from the structure `f`. */
  function Walk(a: Arena, f: Ptr, path: seq<Option<string>>): (r: Located)
    requires f < |a| && AllParts(a)
    ensures r.Found? ==> r.fld < |a| && IsLeaf(a[r.fld].ty)
    decreases |path|
  {
    if path == [] then NotFound
    else
      var n := Next(a, f, path[0]);
      if !n.Found? then n
      else if IsLeaf(a[n.fld].ty) then (if |path| == 1 then n else NotFound)
      else if a[n.fld].ty == StructT then Walk(a, n.fld, path[1..])
      else if a[n.fld].ty == ArrT then (
        var e := Current(a, n.fld);
        if e.None? then NotFound else Walk(a, e.value, path[1..]))
      else NotFound
  }

  /** What a location asked for by the field `cur` denotes. */
  function Denoted(a: Arena, loc: FldLoc, cur: Ptr): Located
    requires cur < |a| && |a| > ROOTS && AllParts(a)
  {
    assert PartsOk(a, cur);
    var f := if loc.origin == Relative then a[cur].parent else RootOf(loc.origin);
    if f == NONE || a[f].ty != StructT then NotFound else Walk(a, f, loc.path)
  }

  /**
    Whatever a location denotes was finished before, from bits that the reader has passed; so it is not the asking
    field.
   */
  lemma LocatedIsFinished(a: Arena, done: map<Ptr, nat>, pos: nat, loc: FldLoc, cur: Ptr)
    requires ArenaOk(a, done, pos) && cur < |a| && cur !in done
    ensures var r := Denoted(a, loc, cur);
      r.Found? ==> r.fld != cur && r.fld in done && done[r.fld] <= pos && IsLeaf(a[r.fld].ty)
  {
  }

  /** A location whose last step leads to a field that is not finished never resolves. */
  lemma UnfinishedIsNotFound(a: Arena, done: map<Ptr, nat>, pos: nat, loc: FldLoc, cur: Ptr, f: Ptr)
    requires ArenaOk(a, done, pos) && cur < |a| && f !in done
    ensures Denoted(a, loc, cur) != Found(f)
  {
  }

  /** An array that is being decoded, whose current element is no structure. */
  ghost predicate OddElement(a: Arena, f: Ptr)
    requires AllParts(a)
  {
    f < |a| && a[f].ty == ArrT && Current(a, f).Some? && a[Current(a, f).value].ty != StructT
  }

  /** The code's assertion that a value is a structure fails only below an array whose current element is none. */
  lemma {:induction false} AbortsAtOddElement(a: Arena, f: Ptr, path: seq<Option<string>>)
    requires f < |a| && AllParts(a) && Walk(a, f, path) == Aborts
    ensures a[f].ty != StructT || exists i :: OddElement(a, i)
    decreases |path|
  {
    var n := Next(a, f, path[0]);
    if n.Found? {
      var e := if a[n.fld].ty == ArrT then Current(a, n.fld).value else n.fld;
      AbortsAtOddElement(a, e, path[1..]);
      if a[n.fld].ty == ArrT && a[e].ty != StructT { assert OddElement(a, n.fld); }
    }
  }

  /** So a location never aborts as long as every array being decoded has structures as elements. */
  lemma AbortsOnlyAtOddElement(a: Arena, loc: FldLoc, cur: Ptr)
    requires cur < |a| && |a| > ROOTS && AllParts(a) && Denoted(a, loc, cur) == Aborts
    ensures exists i :: OddElement(a, i)
  {
    assert PartsOk(a, cur);
    AbortsAtOddElement(a, if loc.origin == Relative then a[cur].parent else RootOf(loc.origin), loc.path);
  }
}
