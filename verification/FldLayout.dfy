/** Where decoded fields lie in the stream and what they hold, told of the bits and the fields alone. */
module FldLayout {
  import opened Arith
  import opened Wrappers
  import opened Bits
  import opened BitReader
  import opened FldLocs
  import opened FldPaths
  import opened FldValues
  import opened FldParse
  import opened FldLaws
  import FldDecode

  // Alignment.

  /** Every alignment in the class is a power of two. */
  ghost predicate PowersOfTwo(c: Cls) {
    match c
    case FxdLen(bits, _) => IsPow2(bits.align)
    case Struct(align, members) => IsPow2(align) && forall k | 0 <= k < |members| :: PowersOfTwo(members[k].cls)
    case Arr(minAlign, ele, _) => IsPow2(minAlign) && PowersOfTwo(ele)
    case OptionalOf(_, _, cls) => PowersOfTwo(cls)
    case Variant(_, opts) => forall k | 0 <= k < |opts| :: PowersOfTwo(opts[k].cls)
    case _ => true
  }

  /** Positions that a field of class `c` may start at. */
  ghost predicate Aligned(c: Cls, p: nat)
    requires WellFormed(c)
  {
    match c
    case FxdLen(bits, _) => p % bits.align == 0
    case Struct(align, _) => p % align == 0
    case Arr(minAlign, ele, _) => p % minAlign == 0 && Aligned(ele, p)
    case OptionalOf(_, _, _) => true
    case Variant(_, _) => true
    case _ => p % 8 == 0
  }

  lemma Pow2Divides(p: nat, j: nat, k: nat)
    requires j <= k && p % Pow2(k) == 0
    ensures p % Pow2(j) == 0
  {
    Pow2Add(j, k - j);
    var _ := ModMod(p, Pow2(j), Pow2(k - j), Pow2(k));
    ModOf(0, Pow2(j), 0);
  }

  lemma LargerPow2(p: nat, m: nat, n: nat)
    requires IsPow2(m) && IsPow2(n)
    ensures m > 0 && n > 0 && (p % Max(m, n) == 0 <==> p % m == 0 && p % n == 0)
  {
    var j: nat :| m == Pow2(j);
    var k: nat :| n == Pow2(k);
    if p % Max(m, n) == 0 {
      if m < n {
        if k < j { Pow2Mono(k, j); }
        Pow2Divides(p, j, k);
      } else if n < m {
        if j < k { Pow2Mono(j, k); }
        Pow2Divides(p, k, j);
      }
    }
  }

  /** The alignment that the code takes for a class is that of the positions at which its fields may start. */
  lemma {:induction false} AlignReqIs(c: Cls, p: nat)
    requires WellFormed(c) && PowersOfTwo(c)
    ensures IsPow2(AlignReq(c)) && AlignReq(c) > 0 && (p % AlignReq(c) == 0 <==> Aligned(c, p))
    decreases c
  {
    match c {
      case Arr(minAlign, ele, _) =>
        AlignReqIs(ele, p);
        LargerPow2(p, minAlign, AlignReq(ele));
      case FxdLen(_, _) =>
      case Struct(_, _) =>
      case OptionalOf(_, _, _) => assert Pow2(0) == 1;
      case Variant(_, _) => assert Pow2(0) == 1;
      case _ => assert Pow2(3) == 8;
    }
  }

  /** Multiples of a structure's minimum alignment at which each of its first `n` members may start as well. */
  ghost predicate AllAligned(minAlign: nat, members: seq<Member>, n: nat, p: nat)
    requires minAlign > 0 && n <= |members| && forall k | 0 <= k < n :: WellFormed(members[k].cls)
  {
    p % minAlign == 0 && forall k | 0 <= k < n :: Aligned(members[k].cls, p)
  }

  /**
    `struct_fld_cls_parse`: the alignment of a structure is calculated beforehand, and its positions are those at which
    all of its members may start.
   */
  method StructOf(minAlign: nat, members: seq<Member>) returns (c: Cls)
    requires IsPow2(minAlign) && minAlign > 0
    requires forall k | 0 <= k < |members| :: WellFormed(members[k].cls) && PowersOfTwo(members[k].cls)
    ensures c.Struct? && c.members == members && WellFormed(c) && PowersOfTwo(c)
    ensures forall p: nat :: Aligned(c, p) <==> AllAligned(minAlign, members, |members|, p)
  {
    var align := minAlign;
    for i := 0 to |members|
      invariant align > 0 && IsPow2(align)
      invariant forall p: nat :: AllAligned(minAlign, members, i, p) <==> p % align == 0
    {
      var memberAlign := AlignReq(members[i].cls);
      forall p: nat ensures AllAligned(minAlign, members, i + 1, p) <==> p % Max(memberAlign, align) == 0 {
        AlignReqIs(members[i].cls, p);
        LargerPow2(p, memberAlign, align);
        assert AllAligned(minAlign, members, i + 1, p) <==>
          AllAligned(minAlign, members, i, p) && Aligned(members[i].cls, p);
      }
      AlignReqIs(members[i].cls, 0);
      align := Max(memberAlign, align);
    }
    c := Struct(align, members);
  }

  /** `p` is the first position from `from` on at which a field of class `c` may start; the data may end before one. */
  ghost predicate Starts(data: seq<Byte>, c: Cls, from: nat, p: nat)
    requires WellFormed(c)
  {
    && from <= p <= 8 * |data| && (Aligned(c, p) || p == 8 * |data|)
    && forall q: nat | from <= q < p :: !Aligned(c, q)
  }

  lemma MultiplesApart(q: nat, r: nat, align: nat)
    requires align > 0 && q % align == 0 && r % align == 0 && q < r
    ensures q + align <= r
  {
    var i, j := q / align, r / align;
    assert q == align * i && r == align * j;
    MulCancel(align, i, j);
    MulMono(align, i + 1, j);
    assert align * (i + 1) == align * i + align;
  }

  lemma StartIsFirst(data: seq<Byte>, c: Cls, from: nat)
    requires WellFormed(c) && PowersOfTwo(c) && from <= 8 * |data|
    ensures AlignReq(c) > 0 && Starts(data, c, from, FldDecode.Start(data, from, AlignReq(c)))
  {
    AlignReqIs(c, from);
    var align := AlignReq(c);
    var r, p := RoundUp(from, align), FldDecode.Start(data, from, align);
    RoundUpLeast(from, align);
    AlignReqIs(c, r);
    forall q: nat | from <= q < p ensures !Aligned(c, q) {
      AlignReqIs(c, q);
      if q % align == 0 { MultiplesApart(q, r, align); }
    }
  }

  // What a field holds.

  /**
    Where a field starts and ends, the same for its parts, and the fields that were known when it was begun. What an
    optional field contains, or the option of a variant, is its one part.
   */
  datatype Extent = Extent(start: nat, end: nat, known: Arena, parts: seq<Extent>)

  /** The integers known when the field `i` was begun are the ones in `a`. */
  ghost predicate Knows(known: Arena, a: Arena, i: Ptr) {
    && i < |known| <= |a| && forall j: Ptr | j < |known| && j != i && IsLeaf(known[j].ty) :: a[j] == known[j]
  }

  /** The selector's value says that an optional field is there. */
  ghost predicate Selects(sel: seq<Rng>, f: Fld) {
    if f.ty == BoolT then f.val != 0 else HasValue(sel, f.val)
  }

  ghost predicate HasValue(rs: seq<Rng>, v: int) {
    exists k: nat :: k < |rs| && rs[k].lower <= v <= rs[k].upper
  }

  /** Option `k` has the selector's value and none behind it has. */
  ghost predicate LastWith(opts: seq<VariantOpt>, v: int, k: nat) {
    && k < |opts| && HasValue(opts[k].sel, v)
    && forall j: nat | k < j < |opts| :: !HasValue(opts[j].sel, v)
  }

  /** A leaf of class `c` and type `ty`. */
  ghost predicate IsLeafOf(f: Fld, c: Cls, ty: FldType) {
    f.cls == Some(c) && f.ty == ty
  }

  /** The bytes from bit `start` up to bit `end` are a string with its terminator. */
  ghost predicate ZeroEnds(data: seq<Byte>, start: nat, end: nat) {
    && start < end <= 8 * |data| && start % 8 == 0 && end % 8 == 0
    && forall k: nat | start / 8 <= k < end / 8 :: data[k] == 0 <==> k == end / 8 - 1
  }

  /** The leaf `f` of class `c` holds what the bits of `x` say. */
  ghost predicate LeafHolds(data: seq<Byte>, f: Fld, c: Cls, i: Ptr, x: Extent)
    requires i < |x.known|
  {
    match c
    case FxdLen(bits, kind) =>
      && x.start + bits.len == x.end <= 8 * |data| && f.val == FxdLenValue(data, bits, kind, x.start)
      && IsLeafOf(f, c, match kind case Bool => BoolT case Uint => UintT case Sint => SintT case NotAnInt => OtherT)
    case VarLen(signed) =>
      && x.start % 8 == 0 && Encoded(data, x.start / 8, signed, f.val, x.end)
      && IsLeafOf(f, c, if signed then SintT else UintT)
    case Blob(len) => BytesHeld(f, c, len, i, x)
    case Str(len) => BytesHeld(f, c, len, i, x)
    case NullTermStr => ZeroEnds(data, x.start, x.end) && IsLeafOf(f, c, OtherT)
    case _ => false
  }

  ghost predicate BytesHeld(f: Fld, c: Cls, len: Length, i: Ptr, x: Extent)
    requires i < |x.known|
  {
    IsLeafOf(f, c, OtherT) && exists n: nat :: IsLength(x.known, len, i, Ok(n)) && x.end == x.start + 8 * n
  }

  /**
    From position `from` on the stream holds a field of class `c`, which is field `i` of the arena; all parts of it are
    at `lo` or later.
   */
  ghost predicate Holds(data: seq<Byte>, a: Arena, c: Cls, i: Ptr, x: Extent, from: nat, lo: Ptr)
    requires WellFormed(c)
    decreases c, 1
  {
    i < |a| && Knows(x.known, a, i) && from <= x.start <= x.end <= 8 * |data| && HoldsAs(data, a, c, i, x, from, lo)
  }

  ghost predicate HoldsAs(data: seq<Byte>, a: Arena, c: Cls, i: Ptr, x: Extent, from: nat, lo: Ptr)
    requires WellFormed(c) && i < |a| && i < |x.known|
    decreases c, 0
  {
    match c
    case Struct(_, members) =>
      && Starts(data, c, from, x.start)
      && a[i].ty == StructT && lo <= a[i].first && |a[i].members| == |x.parts| == |members|
      && (forall k | 0 <= k < |members| :: a[i].members[k] == members[k].name)
      && (forall k | 0 <= k < |members| ::
            PartHolds(data, a, members[k].cls, a[i].first, x.start, x.parts, k, |members|, i))
      && x.end == EndOf(x.start, x.parts, |members|)
    case Arr(_, ele, len) =>
      && Starts(data, c, from, x.start)
      && a[i].ty == ArrT && lo <= a[i].first && a[i].nVals == a[i].len == |x.parts|
      && IsLength(x.known, len, i, Ok(|x.parts|))
      && (forall k | 0 <= k < |x.parts| ::
            PartHolds(data, a, ele, a[i].first, x.start, x.parts, k, |x.parts|, a[i].parent))
      && x.end == EndOf(x.start, x.parts, |x.parts|)
    case OptionalOf(selLoc, sel, cls) =>
      exists f: Fld :: IsSelector(x.known, selLoc, i, Ok(f)) && (f.ty == BoolT || sel != []) &&
        if Selects(sel, f) then Passes(x) && Holds(data, a, cls, i, x.parts[0], from, lo)
        else a[i].ty == Nil && x.start == x.end == from && x.parts == []
    case Variant(selLoc, opts) =>
      exists f: Fld, k: nat :: IsSelector(x.known, selLoc, i, Ok(f)) && f.ty != BoolT && LastWith(opts, f.val, k) &&
        Passes(x) && Holds(data, a, opts[k].cls, i, x.parts[0], from, lo)
    case _ => Starts(data, c, from, x.start) && LeafHolds(data, a[i], c, i, x) && x.parts == []
  }

  /** What the extent is of lies where its one part lies. */
  ghost predicate Passes(x: Extent) {
    |x.parts| == 1 && x.start == x.parts[0].start && x.end == x.parts[0].end
  }

  /** Where the first `k` parts end, which start from `from` on. */
  ghost function EndOf(from: nat, parts: seq<Extent>, k: nat): nat
    requires k <= |parts|
  {
    if k == 0 then from else parts[k - 1].end
  }

  /** Part `k` of the `n` from `first` on is held where the one before it ends, and `owner` is its structure. */
  ghost predicate PartHolds(data: seq<Byte>, a: Arena, c: Cls, first: Ptr, from: nat, parts: seq<Extent>, k: nat,
                            n: nat, owner: Ptr)
    requires WellFormed(c) && k < |parts|
    decreases c, 2
  {
    && first + k < |a| && a[first + k].parent == owner
    && Holds(data, a, c, first + k, parts[k], EndOf(from, parts, k), first + n)
  }

  // Decoding changes nothing that is held.

  /** Only field `z` and new fields change. */
  ghost predicate Keeps(a: Arena, b: Arena, z: Ptr) {
    && z < |a| <= |b| && a[z].parent == b[z].parent
    && forall j: Ptr | j < |a| && j != z :: a[j] == b[j]
  }

  /** Nothing of what starts at `lo`, and no integer, changes. */
  ghost predicate Spares(a: Arena, b: Arena, lo: Ptr) {
    && |a| <= |b|
    && forall j: Ptr | j < |a| && (lo <= j || IsLeaf(a[j].ty)) :: a[j] == b[j]
  }

  lemma {:induction false} HoldsStays(data: seq<Byte>, a: Arena, b: Arena, c: Cls, i: Ptr, x: Extent, from: nat,
                                      lo: Ptr)
    requires WellFormed(c) && Holds(data, a, c, i, x, from, lo) && Spares(a, b, lo) && a[i] == b[i]
    ensures Holds(data, b, c, i, x, from, lo)
    decreases c, 0
  {
    match c {
      case Struct(_, members) =>
        forall k | 0 <= k < |members|
          ensures PartHolds(data, b, members[k].cls, a[i].first, x.start, x.parts, k, |members|, i)
        {
          assert PartHolds(data, a, members[k].cls, a[i].first, x.start, x.parts, k, |members|, i);
          PartStays(data, a, b, members[k].cls, a[i].first, x.start, x.parts, k, |members|, i);
        }
      case Arr(_, ele, _) =>
        forall k | 0 <= k < |x.parts|
          ensures PartHolds(data, b, ele, a[i].first, x.start, x.parts, k, |x.parts|, a[i].parent)
        {
          assert PartHolds(data, a, ele, a[i].first, x.start, x.parts, k, |x.parts|, a[i].parent);
          PartStays(data, a, b, ele, a[i].first, x.start, x.parts, k, |x.parts|, a[i].parent);
        }
      case OptionalOf(_, _, cls) =>
        if Passes(x) && Holds(data, a, cls, i, x.parts[0], from, lo) {
          HoldsStays(data, a, b, cls, i, x.parts[0], from, lo);
        }
      case Variant(selLoc, opts) =>
        var f: Fld, k: nat :| IsSelector(x.known, selLoc, i, Ok(f)) && f.ty != BoolT && LastWith(opts, f.val, k) &&
          Passes(x) && Holds(data, a, opts[k].cls, i, x.parts[0], from, lo);
        HoldsStays(data, a, b, opts[k].cls, i, x.parts[0], from, lo);
      case _ =>
    }
  }

  lemma {:induction false} PartStays(data: seq<Byte>, a: Arena, b: Arena, c: Cls, first: Ptr, from: nat,
                                     parts: seq<Extent>, k: nat, n: nat, owner: Ptr)
    requires WellFormed(c) && k < |parts| && PartHolds(data, a, c, first, from, parts, k, n, owner)
    requires Spares(a, b, first + n) && a[first + k] == b[first + k]
    ensures PartHolds(data, b, c, first, from, parts, k, n, owner)
    decreases c, 1
  {
    HoldsStays(data, a, b, c, first + k, parts[k], EndOf(from, parts, k), first + n);
  }

  /** Of parts of the classes `cs` the first are held, one behind another. */
  ghost predicate PartsHold(data: seq<Byte>, a: Arena, cs: seq<Cls>, first: Ptr, from: nat, parts: seq<Extent>,
                            owner: Ptr)
    requires |parts| <= |cs| && forall k | 0 <= k < |cs| :: WellFormed(cs[k])
  {
    forall k | 0 <= k < |parts| :: PartHolds(data, a, cs[k], first, from, parts, k, |cs|, owner)
  }

  /** They stay so when only `z` changes, which is none of them and no integer. */
  lemma PartsKept(data: seq<Byte>, a: Arena, b: Arena, cs: seq<Cls>, first: Ptr, from: nat, parts: seq<Extent>,
                  owner: Ptr, z: Ptr)
    requires |parts| <= |cs| && forall k | 0 <= k < |cs| :: WellFormed(cs[k])
    requires PartsHold(data, a, cs, first, from, parts, owner)
    requires z < |a| <= |b| && !IsLeaf(a[z].ty) && forall j: Ptr | j < |a| && j != z :: a[j] == b[j]
    requires z < first || first + |parts| <= z < first + |cs|
    ensures PartsHold(data, b, cs, first, from, parts, owner)
  {
    forall k | 0 <= k < |parts| ensures PartHolds(data, b, cs[k], first, from, parts, k, |cs|, owner) {
      assert PartHolds(data, a, cs[k], first, from, parts, k, |cs|, owner);
      PartStays(data, a, b, cs[k], first, from, parts, k, |cs|, owner);
    }
  }

  /** Where its parts are at least. */
  lemma {:induction false} HoldsFrom(data: seq<Byte>, a: Arena, c: Cls, i: Ptr, x: Extent, from: nat, lo: Ptr, lo': Ptr)
    requires WellFormed(c) && Holds(data, a, c, i, x, from, lo) && lo' <= lo
    ensures Holds(data, a, c, i, x, from, lo')
    decreases c
  {
    match c {
      case OptionalOf(_, _, cls) =>
        if Passes(x) && Holds(data, a, cls, i, x.parts[0], from, lo) {
          HoldsFrom(data, a, cls, i, x.parts[0], from, lo, lo');
        }
      case Variant(selLoc, opts) =>
        var f: Fld, k: nat :| IsSelector(x.known, selLoc, i, Ok(f)) && f.ty != BoolT && LastWith(opts, f.val, k) &&
          Passes(x) && Holds(data, a, opts[k].cls, i, x.parts[0], from, lo);
        HoldsFrom(data, a, opts[k].cls, i, x.parts[0], from, lo, lo');
      case _ =>
    }
  }

  // What decoding comes to.

  /** The state `t` is `s` with a field of class `c` that is held by the bits between them. */
  ghost predicate Laid(data: seq<Byte>, c: Cls, val: Ptr, s: State, x: Extent, t: State)
    requires WellFormed(c)
  {
    Keeps(s.arena, t.arena, val) && Holds(data, t.arena, c, val, x, s.pos, |s.arena|) && x.end == t.pos
  }

  /** All the classes are admissible. */
  ghost predicate Sound(cs: seq<Cls>) {
    forall k | 0 <= k < |cs| :: WellFormed(cs[k]) && PowersOfTwo(cs[k])
  }

  /**
    `s` stands between two parts of `val`, which is `f` and was in `a0`: `parts` are held from `from` on, and the ones
    of the other classes in `cs` are still to be decoded.
   */
  ghost predicate Amid(data: seq<Byte>, a0: Arena, s: State, val: Ptr, f: Fld, owner: Ptr, first: Ptr, cs: seq<Cls>,
                       from: nat, parts: seq<Extent>)
    requires |parts| <= |cs| && Sound(cs)
  {
    && Keeps(a0, s.arena, val) && |a0| <= first && first + |cs| <= |s.arena|
    && s.arena[val] == f && !IsLeaf(f.ty)
    && from <= s.pos == EndOf(from, parts, |parts|) <= 8 * |data|
    && (forall j: Ptr | first + |parts| <= j < first + |cs| :: s.arena[j].ty == Nil)
    && PartsHold(data, s.arena, cs, first, from, parts, owner)
  }

  lemma AmidAdopted(data: seq<Byte>, a0: Arena, s: State, val: Ptr, f: Fld, owner: Ptr, first: Ptr, cs: seq<Cls>,
                    from: nat, parts: seq<Extent>)
    returns (t: State)
    requires |parts| < |cs| && Sound(cs) && Amid(data, a0, s, val, f, owner, first, cs, from, parts)
    ensures t == Adopted(s, first + |parts|, owner) && t.arena[first + |parts|].parent == owner
    ensures Amid(data, a0, t, val, f, owner, first, cs, from, parts)
  {
    t := Adopted(s, first + |parts|, owner);
    PartsKept(data, s.arena, t.arena, cs, first, from, parts, owner, first + |parts|);
  }

  /** A part of some parts is one of more parts. */
  lemma PartOfMore(data: seq<Byte>, a: Arena, c: Cls, first: Ptr, from: nat, parts: seq<Extent>, more: seq<Extent>,
                   k: nat, n: nat, owner: Ptr)
    requires WellFormed(c) && k < |parts| && PartHolds(data, a, c, first, from, parts, k, n, owner) && parts <= more
    ensures PartHolds(data, a, c, first, from, more, k, n, owner)
  {
    assert parts[k] == more[k] && EndOf(from, parts, k) == EndOf(from, more, k);
  }

  /** The last of some parts. */
  lemma LastPart(data: seq<Byte>, c: Cls, first: Ptr, from: nat, more: seq<Extent>, k: nat, n: nat, owner: Ptr,
                 z: Ptr, s: State, x: Extent, t: State)
    requires WellFormed(c) && k < |more| && more[k] == x && s.pos == EndOf(from, more, k) && z == first + k < |s.arena|
    requires first + n <= |s.arena| && s.arena[z].parent == owner && Laid(data, c, z, s, x, t)
    ensures PartHolds(data, t.arena, c, first, from, more, k, n, owner)
  {
    HoldsFrom(data, t.arena, c, z, x, s.pos, |s.arena|, first + n);
  }

  /** One more part, of class `c` at `z`. */
  lemma PartsAnd(data: seq<Byte>, s: State, cs: seq<Cls>, first: Ptr, from: nat, parts: seq<Extent>, owner: Ptr,
                 c: Cls, z: Ptr, x: Extent, t: State)
    requires |parts| < |cs| && z == first + |parts| && c == cs[|parts|] && forall k | 0 <= k < |cs| :: WellFormed(cs[k])
    requires PartsHold(data, t.arena, cs, first, from, parts, owner) && s.pos == EndOf(from, parts, |parts|)
    requires first + |cs| <= |s.arena| && s.arena[z].parent == owner && Laid(data, c, z, s, x, t)
    ensures PartsHold(data, t.arena, cs, first, from, parts + [x], owner)
  {
    var n, more := |parts|, parts + [x];
    LastPart(data, c, first, from, more, n, |cs|, owner, z, s, x, t);
    forall k | 0 <= k < |more| ensures PartHolds(data, t.arena, cs[k], first, from, more, k, |cs|, owner) {
      if k < n { PartOfMore(data, t.arena, cs[k], first, from, parts, more, k, |cs|, owner); }
    }
  }

  lemma AmidNext(data: seq<Byte>, a0: Arena, s: State, val: Ptr, f: Fld, owner: Ptr, first: Ptr, cs: seq<Cls>,
                 from: nat, parts: seq<Extent>, c: Cls, z: Ptr, x: Extent, t: State)
    requires |parts| < |cs| && Sound(cs) && Amid(data, a0, s, val, f, owner, first, cs, from, parts)
    requires z == first + |parts| && c == cs[|parts|] && s.arena[z].parent == owner && Laid(data, c, z, s, x, t)
    ensures Amid(data, a0, t, val, f, owner, first, cs, from, parts + [x])
  {
    PartsKept(data, s.arena, t.arena, cs, first, from, parts, owner, z);
    PartsAnd(data, s, cs, first, from, parts, owner, c, z, x, t);
  }

  lemma AmidCounted(data: seq<Byte>, a0: Arena, s: State, val: Ptr, f: Fld, owner: Ptr, first: Ptr, cs: seq<Cls>,
                    from: nat, parts: seq<Extent>)
    returns (t: State)
    requires |parts| <= |cs| && Sound(cs) && Amid(data, a0, s, val, f, owner, first, cs, from, parts)
    ensures t == Counted(s, val)
    ensures Amid(data, a0, t, val, f.(nVals := f.nVals + 1), owner, first, cs, from, parts)
  {
    t := Counted(s, val);
    PartsKept(data, s.arena, t.arena, cs, first, from, parts, owner, val);
  }

  /** A field that decodes is held by the bits that it was decoded from, and no other field known before has changed. */
  lemma {:induction false} ParseIsLaid(env: Env, c: Cls, val: Ptr, s: State) returns (x: Extent, t: State)
    requires WellFormed(c) && PowersOfTwo(c) && s.pos <= 8 * |env.data| && Parse(env, c, val, s).Done?
    ensures Parse(env, c, val, s) == Done(t) && Laid(env.data, c, val, s, x, t)
    decreases c, 4
  {
    x, t := LaidAs(env, c, val, Classified(s, val, c));
  }

  lemma {:induction false} LaidAs(env: Env, c: Cls, val: Ptr, s: State) returns (x: Extent, t: State)
    requires WellFormed(c) && PowersOfTwo(c) && Fillable(s, val) && s.pos <= 8 * |env.data|
    requires s.arena[val].cls == Some(c) && ParseAs(env, c, val, s).Done?
    ensures ParseAs(env, c, val, s) == Done(t) && Laid(env.data, c, val, s, x, t)
    decreases c, 3
  {
    match c {
      case FxdLen(_, _) => x, t := LaidFxdLen(env, c, val, s);
      case VarLen(_) => x, t := LaidVarLen(env, c, val, s);
      case Blob(len) => x, t := LaidBytes(env, c, len, val, s);
      case Str(len) => x, t := LaidBytes(env, c, len, val, s);
      case NullTermStr => x, t := LaidNullTermStr(env, c, val, s);
      case Struct(align, members) => x, t := LaidStruct(env, c, val, s);
      case Arr(_, _, _) => x, t := LaidArr(env, c, val, s);
      case OptionalOf(_, _, _) => x, t := LaidOptional(env, c, val, s);
      case Variant(_, _) => x, t := LaidVariant(env, c, val, s);
    }
  }

  lemma LaidFxdLen(env: Env, c: Cls, val: Ptr, s: State) returns (x: Extent, t: State)
    requires WellFormed(c) && PowersOfTwo(c) && c.FxdLen? && Fillable(s, val) && s.pos <= 8 * |env.data|
    requires s.arena[val].cls == Some(c) && ParseFxdLen(env, c, val, s).Done?
    ensures ParseFxdLen(env, c, val, s) == Done(t) && Laid(env.data, c, val, s, x, t)
  {
    t := ParseFxdLen(env, c, val, s).state;
    StartIsFirst(env.data, c, s.pos);
    x := Extent(FldDecode.Start(env.data, s.pos, c.bits.align), t.pos, s.arena, []);
  }

  lemma LaidVarLen(env: Env, c: Cls, val: Ptr, s: State) returns (x: Extent, t: State)
    requires WellFormed(c) && c.VarLen? && Fillable(s, val) && s.pos <= 8 * |env.data|
    requires s.arena[val].cls == Some(c) && ParseVarLen(env, c, val, s).Done?
    ensures ParseVarLen(env, c, val, s) == Done(t) && Laid(env.data, c, val, s, x, t)
  {
    t := ParseVarLen(env, c, val, s).state;
    StartIsFirst(env.data, c, s.pos);
    FldDecode.StartIsByte(env.data, s.pos);
    x := Extent(FldDecode.Start(env.data, s.pos, 8), t.pos, s.arena, []);
  }

  lemma LaidBytes(env: Env, c: Cls, len: Length, val: Ptr, s: State) returns (x: Extent, t: State)
    requires WellFormed(c) && (c == Blob(len) || c == Str(len)) && Fillable(s, val) && s.pos <= 8 * |env.data|
    requires s.arena[val].cls == Some(c) && ParseBytes(env, LengthOf(s.arena, len, val), val, s).Done?
    ensures ParseBytes(env, LengthOf(s.arena, len, val), val, s) == Done(t) && Laid(env.data, c, val, s, x, t)
  {
    var n := LengthOf(s.arena, len, val);
    t := ParseBytes(env, n, val, s).state;
    StartIsFirst(env.data, c, s.pos);
    LengthOfIsLength(s.arena, len, val);
    x := Extent(FldDecode.Start(env.data, s.pos, 8), t.pos, s.arena, []);
    assert BytesHeld(t.arena[val], c, len, val, x) by { assert IsLength(x.known, len, val, Ok(n.value)); }
  }

  lemma LaidNullTermStr(env: Env, c: Cls, val: Ptr, s: State) returns (x: Extent, t: State)
    requires WellFormed(c) && c.NullTermStr? && Fillable(s, val) && s.pos <= 8 * |env.data|
    requires s.arena[val].cls == Some(c) && ParseNullTermStr(env, val, s).Done?
    ensures ParseNullTermStr(env, val, s) == Done(t) && Laid(env.data, c, val, s, x, t)
  {
    t := ParseNullTermStr(env, val, s).state;
    StartIsFirst(env.data, c, s.pos);
    FldDecode.StartIsByte(env.data, s.pos);
    x := Extent(FldDecode.Start(env.data, s.pos, 8), t.pos, s.arena, []);
    var from, z := x.start / 8, t.pos / 8 - 1;
    forall k: nat | from <= k < z + 1 ensures env.data[k] == 0 <==> k == z {
      if k < z { assert env.data[k] in env.data[from..z]; }
    }
  }

  /** The part `z`, of class `c`, which gets its containing structure and is decoded. */
  lemma {:induction false} LaidPart(env: Env, a0: Arena, s: State, val: Ptr, f: Fld, owner: Ptr, first: Ptr,
                                    cs: seq<Cls>, from: nat, parts: seq<Extent>, c: Cls, z: Ptr)
    returns (x: Extent, t: State)
    requires |parts| < |cs| && Sound(cs) && Amid(env.data, a0, s, val, f, owner, first, cs, from, parts)
    requires z == first + |parts| && c == cs[|parts|] && Parse(env, c, z, Adopted(s, z, owner)).Done?
    ensures Parse(env, c, z, Adopted(s, z, owner)) == Done(t)
    ensures Amid(env.data, a0, t, val, f, owner, first, cs, from, parts + [x])
    decreases c, 5
  {
    var u := AmidAdopted(env.data, a0, s, val, f, owner, first, cs, from, parts);
    x, t := ParseIsLaid(env, c, z, u);
    AmidNext(env.data, a0, u, val, f, owner, first, cs, from, parts, c, z, x, t);
  }

  function ClassesOf(members: seq<Member>): (cs: seq<Cls>)
    ensures |cs| == |members| && forall k | 0 <= k < |members| :: cs[k] == members[k].cls
  {
    seq(|members|, k requires 0 <= k < |members| => members[k].cls)
  }

  function Alike(c: Cls, n: nat): (cs: seq<Cls>)
    ensures |cs| == n && forall k | 0 <= k < n :: cs[k] == c
  {
    seq(n, _ => c)
  }

  lemma OpenedAmid(data: seq<Byte>, s: State, val: Ptr, ty: FldType, members: seq<string>, owner: Ptr, cs: seq<Cls>,
                   p: nat)
    returns (t: State)
    requires Sound(cs) && val < |s.arena| && ty in {StructT, ArrT} && p <= 8 * |data|
    ensures t == Opened(At(s, p), val, ty, members, |cs|)
    ensures var f := t.arena[val];
      && f.ty == ty && f.members == members && f.first == |s.arena| && f.parent == s.arena[val].parent
      && f.len == (if ty == ArrT then |cs| else 0) && f.nVals == 0
      && Amid(data, s.arena, t, val, f, owner, |s.arena|, cs, p, [])
  {
    t := Opened(At(s, p), val, ty, members, |cs|);
  }

  lemma {:induction false} LaidStruct(env: Env, c: Cls, val: Ptr, s: State) returns (x: Extent, t: State)
    requires WellFormed(c) && PowersOfTwo(c) && c.Struct? && Fillable(s, val) && s.pos <= 8 * |env.data|
    requires ParseAs(env, c, val, s).Done?
    ensures ParseAs(env, c, val, s) == Done(t) && Laid(env.data, c, val, s, x, t)
    decreases c, 2
  {
    var cs, p := ClassesOf(c.members), FldDecode.Start(env.data, s.pos, c.align);
    StartIsFirst(env.data, c, s.pos);
    var u := OpenedAmid(env.data, s, val, StructT, Names(c.members), val, cs, p);
    var parts;
    parts, t := LaidMembers(env, c, val, s.arena, u.arena[val], cs, p, [], u);
    x := Extent(p, t.pos, s.arena, parts);
    StructHeld(env.data, c, val, s, x, t, u.arena[val], cs);
  }

  lemma StructHeld(data: seq<Byte>, c: Cls, val: Ptr, s: State, x: Extent, t: State, f: Fld, cs: seq<Cls>)
    requires WellFormed(c) && c.Struct? && cs == ClassesOf(c.members) && Sound(cs) && |x.parts| == |cs|
    requires f.ty == StructT && f.members == Names(c.members) && f.first == |s.arena|
    requires Amid(data, s.arena, t, val, f, val, |s.arena|, cs, x.start, x.parts)
    requires Starts(data, c, s.pos, x.start) && x.end == t.pos && x.known == s.arena
    ensures Laid(data, c, val, s, x, t)
  {
    forall k | 0 <= k < |c.members|
      ensures PartHolds(data, t.arena, c.members[k].cls, f.first, x.start, x.parts, k, |c.members|, val)
    {
      assert PartHolds(data, t.arena, cs[k], f.first, x.start, x.parts, k, |cs|, val);
    }
  }

  /** The members that are still to be decoded. */
  lemma {:induction false} LaidMembers(env: Env, c: Cls, val: Ptr, a0: Arena, f: Fld, cs: seq<Cls>, from: nat,
                                       parts: seq<Extent>, s: State)
    returns (all: seq<Extent>, t: State)
    requires WellFormed(c) && c.Struct? && cs == ClassesOf(c.members) && Sound(cs) && |parts| <= |cs|
    requires Amid(env.data, a0, s, val, f, val, f.first, cs, from, parts)
    requires ParseMembers(env, c, val, f.first, |parts|, s).Done?
    ensures ParseMembers(env, c, val, f.first, |parts|, s) == Done(t) && |all| == |cs|
    ensures Amid(env.data, a0, t, val, f, val, f.first, cs, from, all)
    decreases c, 1, |cs| - |parts|
  {
    if |parts| == |cs| {
      all, t := parts, s;
    } else {
      var x, u := LaidMember(env, c, val, a0, f, cs, from, parts, |parts|, s);
      all, t := LaidMembers(env, c, val, a0, f, cs, from, parts + [x], u);
    }
  }

  lemma {:induction false} LaidMember(env: Env, c: Cls, val: Ptr, a0: Arena, f: Fld, cs: seq<Cls>, from: nat,
                                      parts: seq<Extent>, i: nat, s: State)
    returns (x: Extent, t: State)
    requires WellFormed(c) && c.Struct? && cs == ClassesOf(c.members) && Sound(cs) && i == |parts| < |cs|
    requires Amid(env.data, a0, s, val, f, val, f.first, cs, from, parts)
    requires ParseMembers(env, c, val, f.first, i, s).Done?
    ensures Amid(env.data, a0, t, val, f, val, f.first, cs, from, parts + [x])
    ensures ParseMembers(env, c, val, f.first, i, s) == ParseMembers(env, c, val, f.first, i + 1, t)
    decreases c, 0
  {
    var o := MembersStep(env, c, val, f.first, i, s);
    var u;
    x, u := LaidPart(env, a0, s, val, f, val, f.first, cs, from, parts, c.members[i].cls, f.first + i);
    t := o.state;
  }

  lemma {:induction false} LaidArr(env: Env, c: Cls, val: Ptr, s: State) returns (x: Extent, t: State)
    requires WellFormed(c) && PowersOfTwo(c) && c.Arr? && Fillable(s, val) && s.pos <= 8 * |env.data|
    requires ParseAs(env, c, val, s).Done?
    ensures ParseAs(env, c, val, s) == Done(t) && Laid(env.data, c, val, s, x, t)
    decreases c, 2
  {
    AlignReqPositive(c);
    var n, p := LengthOf(s.arena, c.len, val).value, FldDecode.Start(env.data, s.pos, AlignReq(c));
    var cs, owner := Alike(c.ele, n), s.arena[val].parent;
    StartIsFirst(env.data, c, s.pos);
    LengthOfIsLength(s.arena, c.len, val);
    var u := OpenedAmid(env.data, s, val, ArrT, [], owner, cs, p);
    var parts, f;
    parts, f, t := LaidElements(env, c, val, s.arena, u.arena[val], owner, cs, p, [], u);
    x := Extent(p, t.pos, s.arena, parts);
    ArrHeld(env.data, c, val, s, x, t, f, cs);
  }

  lemma ArrHeld(data: seq<Byte>, c: Cls, val: Ptr, s: State, x: Extent, t: State, f: Fld, cs: seq<Cls>)
    requires WellFormed(c) && c.Arr? && cs == Alike(c.ele, |cs|) && Sound(cs) && |x.parts| == |cs|
    requires f.ty == ArrT && f.first == |s.arena| && f.len == f.nVals == |cs|
    requires Amid(data, s.arena, t, val, f, f.parent, |s.arena|, cs, x.start, x.parts)
    requires Starts(data, c, s.pos, x.start) && x.end == t.pos && x.known == s.arena
    requires IsLength(s.arena, c.len, val, Ok(|cs|))
    ensures Laid(data, c, val, s, x, t)
  {
    forall k | 0 <= k < |cs|
      ensures PartHolds(data, t.arena, c.ele, f.first, x.start, x.parts, k, |cs|, f.parent)
    {
      assert PartHolds(data, t.arena, cs[k], f.first, x.start, x.parts, k, |cs|, f.parent);
    }
  }

  /** The elements that are still to be decoded; `f` counts the others. */
  lemma {:induction false} LaidElements(env: Env, c: Cls, val: Ptr, a0: Arena, f: Fld, owner: Ptr, cs: seq<Cls>,
                                        from: nat, parts: seq<Extent>, s: State)
    returns (all: seq<Extent>, g: Fld, t: State)
    requires WellFormed(c) && c.Arr? && cs == Alike(c.ele, |cs|) && Sound(cs) && |parts| <= |cs|
    requires Amid(env.data, a0, s, val, f, owner, f.first, cs, from, parts) && f.nVals == |parts|
    requires ParseElements(env, c, val, owner, f.first, |parts|, |cs|, s).Done?
    ensures ParseElements(env, c, val, owner, f.first, |parts|, |cs|, s) == Done(t) && |all| == |cs|
    ensures g == f.(nVals := |cs|) && Amid(env.data, a0, t, val, g, owner, f.first, cs, from, all)
    decreases c, 1, |cs| - |parts|
  {
    if |parts| == |cs| {
      all, g, t := parts, f, s;
    } else {
      var x, v := LaidElement(env, c, val, a0, f, owner, cs, from, parts, |parts|, s);
      var u := AmidCounted(env.data, a0, v, val, f, owner, f.first, cs, from, parts + [x]);
      all, g, t := LaidElements(env, c, val, a0, f.(nVals := f.nVals + 1), owner, cs, from, parts + [x], u);
    }
  }

  /** The elements from `i` on, once that one is decoded and counted. */
  lemma ElementsGoOn(env: Env, c: Cls, val: Ptr, owner: Ptr, first: Ptr, i: nat, n: nat, s: State) returns (o: Outcome)
    requires WellFormed(c) && c.Arr? && i < n
    ensures o == Parse(env, c.ele, first + i, Adopted(s, first + i, owner))
    ensures ParseElements(env, c, val, owner, first, i, n, s) ==
      if o.Done? then ParseElements(env, c, val, owner, first, i + 1, n, Counted(o.state, val)) else o
  {
    o := Parse(env, c.ele, first + i, Adopted(s, first + i, owner));
  }

  lemma {:induction false} LaidElement(env: Env, c: Cls, val: Ptr, a0: Arena, f: Fld, owner: Ptr, cs: seq<Cls>,
                                       from: nat, parts: seq<Extent>, i: nat, s: State)
    returns (x: Extent, t: State)
    requires WellFormed(c) && c.Arr? && cs == Alike(c.ele, |cs|) && Sound(cs) && i == |parts| < |cs|
    requires Amid(env.data, a0, s, val, f, owner, f.first, cs, from, parts)
    requires ParseElements(env, c, val, owner, f.first, i, |cs|, s).Done?
    ensures Amid(env.data, a0, t, val, f, owner, f.first, cs, from, parts + [x])
    ensures ParseElements(env, c, val, owner, f.first, i, |cs|, s) ==
      ParseElements(env, c, val, owner, f.first, i + 1, |cs|, Counted(t, val))
    decreases c, 0
  {
    var o := ElementsGoOn(env, c, val, owner, f.first, i, |cs|, s);
    assert cs[i] == c.ele;
    var u;
    x, u := LaidPart(env, a0, s, val, f, owner, f.first, cs, from, parts, c.ele, f.first + i);
    t := o.state;
  }

  lemma SelectsIsPresent(sel: seq<Rng>, f: Fld)
    ensures Present(sel, f) <==> Selects(sel, f)
  {
    assert InRngs(sel, f.val) <==> HasValue(sel, f.val);
  }

  lemma {:induction false} LaidOptional(env: Env, c: Cls, val: Ptr, s: State) returns (x: Extent, t: State)
    requires WellFormed(c) && PowersOfTwo(c) && c.OptionalOf? && Fillable(s, val) && s.pos <= 8 * |env.data|
    requires ParseAs(env, c, val, s).Done?
    ensures ParseAs(env, c, val, s) == Done(t) && Laid(env.data, c, val, s, x, t)
    decreases c, 1
  {
    var f := SelectorOf(s.arena, c.selLoc, val).value;
    SelectorOfIsSelector(s.arena, c.selLoc, val);
    SelectsIsPresent(c.sel, f);
    if Selects(c.sel, f) {
      var y;
      y, t := ParseIsLaid(env, c.cls, val, s);
      x := Extent(y.start, y.end, s.arena, [y]);
      StillKnown(s.arena, t.arena, val);
      assert IsSelector(x.known, c.selLoc, val, Ok(f)) && (f.ty == BoolT || c.sel != []) && Passes(x)
        && Holds(env.data, t.arena, c.cls, val, x.parts[0], s.pos, |s.arena|);
    } else {
      t := Finished(s, val, Nil, s.arena[val].val);
      x := Extent(s.pos, s.pos, s.arena, []);
      assert IsSelector(x.known, c.selLoc, val, Ok(f)) && (f.ty == BoolT || c.sel != []);
    }
  }

  lemma StillKnown(a: Arena, b: Arena, z: Ptr)
    requires Keeps(a, b, z)
    ensures Knows(a, b, z)
  {
  }

  lemma SelectedIsLast(opts: seq<VariantOpt>, v: int, k: nat)
    requires Selected(opts, v) == Some(k)
    ensures LastWith(opts, v, k)
  {
    forall j: nat | j < |opts| ensures InRngs(opts[j].sel, v) <==> HasValue(opts[j].sel, v) {}
  }

  lemma {:induction false} LaidVariant(env: Env, c: Cls, val: Ptr, s: State) returns (x: Extent, t: State)
    requires WellFormed(c) && PowersOfTwo(c) && c.Variant? && Fillable(s, val) && s.pos <= 8 * |env.data|
    requires ParseAs(env, c, val, s).Done?
    ensures ParseAs(env, c, val, s) == Done(t) && Laid(env.data, c, val, s, x, t)
    decreases c, 1
  {
    var f := SelectorOf(s.arena, c.selLoc, val).value;
    var k := Selected(c.opts, f.val).value;
    SelectorOfIsSelector(s.arena, c.selLoc, val);
    SelectedIsLast(c.opts, f.val, k);
    var y;
    y, t := ParseIsLaid(env, c.opts[k].cls, val, s);
    x := Extent(y.start, y.end, s.arena, [y]);
    StillKnown(s.arena, t.arena, val);
    assert IsSelector(x.known, c.selLoc, val, Ok(f)) && f.ty != BoolT && LastWith(c.opts, f.val, k) && Passes(x)
      && Holds(env.data, t.arena, c.opts[k].cls, val, x.parts[0], s.pos, |s.arena|);
  }

  // The parts of an event.

  /**
    From `from` up to `end` lies the part of class `c`, which is the root `r`, or nothing if there is no class, and
    then the root is as good as new.
   */
  ghost predicate RootLies(data: seq<Byte>, a: Arena, c: Option<Cls>, r: Ptr, x: Extent, from: nat, end: nat) {
    && r < |a| && a[r].parent == NONE
    && match c
       case None => a[r] == Fresh(NONE) && end == from
       case Some(d) => WellFormed(d) && Holds(data, a, d, r, x, from, ROOTS + 1) && x.end == end
  }

  /** From `ends[0]` up to `ends[4]` lie the parts of an event of class `id`, each behind the one before it. */
  ghost predicate EventLies(data: seq<Byte>, a: Arena, cls: DstreamCls, id: nat, xs: seq<Extent>, ends: seq<nat>) {
    && id in cls.events && |xs| == 4 && |ends| == 5
    && RootLies(data, a, cls.eventHdr, RootOf(EventHeader), xs[0], ends[0], ends[1])
    && RootLies(data, a, cls.commonCtx, RootOf(EventCommonCtx), xs[1], ends[1], ends[2])
    && RootLies(data, a, cls.events[id].specCtx, RootOf(EventSpecificCtx), xs[2], ends[2], ends[3])
    && RootLies(data, a, cls.events[id].payload, RootOf(EventPayload), xs[3], ends[3], ends[4])
  }

  /** Alignments are powers of two in all the classes of a data stream. */
  ghost predicate PowersIn(c: Option<Cls>) { c.Some? ==> PowersOfTwo(c.value) }

  ghost predicate AllPowers(cls: DstreamCls) {
    && PowersIn(cls.eventHdr) && PowersIn(cls.commonCtx)
    && forall id | id in cls.events :: PowersIn(cls.events[id].specCtx) && PowersIn(cls.events[id].payload)
  }

  ghost predicate SoundParts(parts: seq<Option<Cls>>) {
    |parts| == 4 && forall k | 0 <= k < 4 && parts[k].Some? :: WellFormed(parts[k].value) && PowersOfTwo(parts[k].value)
  }

  ghost predicate LiesAt(data: seq<Byte>, a: Arena, parts: seq<Option<Cls>>, xs: seq<Extent>, ends: seq<nat>, k: nat)
    requires k < |parts| && k < |xs| && k + 1 < |ends|
  {
    RootLies(data, a, parts[k], EVENT + k, xs[k], ends[k], ends[k + 1])
  }

  /** The first parts of an event lie one behind another, and the others are still to be decoded. */
  ghost predicate AmidEvent(data: seq<Byte>, s: State, parts: seq<Option<Cls>>, xs: seq<Extent>, ends: seq<nat>)
    requires |parts| == 4
  {
    && |xs| <= 4 && |ends| == |xs| + 1 && ends[|xs|] == s.pos <= 8 * |data| && ROOTS < |s.arena|
    && (forall j | EVENT + |xs| <= j < EVENT + 4 :: s.arena[j] == Fresh(NONE))
    && forall k | 0 <= k < |xs| :: LiesAt(data, s.arena, parts, xs, ends, k)
  }

  lemma RootStays(data: seq<Byte>, a: Arena, b: Arena, c: Option<Cls>, r: Ptr, x: Extent, from: nat, end: nat, z: Ptr)
    requires RootLies(data, a, c, r, x, from, end) && Keeps(a, b, z) && r != z <= ROOTS && !IsLeaf(a[z].ty)
    ensures RootLies(data, b, c, r, x, from, end)
  {
    if c.Some? { HoldsStays(data, a, b, c.value, r, x, from, ROOTS + 1); }
  }

  lemma AmidEventNext(data: seq<Byte>, s: State, t: State, parts: seq<Option<Cls>>, xs: seq<Extent>, ends: seq<nat>,
                      x: Extent, z: Ptr)
    requires |parts| == 4 && AmidEvent(data, s, parts, xs, ends) && |xs| < 4 && z == EVENT + |xs|
    requires Keeps(s.arena, t.arena, z) && t.pos <= 8 * |data|
    requires RootLies(data, t.arena, parts[|xs|], z, x, s.pos, t.pos)
    ensures AmidEvent(data, t, parts, xs + [x], ends + [t.pos])
  {
    var k, more, next := |xs|, xs + [x], ends + [t.pos];
    forall m | 0 <= m < k + 1 ensures LiesAt(data, t.arena, parts, more, next, m) {
      if m < k {
        assert LiesAt(data, s.arena, parts, xs, ends, m);
        RootStays(data, s.arena, t.arena, parts[m], EVENT + m, xs[m], ends[m], ends[m + 1], z);
      }
    }
  }

  /** The next part of an event. */
  lemma RootLaid(env: Env, parts: seq<Option<Cls>>, xs: seq<Extent>, ends: seq<nat>, s: State)
    returns (x: Extent, t: State)
    requires SoundParts(parts) && AmidEvent(env.data, s, parts, xs, ends) && |xs| < 4
    requires ParsePart(env, parts[|xs|], |xs|, s).Done?
    ensures ParsePart(env, parts[|xs|], |xs|, s) == Done(t) && Keeps(s.arena, t.arena, EVENT + |xs|)
    ensures AmidEvent(env.data, t, parts, xs + [x], ends + [t.pos])
  {
    x, t := PartLaid(env, parts[|xs|], |xs|, s);
    AmidEventNext(env.data, s, t, parts, xs, ends, x, EVENT + |xs|);
  }

  lemma PartLaid(env: Env, c: Option<Cls>, k: nat, s: State) returns (x: Extent, t: State)
    requires c.Some? ==> WellFormed(c.value) && PowersOfTwo(c.value)
    requires k < 4 && ROOTS < |s.arena| && s.pos <= 8 * |env.data| && s.arena[EVENT + k] == Fresh(NONE)
    requires ParsePart(env, c, k, s).Done?
    ensures ParsePart(env, c, k, s) == Done(t) && Keeps(s.arena, t.arena, EVENT + k) && t.pos <= 8 * |env.data|
    ensures RootLies(env.data, t.arena, c, EVENT + k, x, s.pos, t.pos)
  {
    if c.None? {
      x, t := Extent(0, 0, [], []), s;
    } else {
      x, t := ParseIsLaid(env, c.value, EVENT + k, s);
      HoldsFrom(env.data, t.arena, c.value, EVENT + k, x, s.pos, |s.arena|, ROOTS + 1);
    }
  }

  /** Only the roots of an event from `EVENT + k` on and new fields change. */
  ghost predicate KeepsRoots(a: Arena, b: Arena, k: nat) {
    |a| <= |b| && forall j: Ptr | j < |a| && !(EVENT + k <= j < EVENT + 4) :: b[j] == a[j]
  }

  /** The parts that are still to be decoded. */
  lemma {:induction false} RootsLaid(env: Env, parts: seq<Option<Cls>>, xs: seq<Extent>, ends: seq<nat>, s: State)
    returns (all: seq<Extent>, allEnds: seq<nat>, t: State)
    requires SoundParts(parts) && AmidEvent(env.data, s, parts, xs, ends) && ParseParts(env, parts, |xs|, s).Done?
    ensures ParseParts(env, parts, |xs|, s) == Done(t) && AmidEvent(env.data, t, parts, all, allEnds)
    ensures |all| == 4 && ends <= allEnds && xs <= all && KeepsRoots(s.arena, t.arena, |xs|)
    decreases 4 - |xs|
  {
    if |xs| == 4 {
      all, allEnds, t := xs, ends, s;
    } else {
      var x, u := RootLaid(env, parts, xs, ends, s);
      all, allEnds, t := RootsLaid(env, parts, xs + [x], ends + [u.pos], u);
    }
  }

  /** The header of an event. */
  lemma HeaderLaid(env: Env, cls: DstreamCls, s: State) returns (x: Extent, h: State)
    requires PartOk(cls.eventHdr, None) && PowersIn(cls.eventHdr) && s.pos <= 8 * |env.data|
    requires ParseHeader(env, cls, s).Done?
    ensures ParseHeader(env, cls, s) == Done(h) && KeepsRoots(s.arena, h.arena, 0) && ROOTS < |h.arena|
    ensures forall j | EVENT < j < EVENT + 4 :: h.arena[j] == Fresh(NONE)
    ensures s.pos <= h.pos <= 8 * |env.data| && RootLies(env.data, h.arena, cls.eventHdr, EVENT, x, s.pos, h.pos)
  {
    x, h := PartLaid(env, cls.eventHdr, 0, s.(arena := Reset(s.arena)));
  }

  /** The parts behind the header. */
  lemma PartsLaid(env: Env, parts: seq<Option<Cls>>, x: Extent, from: nat, h: State)
    returns (xs: seq<Extent>, ends: seq<nat>, t: State)
    requires SoundParts(parts) && ROOTS < |h.arena| && h.pos <= 8 * |env.data| && ParseParts(env, parts, 1, h).Done?
    requires RootLies(env.data, h.arena, parts[0], EVENT, x, from, h.pos)
    requires forall j | EVENT < j < EVENT + 4 :: h.arena[j] == Fresh(NONE)
    ensures ParseParts(env, parts, 1, h) == Done(t) && KeepsRoots(h.arena, t.arena, 1)
    ensures |xs| == 4 && |ends| == 5 && xs[0] == x
    ensures ends[0] == from && ends[1] == h.pos && ends[4] == t.pos <= 8 * |env.data|
    ensures RootLies(env.data, t.arena, parts[0], EVENT, xs[0], ends[0], ends[1])
    ensures RootLies(env.data, t.arena, parts[1], EVENT + 1, xs[1], ends[1], ends[2])
    ensures RootLies(env.data, t.arena, parts[2], EVENT + 2, xs[2], ends[2], ends[3])
    ensures RootLies(env.data, t.arena, parts[3], EVENT + 3, xs[3], ends[3], ends[4])
  {
    assert LiesAt(env.data, h.arena, parts, [x], [from, h.pos], 0);
    xs, ends, t := RootsLaid(env, parts, [x], [from, h.pos], h);
    assert xs[0] == [x][0] && ends[0] == [from, h.pos][0] && ends[1] == [from, h.pos][1];
    assert LiesAt(env.data, t.arena, parts, xs, ends, 0) && LiesAt(env.data, t.arena, parts, xs, ends, 1);
    assert LiesAt(env.data, t.arena, parts, xs, ends, 2) && LiesAt(env.data, t.arena, parts, xs, ends, 3);
  }

  lemma EventFromParts(data: seq<Byte>, a: Arena, cls: DstreamCls, id: nat, parts: seq<Option<Cls>>, xs: seq<Extent>,
                       ends: seq<nat>)
    requires id in cls.events && |xs| == 4 && |ends| == 5
    requires parts == [cls.eventHdr, cls.commonCtx, cls.events[id].specCtx, cls.events[id].payload]
    requires RootLies(data, a, parts[0], EVENT, xs[0], ends[0], ends[1])
    requires RootLies(data, a, parts[1], EVENT + 1, xs[1], ends[1], ends[2])
    requires RootLies(data, a, parts[2], EVENT + 2, xs[2], ends[2], ends[3])
    requires RootLies(data, a, parts[3], EVENT + 3, xs[3], ends[3], ends[4])
    ensures EventLies(data, a, cls, id, xs, ends)
  {
  }

  /** The event class with the id `id`. */
  lemma EventLaid(env: Env, cls: DstreamCls, id: nat, parts: seq<Option<Cls>>, x: Extent, from: nat,
                  h: State)
    returns (xs: seq<Extent>, ends: seq<nat>, t: State)
    requires ClsOk(cls, None) && AllPowers(cls) && id in cls.events && ROOTS < |h.arena| && h.pos <= 8 * |env.data|
    requires RootLies(env.data, h.arena, cls.eventHdr, EVENT, x, from, h.pos)
    requires forall j | EVENT < j < EVENT + 4 :: h.arena[j] == Fresh(NONE)
    requires parts == [cls.eventHdr, cls.commonCtx, cls.events[id].specCtx, cls.events[id].payload]
    requires SoundParts(parts) && ParseParts(env, parts, 1, h).Done?
    ensures ParseParts(env, parts, 1, h) == Done(t) && KeepsRoots(h.arena, t.arena, 1)
    ensures EventLies(env.data, t.arena, cls, id, xs, ends)
    ensures xs[0] == x && ends[0] == from && ends[1] == h.pos && ends[4] == t.pos <= 8 * |env.data|
  {
    xs, ends, t := PartsLaid(env, parts, x, from, h);
    EventFromParts(env.data, t.arena, cls, id, parts, xs, ends);
  }

  /**
    An event that decodes lies in the stream part by part, each behind the one before it and in the root that field
    locations know it by; its class is told by the fields as they are behind the header, `hdr`.
   */
  lemma ParseEventIsLaid(env: Env, cls: DstreamCls, idOf: Arena -> nat, s: State)
    returns (hdr: Arena, xs: seq<Extent>, ends: seq<nat>, t: State)
    requires ClsOk(cls, None) && AllPowers(cls) && s.pos <= 8 * |env.data| && ParseEvent(env, cls, idOf, s).Done?
    ensures ParseEvent(env, cls, idOf, s) == Done(t)
    ensures EventLies(env.data, t.arena, cls, idOf(hdr), xs, ends) && ends[0] == s.pos && ends[4] == t.pos
    ensures RootLies(env.data, hdr, cls.eventHdr, RootOf(EventHeader), xs[0], ends[0], ends[1])
    ensures KeepsRoots(hdr, t.arena, 1) && ROOTS < |hdr| && (forall j | EVENT < j < EVENT + 4 :: hdr[j] == Fresh(NONE))
    ensures KeepsRoots(s.arena, t.arena, 0) && t.pos <= 8 * |env.data|
  {
    var x, h := HeaderLaid(env, cls, s);
    hdr := h.arena;
    var e := cls.events[idOf(hdr)];
    xs, ends, t := EventLaid(env, cls, idOf(hdr), [cls.eventHdr, cls.commonCtx, e.specCtx, e.payload], x, s.pos, h);
  }

  /** An event with its class's id and the fields as they are behind it. */
  datatype LaidEvent = LaidEvent(id: nat, arena: Arena, xs: seq<Extent>, ends: seq<nat>)

  /** The event begins at `from`, which is in the content and in the data, and ends at `end`. */
  ghost predicate EventLiesAt(env: Env, cls: DstreamCls, from: nat, e: LaidEvent, end: nat) {
    && EventLies(env.data, e.arena, cls, e.id, e.xs, e.ends) && e.ends[0] == from && e.ends[4] == end
    && from < 8 * |env.data| && from < env.end
  }

  /** From `from` up to `last` lie the events `es`, one behind another. */
  ghost predicate EventsLie(env: Env, cls: DstreamCls, from: nat, es: seq<LaidEvent>, last: nat)
    decreases |es|
  {
    if es == [] then last == from
    else exists end: nat :: EventLiesAt(env, cls, from, es[0], end) && EventsLie(env, cls, end, es[1..], last)
  }

  /** How decoding at most `cap` events ends at `last` behind `n` of them. */
  ghost predicate EventsEnd(env: Env, cap: nat, n: nat, last: nat, o: Outcome) {
    match o
    case Done(t) => last == t.pos && n <= cap && (n == cap || last >= 8 * |env.data| || last >= env.end)
    case Fails(_) => n < cap && last < 8 * |env.data| && last < env.end
    case Unsure => true
  }

  lemma EventFound(env: Env, cls: DstreamCls, idOf: Arena -> nat, s: State) returns (e: LaidEvent, t: State)
    requires ClsOk(cls, None) && AllPowers(cls) && s.pos < 8 * |env.data| && s.pos < env.end
    requires ParseEvent(env, cls, idOf, s).Done?
    ensures ParseEvent(env, cls, idOf, s) == Done(t) && t.pos <= 8 * |env.data|
    ensures EventLiesAt(env, cls, s.pos, e, t.pos)
  {
    var hdr, xs, ends;
    hdr, xs, ends, t := ParseEventIsLaid(env, cls, idOf, s);
    e := LaidEvent(idOf(hdr), t.arena, xs, ends);
  }

  /** The next event, if there is one and it decodes; `spec` is `ParseEvents`. */
  lemma NextEvent(env: Env, cls: DstreamCls, idOf: Arena -> nat, spec: (nat, State) -> (Outcome, nat), cap: nat,
                  s: State)
    returns (e: Option<LaidEvent>, t: State)
    requires ClsOk(cls, None) && AllPowers(cls) && s.pos <= 8 * |env.data| && IsSpec(spec, env, cls, idOf)
    ensures e.None? ==> spec(cap, s).1 == 0 && EventsEnd(env, cap, 0, s.pos, spec(cap, s).0)
    ensures e.Some? ==> cap > 0 && EventLiesAt(env, cls, s.pos, e.value, t.pos)
    ensures e.Some? ==> t.pos <= 8 * |env.data| && spec(cap, s) == (spec(cap - 1, t).0, spec(cap - 1, t).1 + 1)
  {
    e, t := None, s;
    if cap == 0 || s.pos >= 8 * |env.data| || s.pos >= env.end {
      SpecEnds(spec, env, cls, idOf, cap, s);
    } else {
      SpecStep(spec, env, cls, idOf, cap, s);
      if ParseEvent(env, cls, idOf, s).Done? {
        var found;
        found, t := EventFound(env, cls, idOf, s);
        e := Some(found);
      }
    }
  }

  lemma {:induction false} SpecIsLaid(env: Env, cls: DstreamCls, idOf: Arena -> nat,
                                      spec: (nat, State) -> (Outcome, nat), cap: nat, s: State)
    returns (es: seq<LaidEvent>, last: nat)
    requires ClsOk(cls, None) && AllPowers(cls) && s.pos <= 8 * |env.data| && IsSpec(spec, env, cls, idOf)
    ensures !spec(cap, s).0.Unsure? ==> spec(cap, s).1 == |es|
    ensures EventsLie(env, cls, s.pos, es, last) && EventsEnd(env, cap, |es|, last, spec(cap, s).0)
    decreases cap
  {
    var e, t := NextEvent(env, cls, idOf, spec, cap, s);
    if e.None? {
      es, last := [], s.pos;
    } else {
      es, last := SpecIsLaid(env, cls, idOf, spec, cap - 1, t);
      assert ([e.value] + es)[1..] == es;
      es := [e.value] + es;
    }
  }

  /** The events of a packet that decode, which are as many as fit in the buffer or in the content and the data. */
  lemma ParseEventsAreLaid(env: Env, cls: DstreamCls, idOf: Arena -> nat, cap: nat, s: State)
    returns (es: seq<LaidEvent>, last: nat)
    requires ClsOk(cls, None) && AllPowers(cls) && s.pos <= 8 * |env.data|
    ensures var (o, n) := ParseEvents(env, cls, idOf, cap, s);
      EventsLie(env, cls, s.pos, es, last) && EventsEnd(env, cap, |es|, last, o) && (!o.Unsure? ==> n == |es|)
  {
    var spec := (k: nat, s: State) => ParseEvents(env, cls, idOf, k, s);
    assert forall k: nat, s: State :: SpecAt(spec, env, cls, idOf, k, s);
    es, last := SpecIsLaid(env, cls, idOf, spec, cap, s);
    assert SpecAt(spec, env, cls, idOf, cap, s);
  }
}
