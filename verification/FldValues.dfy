/** The integers that fields hold in the stream, and what decoder.c makes of the words read for them. */
module FldValues {
  import opened Arith
  import opened Wrappers
  import opened Bits
  import opened Words
  import opened BitReader
  import opened Leb128
  import opened FldLocs
  import FldDecode

  function Stretch(data: seq<Byte>, bo: ByteOrder, p: nat, n: nat): (s: seq<bool>)
    requires p + n <= 8 * |data|
    ensures |s| == n
  {
    seq(n, i requires 0 <= i < n => StreamBit(data, bo, p + i))
  }

  lemma StretchStreams(data: seq<Byte>, bo: ByteOrder, p: nat, n: nat)
    requires p + n <= 8 * |data|
    ensures Streams(data, bo, p, Stretch(data, bo, p, n))
  {
  }

  /** The bits of a fixed-length field, least significant first. */
  function FldStream(data: seq<Byte>, bits: FldDecode.FxdLen, p: nat): (s: seq<bool>)
    requires p + bits.len <= 8 * |data|
    ensures |s| == bits.len
  {
    var s := Stretch(data, bits.bo, p, bits.len);
    if bits.bito == FldDecode.FirstToLast then s else Reverse(s)
  }

  lemma FldStreamHolds(data: seq<Byte>, bits: FldDecode.FxdLen, p: nat)
    requires p + bits.len <= 8 * |data|
    ensures FldDecode.FieldHolds(data, bits, p, FldStream(data, bits, p))
  {
    var s := Stretch(data, bits.bo, p, bits.len);
    assert Reverse(Reverse(s)) == s;
    FldDecode.StreamedHolds(data, bits, p, FldStream(data, bits, p));
  }

  lemma HoldsOnce(data: seq<Byte>, bits: FldDecode.FxdLen, p: nat, s: seq<bool>, t: seq<bool>)
    requires FldDecode.FieldHolds(data, bits, p, s) && FldDecode.FieldHolds(data, bits, p, t)
    ensures s == t
  {
  }

  /** They are the bits that `FxdLenDecode` yields. */
  lemma FldStreamIsField(data: seq<Byte>, bits: FldDecode.FxdLen, p: nat, w: Word)
    requires p + bits.len <= 8 * |data| && FldDecode.IsField(data, bits, p, w)
    ensures w[..bits.len] == FldStream(data, bits, p)
  {
    FldStreamHolds(data, bits, p);
    HoldsOnce(data, bits, p, w[..bits.len], FldStream(data, bits, p));
  }

  /** The number that bits stand for, in two's complement if it is signed. */
  function Number(s: seq<bool>, signed: bool): int {
    Val(s) - if signed && s != [] && s[|s| - 1] then Pow2(|s|) else 0
  }

  /** The integer that the bits of a fixed-length field stand for. */
  function FromBits(s: seq<bool>, kind: IntKind): (v: int)
    ensures kind != Sint ==> v >= 0
  {
    var n := Number(s, kind == Sint);
    if kind == Bool && n != 0 then 1 else n
  }

  /** The integer that a fixed-length field at `p` holds. */
  function FxdLenValue(data: seq<Byte>, bits: FldDecode.FxdLen, kind: IntKind, p: nat): (v: int)
    requires p + bits.len <= 8 * |data|
    ensures kind != Sint ==> v >= 0
  {
    FromBits(FldStream(data, bits, p), kind)
  }

  /** What the code makes of the word that a fixed-length field is read as. */
  function FxdLenOf(w: Word, len: nat, kind: IntKind): (v: int)
    requires 0 < len <= 64
    ensures kind != Sint ==> v >= 0
  {
    match kind
    case Sint => SignedVal(Sext(w, len))
    case Bool => if w != Zero() then 1 else 0
    case _ => Val(w)
  }

  lemma BelowValue(w: Word, n: nat)
    requires n <= 64 && Below(w, n)
    ensures Val(w) == Val(w[..n]) && (w == Zero() <==> Val(w) == 0)
  {
    assert w == w[..n] + seq(64 - n, _ => false);
    ZerosOnTop(w[..n], 64 - n);
    ValZeros(64);
    assert Zero() == seq(64, _ => false);
    if Val(w) == 0 { ValInjective(w, Zero()); }
  }

  lemma FxdLenOfBits(w: Word, len: nat, kind: IntKind)
    requires 0 < len <= 64 && Below(w, len)
    ensures FxdLenOf(w, len, kind) == FromBits(w[..len], kind)
  {
    BelowValue(w, len);
    SextValue(w, len);
  }

  /** It is the integer that the field holds in the stream. */
  lemma FxdLenOfField(data: seq<Byte>, bits: FldDecode.FxdLen, kind: IntKind, p: nat, w: Word)
    requires FldDecode.WellFormed(bits) && p + bits.len <= 8 * |data| && FldDecode.IsField(data, bits, p, w)
    ensures FxdLenOf(w, bits.len, kind) == FxdLenValue(data, bits, kind, p)
  {
    FldStreamIsField(data, bits, p, w);
    FxdLenOfBits(w, bits.len, kind);
  }

  /** The integer that an encoding of `m` groups stands for; no more than 64 of its bits count. */
  function VarLenValue(data: seq<Byte>, at: nat, m: nat, signed: bool): int
    requires at + m <= |data|
  {
    Number(Truncated(Payload(data, at, m))[..Min(7 * m, 64)], signed)
  }

  /** What the code makes of the word that a variable-length field is read as. */
  function VarLenOf(w: Word, n: nat, signed: bool): (v: int)
    requires 0 < n <= 64
    ensures !signed ==> v >= 0
  {
    if signed then SignedVal(Sext(w, n)) else Val(w)
  }

  lemma VarLenOfPayload(data: seq<Byte>, at: nat, m: nat, signed: bool, w: Word)
    requires 0 < m && at + m <= |data| && w == Truncated(Payload(data, at, m))
    ensures VarLenOf(w, Min(7 * m, 64), signed) == VarLenValue(data, at, m, signed)
  {
    BelowValue(w, Min(7 * m, 64));
    SextValue(w, Min(7 * m, 64));
  }

  /** The value of an integer is the one that the stream holds where the field ends, at `end`. */
  ghost predicate Exact(data: seq<Byte>, f: Fld, end: nat) {
    match f.cls
    case Some(FxdLen(bits, kind)) =>
      bits.len <= end <= 8 * |data| && f.val == FxdLenValue(data, bits, kind, end - bits.len)
    case Some(VarLen(signed)) =>
      exists at :: Encoded(data, at, signed, f.val, end)
    case _ => true
  }

  lemma ExactFxdLen(data: seq<Byte>, f: Fld, bits: FldDecode.FxdLen, kind: IntKind, p: nat, end: nat)
    requires f.cls == Some(FxdLen(bits, kind)) && p + bits.len == end <= 8 * |data|
    ensures f.val == FxdLenValue(data, bits, kind, p) ==> Exact(data, f, end)
  {
    assert end - bits.len == p;
  }

  /** An encoding of `v` from byte `at` up to `end`; from the eleventh group on C leaves the value undefined. */
  ghost predicate Encoded(data: seq<Byte>, at: nat, signed: bool, v: int, end: nat) {
    var m := Groups(data, at);
    && m.Some? && end == 8 * (at + m.value)
    && (m.value <= 10 ==> v == VarLenValue(data, at, m.value, signed))
  }

  ghost predicate ExactAt(data: seq<Byte>, a: Arena, done: map<Ptr, nat>, i: Ptr) {
    i in done ==> i < |a| && Exact(data, a[i], done[i])
  }

  ghost predicate AllExact(data: seq<Byte>, a: Arena, done: map<Ptr, nat>) {
    forall i :: ExactAt(data, a, done, i)
  }

  /** All finished fields stay exact when of them only `x` changes. */
  lemma StillExact(data: seq<Byte>, a: Arena, done: map<Ptr, nat>, b: Arena, done': map<Ptr, nat>, x: Ptr)
    requires AllExact(data, a, done)
    requires forall i | i in done' && i != x ::
      (i in done && done'[i] == done[i] && (i < |a| ==> i < |b| && b[i] == a[i]))
    requires ExactAt(data, b, done', x)
    ensures AllExact(data, b, done')
  {
    forall i ensures ExactAt(data, b, done', i) {
      assert ExactAt(data, a, done, i);
    }
  }

  /** An alignment that a byte boundary meets or that leads to one, as every power of two is. */
  predicate Friendly(align: nat) {
    align == 1 || align == 2 || align == 4 || (align > 0 && align % 8 == 0)
  }

  lemma FriendlyStart(data: seq<Byte>, pos: nat, align: nat)
    requires Friendly(align) && pos % 8 == 0 && pos <= 8 * |data|
    ensures FldDecode.Start(data, pos, align) % 8 == 0
  {
    ModOf(|data|, 8, 0);
    if align % 8 == 0 {
      RoundUpLeast(pos, align);
      ByteMultiple(RoundUp(pos, align), align);
    } else {
      AlignedAlready(pos, align, if align == 1 then pos else if align == 2 then pos / 2 else pos / 4);
    }
  }

  lemma AlignedAlready(pos: nat, align: nat, q: nat)
    requires align > 0 && pos == align * q
    ensures RoundUp(pos, align) == pos
  {
    ModOf(q, align, align - 1);
  }

  lemma ByteMultiple(r: nat, align: nat)
    requires align > 0 && align % 8 == 0 && r % align == 0
    ensures r % 8 == 0
  {
    var k := align / 8;
    assert r == align * (r / align);
    assert r == 8 * (k * (r / align)) by { MulShift(8, k, align, r / align, 0); }
  }

  /** All integers of the class have the byte order `bo`; variable-length ones are read in little endian. */
  ghost predicate OneOrder(c: Cls, bo: ByteOrder) {
    match c
    case FxdLen(bits, _) => bits.bo == bo && Friendly(bits.align)
    case VarLen(_) => bo == LilEndian
    case Struct(align, members) => Friendly(align) && forall i | 0 <= i < |members| :: OneOrder(members[i].cls, bo)
    case Arr(_, ele, _) => Friendly(AlignReq(c)) && OneOrder(ele, bo)
    case OptionalOf(_, _, cls) => OneOrder(cls, bo)
    case Variant(_, opts) => forall i | 0 <= i < |opts| :: OneOrder(opts[i].cls, bo)
    case _ => true
  }

  ghost predicate Uniform(c: Cls, bo: Option<ByteOrder>) {
    bo.Some? ==> OneOrder(c, bo.value)
  }
}
