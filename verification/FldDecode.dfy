/** Decoding of fixed-length and variable-length integers, first half of decoder.c. */
module FldDecode {
  import opened Arith
  import opened Bits
  import opened Words
  import opened BitReader
  import opened Leb128
  import opened Wrappers

  datatype Error = NotEnoughBits | MidByteEndianSwap

  datatype BitOrder = FirstToLast | LastToFirst

  /** `struct fxd_len_bit_arr_fld_cls`. */
  datatype FxdLen = FxdLen(len: nat, bo: ByteOrder, bito: BitOrder, align: nat)

  /** The length and alignment the metadata parser admits. */
  predicate WellFormed(cls: FxdLen) {
    0 < cls.len <= 64 && 0 < cls.align
  }

  /** Where a field with this alignment starts. */
  ghost function Start(data: seq<Byte>, pos: nat, align: nat): nat
    requires align > 0
  {
    Min(RoundUp(pos, align), 8 * |data|)
  }

  // ---------------------------------------------------------------- joining two reads

  /** `read_upper_bits_le` and `read_upper_bits_be`. */
  function Joined(bo: ByteOrder, lower: Word, first: nat, upper: Word, remain: nat): Word
    requires 0 < first && 0 < remain && first + remain <= 64
  {
    if bo == LilEndian then Or(lower, Shl(upper, first)) else Or(Shl(lower, remain), upper)
  }

  lemma StreamsJoin(data: seq<Byte>, bo: ByteOrder, pos: nat, l: seq<bool>, u: seq<bool>)
    requires Streams(data, bo, pos, l) && Streams(data, bo, pos + |l|, u)
    ensures Streams(data, bo, pos, l + u)
  {
    var s := l + u;
    forall i | 0 <= i < |s| ensures s[i] == StreamBit(data, bo, pos + i) {
      if |l| <= i {
        var k := i - |l|;
        assert u[k] == StreamBit(data, bo, pos + |l| + k);
      }
    }
  }

  lemma JoinedLe(lower: Word, first: nat, upper: Word, remain: nat)
    requires 0 < first && 0 < remain && first + remain <= 64 && Below(lower, first) && Below(upper, remain)
    ensures var w, n := Or(lower, Shl(upper, first)), first + remain;
            Below(w, n) && w[..n] == lower[..first] + upper[..remain]
  {
  }

  lemma JoinedBe(lower: Word, first: nat, upper: Word, remain: nat)
    requires 0 < first && 0 < remain && first + remain <= 64 && Below(lower, first) && Below(upper, remain)
    ensures var w, n := Or(Shl(lower, remain), upper), first + remain;
            Below(w, n) && Reverse(w[..n]) == Reverse(lower[..first]) + Reverse(upper[..remain])
  {
    var w, n := Or(Shl(lower, remain), upper), first + remain;
    assert w[..n] == upper[..remain] + lower[..first];
    ReverseJoin(upper[..remain], lower[..first]);
  }

  lemma ReverseJoin(a: seq<bool>, b: seq<bool>)
    ensures Reverse(a + b) == Reverse(b) + Reverse(a)
  {
  }

  lemma ReadsBoth(data: seq<Byte>, bo: ByteOrder, pos: nat, n: nat, w: Word, l: seq<bool>, u: seq<bool>, mid: nat)
    requires n <= 64 && Below(w, n) && InStreamOrder(bo, w[..n]) == l + u && mid == pos + |l|
    requires Streams(data, bo, pos, l) && Streams(data, bo, mid, u)
    ensures Reads(data, bo, pos, n, w)
  {
    StreamsJoin(data, bo, pos, l, u);
  }

  lemma JoinedOrder(bo: ByteOrder, lower: Word, first: nat, upper: Word, remain: nat, n: nat)
    requires 0 < first && 0 < remain && n == first + remain <= 64 && Below(lower, first) && Below(upper, remain)
    ensures var w := Joined(bo, lower, first, upper, remain);
      && Below(w, n)
      && InStreamOrder(bo, w[..n]) == InStreamOrder(bo, lower[..first]) + InStreamOrder(bo, upper[..remain])
  {
    if bo == LilEndian {
      JoinedLe(lower, first, upper, remain);
    } else {
      JoinedBe(lower, first, upper, remain);
    }
  }

  lemma JoinedReads(data: seq<Byte>, bo: ByteOrder, pos: nat, lower: Word, first: nat, mid: nat, upper: Word,
                    remain: nat, n: nat)
    requires 0 < first && 0 < remain && n == first + remain <= 64 && mid == pos + first
    requires Reads(data, bo, pos, first, lower) && Reads(data, bo, mid, remain, upper)
    ensures Reads(data, bo, pos, n, Joined(bo, lower, first, upper, remain))
  {
    JoinedOrder(bo, lower, first, upper, remain, n);
    ReadsBoth(data, bo, pos, n, Joined(bo, lower, first, upper, remain), InStreamOrder(bo, lower[..first]),
              InStreamOrder(bo, upper[..remain]), mid);
  }

  /** The stream bit that is bit `i` of a field at `pos`, counted from the least significant one. */
  function BitPos(bito: BitOrder, pos: nat, len: nat, i: nat): nat
    requires i < len
  {
    match bito
    case FirstToLast => pos + i
    case LastToFirst => pos + len - 1 - i
  }

  /** `s` are the bits of the field at `pos`, least significant first. */
  ghost predicate FieldHolds(data: seq<Byte>, cls: FxdLen, pos: nat, s: seq<bool>) {
    && |s| == cls.len && pos + cls.len <= 8 * |data|
    && forall i | 0 <= i < cls.len :: s[i] == StreamBit(data, cls.bo, BitPos(cls.bito, pos, cls.len, i))
  }

  /** `w` is the number whose bits are those of the field at `pos`. */
  ghost predicate IsField(data: seq<Byte>, cls: FxdLen, pos: nat, w: Word) {
    cls.len <= 64 && Below(w, cls.len) && FieldHolds(data, cls, pos, w[..cls.len])
  }

  /** `needs_reverse_bits_le` and `needs_reverse_bits_be`. */
  predicate NeedsReverse(cls: FxdLen) {
    if cls.bo == LilEndian then cls.bito == LastToFirst else cls.bito == FirstToLast
  }

  lemma StreamedBit(data: seq<Byte>, bo: ByteOrder, pos: nat, s: seq<bool>, k: nat, at: nat)
    requires Streams(data, bo, pos, s) && k < |s| && at == pos + k
    ensures s[k] == StreamBit(data, bo, at)
  {
  }

  lemma StreamedHolds(data: seq<Byte>, cls: FxdLen, pos: nat, s: seq<bool>)
    requires |s| == cls.len && Streams(data, cls.bo, pos, if cls.bito == FirstToLast then s else Reverse(s))
    ensures FieldHolds(data, cls, pos, s)
  {
    var t := if cls.bito == FirstToLast then s else Reverse(s);
    forall i | 0 <= i < cls.len ensures s[i] == StreamBit(data, cls.bo, BitPos(cls.bito, pos, cls.len, i)) {
      var k := if cls.bito == FirstToLast then i else cls.len - 1 - i;
      StreamedBit(data, cls.bo, pos, t, k, BitPos(cls.bito, pos, cls.len, i));
    }
  }

  lemma FieldOfReads(data: seq<Byte>, cls: FxdLen, pos: nat, result: Word, w: Word)
    requires WellFormed(cls) && Reads(data, cls.bo, pos, cls.len, result)
    requires if NeedsReverse(cls) then w[..cls.len] == Reverse(result[..cls.len]) && Below(w, cls.len) else w == result
    ensures IsField(data, cls, pos, w)
  {
    var s := result[..cls.len];
    assert Reverse(Reverse(s)) == s;
    StreamedHolds(data, cls, pos, w[..cls.len]);
  }

  /** What has been peeked at fits the bits asked for, whatever the lookahead holds. */
  lemma PeekedBelow(bo: ByteOrder, lookahead: Word, n: nat)
    requires 0 < n < 64
    ensures Below(Peeked(bo, lookahead, n), n)
  {
  }

  lemma JoinedBelow(bo: ByteOrder, lower: Word, first: nat, upper: Word, remain: nat)
    requires 0 < first && 0 < remain && first + remain <= 64 && Below(lower, first) && Below(upper, remain)
    ensures Below(Joined(bo, lower, first, upper, remain), first + remain)
  {
    if bo == LilEndian {
      JoinedLe(lower, first, upper, remain);
    } else {
      JoinedBe(lower, first, upper, remain);
    }
  }

  class Decoder {
    const br: Reader
    var bitOff: nat           // pkt_s.bit_off
    var contentLen: nat       // pkt_s.content_len
    var lastBo: Option<ByteOrder>

    ghost predicate Valid()
      reads this, br
    {
      br.Placed() && bitOff <= br.pos
    }

    constructor (br: Reader, bitOff: nat, contentLen: nat, lastBo: Option<ByteOrder>)
      requires br.Placed() && bitOff <= br.pos
      ensures Valid() && this.br == br && this.bitOff == bitOff && this.contentLen == contentLen
        && this.lastBo == lastBo
    {
      this.br := br;
      this.bitOff, this.contentLen, this.lastBo := bitOff, contentLen, lastBo;
    }

    /** `pkt_bits_remaining`. */
    function PktBitsRemaining(): (r: nat)
      requires Valid()
      reads this, br
      ensures r == 0 <==> bitOff + contentLen <= br.pos
      ensures r > 0 ==> br.pos + r == bitOff + contentLen
    {
      if br.pos - bitOff < contentLen then contentLen - (br.pos - bitOff) else 0
    }

    /** The reader has not gone past the content of the packet. */
    ghost predicate Confined()
      reads this, br
    {
      br.pos <= bitOff + contentLen
    }

    /**
      When a field of this byte order and alignment is read from what the stream holds: its byte order is the reader's,
      or the reader is at a byte boundary, or aligning skips all that the reader has looked ahead at.
     */
    ghost predicate Faithful(bo: ByteOrder, align: nat)
      requires align > 0
      reads this, br
    {
      (br.Right() && (br.bo == bo || br.pos % 8 == 0)) || br.SkipsAll(align)
    }

    /** `do_align`: false stands for `ACTF_NOT_ENOUGH_BITS`. */
    method DoAlign(align: nat) returns (ok: bool)
      requires Valid() && align > 0
      modifies br
      ensures Valid() && old(br.pos) <= br.pos == Start(br.data, old(br.pos), align) && br.bo == old(br.bo)
      ensures ok <==> Confined()
      ensures old(br.Right() || br.SkipsAll(align)) ==> br.Right()
    {
      RoundUpLeast(br.pos, align);
      br.Align(align);
      ok := br.pos - bitOff <= contentLen;
    }

    /** When a fixed-length field that starts at `p` can be decoded. */
    ghost predicate Decodable(cls: FxdLen, p: nat)
      reads this
    {
      && p + cls.len <= bitOff + contentLen && p + cls.len <= 8 * |br.data|
      && (lastBo.Some? && lastBo.value != cls.bo ==> p % 8 == 0)
    }

    /** The fixed-length read of `fxd_len_bit_arr_decodem`, at most 56 bits first and then the rest. */
    method ReadUpTo64(len: nat) returns (ok: bool, result: Word)
      requires Valid() && 0 < len <= 64
      modifies br
      ensures Valid() && br.bo == old(br.bo) && old(br.pos) <= br.pos && (old(br.Right()) ==> br.Right())
      ensures ok <==> old(br.pos) + len <= br.End()
      ensures ok ==> br.pos == old(br.pos) + len && Below(result, len)
      ensures ok && old(br.Right()) ==> Reads(br.data, br.bo, old(br.pos), len, result)
    {
      ghost var p, right := br.pos, br.Right();
      var first;
      first, result := ReadFirst(len);
      if first == 0 {
        return false, result;
      }
      ok := true;
      if first < len {
        ok, result := ReadRest(p, right, first, result, len);
      }
    }

    /** The first read: as much of the field as one refill provides. */
    method ReadFirst(len: nat) returns (first: nat, result: Word)
      requires Valid() && 0 < len <= 64
      modifies br
      ensures Valid() && br.bo == old(br.bo) && br.pos == old(br.pos) + first && first <= len
      ensures first < len ==> first >= MAX_READ_BITS || br.pos == br.End()
      ensures first > 0 ==> Below(result, first)
      ensures old(br.Right()) ==> br.Right()
      ensures first > 0 && old(br.Right()) ==> Reads(br.data, br.bo, old(br.pos), first, result)
    {
      result := Zero();
      var avail := br.Refill();
      if avail == 0 {
        return 0, result;
      }
      first := if avail < len then avail else len;
      result := br.Peek(first);
      PeekedBelow(br.bo, br.lookahead, first);
      br.Consume(first);
    }

    /** The second read, for a field that the first refill did not cover. */
    method ReadRest(ghost p: nat, ghost right: bool, first: nat, lower: Word, len: nat) returns (ok: bool, result: Word)
      requires Valid() && 0 < first < len <= 64 && br.pos == p + first && Below(lower, first)
      requires right ==> br.Right() && Reads(br.data, br.bo, p, first, lower)
      requires first >= MAX_READ_BITS || br.pos == br.End()
      modifies br
      ensures Valid() && br.bo == old(br.bo) && old(br.pos) <= br.pos && (right ==> br.Right())
      ensures ok <==> p + len <= br.End()
      ensures ok ==> br.pos == p + len && Below(result, len)
      ensures ok && right ==> Reads(br.data, br.bo, p, len, result)
    {
      var remain := len - first;
      result := Zero();
      var avail := br.Refill();
      if avail < remain {
        return false, result;
      }
      var upper := br.Peek(remain);
      PeekedBelow(br.bo, br.lookahead, remain);
      if right { JoinedReads(br.data, br.bo, p, lower, first, br.pos, upper, remain, len); }
      result := Joined(br.bo, lower, first, upper, remain);
      JoinedBelow(br.bo, lower, first, upper, remain);
      br.Consume(remain);
      ok := true;
    }

    /** The checks of `fxd_len_bit_arr_decodem` before it reads, with the reader moved to the start of the field. */
    method PrepareFxdLen(cls: FxdLen) returns (e: Option<Error>)
      requires Valid() && WellFormed(cls)
      modifies br
      ensures Valid() && br.bo == cls.bo && old(br.pos) <= br.pos == Start(br.data, old(br.pos), cls.align)
      ensures e == if br.pos + cls.len > bitOff + contentLen then Some(NotEnoughBits)
                   else if lastBo.Some? && lastBo.value != cls.bo && br.pos % 8 != 0 then Some(MidByteEndianSwap)
                   else None
      ensures old(Faithful(cls.bo, cls.align)) ==> br.Right()
    {
      br.SetBo(cls.bo);
      var aligned := DoAlign(cls.align);
      if !aligned {
        return Some(NotEnoughBits);
      }
      if PktBitsRemaining() < cls.len {
        return Some(NotEnoughBits);
      }
      var byteAligned := br.ByteAligned();
      if lastBo.Some? && lastBo.value != cls.bo && !byteAligned {
        return Some(MidByteEndianSwap);
      }
      return None;
    }

    /** The reading part of `fxd_len_bit_arr_decodem`. */
    method ReadFxdLen(cls: FxdLen) returns (r: Result<Word, Error>)
      requires Valid() && WellFormed(cls) && br.bo == cls.bo
      modifies this`lastBo, br
      ensures Valid() && br.bo == cls.bo && old(br.pos) <= br.pos && (old(br.Right()) ==> br.Right())
      ensures r.Ok? <==> old(br.pos) + cls.len <= br.End()
      ensures r.Ok? ==> br.pos == old(br.pos) + cls.len && Below(r.value, cls.len) && lastBo == Some(cls.bo)
      ensures r.Ok? && old(br.Right()) ==> IsField(br.data, cls, old(br.pos), r.value)
      ensures r.Err? ==> r.error == NotEnoughBits
    {
      ghost var p, right := br.pos, br.Right();
      var ok, result := ReadUpTo64(cls.len);
      if !ok {
        return Err(NotEnoughBits);
      }
      var val := result;
      if NeedsReverse(cls) {
        val := ReverseBits(result, cls.len);
      }
      if right { FieldOfReads(br.data, cls, p, result, val); }
      lastBo := Some(cls.bo);
      return Ok(val);
    }

    /**
      `fxd_len_bit_arr_decode`. Whether it succeeds and where the reader is then does not depend on what has been looked
      ahead at; the value is the stream's if the read is faithful, and `MidByteField` shows one that is not.
     */
    method FxdLenDecode(cls: FxdLen) returns (r: Result<Word, Error>)
      requires Valid() && WellFormed(cls)
      modifies this`lastBo, br
      ensures Valid() && br.bo == cls.bo && old(br.pos) <= br.pos
      ensures var p := Start(br.data, old(br.pos), cls.align);
              && (r.Ok? <==> old(Decodable(cls, p)))
              && (r.Ok? ==> br.pos == p + cls.len && Below(r.value, cls.len) && lastBo == Some(cls.bo))
              && (r.Ok? && old(Faithful(cls.bo, cls.align)) ==> IsField(br.data, cls, p, r.value))
              && (r == Err(MidByteEndianSwap) <==>
                    p + cls.len <= bitOff + contentLen && p % 8 != 0 && old(lastBo.Some? && lastBo.value != cls.bo))
      ensures old(Faithful(cls.bo, cls.align)) ==> br.Right()
      ensures r.Ok? ==> Confined()
    {
      var e := PrepareFxdLen(cls);
      if e.Some? {
        return Err(e.value);
      }
      r := ReadFxdLen(cls);
    }

    /**
      A group and its continuation bit, as `fld_cls_var_len_int_decode` reads them. Shifting by 64 or more
      leaves nothing known of the result.
     */
    method ReadGroup(result0: Word, shift: nat) returns (result: Word, fin: bool)
      requires br.Placed() && br.bo == LilEndian && br.cnt >= 8 && br.pos % 8 == 0
      modifies br
      ensures br.Placed() && br.bo == LilEndian && br.pos == old(br.pos) + 8 && br.cnt == old(br.cnt) - 8
      ensures old(br.pos) / 8 < |br.data|
      ensures old(br.Right()) ==> br.Right() && (fin <==> br.data[old(br.pos) / 8] < 128)
      ensures old(br.Right()) && shift < 64 ==> GroupAdded(result0, shift, br.data[old(br.pos) / 8], result)
    {
      ghost var p, right := br.pos, br.Right();
      var group := br.Peek(7);
      if right { GroupRead(br.data, p, group); }
      if shift < 64 {
        result := Or(result0, Shl(group, shift));
        if right { GroupOred(result0, group, shift, br.data[p / 8]); }
      } else {
        result := *;
      }
      br.Consume(7);
      var more := br.Peek(1);
      if right {
        HighBit(br.data[p / 8]);
        LastRead(br.data, p, more);
      }
      fin := more == Zero();
      br.Consume(1);
    }

    /** The inner loop of `fld_cls_var_len_int_decode`: groups as long as the lookahead has them. */
    method ReadGroups(ghost first: nat, ghost right: bool, ghost k0: nat, result0: Word, shift0: nat)
      returns (result: Word, shift: nat, fin: bool, ghost k: nat)
      requires br.Placed() && br.bo == LilEndian && br.cnt >= 8 && br.pos == 8 * (first + k0)
      requires shift0 == 7 * k0 && (right ==> br.Right() && Collecting(br.data, first, k0, result0, false))
      modifies br
      ensures br.Placed() && br.bo == LilEndian && br.pos == 8 * (first + k)
      ensures shift == 7 * k && k0 < k
      ensures right ==> br.Right() && Collecting(br.data, first, k, result, fin)
    {
      result, shift, fin, k := result0, shift0, false, k0;
      var avail := br.cnt;
      while !fin && avail > 0
        invariant br.Placed() && br.bo == LilEndian && br.cnt == avail && br.pos == 8 * (first + k)
        invariant shift == 7 * k && k0 <= k && (k == k0 ==> avail >= 8 && !fin)
        invariant right ==> br.Right() && Collecting(br.data, first, k, result, fin)
        decreases avail
      {
        WholeByte(br.pos, br.cnt, br.at, first + k);
        ghost var was := result;
        result, fin := ReadGroup(result, shift);
        if right { Collected(br.data, first, k, was, result, fin); }
        avail := avail - 8;
        shift := shift + 7;
        k := k + 1;
      }
    }

    /** What `fld_cls_var_len_int_decode` accepts: an encoding that ends within the data and the packet content. */
    ghost predicate VarLenDecodable(at: nat)
      reads this
    {
      var m := Groups(br.data, at);
      m.Some? && 8 * (at + m.value) <= bitOff + contentLen
    }

    /**
      The encoding at byte `at` is what has been read: its payload cut to 64 bits, if C defines that, and its length.
     */
    ghost predicate HasRead(at: nat, v: (Word, nat))
      reads this, br
    {
      var m := Groups(br.data, at);
      && m.Some? && br.pos == 8 * (at + m.value) && v.1 == Min(7 * m.value, 64)
      && (m.value <= 10 ==> v.0 == Truncated(Payload(br.data, at, m.value)))
    }

    /**
      `fld_cls_var_len_int_decode`: the payload cut to 64 bits, and how many bits of it count. From the eleventh
      group on C leaves the value undefined, but not where the encoding ends.
     */
    method VarLenIntDecode() returns (r: Result<(Word, nat), Error>)
      requires Valid()
      modifies br
      ensures Valid() && old(br.pos) <= br.pos && br.bo == LilEndian
      ensures r.Ok? ==> Confined() && br.pos % 8 == 0 && 0 < r.value.1 <= 64
      ensures r.Err? ==> r.error == NotEnoughBits
      ensures var at := Start(br.data, old(br.pos), 8) / 8;
              old(Faithful(LilEndian, 8)) ==>
                br.Right() && (r.Ok? <==> VarLenDecodable(at)) && (r.Ok? ==> HasRead(at, r.value))
    {
      ghost var at := Start(br.data, br.pos, 8) / 8;
      StartIsByte(br.data, br.pos);
      br.SetBo(LilEndian);
      var aligned := DoAlign(8);
      if !aligned {
        return Err(NotEnoughBits);
      }
      r := ReadVarLen(at);
    }

    /** One round of the outer loop of `fld_cls_var_len_int_decode`: a refill and the groups it brings. */
    method ReadRefill(ghost at: nat, ghost right: bool, ghost k0: nat, result0: Word, shift0: nat)
      returns (ok: bool, result: Word, shift: nat, fin: bool, ghost k: nat)
      requires Valid() && br.bo == LilEndian && br.pos == 8 * (at + k0) && br.pos + 8 <= bitOff + contentLen
      requires shift0 == 7 * k0 && (right ==> br.Right() && Collecting(br.data, at, k0, result0, false))
      modifies br
      ensures Valid() && br.bo == LilEndian && br.pos == 8 * (at + k) && shift == 7 * k && k0 <= k
      ensures right ==> br.Right() && Collecting(br.data, at, k, result, fin) && (ok || !VarLenDecodable(at))
      ensures ok ==> k0 < k && if fin then Confined() else br.pos + 8 <= bitOff + contentLen
    {
      result, shift, fin, k := result0, shift0, false, k0;
      var avail := br.Refill();
      if avail == 0 {
        if right { CollectedGroups(br.data, at, k, result, fin); }
        return false, result, shift, fin, k;
      }
      WholeByte(br.pos, br.cnt, br.at, at + k);
      result, shift, fin, k := ReadGroups(at, right, k, result, shift);
      if right { CollectedGroups(br.data, at, k, result, fin); }
      ok := !((!fin && PktBitsRemaining() < 8) || (fin && br.pos - bitOff > contentLen));
    }

    /** The part of `fld_cls_var_len_int_decode` after aligning, with the outer loop. */
    method ReadVarLen(ghost at: nat) returns (r: Result<(Word, nat), Error>)
      requires Valid() && Confined() && br.bo == LilEndian && br.pos == 8 * at
      modifies br
      ensures Valid() && old(br.pos) <= br.pos && br.bo == LilEndian
      ensures r.Ok? ==> Confined() && br.pos % 8 == 0 && 0 < r.value.1 <= 64
      ensures r.Err? ==> r.error == NotEnoughBits
      ensures old(br.Right()) ==> br.Right() && (r.Ok? <==> VarLenDecodable(at)) && (r.Ok? ==> HasRead(at, r.value))
    {
      if PktBitsRemaining() < 8 {
        return Err(NotEnoughBits);
      }
      r := CollectGroups(at);
    }

    /** The loop over the groups. */
    method CollectGroups(ghost at: nat) returns (r: Result<(Word, nat), Error>)
      requires Valid() && Confined() && br.bo == LilEndian && br.pos == 8 * at && br.pos + 8 <= bitOff + contentLen
      modifies br
      ensures Valid() && old(br.pos) <= br.pos && br.bo == LilEndian
      ensures r.Ok? ==> Confined() && br.pos % 8 == 0 && 0 < r.value.1 <= 64
      ensures r.Err? ==> r.error == NotEnoughBits
      ensures old(br.Right()) ==> br.Right() && (r.Ok? <==> VarLenDecodable(at)) && (r.Ok? ==> HasRead(at, r.value))
    {
      var result, shift, fin := Zero(), 0, false;
      ghost var k, right := 0, br.Right();
      assert Truncated(Payload(br.data, at, 0)) == Zero();
      while !fin
        invariant Valid() && br.bo == LilEndian && br.pos == 8 * (at + k)
        invariant shift == 7 * k && (fin ==> k > 0)
        invariant right ==> br.Right() && Collecting(br.data, at, k, result, fin)
        invariant if fin then Confined() else br.pos + 8 <= bitOff + contentLen
        decreases br.End() - br.pos, !fin
      {
        var ok;
        ok, result, shift, fin, k := ReadRefill(at, right, k, result, shift);
        if !ok {
          return Err(NotEnoughBits);
        }
      }
      if right { CollectedGroups(br.data, at, k, result, fin); }
      return Ok((result, if shift < 64 then shift else 64));
    }
  }

  /**
    What becomes of an eight-bit little-endian field aligned to 8 that follows a four-bit big-endian one at the start of
    the data. The first refill loads bytes 0 to 6 and reading the first field drops four bits; then `breader_set_bo`
    swaps, aligning drops the other four bits, and the second refill adds byte 7. Half of the bits come from byte 0 and
    half from byte 2, where the stream has byte 1, and no error is found, since the reader is at a byte boundary when
    the code looks. So the field is right exactly if the bytes happen to agree.
   */
  lemma MidByteField(data: seq<Byte>)
    requires |data| >= 8
    ensures var w := MidByteRead(data);
            IsField(data, FxdLen(8, LilEndian, FirstToLast, 8), 8, w)
            <==> forall i | 0 <= i < 8 :: BitOf(data[if i < 4 then 0 else 2], i) == BitOf(data[1], i)
  {
    var f := MidByteRead(data)[..8];
    forall i | 0 <= i < 8
      ensures f[i] == BitOf(data[if i < 4 then 0 else 2], i) && StreamBit(data, LilEndian, 8 + i) == BitOf(data[1], i)
    {
      MidByteBit(data, i);
      StreamByte(data, LilEndian, 1, i, 8 + i);
    }
    MidByteBelow(data);
  }

  /** The word that the code makes of the second field. */
  function MidByteRead(data: seq<Byte>): Word {
    var refilled := Filled(BigEndian, Zero(), Incoming(data, BigEndian, 0), 0);
    var swapped := Bswap(Dropped(BigEndian, refilled, 4));
    Peeked(LilEndian, Filled(LilEndian, Dropped(LilEndian, swapped, 4), Incoming(data, LilEndian, 7), 48), 8)
  }

  lemma MidByteBelow(data: seq<Byte>)
    ensures Below(MidByteRead(data), 8)
  {
  }

  lemma MidByteBit(data: seq<Byte>, i: nat)
    requires |data| >= 8 && i < 8
    ensures MidByteRead(data)[i] == BitOf(data[if i < 4 then 0 else 2], i)
  {
    var next := Load(data, 0);
    var dropped := Dropped(BigEndian, Filled(BigEndian, Zero(), Bswap(next), 0), 4);
    MidBytePeeked(Bswap(dropped), Incoming(data, LilEndian, 7), i);
    TwoSwaps(next, dropped, i);
    LoadedBit(data, 0, if i < 4 then 0 else 2, i);
  }

  lemma TwoSwaps(next: Word, dropped: Word, i: nat)
    requires i < 8 && dropped == Dropped(BigEndian, Filled(BigEndian, Zero(), Bswap(next), 0), 4)
    ensures Bswap(dropped)[i + 4] == next[8 * (if i < 4 then 0 else 2) + i]
  {
    if i < 4 {
      BswapAt(dropped, 0, i + 4);
      RefilledBe(next, 56 + i);
      BswapAt(next, 7, i);
    } else {
      BswapAt(dropped, 1, i - 4);
      RefilledBe(next, 40 + i);
      BswapAt(next, 5, i);
    }
  }

  lemma MidBytePeeked(swapped: Word, next: Word, i: nat)
    requires i < 8
    ensures Peeked(LilEndian, Filled(LilEndian, Dropped(LilEndian, swapped, 4), next, 48), 8)[i] == swapped[i + 4]
  {
  }

  lemma RefilledBe(next: Word, j: nat)
    requires j < 60
    ensures Dropped(BigEndian, Filled(BigEndian, Zero(), Bswap(next), 0), 4)[j + 4] == Bswap(next)[j]
  {
  }

  /** With the bytes AB CD EF the second field comes out as EB, where the stream says CD. */
  lemma MidByteFieldFails(data: seq<Byte>)
    requires |data| >= 8 && data[..3] == [0xAB, 0xCD, 0xEF]
    ensures !IsField(data, FxdLen(8, LilEndian, FirstToLast, 8), 8, MidByteRead(data))
  {
    MidByteField(data);
    assert data[0] == data[..3][0] && data[1] == data[..3][1];
    SecondBits();
  }

  lemma SecondBits()
    ensures BitOf(0xAB, 1) && !BitOf(0xCD, 1)
  {
    assert 0xAB == 2 * 0x55 + 1 && 0xCD == 2 * 0x66 + 1;
  }

  /** A field aligned to 8 bits starts at a byte. */
  lemma StartIsByte(data: seq<Byte>, pos: nat)
    ensures Start(data, pos, 8) % 8 == 0
  {
    RoundUpLeast(pos, 8);
  }

  /** `result` is `result0` with the payload of the byte `b` ORed in from bit `shift` on. */
  ghost predicate GroupAdded(result0: Word, shift: nat, b: Byte, result: Word) {
    forall i | 0 <= i < 64 :: result[i] == (result0[i] || (shift <= i < shift + 7 && GroupBits(b)[i - shift]))
  }

  /**
    After `k` groups: their payload in `result`, unless C leaves it undefined, and whether the last of them was the
    last one.
   */
  ghost predicate Collecting(data: seq<Byte>, at: nat, k: nat, result: Word, fin: bool) {
    && at + k <= |data| && (k <= 10 ==> result == Truncated(Payload(data, at, k)))
    && if fin then 0 < k && Continues(data, at, k - 1) && data[at + k - 1] < 128 else Continues(data, at, k)
  }

  lemma WholeByte(pos: nat, cnt: nat, at: nat, byte: nat)
    requires pos + cnt == 8 * at && pos == 8 * byte && cnt > 0
    ensures cnt >= 8 && pos % 8 == 0 && pos / 8 == byte
  {
  }

  lemma Collected(data: seq<Byte>, at: nat, k: nat, was: Word, result: Word, fin: bool)
    requires Collecting(data, at, k, was, false) && at + k < |data|
    requires fin <==> data[at + k] < 128
    requires 7 * k < 64 ==> GroupAdded(was, 7 * k, data[at + k], result)
    ensures Collecting(data, at, k + 1, result, fin)
  {
    if k < 10 {
      PayloadSnoc(data, at, k);
      TruncatedSnoc(Payload(data, at, k), was, data[at + k], result);
    }
  }

  lemma TruncatedSnoc(s: seq<bool>, was: Word, b: Byte, result: Word)
    requires was == Truncated(s) && |s| < 64 && GroupAdded(was, |s|, b, result)
    ensures result == Truncated(s + GroupBits(b))
  {
  }

  lemma CollectedGroups(data: seq<Byte>, at: nat, k: nat, result: Word, fin: bool)
    requires Collecting(data, at, k, result, fin)
    ensures fin ==> Groups(data, at) == Some(k)
    ensures !fin ==> Groups(data, at).None? || Groups(data, at).value > k
    ensures !fin && at + k == |data| ==> Groups(data, at).None?
  {
    if fin {
      GroupsAfter(data, at, k - 1);
    } else {
      GroupsAfter(data, at, k);
    }
  }

  lemma ByteBits(data: seq<Byte>, p: nat, i: nat)
    requires p % 8 == 0 && i < 8 && p + i < 8 * |data|
    ensures StreamBit(data, LilEndian, p + i) == BitOf(data[p / 8], i)
  {
    assert (p + i) / 8 == p / 8 && (p + i) % 8 == i;
    StreamByte(data, LilEndian, p / 8, i, p + i);
  }

  lemma GroupRead(data: seq<Byte>, p: nat, w: Word)
    requires p % 8 == 0 && Reads(data, LilEndian, p, 7, w)
    ensures p / 8 < |data| && w[..7] == GroupBits(data[p / 8]) && Below(w, 7)
  {
    forall i | 0 <= i < 7 ensures w[..7][i] == GroupBits(data[p / 8])[i] {
      ByteBits(data, p, i);
      assert w[..7][i] == StreamBit(data, LilEndian, p + i);
    }
  }

  lemma GroupOred(result0: Word, group: Word, shift: nat, b: Byte)
    requires shift < 64 && group[..7] == GroupBits(b) && Below(group, 7)
    ensures GroupAdded(result0, shift, b, Or(result0, Shl(group, shift)))
  {
    var r := Or(result0, Shl(group, shift));
    forall i | 0 <= i < 64
      ensures r[i] == (result0[i] || (shift <= i < shift + 7 && GroupBits(b)[i - shift]))
    {
      if shift <= i < shift + 7 { assert group[..7][i - shift] == group[i - shift]; }
    }
  }

  lemma LastRead(data: seq<Byte>, p: nat, w: Word)
    requires p % 8 == 0 && Reads(data, LilEndian, p + 7, 1, w)
    ensures p / 8 < |data| && (w == Zero() <==> !BitOf(data[p / 8], 7))
  {
    ByteBits(data, p, 7);
    assert w[..1][0] == StreamBit(data, LilEndian, p + 7 + 0);
    if !w[0] { assert w == Zero(); }
  }
}
