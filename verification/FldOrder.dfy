/** What integers in the stream are worth: the bits and bytes of fixed-length fields, and the groups of others. */
module FldOrder {
  import opened Arith
  import opened Wrappers
  import opened Bits
  import opened Words
  import opened BitReader
  import opened Leb128
  import opened FldLocs
  import opened FldValues
  import FldDecode

  /** The integer that a number of `len` bits stands for. */
  ghost function Meaning(n: nat, len: nat, kind: IntKind): int
    requires len > 0
  {
    match kind
    case Sint => if n >= Pow2(len - 1) then n - Pow2(len) else n
    case Bool => if n != 0 then 1 else 0
    case _ => n
  }

  /** What a fixed-length field holds is what its bits, each of them, stand for. */
  lemma FxdLenValueBits(data: seq<Byte>, cls: FldDecode.FxdLen, kind: IntKind, pos: nat, s: seq<bool>)
    requires cls.len > 0 && FldDecode.FieldHolds(data, cls, pos, s)
    ensures FxdLenValue(data, cls, kind, pos) == Meaning(Val(s), cls.len, kind)
  {
    FldStreamHolds(data, cls, pos);
    HoldsOnce(data, cls, pos, s, FldStream(data, cls, pos));
    TopBit(s);
  }

  // Whole bytes.

  /** The number that bytes are, the least significant one first. */
  function LeNumber(d: seq<Byte>): nat {
    if d == [] then 0 else d[0] + 256 * LeNumber(d[1..])
  }

  /** The number that bytes are, the most significant one first. */
  function BeNumber(d: seq<Byte>): nat {
    if d == [] then 0 else 256 * BeNumber(d[..|d| - 1]) + d[|d| - 1]
  }

  lemma LowByte(s: seq<bool>, b: Byte)
    requires |s| >= 8 && s[..8] == BitsOf(b, 8)
    ensures Val(s) == b + 256 * Val(s[8..])
  {
    assert s == s[..8] + s[8..];
    ValConcat(s[..8], s[8..]);
    assert Pow2(8) == 256;
    ValOfBits(b, 8);
  }

  lemma {:induction false} LeBytes(data: seq<Byte>, at: nat, n: nat, s: seq<bool>)
    requires at + n <= |data| && |s| == 8 * n
    requires forall i | 0 <= i < 8 * n :: s[i] == StreamBit(data, LilEndian, 8 * at + i)
    ensures Val(s) == LeNumber(data[at..at + n])
    decreases n
  {
    if n > 0 {
      forall i | 0 <= i < 8 ensures s[..8][i] == BitsOf(data[at], 8)[i] {
        StreamByte(data, LilEndian, at, i, 8 * at + i);
      }
      LowByte(s, data[at]);
      forall i | 0 <= i < 8 * (n - 1) ensures s[8..][i] == StreamBit(data, LilEndian, 8 * (at + 1) + i) {
        assert s[8..][i] == s[8 + i];
      }
      LeBytes(data, at + 1, n - 1, s[8..]);
      assert data[at..at + n][1..] == data[at + 1..at + 1 + (n - 1)];
    }
  }

  lemma {:induction false} BeBytes(data: seq<Byte>, at: nat, n: nat, s: seq<bool>)
    requires at + n <= |data| && |s| == 8 * n
    requires forall i | 0 <= i < 8 * n :: s[i] == StreamBit(data, BigEndian, 8 * at + 8 * n - 1 - i)
    ensures Val(s) == BeNumber(data[at..at + n])
    decreases n
  {
    if n > 0 {
      var last := at + n - 1;
      forall i | 0 <= i < 8 ensures s[..8][i] == BitsOf(data[last], 8)[i] {
        StreamByte(data, BigEndian, last, 7 - i, 8 * at + 8 * n - 1 - i);
      }
      LowByte(s, data[last]);
      forall i | 0 <= i < 8 * (n - 1) ensures s[8..][i] == StreamBit(data, BigEndian, 8 * at + 8 * (n - 1) - 1 - i) {
        assert s[8..][i] == s[8 + i];
      }
      BeBytes(data, at, n - 1, s[8..]);
      assert data[at..at + n][..n - 1] == data[at..at + (n - 1)];
    }
  }

  /**
    A field of whole bytes in the bit order that its byte order has by default: its bytes are the number, the most
    significant one first in big endian and last in little endian.
   */
  lemma WholeBytesHold(data: seq<Byte>, cls: FldDecode.FxdLen, at: nat, n: nat, s: seq<bool>)
    requires cls.len == 8 * n && FldDecode.FieldHolds(data, cls, 8 * at, s)
    ensures at + n <= |data|
    ensures cls.bo == BigEndian && cls.bito == FldDecode.LastToFirst ==> Val(s) == BeNumber(data[at..at + n])
    ensures cls.bo == LilEndian && cls.bito == FldDecode.FirstToLast ==> Val(s) == LeNumber(data[at..at + n])
  {
    if cls.bo == BigEndian && cls.bito == FldDecode.LastToFirst {
      forall i | 0 <= i < 8 * n ensures s[i] == StreamBit(data, BigEndian, 8 * at + 8 * n - 1 - i) {
        assert s[i] == StreamBit(data, cls.bo, FldDecode.BitPos(cls.bito, 8 * at, cls.len, i));
      }
      BeBytes(data, at, n, s);
    } else if cls.bo == LilEndian && cls.bito == FldDecode.FirstToLast {
      forall i | 0 <= i < 8 * n ensures s[i] == StreamBit(data, LilEndian, 8 * at + i) {
        assert s[i] == StreamBit(data, cls.bo, FldDecode.BitPos(cls.bito, 8 * at, cls.len, i));
      }
      LeBytes(data, at, n, s);
    }
  }

  /** The word that such a field is read as. */
  lemma WholeBytesField(data: seq<Byte>, cls: FldDecode.FxdLen, at: nat, n: nat, w: Word)
    requires cls.len == 8 * n <= 64 && FldDecode.IsField(data, cls, 8 * at, w)
    ensures at + n <= |data|
    ensures cls.bo == BigEndian && cls.bito == FldDecode.LastToFirst ==> Val(w) == BeNumber(data[at..at + n])
    ensures cls.bo == LilEndian && cls.bito == FldDecode.FirstToLast ==> Val(w) == LeNumber(data[at..at + n])
  {
    WholeBytesHold(data, cls, at, n, w[..cls.len]);
    BelowValue(w, cls.len);
  }

  /** The integer that such a field holds. */
  lemma WholeBytesValue(data: seq<Byte>, cls: FldDecode.FxdLen, kind: IntKind, at: nat, n: nat)
    requires 0 < n && cls.len == 8 * n && at + n <= |data|
    ensures var v := FxdLenValue(data, cls, kind, 8 * at);
      && (cls.bo == BigEndian && cls.bito == FldDecode.LastToFirst ==>
            v == Meaning(BeNumber(data[at..at + n]), cls.len, kind))
      && (cls.bo == LilEndian && cls.bito == FldDecode.FirstToLast ==>
            v == Meaning(LeNumber(data[at..at + n]), cls.len, kind))
  {
    FldStreamHolds(data, cls, 8 * at);
    var s := FldStream(data, cls, 8 * at);
    FxdLenValueBits(data, cls, kind, 8 * at, s);
    WholeBytesHold(data, cls, at, n, s);
  }

  /** The bytes 12 34 in the two byte orders, each with its default bit order. */
  lemma TwoBytes(data: seq<Byte>, cls: FldDecode.FxdLen, w: Word)
    requires data == [0x12, 0x34] && cls.len == 16 && FldDecode.IsField(data, cls, 0, w)
    ensures cls.bo == BigEndian && cls.bito == FldDecode.LastToFirst ==> Val(w) == 0x1234
    ensures cls.bo == LilEndian && cls.bito == FldDecode.FirstToLast ==> Val(w) == 0x3412
  {
    WholeBytesField(data, cls, 0, 2, w);
    assert data[0..2] == data;
    assert data[..1] == [0x12] && data[1..] == [0x34];
    assert BeNumber([0x12]) == 0x12 by { assert [0x12][..0] == []; }
    assert LeNumber([0x34]) == 0x34;
  }

  // Groups of seven bits.

  /** The number that the low seven bits of bytes are, the least significant ones first. */
  function Base128(d: seq<Byte>): nat {
    if d == [] then 0 else d[0] % 128 + 128 * Base128(d[1..])
  }

  lemma {:induction false} PayloadNumber(data: seq<Byte>, at: nat, m: nat)
    requires at + m <= |data|
    ensures Val(Payload(data, at, m)) == Base128(data[at..at + m])
    decreases m
  {
    if m > 0 {
      GroupValue(data[at]);
      ValConcat(GroupBits(data[at]), Payload(data, at + 1, m - 1));
      assert Pow2(7) == 128;
      PayloadNumber(data, at + 1, m - 1);
      assert data[at..at + m][1..] == data[at + 1..at + 1 + (m - 1)];
    }
  }

  /** An encoding ends with its first byte below 128. */
  lemma GroupsEnd(data: seq<Byte>, at: nat, m: nat)
    ensures Groups(data, at) == Some(m) <==>
      0 < m && at + m <= |data| && Continues(data, at, m - 1) && data[at + m - 1] < 128
  {
    if 0 < m && at + m <= |data| && Continues(data, at, m - 1) {
      GroupsAfter(data, at, m - 1);
    } else if Groups(data, at) == Some(m) {
      GroupsContinue(data, at);
    }
  }

  lemma {:induction false} GroupsContinue(data: seq<Byte>, at: nat)
    requires Groups(data, at).Some?
    ensures Continues(data, at, Groups(data, at).value - 1)
    decreases |data| - at
  {
    if data[at] >= 128 {
      GroupsContinue(data, at + 1);
    }
  }

  /** What a variable-length field holds: the number that its groups are, of which no more than 64 bits count. */
  lemma VarLenValueIs(data: seq<Byte>, at: nat, m: nat, signed: bool)
    requires 0 < m && at + m <= |data|
    ensures var n := Base128(data[at..at + m]);
      VarLenValue(data, at, m, signed) == Meaning(if m <= 9 then n else n % Pow2(64), Min(7 * m, 64),
                                                  if signed then Sint else Uint)
  {
    var p := Payload(data, at, m);
    var w := Truncated(p);
    PayloadNumber(data, at, m);
    TopBit(w[..Min(7 * m, 64)]);
    if m <= 9 {
      assert w[..7 * m] == p;
    } else {
      assert w[..64] == w;
      TruncatedValue(p);
    }
  }
}
