/** The encoding that `fld_cls_var_len_int_decode` reads: groups of seven bits, all but the last with bit 7 set. */
module Leb128 {
  import opened Arith
  import opened Bits
  import opened Words
  import opened BitReader
  import opened Wrappers

  function GroupBits(b: Byte): (s: seq<bool>)
    ensures |s| == 7
  {
    BitsOf(b, 8)[..7]
  }

  /** How many groups the encoding at byte `at` has; none if the data ends before its last group. */
  function Groups(data: seq<Byte>, at: nat): (m: Option<nat>)
    ensures m.Some? ==> 0 < m.value && at + m.value <= |data|
    decreases |data| - at
  {
    if at >= |data| then None
    else if data[at] < 128 then Some(1)
    else
      var rest := Groups(data, at + 1);
      if rest.None? then None else Some(rest.value + 1)
  }

  /** The payload of `m` groups from byte `at` on, first group lowest. */
  function Payload(data: seq<Byte>, at: nat, m: nat): (s: seq<bool>)
    requires at + m <= |data|
    ensures |s| == 7 * m
    decreases m
  {
    if m == 0 then [] else GroupBits(data[at]) + Payload(data, at + 1, m - 1)
  }

  /** The low 64 bits, zero-extended. */
  function Truncated(s: seq<bool>): (w: Word)
    ensures forall i | 0 <= i < 64 :: w[i] == (i < |s| && s[i])
  {
    seq(64, i requires 0 <= i < 64 => i < |s| && s[i])
  }

  lemma {:induction false} PayloadSnoc(data: seq<Byte>, at: nat, m: nat)
    requires at + m + 1 <= |data|
    ensures Payload(data, at, m + 1) == Payload(data, at, m) + GroupBits(data[at + m])
    decreases m
  {
    if m > 0 {
      PayloadSnoc(data, at + 1, m - 1);
    }
  }

  /** A run of `k` groups that all say that more follow. */
  ghost predicate Continues(data: seq<Byte>, at: nat, k: nat) {
    at + k <= |data| && forall i | at <= i < at + k :: data[i] >= 128
  }

  lemma {:induction false} GroupsAfter(data: seq<Byte>, at: nat, k: nat)
    requires Continues(data, at, k)
    ensures Groups(data, at) == (var rest := Groups(data, at + k); if rest.None? then None else Some(rest.value + k))
    decreases k
  {
    if k > 0 {
      GroupsAfter(data, at + 1, k - 1);
    }
  }

  lemma HighBit(b: Byte)
    ensures BitOf(b, 7) <==> b >= 128
  {
    var b1 := b / 2;
    var b2 := b1 / 2;
    var b3 := b2 / 2;
    assert BitsOf(b, 8)[7] == BitsOf(b1, 7)[6] == BitsOf(b2, 6)[5] == BitsOf(b3, 5)[4];
    assert BitsOf(b3, 5)[4] == BitsOf(b3 / 2 / 2, 3)[2] == BitsOf(b3 / 2 / 2 / 2 / 2, 1)[0];
  }

  // ---------------------------------------------------------------- what the payload is worth

  lemma LowSeven(b: nat, x: nat, top: nat)
    requires b == x + 128 * top && x < 128
    ensures b % 128 == x && b / 128 == top
  {
  }

  lemma GroupValue(b: Byte)
    ensures Val(GroupBits(b)) == b % 128
  {
    ValOfBits(b, 8);
    var s := BitsOf(b, 8);
    var low, top := s[..7], [s[7]];
    assert s == low + top;
    ValConcat(low, top);
    assert Pow2(7) == 128;
    ValBound(low);
    LowSeven(b, Val(low), Val(top));
  }

  lemma {:induction false} TruncatedValue(s: seq<bool>)
    ensures Val(Truncated(s)) == Val(s) % Pow2(64)
  {
    var w := Truncated(s);
    ValBound(w);
    if |s| <= 64 {
      Padded(s, w);
      ModOf(0, Pow2(64), Val(w));
    } else {
      LowPart(s, w);
      ModOf(Val(s[64..]), Pow2(64), Val(w));
    }
  }

  lemma Padded(s: seq<bool>, w: Word)
    requires |s| <= 64 && w == Truncated(s)
    ensures Val(w) == Val(s)
  {
    assert w == s + seq(64 - |s|, _ => false);
    ZerosOnTop(s, 64 - |s|);
  }

  lemma LowPart(s: seq<bool>, w: Word)
    requires |s| > 64 && w == s[..64]
    ensures Val(s) == Pow2(64) * Val(s[64..]) + Val(w)
  {
    assert s == w + s[64..];
    ValConcat(w, s[64..]);
  }

  /** `v` in `m` groups, the shortest way or padded. */
  function Encode(v: nat, m: nat): (s: seq<Byte>)
    requires 0 < m && v < Pow2(7 * m)
    ensures |s| == m
  {
    if m == 1 then
      assert Pow2(7) == 128;
      [v]
    else
      GroupRoom(v, m);
      [v % 128 + 128] + Encode(v / 128, m - 1)
  }

  lemma GroupRoom(v: nat, m: nat)
    requires 1 < m && v < Pow2(7 * m)
    ensures v / 128 < Pow2(7 * (m - 1))
  {
    Pow2Add(7, 7 * (m - 1));
    assert Pow2(7) == 128;
  }

  /** The data holds the encoding `e` from byte `at` on. */
  ghost predicate Holds(data: seq<Byte>, at: nat, e: seq<Byte>) {
    at + |e| <= |data| && forall i | 0 <= i < |e| :: data[at + i] == e[i]
  }

  lemma HoldsRest(data: seq<Byte>, at: nat, v: nat, m: nat)
    requires 1 < m && v < Pow2(7 * m) && Holds(data, at, Encode(v, m))
    ensures data[at] == v % 128 + 128
    ensures v / 128 < Pow2(7 * (m - 1)) && Holds(data, at + 1, Encode(v / 128, m - 1))
  {
    GroupRoom(v, m);
    var e, rest := Encode(v, m), Encode(v / 128, m - 1);
    assert data[at + 0] == e[0];
    forall i | 0 <= i < |rest| ensures data[at + 1 + i] == rest[i] {
      assert e[i + 1] == rest[i];
      assert data[at + (i + 1)] == e[i + 1];
    }
  }

  lemma LastGroup(data: seq<Byte>, at: nat, v: nat)
    requires v < 128 && at < |data| && data[at] == v
    ensures Groups(data, at) == Some(1) && Val(Payload(data, at, 1)) == v
  {
    GroupValue(data[at]);
    assert Payload(data, at, 1) == GroupBits(data[at]);
  }

  lemma EarlierGroup(data: seq<Byte>, at: nat, v: nat, m: nat)
    requires 1 < m && at + m <= |data| && data[at] == v % 128 + 128
    requires Groups(data, at + 1) == Some(m - 1) && Val(Payload(data, at + 1, m - 1)) == v / 128
    ensures Groups(data, at) == Some(m) && Val(Payload(data, at, m)) == v
  {
    GroupValue(data[at]);
    LowSeven(data[at], v % 128, 1);
    ValConcat(GroupBits(data[at]), Payload(data, at + 1, m - 1));
    assert Pow2(7) == 128;
  }

  /** Reading an encoding back: as many groups as were written, and the value that was written. */
  lemma {:induction false} EncodedValue(data: seq<Byte>, at: nat, v: nat, m: nat)
    requires 0 < m && v < Pow2(7 * m) && Holds(data, at, Encode(v, m))
    ensures Groups(data, at) == Some(m) && Val(Payload(data, at, m)) == v
    decreases m
  {
    if m == 1 {
      assert Pow2(7) == 128;
      assert data[at + 0] == Encode(v, m)[0] == v;
      LastGroup(data, at, v);
    } else {
      HoldsRest(data, at, v, m);
      EncodedValue(data, at + 1, v / 128, m - 1);
      EarlierGroup(data, at, v, m);
    }
  }

  /** Any unsigned encoding decodes to its value modulo `2^64`. */
  lemma UnsignedRoundTrip(data: seq<Byte>, at: nat, v: nat, m: nat)
    requires 0 < m && v < Pow2(7 * m) && Holds(data, at, Encode(v, m))
    ensures Groups(data, at) == Some(m) && Val(Truncated(Payload(data, at, m))) == v % Pow2(64)
  {
    EncodedValue(data, at, v, m);
    TruncatedValue(Payload(data, at, m));
  }

  /** The `n`-bit two's complement of `x`. */
  function TwosComplement(x: int, n: nat): int {
    if x < 0 then x + Pow2(n) else x
  }

  ghost predicate Fits(x: int, n: nat)
    requires 0 < n
  {
    0 - Pow2(n - 1) <= x < Pow2(n - 1)
  }

  lemma TopBit(s: seq<bool>)
    requires s != []
    ensures s[|s| - 1] <==> Pow2(|s| - 1) <= Val(s)
  {
    var n := |s| - 1;
    assert s == s[..n] + [s[n]];
    ValConcat(s[..n], [s[n]]);
    ValBound(s[..n]);
    assert Val([s[n]]) == (if s[n] then 1 else 0) by { assert [s[n]][1..] == []; }
  }

  /** A signed value written in up to nine groups comes back from `sext` over all its bits. */
  lemma SignedRoundTrip(data: seq<Byte>, at: nat, x: int, m: nat)
    requires 0 < m <= 9 && Fits(x, 7 * m)
    requires var v := TwosComplement(x, 7 * m);
             0 <= v < Pow2(7 * m) && Holds(data, at, Encode(v, m))
    ensures Groups(data, at) == Some(m)
    ensures SignedVal(Sext(Truncated(Payload(data, at, m)), 7 * m)) == x
  {
    var n, v := 7 * m, TwosComplement(x, 7 * m);
    EncodedValue(data, at, v, m);
    var s := Payload(data, at, m);
    var w := Truncated(s);
    assert w[..n] == s;
    SextValue(w, n);
    TopBit(s);
    assert Pow2(n) == 2 * Pow2(n - 1);
  }

  /** `x` cut to 64 bits and read as `int64_t`. */
  function CutToInt64(x: int): (r: int)
    ensures Fits(r, 64) && (x - r) % Pow2(64) == 0
  {
    var low := x % Pow2(64);
    SameRemainder(x, Pow2(64));
    assert Pow2(64) == 2 * Pow2(63);
    if low < Pow2(63) then low else low - Pow2(64)
  }

  lemma SameRemainder(x: int, p: nat)
    requires p > 0
    ensures (x - x % p) % p == 0 && (x - (x % p - p)) % p == 0
  {
    var q := x / p;
    assert x - x % p == p * q && x - (x % p - p) == p * (q + 1);
    MultipleOf(q, p);
    MultipleOf(q + 1, p);
  }

  lemma MultipleOf(q: int, p: nat)
    requires p > 0
    ensures (p * q) % p == 0
  {
    var r := (p * q) % p;
    assert p * (q - (p * q) / p) == r;
    MulSign(p, q - (p * q) / p);
  }

  /** Cutting a 70-bit two's complement down to 64 bits. */
  lemma CutComplement(x: int)
    requires Fits(x, 70)
    ensures 0 <= TwosComplement(x, 70) && TwosComplement(x, 70) % Pow2(64) == x % Pow2(64)
  {
    SeventyBits();
    Cut(x, Pow2(64), Pow2(70), TwosComplement(x, 70));
  }

  lemma SeventyBits()
    ensures Pow2(70) == Pow2(64) * 64 && Pow2(70) == 2 * Pow2(69)
  {
    Pow2Add(64, 6);
    assert Pow2(6) == 64;
  }

  lemma Cut(x: int, p: nat, big: nat, v: int)
    requires p > 0 && big == p * 64 && 0 - big <= 2 * x && v == if x < 0 then x + big else x
    ensures 0 <= v && v % p == x % p
  {
    AddMultiple(x, p, 64);
  }

  lemma AddMultiple(x: int, p: nat, k: nat)
    requires p > 0 && x + p * k >= 0
    ensures (x + p * k) % p == x % p
  {
    var q, r := x / p, x % p;
    assert x + p * k == p * (q + k) + r;
    if q + k < 0 { MulSign(p, q + k); }
    ModOf(q + k, p, r);
  }

  /** Any signed value written in ten groups, whose last six bits are lost, comes back cut to 64 bits. */
  lemma SignedRoundTripTen(data: seq<Byte>, at: nat, x: int)
    requires Fits(x, 70)
    requires var v := TwosComplement(x, 70);
             0 <= v < Pow2(70) && Holds(data, at, Encode(v, 10))
    ensures Groups(data, at) == Some(10)
    ensures SignedVal(Sext(Truncated(Payload(data, at, 10)), 64)) == CutToInt64(x)
  {
    EncodedValue(data, at, TwosComplement(x, 70), 10);
    var w := Truncated(Payload(data, at, 10));
    TruncatedValue(Payload(data, at, 10));
    CutComplement(x);
    SextValue(w, 64);
    assert w[..64] == w;
    TopBit(w);
  }
}
