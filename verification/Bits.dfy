/** Machine words as their 64 bits, least significant first, and the numbers they stand for. */
module Bits {
  import opened Arith

  /** A `uint64_t`: bit `i` has weight `2^i`. */
  type Word = w: seq<bool> | |w| == 64 witness seq(64, _ => false)

  type Byte = b: nat | b < 256

  function Zero(): (w: Word)
    ensures forall i | 0 <= i < 64 :: !w[i]
  {
    seq(64, _ => false)
  }

  /** `UINT64_MAX`. */
  function Ones(): (w: Word)
    ensures forall i | 0 <= i < 64 :: w[i]
  {
    seq(64, _ => true)
  }

  function Or(a: Word, b: Word): (r: Word)
    ensures forall i | 0 <= i < 64 :: r[i] == (a[i] || b[i])
  {
    seq(64, i requires 0 <= i < 64 => a[i] || b[i])
  }

  /** `w << k`: bits pushed past the top are lost. C leaves `k >= 64` undefined. */
  function Shl(w: Word, k: nat): (r: Word)
    requires k < 64
    ensures forall i | 0 <= i < 64 :: r[i] == (k <= i && w[i - k])
  {
    seq(64, i requires 0 <= i < 64 => k <= i && w[i - k])
  }

  /** `w >> k`. */
  function Shr(w: Word, k: nat): (r: Word)
    requires k < 64
    ensures forall i | 0 <= i < 64 :: r[i] == (i + k < 64 && w[i + k])
  {
    seq(64, i requires 0 <= i < 64 => i + k < 64 && w[i + k])
  }

  /** `w & ((1 << n) - 1)`. */
  function LowBits(w: Word, n: nat): (r: Word)
    requires n < 64
    ensures forall i | 0 <= i < 64 :: r[i] == (i < n && w[i])
  {
    seq(64, i requires 0 <= i < 64 => i < n && w[i])
  }

  /** `bswap64`: byte `j` changes places with byte `7 - j`. */
  function Bswap(w: Word): (r: Word)
    ensures forall i | 0 <= i < 64 :: r[i] == w[8 * (7 - i / 8) + i % 8]
  {
    seq(64, i requires 0 <= i < 64 => w[8 * (7 - i / 8) + i % 8])
  }

  function Pow2(n: nat): (r: nat)
    ensures 1 <= r
  {
    if n == 0 then 1 else 2 * Pow2(n - 1)
  }

  ghost predicate IsPow2(v: nat) {
    exists k: nat :: v == Pow2(k)
  }

  /** The number whose bits these are, least significant first. */
  function Val(s: seq<bool>): nat {
    if s == [] then 0 else (if s[0] then 1 else 0) + 2 * Val(s[1..])
  }

  /** The low `n` bits of a number. */
  function BitsOf(v: nat, n: nat): (s: seq<bool>)
    ensures |s| == n
  {
    if n == 0 then [] else [v % 2 == 1] + BitsOf(v / 2, n - 1)
  }

  /** Bit `i` of a byte. */
  predicate BitOf(b: Byte, i: nat)
    requires i < 8
  {
    BitsOf(b, 8)[i]
  }

  lemma {:induction false} ValOfBits(v: nat, n: nat)
    requires v < Pow2(n)
    ensures Val(BitsOf(v, n)) == v
  {
    if n > 0 {
      ValOfBits(v / 2, n - 1);
      assert BitsOf(v, n)[1..] == BitsOf(v / 2, n - 1);
    }
  }

  lemma {:induction false} ValBound(s: seq<bool>)
    ensures Val(s) < Pow2(|s|)
  {
    if s != [] { ValBound(s[1..]); }
  }

  lemma DoubledProduct(p: nat, v: nat)
    ensures 2 * p * v == 2 * (p * v)
  {
  }

  lemma {:induction false} Pow2Add(a: nat, b: nat)
    ensures Pow2(a + b) == Pow2(a) * Pow2(b)
  {
    if a > 0 {
      Pow2Add(a - 1, b);
      DoubledProduct(Pow2(a - 1), Pow2(b));
    }
  }

  lemma {:induction false} Pow2Mono(a: nat, b: nat)
    requires a <= b
    ensures Pow2(a) <= Pow2(b)
    decreases b
  {
    if a < b { Pow2Mono(a, b - 1); }
  }

  lemma {:induction false} ValConcat(s: seq<bool>, t: seq<bool>)
    ensures Val(s + t) == Val(s) + Pow2(|s|) * Val(t)
  {
    if s == [] {
      assert s + t == t;
    } else {
      ValConcat(s[1..], t);
      assert (s + t)[1..] == s[1..] + t;
      DoubledProduct(Pow2(|s| - 1), Val(t));
    }
  }

  /** Equal values of equal width have equal bits. */
  lemma {:induction false} ValInjective(s: seq<bool>, t: seq<bool>)
    requires |s| == |t| && Val(s) == Val(t)
    ensures s == t
  {
    if s != [] {
      ValInjective(s[1..], t[1..]);
      assert s == [s[0]] + s[1..] && t == [t[0]] + t[1..];
    }
  }

  function Reverse(s: seq<bool>): (r: seq<bool>)
    ensures |r| == |s|
    ensures forall i | 0 <= i < |s| :: r[i] == s[|s| - 1 - i]
  {
    seq(|s|, i requires 0 <= i < |s| => s[|s| - 1 - i])
  }

  /** `a | b` on natural numbers. */
  function OrNat(a: nat, b: nat): nat
    decreases a + b
  {
    if a == 0 && b == 0 then 0
    else (if a % 2 == 1 || b % 2 == 1 then 1 else 0) + 2 * OrNat(a / 2, b / 2)
  }

  lemma {:induction false} OrNatZero(a: nat)
    ensures OrNat(a, 0) == a
  {
    if a > 0 { OrNatZero(a / 2); }
  }

  lemma Or7(c: nat)
    requires c < 8
    ensures OrNat(c, 7) == 7
  {
    OrNatZero(c / 8);
    assert OrNat(c / 4, 1) == 1;
    assert OrNat(c / 2, 3) == 3;
  }

  lemma OrShift(a: nat, b: nat, r: nat)
    requires OrNat(a / 2, b) == r
    ensures OrNat(a, 2 * b) == 2 * r + a % 2
  {
    OrNatZero(0);
  }

  /** Why `cnt |= 56` is the bit count after a refill: it keeps the odd bits and fills up to seven whole bytes. */
  lemma Or56(cnt: nat)
    requires cnt < 64
    ensures OrNat(cnt, 56) == 56 + cnt % 8 == cnt + 8 * ((63 - cnt) / 8)
  {
    var h, q, o := cnt / 2, cnt / 2 / 2, cnt / 2 / 2 / 2;
    Or7(o);
    OrShift(q, 7, 7);
    OrShift(h, 14, 14 + q % 2);
    OrShift(cnt, 28, 28 + 2 * (q % 2) + h % 2);
  }

  /** `a & b`. */
  function And(a: nat, b: nat): nat {
    if a == 0 || b == 0 then 0
    else (if a % 2 == 1 && b % 2 == 1 then 1 else 0) + 2 * And(a / 2, b / 2)
  }

  /** Why `x & (cap - 1)` is the remainder by a capacity that is a power of two. */
  lemma {:induction false} AndIsMod(x: nat, n: nat)
    ensures And(x, Pow2(n) - 1) == x % Pow2(n)
  {
    var m := Pow2(n);
    if n == 0 {
      assert m == 1;
    } else if x == 0 {
      ModOf(0, m, 0);
    } else {
      var p := Pow2(n - 1);
      assert m == 2 * p;
      AndIsMod(x / 2, n - 1);
      MaskStep(x, p, m);
    }
  }

  lemma MaskStep(x: nat, p: nat, m: nat)
    requires p > 0 && m == 2 * p && And(x / 2, p - 1) == x / 2 % p
    ensures And(x, m - 1) == x % m
  {
    HalfMod(x, p);
    OddMask(x, p);
  }

  lemma OddMask(x: nat, p: nat)
    requires p > 0
    ensures And(x, 2 * p - 1) == x % 2 + 2 * And(x / 2, p - 1)
  {
    assert (2 * p - 1) / 2 == p - 1;
  }

  lemma HalfMod(x: nat, p: nat)
    requires p > 0
    ensures x % (2 * p) == x % 2 + 2 * (x / 2 % p)
  {
    var q, r := x / 2 / p, x / 2 % p;
    assert x / 2 == p * q + r;
    var c := x % 2 + 2 * r;
    assert x == 2 * p * q + c by { assert 2 * p * q == 2 * (p * q); }
    ModOf(q, 2 * p, c);
  }

  /** `x & -2^k` in `n` bits clears the low `k` bits. */
  lemma {:induction false} AndClears(x: nat, n: nat, k: nat)
    requires x < Pow2(n) && k <= n
    ensures Pow2(k) <= Pow2(n) && And(x, Pow2(n) - Pow2(k)) == x - x % Pow2(k)
    decreases k
  {
    Pow2Mono(k, n);
    if k == 0 {
      AndAll(x, n);
    } else {
      var p, q := Pow2(n - 1), Pow2(k - 1);
      assert Pow2(n) == 2 * p && Pow2(k) == 2 * q;
      AndClears(x / 2, n - 1, k - 1);
      ClearsStep(x, p, q, 2 * p, 2 * q);
    }
  }

  lemma AndAll(x: nat, n: nat)
    requires x < Pow2(n)
    ensures And(x, Pow2(n) - 1) == x && x % 1 == 0
  {
    AndIsMod(x, n);
    ModOf(0, Pow2(n), x);
  }

  lemma ClearsStep(x: nat, p: nat, q: nat, p2: nat, q2: nat)
    requires 0 < q <= p && p2 == 2 * p && q2 == 2 * q && x < p2
    requires And(x / 2, p - q) == x / 2 - x / 2 % q
    ensures And(x, p2 - q2) == x - x % q2
  {
    HalfMod(x, q);
    if p == q {
      ModOf(0, q2, x);
    } else {
      EvenMask(x, p - q, p2 - q2);
    }
  }

  lemma EvenMask(x: nat, m: nat, m2: nat)
    requires m2 == 2 * m
    ensures And(x, m2) == 2 * And(x / 2, m)
  {
    assert m2 / 2 == m;
  }
}
