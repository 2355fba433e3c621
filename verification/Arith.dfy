/** Numbers: the ends of machine words, and products, quotients and remainders by a variable. */
module Arith {

  const TWO32: nat := 0x1_0000_0000

  const TWO63: nat := 0x8000_0000_0000_0000

  const TWO64: nat := 0x1_0000_0000_0000_0000

  const UINT64_MAX: nat := 0xFFFF_FFFF_FFFF_FFFF

  type Uint64 = n: nat | n <= UINT64_MAX

  function Min(a: nat, b: nat): nat {
    if a <= b then a else b
  }

  function Max(a: nat, b: nat): nat {
    if a >= b then a else b
  }

  /** The numbers below `n`. */
  ghost function NatsBelow(n: nat): (s: set<nat>)
    ensures |s| == n && forall g: nat :: g in s <==> g < n
  {
    if n == 0 then {} else NatsBelow(n - 1) + {n - 1}
  }

  lemma MulSign(m: nat, d: int)
    requires m > 0
    ensures d >= 1 ==> m * d >= m
    ensures d <= -1 ==> m * d <= 0 - m
  {
  }

  lemma ModOf(q: nat, m: nat, r: nat)
    requires r < m
    ensures (m * q + r) % m == r && (m * q + r) / m == q
  {
    var v := m * q + r;
    var d := q - v / m;
    assert m * d == v % m - r by {
      assert v == m * (v / m) + v % m;
      assert m * d == m * q - m * (v / m);
    }
    MulSign(m, d);
  }

  lemma MulMono(m: nat, a: nat, b: nat)
    requires a <= b
    ensures m * a <= m * b
  {
    assert m * (b - a) == m * b - m * a;
  }

  lemma MulCancel(f: nat, a: nat, b: nat)
    requires f * a < f * b
    ensures a < b
  {
    if a >= b { MulMono(f, b, a); }
  }

  lemma MulShift(m: nat, k: nat, p: nat, q: nat, j: nat)
    requires p == m * k
    ensures p * q + m * j == m * (k * q + j)
  {
    assert p * q == m * (k * q);
    assert m * (k * q + j) == m * (k * q) + m * j;
  }

  lemma ModModStep(a: nat, m: nat, k: nat, p: nat, q: nat, j: nat, c: nat)
    requires c < m && p == m * k && a == p * q + m * j + c && m * j + c < p
    ensures a % m == c && j < k
  {
    MulShift(m, k, p, q, j);
    ModOf(k * q + j, m, c);
    MulCancel(m, j, k);
  }

  /** With `m` dividing `p`, remainders by `m` can be taken after remainders by `p`. */
  lemma ModMod(a: nat, m: nat, k: nat, p: nat) returns (j: nat)
    requires m > 0 && p == m * k && p > 0
    ensures j < k && a % p == m * j + a % m
  {
    var r := a % p;
    j := r / m;
    ModModStep(a, m, k, p, a / p, j, r % m);
  }
}
