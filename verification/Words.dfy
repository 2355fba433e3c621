/** `reverse_bits` and `sext` of decoder.c, on 64-bit words. */
module Words {
  import opened Bits

  /** Every bit from `n` on is clear: the word is a number below `2^n`. */
  predicate Below(w: Word, n: nat) {
    forall i | 0 <= i < 64 && n <= i :: !w[i]
  }

  /** The word whose low `len` bits are those of `w` in the opposite order, and all others clear. */
  function Reversed(w: Word, len: nat): (r: Word)
    requires len <= 64
    ensures Below(r, len) && r[..len] == Reverse(w[..len])
  {
    seq(64, i requires 0 <= i < 64 => i < len && w[len - 1 - i])
  }

  /** Reversing the bits of a `len`-bit word twice gives it back. */
  lemma ReverseInvolution(w: Word, len: nat)
    requires len <= 64 && Below(w, len)
    ensures Reversed(Reversed(w, len), len) == w
  {
    var r := Reversed(w, len);
    forall i | 0 <= i < 64 ensures Reversed(r, len)[i] == w[i] {
      if i < len { assert r[..len][len - 1 - i] == w[..len][i]; }
    }
  }

  /** `reverse_bits(v0, len)`. */
  method ReverseBits(v0: Word, len: nat) returns (r: Word)
    requires 0 < len <= 64 && Below(v0, len)
    ensures r == Reversed(v0, len)
  {
    r := v0;
    var s := 63;
    var v := Shr(v0, 1);
    while v != Zero()
      invariant 0 <= s <= 63
      invariant forall i | 0 <= i < 64 :: v[i] == (i + (64 - s) < 64 && v0[i + (64 - s)])
      invariant forall j | 0 <= j < 64 - s :: r[j] == v0[63 - s - j]
      decreases s
    {
      assert s == 0 ==> v == Zero();
      r := Shl(r, 1);
      r := Or(r, LowBits(v, 1));
      s := s - 1;
      v := Shr(v, 1);
    }
    assert Below(v0, 64 - s) by {
      forall i | 0 <= i < 64 && 64 - s <= i ensures !v0[i] { assert !v[i - (64 - s)]; }
    }
    r := Shl(r, s);
    r := Shr(r, 64 - len);
  }

  /** The value of a word read as `int64_t`. */
  function SignedVal(w: Word): int {
    Val(w) - (if w[63] then Pow2(64) else 0)
  }

  /** `sext(val, n)`. */
  function Sext(val: Word, n: nat): Word
    requires 0 < n <= 64
  {
    var sign := Shr(val, n - 1);
    if n < 64 && sign != Zero() then
      var signMask := LowBits(Ones(), 64 - n);
      Or(val, Shl(signMask, n))
    else val
  }

  lemma {:induction false} ValOnes(n: nat)
    ensures Val(seq(n, _ => true)) == Pow2(n) - 1
  {
    if n > 0 {
      ValOnes(n - 1);
      assert seq(n, _ => true)[1..] == seq(n - 1, _ => true);
    }
  }

  lemma {:induction false} ValZeros(n: nat)
    ensures Val(seq(n, _ => false)) == 0
  {
    if n > 0 {
      ValZeros(n - 1);
      assert seq(n, _ => false)[1..] == seq(n - 1, _ => false);
    }
  }

  lemma Distribute(a: nat, b: nat)
    requires b > 0
    ensures a * (b - 1) == a * b - a
  {
  }

  lemma OnesOnTop(s: seq<bool>, k: nat)
    ensures Val(s + seq(k, _ => true)) == Val(s) + Pow2(|s| + k) - Pow2(|s|)
  {
    ValConcat(s, seq(k, _ => true));
    ValOnes(k);
    Pow2Add(|s|, k);
    Distribute(Pow2(|s|), Pow2(k));
  }

  lemma ZerosOnTop(s: seq<bool>, k: nat)
    ensures Val(s + seq(k, _ => false)) == Val(s)
  {
    ValConcat(s, seq(k, _ => false));
    ValZeros(k);
  }

  lemma SextBits(val: Word, n: nat)
    requires 0 < n <= 64 && Below(val, n)
    ensures var r := Sext(val, n);
            r == val[..n] + seq(64 - n, _ => val[n - 1]) && r[63] == val[n - 1]
  {
    var sign := Shr(val, n - 1);
    assert sign[0] == val[n - 1];
    if !val[n - 1] { assert sign == Zero(); }
  }

  /** `sext` gives the two's-complement value of an `n`-bit number. */
  lemma SextValue(val: Word, n: nat)
    requires 0 < n <= 64 && Below(val, n)
    ensures SignedVal(Sext(val, n)) == Val(val[..n]) - (if val[n - 1] then Pow2(n) else 0)
  {
    SextBits(val, n);
    var low, k := val[..n], 64 - n;
    if val[n - 1] {
      assert Sext(val, n) == low + seq(k, _ => true);
      OnesOnTop(low, k);
    } else {
      assert Sext(val, n) == low + seq(k, _ => false);
      ZerosOnTop(low, k);
    }
  }
}
