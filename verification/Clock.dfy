/** Clock values: `calc_new_def_clk_val` of decoder.c and `actf_clk_cls_cc_to_ns_from_origin` of metadata.c. */
module Clock {
  import opened Arith
  import opened Bits

  const NS_PER_S: nat := 1_000_000_000

  /**
    The classes a clock-value field may have; a variable-length one knows how many payload bits it was written with.
   */
  datatype ClkFld = FxdLenUint(len: nat) | VarLenUint(bits: nat) | OtherFld

  /** The `l` of `calc_new_def_clk_val`; for a variable-length field it counts groups, not bits. */
  function CodeLength(f: ClkFld): nat
    requires !f.OtherFld?
  {
    match f
    case FxdLenUint(len) => len
    case VarLenUint(bits) => bits / 7 + (if bits % 7 != 0 then 1 else 0)
  }

  /**
    The update rule over unbounded numbers, for `mask + 1 == m`: `h` keeps the bits of the
    old value above the mask and `cur` those below it.
   */
  function Updated(was: nat, v: nat, m: nat): nat
    requires m > 0
  {
    var h := was - was % m;
    var cur := was % m;
    if v >= cur then h + v else h + m + v
  }

  /** `calc_new_def_clk_val`, in 64-bit arithmetic. */
  function CalcNewDefClkVal(f: ClkFld, v: nat, was: nat): nat {
    match f
    case OtherFld => was
    case _ => Updated(was, v, Pow2(CodeLength(f))) % TWO64
  }

  /** `r` is the least value from `was` on that is congruent to `v` modulo `m`. */
  ghost predicate IsNext(r: nat, was: nat, v: nat, m: nat)
    requires m > 0
  {
    && was <= r && r % m == v
    && forall s: nat | was <= s && s % m == v :: r <= s
  }

  lemma SplitMod(a: nat, m: nat, r: nat)
    requires m > 0 && r < m
    ensures (a - a % m + r) % m == r && (a - a % m + m + r) % m == r
    ensures a - a % m + r == m * (a / m) + r
  {
    ModOf(a / m, m, r);
    ModOf(a / m + 1, m, r);
    assert m * (a / m + 1) == m * (a / m) + m;
  }

  lemma UpdatedIsNext(was: nat, v: nat, m: nat)
    requires m > 0 && v < m
    ensures IsNext(Updated(was, v, m), was, v, m)
  {
    var r := Updated(was, v, m);
    SplitMod(was, m, v);
    forall s: nat | was <= s && s % m == v ensures r <= s {
      NoneBetween(was, s, v, m);
    }
  }

  /**
    Every case of the update: a field of another class leaves the value, and else it goes on from the last multiple `b`
    of the period to the first of `b + v` and `b + v + m` that is not before the old value, in 64 bits.
   */
  lemma UpdateSteps(f: ClkFld, v: nat, was: nat) returns (l: nat, b: nat, m: nat)
    ensures f.OtherFld? ==> CalcNewDefClkVal(f, v, was) == was
    ensures f.FxdLenUint? ==> l == f.len
    ensures f.VarLenUint? ==> f.bits <= 7 * l < f.bits + 7
    ensures !f.OtherFld? ==>
      && m == Pow2(l) && b % m == 0 && b <= was < b + m
      && CalcNewDefClkVal(f, v, was) == (if b + v >= was then b + v else b + v + m) % TWO64
  {
    l, b, m := 0, 0, 1;
    if !f.OtherFld? {
      l := CodeLength(f);
      m := Pow2(l);
      b := UpdatedFrom(was, v, m);
    }
    if f.VarLenUint? { GroupsOf(f.bits); }
  }

  lemma UpdatedFrom(was: nat, v: nat, m: nat) returns (b: nat)
    requires m > 0
    ensures b % m == 0 && b <= was < b + m && Updated(was, v, m) == if b + v >= was then b + v else b + v + m
  {
    b := was - was % m;
    SplitMod(was, m, 0);
  }

  lemma GroupsOf(bits: nat)
    ensures bits <= 7 * CodeLength(VarLenUint(bits)) < bits + 7
  {
  }

  lemma NoneBetween(was: nat, s: nat, v: nat, m: nat)
    requires m > 0 && v < m && was <= s && s % m == v
    ensures Updated(was, v, m) <= s
  {
    var q, p := was / m, s / m;
    assert was == m * q + was % m && s == m * p + v;
    var d := p - q;
    assert m * d == m * p - m * q;
    MulSign(m, d);
    if v < was % m {
      MulSign(m, d - 1);
      assert m * (d - 1) == m * d - m;
    }
  }

  /**
    The clock property for an `l`-bit field (section 6.2.1 of CTF2-SPEC-2.0): the update gives the
    least value from the old one on that ends in the bits read, exactly when that value fits 64 bits.
   */
  lemma FixedLengthClock(len: nat, v: nat, was: nat)
    requires 0 < len <= 64 && v < Pow2(len) && was < TWO64
    ensures IsNext(CalcNewDefClkVal(FxdLenUint(len), v, was), was, v, Pow2(len)) <==> Updated(was, v, Pow2(len)) < TWO64
  {
    var m := Pow2(len);
    UpdatedIsNext(was, v, m);
    Pow2AtMost(len);
    Wrapped(Updated(was, v, m), was, v, m);
  }

  lemma Wrapped(u: nat, was: nat, v: nat, m: nat)
    requires 0 < m <= TWO64 && was < TWO64 && v < TWO64 && u == Updated(was, v, m)
    ensures u >= TWO64 ==> u % TWO64 < was
    ensures u < TWO64 ==> u % TWO64 == u
  {
    if u >= TWO64 {
      assert u % TWO64 == u - TWO64;
    }
  }

  lemma Pow2AtMost(len: nat)
    requires len <= 64
    ensures Pow2(len) <= TWO64
  {
    Pow2Mono(len, 64);
    Pow2Is64();
  }

  lemma Pow2Is64()
    ensures Pow2(64) == TWO64
  {
    assert Pow2(8) == 256;
    assert Pow2(16) == 65536;
    assert Pow2(24) == 65536 * 256;
    assert Pow2(32) == 65536 * 65536;
    assert Pow2(40) == 65536 * 65536 * 256;
    assert Pow2(48) == 65536 * 65536 * 65536;
    assert Pow2(56) == 65536 * 65536 * 65536 * 256;
  }

  /**
    A packet's clock: the default clock value after each of the fields holding the readings `vs`
    of an `len`-bit clock.
   */
  function Run(len: nat, was: nat, vs: seq<nat>): (cs: seq<nat>)
    ensures |cs| == |vs|
    decreases |vs|
  {
    if vs == [] then [] else
      var c := CalcNewDefClkVal(FxdLenUint(len), vs[0], was);
      [c] + Run(len, c, vs[1..])
  }

  function Reading(len: nat, t: nat): nat { t % Pow2(len) }

  /** The true times of the events, told by the writer only modulo `2^len`. */
  function Readings(len: nat, ts: seq<nat>): (vs: seq<nat>)
    ensures |vs| == |ts|
  {
    seq(|ts|, i requires 0 <= i < |ts| => Reading(len, ts[i]))
  }

  ghost predicate Gaps(was: nat, ts: seq<nat>, m: nat)
    decreases |ts|
  {
    ts != [] ==> was <= ts[0] < was + m && Gaps(ts[0], ts[1..], m)
  }

  ghost predicate Rising(was: nat, ts: seq<nat>)
    decreases |ts|
  {
    ts != [] ==> was <= ts[0] < TWO64 && Rising(ts[0], ts[1..])
  }

  lemma NextIsUnique(a: nat, b: nat, was: nat, v: nat, m: nat)
    requires m > 0 && IsNext(a, was, v, m) && IsNext(b, was, v, m)
    ensures a == b
  {
  }

  lemma NearIsNext(t: nat, was: nat, m: nat)
    requires m > 0 && was <= t
    ensures IsNext(t, was, t % m, m) <==> t < was + m
  {
    if t < was + m {
      forall s: nat | was <= s && s % m == t % m ensures t <= s {
        var d := t / m - s / m;
        assert m * d == m * (t / m) - m * (s / m);
        MulSign(m, d);
      }
    } else {
      PeriodBefore(t, m);
    }
  }

  lemma PeriodBefore(t: nat, m: nat)
    requires 0 < m <= t
    ensures (t - m) % m == t % m
  {
    var q := t / m;
    assert q == 0 ==> m * q == 0;
    assert m * (q - 1) == m * q - m;
    ModOf(q - 1, m, t % m);
  }

  /** One reading recovers the true time exactly when less than one period has passed since the last. */
  lemma Recovers(len: nat, t: nat, was: nat)
    requires 0 < len <= 64 && was <= t < TWO64
    ensures CalcNewDefClkVal(FxdLenUint(len), t % Pow2(len), was) == t <==> t < was + Pow2(len)
  {
    var m := Pow2(len);
    var v := t % m;
    NearIsNext(t, was, m);
    FixedLengthClock(len, v, was);
    UpdatedIsNext(was, v, m);
    if t < was + m {
      NextIsUnique(t, Updated(was, v, m), was, v, m);
    }
  }

  /**
    Over a whole packet: the decoder recovers every event's true time from its low `len` bits
    exactly when no two neighbouring times are a full period apart.
   */
  lemma {:induction false} PacketTimesRecovered(len: nat, was: nat, ts: seq<nat>)
    requires 0 < len <= 64 && Rising(was, ts)
    ensures Run(len, was, Readings(len, ts)) == ts <==> Gaps(was, ts, Pow2(len))
    decreases |ts|
  {
    if ts != [] {
      Recovers(len, ts[0], was);
      PacketTimesRecovered(len, ts[0], ts[1..]);
      var vs := Readings(len, ts);
      assert vs[1..] == Readings(len, ts[1..]);
      var r := Run(len, was, vs);
      if r[0] == ts[0] {
        assert r == [ts[0]] + Run(len, ts[0], vs[1..]);
        assert ts == [ts[0]] + ts[1..];
        assert r[1..] == Run(len, ts[0], vs[1..]);
      }
    }
  }

  /** No update of a packet passes `2^64`. */
  ghost predicate NoOverflow(len: nat, was: nat, vs: seq<nat>)
    decreases |vs|
  {
    vs != [] ==>
      var u := Updated(was, vs[0], Pow2(len));
      u < TWO64 && NoOverflow(len, u, vs[1..])
  }

  /** Whatever the packet holds, its clock values never decrease and each is congruent to what was read. */
  lemma {:induction false} ClocksNeverDecrease(len: nat, was: nat, vs: seq<nat>)
    requires 0 < len <= 64 && was < TWO64 && NoOverflow(len, was, vs)
    requires forall i | 0 <= i < |vs| :: vs[i] < Pow2(len)
    ensures Rising(was, Run(len, was, vs))
    ensures Readings(len, Run(len, was, vs)) == vs
    decreases |vs|
  {
    if vs != [] {
      FixedLengthClock(len, vs[0], was);
      var c := Updated(was, vs[0], Pow2(len));
      assert c == CalcNewDefClkVal(FxdLenUint(len), vs[0], was);
      ClocksNeverDecrease(len, c, vs[1..]);
      var r := Run(len, was, vs);
      assert r[1..] == Run(len, c, vs[1..]);
      assert Readings(len, r)[1..] == Readings(len, r[1..]);
      assert vs == [vs[0]] + vs[1..];
      assert Readings(len, r) == [c % Pow2(len)] + Readings(len, r[1..]);
    }
  }

  /** The bits a `g`-group value is reported to have: seven to a group, at most 64. */
  function VarLenBits(g: nat): nat {
    if 7 * g <= 64 then 7 * g else 64
  }

  lemma VarLenCode(g: nat)
    requires 1 <= g <= 10
    ensures CodeLength(VarLenUint(VarLenBits(g))) == g
  {
  }

  /** The distance of `was` from the last value whose low `7 * g` bits are zero, against `2^g`. */
  ghost predicate VarLenAgrees(g: nat, v: nat, was: nat) {
    var m, p := Pow2(g), Pow2(7 * g);
    var low := was % p;
    if v >= was % m then low < m else low + m >= p
  }

  /** How far apart the two updates are, `mj` and `md` being multiples of `m`. */
  lemma UpdatesDiffer(was: nat, v: nat, m: nat, p: nat, mj: nat, md: nat)
    requires 0 < m && p == m + mj + md && v < p
    requires mj == 0 || mj >= m
    requires md == 0 || md >= m
    requires was % p == mj + was % m
    ensures Updated(was, v, m) == Updated(was, v, p)
      <==> (if v >= was % m then was % p < m else was % p + m >= p)
  {
  }

  lemma VarLenUpdates(g: nat, v: nat, was: nat)
    requires 1 <= g && v < Pow2(7 * g)
    ensures Updated(was, v, Pow2(g)) == Updated(was, v, Pow2(7 * g)) <==> VarLenAgrees(g, v, was)
  {
    var m, p := Pow2(g), Pow2(7 * g);
    Pow2Add(g, 6 * g);
    var k := Pow2(6 * g);
    var j := ModMod(was, m, k, p);
    var d := k - 1 - j;
    Distribute(m, k, j);
    if d > 0 { MulMono(m, 1, d); }
    if j > 0 { MulMono(m, 1, j); }
    UpdatesDiffer(was, v, m, p, m * j, m * d);
  }

  lemma Distribute(m: nat, k: nat, j: nat)
    ensures m * (k - 1 - j) == m * k - m - m * j
  {
  }

  /**
    A variable-length clock field takes the number of groups for the number of bits, so its update
    is the one of section 6.2.1 of CTF2-SPEC-2.0 only next to a multiple of the field's period.
   */
  lemma VariableLengthClock(g: nat, v: nat, was: nat)
    requires 1 <= g <= 10 && v < Pow2(7 * g) && v < TWO64 && was < TWO64
    ensures IsNext(CalcNewDefClkVal(VarLenUint(VarLenBits(g)), v, was), was, v, Pow2(7 * g))
      <==> Updated(was, v, Pow2(g)) < TWO64 && VarLenAgrees(g, v, was)
  {
    var m, p := Pow2(g), Pow2(7 * g);
    VarLenCode(g);
    VarLenUpdates(g, v, was);
    UpdatedIsNext(was, v, p);
    Pow2AtMost(g);
    var n := Updated(was, v, p);
    var c := CalcNewDefClkVal(VarLenUint(VarLenBits(g)), v, was);
    Wrapped(Updated(was, v, m), was, v, m);
    if IsNext(c, was, v, p) { NextIsUnique(c, n, was, v, p); }
  }

  /** A one-group reading of 6 taken at time 5 moves the clock to 10, where 6 was meant. */
  lemma VariableLengthClockRunsAhead()
    ensures CalcNewDefClkVal(VarLenUint(7), 6, 5) == 10
    ensures IsNext(6, 5, 6, Pow2(7))
  {
    assert Pow2(1) == 2;
    Pow2Mono(3, 7);
    assert 6 % Pow2(7) == 6 by { ModOf(0, Pow2(7), 6); }
  }

  /** A class of clocks: `freq` cycles a second, the first at `seconds` and `cycles` from the origin. */
  datatype ClkCls = ClkCls(freq: nat, seconds: int, cycles: nat)

  predicate IsInt64(x: int) { -(TWO63 as int) <= x < TWO63 }

  /** Conversion to `int64_t`. */
  function ToInt64(x: int): (r: int)
    ensures IsInt64(r)
  {
    var w := x % TWO64;
    if w < TWO63 then w else w - TWO64
  }

  /** The limits that metadata parsing puts on a clock class. */
  predicate ClkClsOk(c: ClkCls) {
    0 < c.freq < TWO64 && IsInt64(c.seconds) && c.cycles < c.freq
  }

  function Quotient(p: nat, f: nat): nat
    requires f > 0
  {
    p / f
  }

  function Remainder(p: nat, f: nat): nat
    requires f > 0
  {
    p % f
  }

  /** The nanoseconds past the whole second, in 64-bit arithmetic. */
  function SubSecond(c: ClkCls, cc: nat): nat
    requires ClkClsOk(c)
  {
    Quotient(Remainder(Remainder(cc, c.freq) * NS_PER_S, TWO64), c.freq)
  }

  /** `actf_clk_cls_cc_to_ns_from_origin`, every operation in the width C gives it. */
  function CcToNs(c: ClkCls, t: nat): int
    requires ClkClsOk(c)
  {
    var cc := (t + c.cycles) % TWO64;
    var s := ToInt64(c.seconds + ToInt64(cc / c.freq));
    ToInt64(s * NS_PER_S + SubSecond(c, cc))
  }

  /** The nanoseconds from the origin to cycle `t`, rounded down, over unbounded numbers. */
  function TrueNs(c: ClkCls, t: nat): int
    requires ClkClsOk(c)
  {
    c.seconds * NS_PER_S + (t + c.cycles) * NS_PER_S / c.freq
  }

  /**
    It is the whole number of nanoseconds in the `seconds * freq + cycles + t` cycles that have passed since the origin.
   */
  lemma TrueNsIsFloor(c: ClkCls, t: nat)
    requires ClkClsOk(c)
    ensures var (n, cycles) := (TrueNs(c, t), c.seconds * c.freq + c.cycles + t);
      n * c.freq <= cycles * NS_PER_S < (n + 1) * c.freq
  {
    var f, a, x := c.freq, c.seconds * NS_PER_S, (t + c.cycles) * NS_PER_S;
    assert f * (x / f) <= x < f * (x / f) + f;
    FloorSum(f, a, x / f);
    CyclesNs(c.seconds, f, t + c.cycles);
  }

  lemma FloorSum(f: nat, a: int, q: int)
    ensures (a + q) * f == a * f + f * q && (a + q + 1) * f == a * f + f * q + f
  {
  }

  lemma CyclesNs(s: int, f: nat, k: nat)
    ensures (s * f + k) * NS_PER_S == s * NS_PER_S * f + k * NS_PER_S
  {
  }

  lemma ToInt64Apart(x: int) returns (e: int)
    ensures ToInt64(x) == x + TWO64 * e
  {
    e := if x % TWO64 < TWO63 then -(x / TWO64) else -(x / TWO64) - 1;
  }

  lemma DivShift(f: nat, a: nat, x: nat)
    requires f > 0
    ensures (f * a + x) / f == a + x / f
  {
    ModOf(a + x / f, f, x % f);
    assert f * (a + x / f) == f * a + f * (x / f);
  }

  lemma TrueNsSplit(c: ClkCls, t: nat)
    requires ClkClsOk(c)
    ensures var cc := t + c.cycles;
      TrueNs(c, t) == (c.seconds + cc / c.freq) * NS_PER_S + cc % c.freq * NS_PER_S / c.freq
  {
    var cc := t + c.cycles;
    var q, r := cc / c.freq, cc % c.freq;
    assert cc == c.freq * q + r;
    assert c.freq * q * NS_PER_S == c.freq * (q * NS_PER_S);
    DivShift(c.freq, q * NS_PER_S, r * NS_PER_S);
  }

  lemma SecondsFold(s: int, q: int, sub: nat)
    ensures ToInt64(ToInt64(s + ToInt64(q)) * NS_PER_S + sub) == ToInt64((s + q) * NS_PER_S + sub)
  {
    var e := ToInt64Apart(q);
    var d := ToInt64Apart(s + ToInt64(q));
    Multiples((s + q) * NS_PER_S + sub, (e + d) * NS_PER_S);
  }

  /** Reducing the seconds to 64 bits along the way changes nothing. */
  lemma CcToNsSplit(c: ClkCls, t: nat)
    requires ClkClsOk(c) && t + c.cycles < TWO64
    ensures var cc := t + c.cycles;
      CcToNs(c, t) == ToInt64((c.seconds + cc / c.freq) * NS_PER_S + SubSecond(c, cc))
  {
    var cc := t + c.cycles;
    assert cc % TWO64 == cc;
    SecondsFold(c.seconds, cc / c.freq, SubSecond(c, cc));
  }

  lemma Multiples(x: int, k: int)
    ensures ToInt64(x + TWO64 * k) == ToInt64(x)
  {
    assert (x + TWO64 * k) % TWO64 == x % TWO64;
  }

  /** Losing the top of a product of 64 bits or more always changes the quotient. */
  lemma QuotientDrops(p: nat, f: nat)
    requires 0 < f < TWO64 && TWO64 <= p
    ensures p % TWO64 / f < p / f
  {
    var r := p % TWO64;
    assert p == f * (p / f) + p % f && r == f * (r / f) + r % f;
    MulCancel(f, r / f, p / f);
  }

  lemma Fraction(r: nat, f: nat)
    requires r < f
    ensures r * NS_PER_S / f < NS_PER_S
  {
    var p := r * NS_PER_S;
    assert p == f * (p / f) + p % f;
    assert f * NS_PER_S > p;
    MulCancel(f, p / f, NS_PER_S);
  }

  lemma ExactFrom(base: int, p: nat, f: nat)
    requires 0 < f < TWO64 && p / f < NS_PER_S && IsInt64(base + p / f)
    ensures ToInt64(base + p % TWO64 / f) == base + p / f <==> p < TWO64
  {
    var a, b := Quotient(p % TWO64, f), Quotient(p, f);
    assert a <= b && (a == b <==> p < TWO64) by {
      if p >= TWO64 { QuotientDrops(p, f); } else { assert p % TWO64 == p; }
    }
    NsDiffer(base, a, b);
  }

  /**
    The nanoseconds are exact, the true value fitting `int64_t`, exactly when the product that computes the part below a
    second fits 64 bits; and if already the sum of clock value and cycle offset does not fit 64 bits, exactly when a
    cycle is a whole number of nanoseconds.
   */
  lemma NsExact(c: ClkCls, t: nat)
    requires ClkClsOk(c) && t < TWO64 && IsInt64(TrueNs(c, t))
    ensures CcToNs(c, t) == TrueNs(c, t) <==>
      if t + c.cycles < TWO64 then (t + c.cycles) % c.freq * NS_PER_S < TWO64 else NS_PER_S % c.freq == 0
  {
    var cc := t + c.cycles;
    if cc < TWO64 {
      CcToNsSplit(c, t);
      TrueNsSplit(c, t);
      Fraction(cc % c.freq, c.freq);
      ExactFrom((c.seconds + cc / c.freq) * NS_PER_S, cc % c.freq * NS_PER_S, c.freq);
    } else {
      NsWrapped(c, t, cc - TWO64);
    }
  }

  /** What is left of a sum that has wrapped is less than a second. */
  lemma CcToNsWrapped(c: ClkCls, t: nat, r: nat)
    requires ClkClsOk(c) && t < TWO64 && t + c.cycles == TWO64 + r
    ensures r < c.freq
      && CcToNs(c, t) == ToInt64(c.seconds * NS_PER_S + Quotient(Remainder(r * NS_PER_S, TWO64), c.freq))
  {
    ModOf(1, TWO64, r);
    ModOf(0, c.freq, r);
    assert ToInt64(c.seconds) == c.seconds;
    FoldOnce(c.seconds, Quotient(Remainder(r * NS_PER_S, TWO64), c.freq));
  }

  lemma FoldOnce(s: int, sub: nat)
    requires IsInt64(s)
    ensures ToInt64(ToInt64(s + ToInt64(0)) * NS_PER_S + sub) == ToInt64(s * NS_PER_S + sub)
  {
  }

  lemma NsWrapped(c: ClkCls, t: nat, r: nat)
    requires ClkClsOk(c) && t < TWO64 && t + c.cycles == TWO64 + r && IsInt64(TrueNs(c, t))
    ensures CcToNs(c, t) == TrueNs(c, t) <==> NS_PER_S % c.freq == 0
  {
    CcToNsWrapped(c, t, r);
    var sub, whole, d := WrappedQuotient(c.freq, r);
    WrappedApart(c.seconds * NS_PER_S + sub, whole, d);
  }

  lemma WrappedApart(x: int, whole: int, d: nat)
    requires d < TWO64 && IsInt64(x + TWO64 * whole + d)
    ensures ToInt64(x) == x + TWO64 * whole + d <==> d == 0
  {
    var e := ToInt64Apart(x);
    Multiples(x, whole);
    if ToInt64(x) == x + TWO64 * whole + d {
      assert d == TWO64 * (e - whole);
    }
  }

  /** How far apart the quotients are with and without the wrap-around: `d` past a multiple of `2^64`. */
  lemma WrappedQuotient(f: nat, r: nat) returns (sub: nat, whole: nat, d: nat)
    requires 0 < f < TWO64 && r < f
    ensures sub == Quotient(Remainder(r * NS_PER_S, TWO64), f)
    ensures (TWO64 + r) * NS_PER_S / f == TWO64 * whole + sub + d && d < TWO64 && (d == 0 <==> NS_PER_S % f == 0)
  {
    var h, l := Divide(r * NS_PER_S, TWO64);
    var b, x, rest, rest';
    whole, b := Divide(NS_PER_S, f);
    WrappedHigh(f, r, h, b);
    x, rest := Divide(TWO64 * (b + h) + l, f);
    sub, rest' := Divide(l, f);
    HighApart(f, b + h, l, x, sub);
    d := x - sub;
    WrappedProduct(f, r, whole, b, h, l);
    DivShift(f, TWO64 * whole, TWO64 * (b + h) + l);
  }

  lemma Divide(a: nat, f: nat) returns (q: nat, r: nat)
    requires f > 0
    ensures q == a / f && r == a % f && a == f * q + r && r < f
  {
    q, r := a / f, a % f;
  }

  lemma WrappedProduct(f: nat, r: nat, whole: nat, b: nat, h: nat, l: nat)
    requires NS_PER_S == f * whole + b && r * NS_PER_S == TWO64 * h + l
    ensures (TWO64 + r) * NS_PER_S == f * (TWO64 * whole) + (TWO64 * (b + h) + l)
  {
    assert TWO64 * (f * whole) == f * (TWO64 * whole);
  }

  /** The high part of the product is too small to make up for what a second lacks of a whole number of cycles. */
  lemma WrappedHigh(f: nat, r: nat, h: nat, b: nat)
    requires 0 < f < TWO64 && r < f && TWO64 * h <= r * NS_PER_S && b == NS_PER_S % f
    ensures b + h < f && (b == 0 ==> h == 0)
  {
    if f > 2 * NS_PER_S {
      ModOf(0, f, NS_PER_S);
    }
  }

  lemma HighApart(f: nat, k: nat, l: nat, x: nat, q: nat)
    requires k < f < TWO64 && l < TWO64
    requires f * x <= TWO64 * k + l < f * x + f && f * q <= l < f * q + f
    ensures if k == 0 then x == q else 0 < x - q < TWO64
  {
    assert f * (x + 1) == f * x + f && f * (q + 1) == f * q + f && f * (TWO64 + q) == f * TWO64 + f * q;
    if k == 0 {
      MulCancel(f, x, q + 1);
      MulCancel(f, q, x + 1);
    } else {
      MulCancel(f, q, x);
      assert TWO64 * k <= TWO64 * (f - 1) == f * TWO64 - TWO64;
      MulCancel(f, x, TWO64 + q);
    }
  }

  lemma NsDiffer(s: int, a: nat, b: nat)
    requires a <= b < NS_PER_S && IsInt64(s + b)
    ensures ToInt64(s + a) == s + b <==> a == b
  {
  }

  /** A clock of 19 GHz loses the top of that product. */
  lemma NsInexact()
    ensures var c := ClkCls(19_000_000_000, 0, 0);
      CcToNs(c, 18_999_999_999) != TrueNs(c, 18_999_999_999)
  {
  }

  lemma BelowTop(c: ClkCls, t: nat)
    requires ClkClsOk(c) && c.freq <= TWO64 / NS_PER_S
    ensures (t + c.cycles) % c.freq * NS_PER_S < TWO64
  {
    var r := (t + c.cycles) % c.freq;
    assert r < c.freq;
  }

  /** Up to 18.4 GHz, later clock values never convert to earlier times. */
  lemma NsMonotone(c: ClkCls, t: nat, u: nat)
    requires ClkClsOk(c) && c.freq <= TWO64 / NS_PER_S && t <= u && u + c.cycles < TWO64
    requires IsInt64(TrueNs(c, t)) && IsInt64(TrueNs(c, u))
    ensures CcToNs(c, t) == TrueNs(c, t) <= TrueNs(c, u) == CcToNs(c, u)
  {
    BelowTop(c, t);
    BelowTop(c, u);
    NsExact(c, t);
    NsExact(c, u);
    DivMono((t + c.cycles) * NS_PER_S, (u + c.cycles) * NS_PER_S, c.freq);
  }

  lemma DivMono(a: nat, b: nat, f: nat)
    requires f > 0 && a <= b
    ensures a / f <= b / f
  {
    assert a == f * (a / f) + a % f && b == f * (b / f) + b % f;
    assert f * (b / f + 1) == f * (b / f) + f;
    MulCancel(f, a / f, b / f + 1);
  }
}
