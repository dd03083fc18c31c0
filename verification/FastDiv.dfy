// Unsigned 32-bit division by a run-time invariant divisor, by one
// multiplication and two shifts.
//
// The algorithm is Figure 4.1 of Granlund and Montgomery, "Division by
// Invariant Integers Using Multiplication". Shifts are written as products
// and quotients by powers of two, bit-field packing as a positional sum, and
// every register is truncated to its C width.
module FastDiv {
  import opened Words

  function Pow2(l: nat): (p: nat)
    ensures 0 < p
  {
    if l == 0 then 1 else 2 * Pow2(l - 1)
  }

  /** Position of the most significant set bit, counted from one; 0 for 0. */
  function Fls(x: nat): nat {
    if x == 0 then 0 else 1 + Fls(x / 2)
  }

  function Init(div: uint32): uint64
    requires div != 0
  {
    var l := Fls(div - 1);
    Pack(Multiplier(div, Pow2(l)), if l > 1 then 1 else l, if l == 0 then 0 else l - 1)
  }

  function Multiplier(div: uint32, p: nat): uint64
    requires div != 0
  {
    U64(U64(0x1_0000_0000 * U64(p - div)) / div + 1)
  }

  /** m << 32 | s1 << 8 | s2. */
  function Pack(m: uint64, s1: nat, s2: nat): uint64 {
    U64(m * 0x1_0000_0000 + s1 * 0x100 + s2)
  }

  function Div(v: uint32, divinfo: uint64): uint32 {
    MulShift(v, divinfo / 0x1_0000_0000, divinfo % 0x1_0000 / 0x100, divinfo % 0x100)
  }

  /** fast_div32 once the three fields are unpacked. */
  function MulShift(v: uint32, m: nat, s1: nat, s2: nat): uint32 {
    Combine(v, HighProduct(v, m), s1, s2)
  }

  function HighProduct(v: uint32, m: nat): uint32 {
    U32(U64(v * m) / 0x1_0000_0000)
  }

  function Combine(v: uint32, t: uint32, s1: nat, s2: nat): uint32 {
    Shifted(U32(t + Shifted(U32(v - t), s1)), s2)
  }

  /** x >> s on a 32-bit register. */
  function Shifted(x: uint32, s: nat): uint32 {
    QuotientBound(x, Pow2(s));
    x / Pow2(s)
  }

  function Rem(v: uint32, div: uint32, divinfo: uint64): uint32 {
    Remainder(v, div, Div(v, divinfo))
  }

  function Remainder(v: uint32, div: uint32, q: uint32): uint32 {
    U32(v - U32(div * q))
  }

  lemma CancelLess(a: int, b: int, c: int)
    requires 0 < c && a * c < b * c
    ensures a < b
  {
    if b <= a {
      Scale(b, a, c);
    }
  }

  lemma Scale(a: int, b: int, c: int)
    requires a <= b && 0 <= c
    ensures a * c <= b * c
  {
    assert 0 <= (b - a) * c;
    assert (b - a) * c == b * c - a * c;
  }

  lemma QuotientUnique(x: int, y: int, q: int)
    requires 0 < y && q * y <= x < (q + 1) * y
    ensures x / y == q
  {
    var k := x / y;
    assert x == k * y + x % y;
    assert (k + 1) * y == k * y + y;
    CancelLess(k, q + 1, y);
    CancelLess(q, k + 1, y);
  }

  lemma QuotientBound(a: nat, b: nat)
    requires 0 < b
    ensures 0 <= a / b <= a
  {
    var k := a / b;
    assert a == k * b + a % b;
    assert (k + 1) * b == k * b + b;
    CancelLess(-1, k, b);
    Scale(1, b, k);
  }

  lemma Pow2Grows(a: nat, b: nat)
    requires a <= b
    ensures Pow2(a) <= Pow2(b)
  {
    if a < b {
      Pow2Grows(a, b - 1);
    }
  }

  /** Fls(x) is the number of bits of x. */
  lemma {:induction false} FlsBounds(x: nat)
    ensures x < Pow2(Fls(x))
    ensures x > 0 ==> Fls(x) > 0 && Pow2(Fls(x) - 1) <= x
  {
    if x > 0 {
      FlsBounds(x / 2);
    }
  }

  lemma Pow2At32()
    ensures Pow2(16) == 0x1_0000 && Pow2(31) == 0x8000_0000 && Pow2(32) == 0x1_0000_0000
  {
    assert Pow2(8) == 0x100;
    assert Pow2(16) == 0x1_0000;
    assert Pow2(24) == 0x100_0000;
    assert Pow2(31) == 0x8000_0000;
  }

  /** Shift count of a divisor: 2^(l-1) < div <= 2^l and l <= 32. */
  lemma ShiftCount(div: uint32)
    requires div != 0
    ensures Fls(div - 1) <= 32
    ensures div <= Pow2(Fls(div - 1)) <= 0x1_0000_0000
    ensures Pow2(Fls(div - 1)) < 2 * div
    ensures Fls(div - 1) == 0 <==> div == 1
  {
    var l := Fls(div - 1);
    FlsBounds(div - 1);
    FlsAtMost32(div - 1);
    assert l > 0 ==> Pow2(l) == 2 * Pow2(l - 1);
  }

  lemma FlsAtMost32(x: uint32)
    ensures Fls(x) <= 32 && Pow2(Fls(x)) <= 0x1_0000_0000
  {
    FlsBounds(x);
    Pow2At32();
    if Fls(x) > 32 {
      Pow2Grows(32, Fls(x) - 1);
    } else {
      Pow2Grows(Fls(x), 32);
    }
  }

  /** What fast_div32_init packs: nothing overflows, the multiplier is a 32-bit
      word, and multiplier + 2^32 rounds 2^(32+l)/div up. */
  lemma InitFields(div: uint32) returns (l: nat, m: nat, r: nat)
    requires div != 0
    ensures l == Fls(div - 1) && m < 0x1_0000_0000
    ensures 1 <= r <= div <= Pow2(l) && (m + 0x1_0000_0000) * div == 0x1_0000_0000 * Pow2(l) + r
    ensures Init(div) / 0x1_0000_0000 == m
    ensures Init(div) % 0x1_0000 / 0x100 == if l > 1 then 1 else l
    ensures Init(div) % 0x100 == if l == 0 then 0 else l - 1
  {
    l := Fls(div - 1);
    ShiftCount(div);
    m, r := InitRounds(div, Pow2(l));
    InitUnpacks(div, l, m);
  }

  lemma InitRounds(div: uint32, p: nat) returns (m: nat, r: nat)
    requires 0 < div <= p < 2 * div && p <= 0x1_0000_0000
    ensures m == Multiplier(div, p) < 0x1_0000_0000
    ensures 1 <= r <= div && (m + 0x1_0000_0000) * div == 0x1_0000_0000 * p + r
  {
    var r0;
    m, r0 := InitMultiplier(div, p);
    r := div - r0;
    CarryOver(m - 1, r0, div, p);
  }

  lemma InitUnpacks(div: uint32, l: nat, m: nat)
    requires div != 0 && l == Fls(div - 1) <= 32 && m == Multiplier(div, Pow2(l)) < 0x1_0000_0000
    ensures Init(div) / 0x1_0000_0000 == m
    ensures Init(div) % 0x1_0000 / 0x100 == if l > 1 then 1 else l
    ensures Init(div) % 0x100 == if l == 0 then 0 else l - 1
  {
    Unpack(Init(div), m, if l > 1 then 1 else l, if l == 0 then 0 else l - 1);
  }

  lemma InitMultiplier(div: uint32, p: nat) returns (m: nat, r0: nat)
    requires 0 < div <= p < 2 * div && p <= 0x1_0000_0000
    ensures m == Multiplier(div, p) && 0 < m < 0x1_0000_0000
    ensures r0 < div && (m - 1) * div + r0 == 0x1_0000_0000 * (p - div)
  {
    var mt := 0x1_0000_0000 * (p - div);
    SmallWord(p - div);
    SmallWord(mt);
    QuotientUnder(mt, div);
    m := mt / div + 1;
    SmallWord(m);
    r0 := mt % div;
  }

  lemma SmallWord(x: nat)
    requires x < 0x1_0000_0000_0000_0000
    ensures U64(x) == x
  {
  }

  lemma Unpack(x: nat, m: nat, s1: nat, s2: nat)
    requires m < 0x1_0000_0000 && s1 < 0x100 && s2 < 0x100 && x == Pack(m, s1, s2)
    ensures x / 0x1_0000_0000 == m && x % 0x1_0000 / 0x100 == s1 && x % 0x100 == s2
  {
    var low := s1 * 0x100 + s2;
    SmallWord(m * 0x1_0000_0000 + low);
    QuotientAndRest(x, 0x1_0000_0000, m, low);
    QuotientAndRest(x, 0x1_0000, m * 0x1_0000, low);
    QuotientAndRest(x, 0x100, m * 0x100_0000 + s1, s2);
    QuotientAndRest(low, 0x100, s1, s2);
  }

  lemma QuotientAndRest(x: nat, y: nat, q: int, r: int)
    requires x == q * y + r && 0 <= r < y
    ensures x / y == q && x % y == r
  {
    QuotientUnique(x, y, q) by {
      assert (q + 1) * y == q * y + y;
    }
    assert x == q * y + x % y;
  }

  lemma CarryOver(q0: nat, r0: nat, div: nat, p: nat)
    requires q0 * div + r0 == 0x1_0000_0000 * (p - div)
    ensures (q0 + 1 + 0x1_0000_0000) * div == 0x1_0000_0000 * p + (div - r0)
  {
    assert (q0 + 0x1_0000_0001) * div == q0 * div + 0x1_0000_0001 * div;
  }

  lemma QuotientUnder(mt: nat, div: uint32)
    requires 0 < div && mt <= 0x1_0000_0000 * (div - 1)
    ensures mt == (mt / div) * div + mt % div
    ensures 0 <= mt / div < 0x1_0000_0000 - 1
  {
    QuotientBound(mt, div);
    assert mt == (mt / div) * div + mt % div;
    assert (0x1_0000_0000 - 1) * div == 0x1_0000_0000 * div - div;
    CancelLess(mt / div, 0x1_0000_0000 - 1, div);
  }

  /** Theorem 4.2 of the paper: a multiplier that is at most div too large
      still gives the exact quotient. */
  lemma MultiplyHigh(v: uint32, div: uint32, p: nat, mm: nat, r: nat)
    requires 0 < div <= p && 1 <= r <= div
    requires mm * div == 0x1_0000_0000 * p + r
    ensures (v / div) * (0x1_0000_0000 * p) <= v * mm < (v / div + 1) * (0x1_0000_0000 * p)
  {
    var q, s := v / div, v % div;
    assert v == q * div + s;
    RoundingError(v, p, r);
    MultiplyHighBy(v, div, q, s, 0x1_0000_0000 * p, mm, r);
  }

  lemma RoundingError(v: uint32, p: nat, r: nat)
    requires r <= p && 0 < p
    ensures 0 <= v * r < 0x1_0000_0000 * p
  {
    Scale(r, p, v);
    Scale(v, 0xffff_ffff, p);
    Scale(0, v, r);
  }

  lemma MultiplyHighBy(v: nat, div: nat, q: int, s: nat, wp: nat, mm: nat, r: nat)
    requires v == q * div + s && s < div && mm * div == wp + r && 0 <= v * r < wp
    ensures q * wp <= v * mm < (q + 1) * wp
  {
    Expand(v, div, q, s, wp, mm, r);
    Scale(0, s, wp);
    Scale(s, div - 1, wp);
    CancelLess(q * wp - 1, v * mm, div);
    CancelLess(v * mm, (q + 1) * wp, div);
  }

  lemma Expand(v: int, div: int, q: int, s: int, wp: int, mm: int, r: int)
    requires v == q * div + s && mm * div == wp + r
    ensures (v * mm) * div == (q * wp) * div + s * wp + v * r
    ensures ((q + 1) * wp) * div == (q * wp) * div + (div - 1) * wp + wp
    ensures (q * wp - 1) * div == (q * wp) * div - div
  {
    calc {
      (v * mm) * div;
      v * (wp + r);
      v * wp + v * r;
      (q * div + s) * wp + v * r;
      (q * div) * wp + s * wp + v * r;
      { assert (q * div) * wp == (q * wp) * div; }
      (q * wp) * div + s * wp + v * r;
    }
    assert (q + 1) * wp == q * wp + wp;
    assert (q * wp + wp) * div == (q * wp) * div + wp * div;
  }

  /** Two shifts in a row shift by the sum. */
  lemma DivideTwice(x: nat, a: nat, b: nat)
    requires 0 < a && 0 < b
    ensures 0 < a * b && x / a / b == x / (a * b)
  {
    var k := x / a;
    var q := k / b;
    Scale(1, b, a);
    assert x == k * a + x % a;
    assert k == q * b + k % b;
    Scale(k % b, b - 1, a);
    Scale(0, k % b, a);
    assert k * a == (q * b) * a + (k % b) * a;
    assert (q * b) * a == q * (a * b);
    assert (b - 1) * a == a * b - a;
    assert (q + 1) * (a * b) == q * (a * b) + a * b;
    QuotientUnique(x, a * b, q);
  }

  /** The high word of the product: nothing wraps, and adding v gives the high
      word of the product with the 33-bit multiplier m + 2^32. */
  lemma HighWord(v: uint32, m: nat)
    requires m < 0x1_0000_0000
    ensures HighProduct(v, m) <= v
    ensures v * (m + 0x1_0000_0000) / 0x1_0000_0000 == HighProduct(v, m) + v
  {
    Scale(m, 0xffff_ffff, v);
    Scale(0, m, v);
    assert v * (m + 0x1_0000_0000) == v * m + v * 0x1_0000_0000;
    NoWrap(v * m, v);
  }

  lemma NoWrap(x: nat, v: uint32)
    requires x <= v * 0xffff_ffff
    ensures U32(U64(x) / 0x1_0000_0000) == x / 0x1_0000_0000 <= v
    ensures (x + v * 0x1_0000_0000) / 0x1_0000_0000 == x / 0x1_0000_0000 + v
  {
  }

  /** The two shifts divide v + t by 2^l without wrapping. */
  lemma ShiftsAreExact(v: uint32, t: uint32, l: nat)
    requires t <= v && (l == 0 ==> t == 0)
    ensures Combine(v, t, if l > 1 then 1 else l, if l == 0 then 0 else l - 1) == (t + v) / Pow2(l)
  {
    FirstShift(v, t, if l == 0 then 0 else l - 1);
    if l > 0 {
      DivideTwice(t + v, 2, Pow2(l - 1));
    }
  }

  lemma FirstShift(v: uint32, t: uint32, s2: nat)
    requires t <= v
    ensures Combine(v, t, 1, s2) == Shifted((t + v) / 2, s2)
    ensures t == 0 ==> Combine(v, t, 0, 0) == v
  {
    HalfSum(v, t);
  }

  lemma HalfSum(v: uint32, t: uint32)
    requires t <= v
    ensures U32(v - t) == v - t
    ensures Shifted(v - t, 1) == (v - t) / 2 && Shifted(v - t, 0) == v - t && Shifted(v, 0) == v
    ensures U32(t + (v - t) / 2) == (t + v) / 2
  {
    assert Pow2(0) == 1 && Pow2(1) == 2;
  }

  /** fast_div32 is exact for every 32-bit dividend and every nonzero divisor. */
  lemma DivIsExact(v: uint32, div: uint32)
    requires div != 0
    ensures Div(v, Init(div)) == v / div
  {
    var l, m, r := InitFields(div);
    MulShiftIsExact(v, div, l, m, r);
  }

  lemma MulShiftIsExact(v: uint32, div: uint32, l: nat, m: nat, r: nat)
    requires div != 0 && l == Fls(div - 1) && m < 0x1_0000_0000
    requires 1 <= r <= div <= Pow2(l) && (m + 0x1_0000_0000) * div == 0x1_0000_0000 * Pow2(l) + r
    ensures MulShift(v, m, if l > 1 then 1 else l, if l == 0 then 0 else l - 1) == v / div
  {
    HighWord(v, m);
    var t := HighProduct(v, m);
    MultiplyHigh(v, div, Pow2(l), m + 0x1_0000_0000, r);
    Scale(0, v, m + 0x1_0000_0000);
    HighQuotient(v * (m + 0x1_0000_0000), Pow2(l), v / div);
    if l == 0 {
      assert (t + v) / Pow2(0) == t + v && div == 1;
    }
    ShiftsAreExact(v, t, l);
  }

  lemma HighQuotient(x: int, p: nat, q: int)
    requires 0 < p && 0 <= x && q * (0x1_0000_0000 * p) <= x < (q + 1) * (0x1_0000_0000 * p)
    ensures x / 0x1_0000_0000 / p == q
  {
    QuotientUnique(x, 0x1_0000_0000 * p, q);
    DivideTwice(x, 0x1_0000_0000, p);
  }

  /** fast_rem32 is the remainder; this is what discharges every bucket index. */
  lemma RemIsExact(v: uint32, div: uint32)
    requires div != 0
    ensures Rem(v, div, Init(div)) == v % div
  {
    DivIsExact(v, div);
    RemainderOf(v, div, Div(v, Init(div)));
  }

  lemma RemainderOf(v: uint32, div: uint32, q: nat)
    requires div != 0 && q == v / div
    ensures q <= v && Remainder(v, div, q) == v % div
  {
    assert v == div * q + v % div;
    QuotientBound(v, div);
    Scale(1, div, q);
  }

  /** divinfo is what the header promises for divisor div. */
  ghost predicate ExactFor(divinfo: uint64, div: uint32) {
    div != 0 && forall v: uint32 :: Rem(v, div, divinfo) == v % div
  }

  lemma InitIsExact(div: uint32)
    requires div != 0
    ensures ExactFor(Init(div), div)
  {
    forall v: uint32 {
      RemIsExact(v, div);
    }
  }

  method FastDiv32Init(div: uint32) returns (divinfo: uint64)
    requires div != 0
    ensures ExactFor(divinfo, div)
  {
    divinfo := Init(div);
    InitIsExact(div);
  }

  method FastRem32(v: uint32, div: uint32, divinfo: uint64) returns (r: uint32)
    requires ExactFor(divinfo, div)
    ensures r == v % div
  {
    r := Rem(v, div, divinfo);
  }
}
