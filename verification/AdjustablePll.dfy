/** The adjustable PLL of the clock driver (SprdClockDxe.c): a rate as an integer multiple of
    26 MHz plus a 20-bit fraction, and the register that holds both. */
module AdjustablePll {
  import opened Basics

  const TWO_20: nat := 0x10_0000
  const REF_KHZ10: nat := 2600          // the 26 MHz reference in units of 10 kHz

  /** Division rounded to the nearest integer, halves up. */
  function RoundedQuotient(x: nat, d: nat): (q: nat)
    requires d > 0
  {
    (x + d / 2) / d
  }

  lemma {:induction false} Rounding(x: nat, d: nat)
    requires d > 0
    ensures var q := RoundedQuotient(x, d); 2 * (q * d) <= 2 * x + d < 2 * (q * d) + 2 * d
  {
    QuotientBounds(x + d / 2, d);
  }

  lemma {:induction false} QuotientBounds(x: nat, d: nat)
    requires d > 0
    ensures x / d * d <= x < x / d * d + d
  {
    assert x == x / d * d + x % d;
  }

  function Distance(a: int, b: int): nat {
    if a <= b then b - a else a - b
  }

  /** No other multiple of `d` is nearer to `x`, and of two that are equally near it is the
      larger one. */
  lemma {:induction false} RoundedIsNearest(x: nat, d: nat, k: nat)
    requires d > 0
    ensures var q := RoundedQuotient(x, d);
      && Distance(q * d, x) <= Distance(k * d, x)
      && (Distance(q * d, x) == Distance(k * d, x) && k != q ==> q == k + 1)
  {
    Rounding(x, d);
    hide RoundedQuotient;
    var q := RoundedQuotient(x, d);
    if k < q {
      StepsApart(k, q, d);
    } else if k > q {
      StepsApart(q, k, d);
    }
  }

  lemma {:induction false} StepsApart(a: nat, b: nat, d: nat)
    requires a < b
    ensures a * d + d <= b * d && (b > a + 1 ==> a * d + d + d <= b * d)
  {
    assert b * d == a * d + d + (b - a - 1) * d;
    if b > a + 1 { assert b * d == a * d + d + d + (b - a - 2) * d; }
  }

  /** The integer multiple of the reference. */
  function Multiple(rate: nat): nat {
    rate / 1000000 / 26
  }

  /** What is left above it, in units of 10 kHz. */
  function Residue(rate: nat): int {
    rate / 10000 - 26 * Multiple(rate) * 100
  }

  /** The 20-bit fraction. */
  function Fraction(rate: nat): nat
    requires 0 <= Residue(rate)
  {
    RoundedQuotient(Residue(rate) * TWO_20, REF_KHZ10)
  }

  /** MAIN: of all fractions, the one taken is nearest to what is left above the multiple. */
  lemma {:induction false} FractionIsNearest(rate: nat, k: nat)
    ensures 0 <= Residue(rate) < REF_KHZ10
    ensures Distance(Fraction(rate) * REF_KHZ10, Residue(rate) * TWO_20)
            <= Distance(k * REF_KHZ10, Residue(rate) * TWO_20)
  {
    ResidueRange(rate);
    RoundedIsNearest(Residue(rate) * TWO_20, REF_KHZ10, k);
  }

  /** The rate in hertz that a multiple and a fraction stand for. */
  function RateOf(n: nat, k: nat): nat {
    26 * n * 1000000 + RoundedQuotient(26 * k * 100, TWO_20) * 10000
  }

  /** A rate is reported to the nearest 10 kHz of what multiple and fraction stand for. */
  lemma {:induction false} RateIsNearest(n: nat, k: nat, j: nat)
    ensures RateOf(n, k) >= 26000000 * n && (RateOf(n, k) - 26000000 * n) % 10000 == 0
    ensures var q := (RateOf(n, k) - 26000000 * n) / 10000;
      Distance(q * TWO_20, 2600 * k) <= Distance(j * TWO_20, 2600 * k)
  {
    RoundedIsNearest(26 * k * 100, TWO_20, j);
  }

  lemma {:induction false} ResidueRange(rate: nat)
    ensures 0 <= Residue(rate) < REF_KHZ10
    ensures rate < 64 * 26000000 ==> Multiple(rate) < 64
  {
    var t := rate / 10000;
    assert rate / 1000000 == t / 100;
    assert t / 100 / 26 == t / 2600;
  }

  /** The 32-bit intermediates cannot wrap, and the fraction fits its field. */
  lemma {:induction false} FractionFits(rate: nat)
    ensures 0 <= Residue(rate) && Residue(rate) * TWO_20 + REF_KHZ10 / 2 < TWO_32
    ensures Fraction(rate) < TWO_20
  {
    ResidueRange(rate);
    var x, k := Residue(rate) * TWO_20, Fraction(rate);
    Rounding(x, REF_KHZ10);
  }

  /** Rounding to 2^20 parts and back is the identity on 2600 steps: the parts are finer
      than the steps. */
  lemma {:induction false} RoundTrip(r: nat)
    requires r < REF_KHZ10
    ensures RoundedQuotient(REF_KHZ10 * RoundedQuotient(r * TWO_20, REF_KHZ10), TWO_20) == r
  {
    var k := RoundedQuotient(r * TWO_20, REF_KHZ10);
    var s := RoundedQuotient(REF_KHZ10 * k, TWO_20);
    Rounding(r * TWO_20, REF_KHZ10);
    Rounding(REF_KHZ10 * k, TWO_20);
  }

  /** MAIN: setting a rate and computing it back gives the rate rounded down to 10 kHz. */
  lemma {:induction false} RateRoundTrip(rate: nat)
    ensures 0 <= Residue(rate) && RateOf(Multiple(rate), Fraction(rate)) == rate / 10000 * 10000
  {
    ResidueRange(rate);
    RoundTrip(Residue(rate));
    hide RoundedQuotient, Multiple, Residue;
    var r, k := Residue(rate), Fraction(rate);
    assert REF_KHZ10 * k == 26 * k * 100;
    assert RateOf(Multiple(rate), k) == 26 * Multiple(rate) * 1000000 + r * 10000;
    ResidueIs(rate);
  }

  lemma {:induction false} ResidueIs(rate: nat)
    ensures Residue(rate) * 10000 == rate / 10000 * 10000 - 26 * Multiple(rate) * 1000000
  {
  }

  /** Rates with the same encoding are the same to 10 kHz: the encoding is one to one on
      what the register can express. */
  lemma {:induction false} EncodingIsOneToOne(r1: nat, r2: nat)
    requires 0 <= Residue(r1) && 0 <= Residue(r2)
    requires Multiple(r1) == Multiple(r2) && Fraction(r1) == Fraction(r2)
    ensures r1 / 10000 == r2 / 10000
  {
    RateRoundTrip(r1);
    RateRoundTrip(r2);
  }

  /** What the register can express is below 64 times the reference and fits 32 bits. */
  lemma {:induction false} RateInRange(n: nat, k: nat)
    requires n < 64 && k < TWO_20
    ensures RateOf(n, k) <= 64 * 26000000 < TWO_32
  {
    Rounding(26 * k * 100, TWO_20);
    hide RoundedQuotient;
    var q := RoundedQuotient(26 * k * 100, TWO_20);
    assert q * TWO_20 < 2601 * TWO_20;
    assert q <= 2600;
  }

  /** MAIN: the six-bit multiple is enough exactly for rates below 64 times the reference;
      every other rate is reported wrong. */
  lemma {:induction false} ReportedRightIff(rate: nat)
    ensures 0 <= Residue(rate) && Fraction(rate) < TWO_20
    ensures RateOf(Multiple(rate) % 64, Fraction(rate)) == rate / 10000 * 10000 <==> rate < 64 * 26000000
  {
    ResidueRange(rate);
    FractionFits(rate);
    RateRoundTrip(rate);
    RateGap(Multiple(rate), Multiple(rate) % 64, Fraction(rate));
    MultipleAtLeast(rate);
  }

  /** The first rate the multiple cannot express is reported as zero. */
  lemma {:induction false} ReportedWrongExample()
    ensures var rate := 1664000000;
            && rate == 64 * 26000000 && Residue(rate) == 0
            && RateOf(Multiple(rate) % 64, Fraction(rate)) == 0
  {
    assert Multiple(1664000000) == 64 && Residue(1664000000) == 0;
  }

  lemma {:induction false} RateGap(m: nat, n: nat, k: nat)
    ensures RateOf(m, k) - RateOf(n, k) == 26000000 * (m - n)
  {
  }

  lemma {:induction false} MultipleAtLeast(rate: nat)
    ensures Multiple(rate) % 64 <= Multiple(rate)
    ensures rate >= 64 * 26000000 ==> Multiple(rate) >= 64
    ensures rate < 64 * 26000000 ==> Multiple(rate) % 64 == Multiple(rate)
  {
  }

  // ---- the register ----

  const NINT_MASK: bv32 := 0x3F
  const SDM_EN: bv32 := 0x40
  const KINT_MASK: bv32 := 0xFFFF_F000

  /** The low bits of a number, and the number that bits stand for. */
  function Six(n: nat): bv6 { (n % 64) as bv6 }
  function Five(k: nat): bv5 { (k % 32) as bv5 }
  function SixValue(b: bv6): (n: nat) ensures n < 64 { b as nat }
  function FiveValue(b: bv5): (n: nat) ensures n < 32 { b as nat }

  /** A number masked into the low six bits. */
  function NintBits(n: nat): bv32 {
    Six(n) as bv32
  }

  /** A number shifted up by twelve and masked, written five bits at a time. */
  function KintBits(k: nat): bv32 {
    Placed(Five(k / 32768), Five(k / 1024), Five(k / 32), Five(k))
  }

  function Placed(a: bv5, b: bv5, c: bv5, d: bv5): bv32 {
    ((a as bv32) << 27) | ((b as bv32) << 22) | ((c as bv32) << 17) | ((d as bv32) << 12)
  }

  /** The fields as the driver reads them; the fraction counts only when enabled. */
  function NintOf(reg: bv32): (n: nat)
    ensures n < 64
  {
    SixValue(NintField(reg))
  }

  function KintOf(reg: bv32): (k: nat)
    ensures k < TWO_20
  {
    if reg & SDM_EN != 0 then Number(KintField(reg)) else 0
  }

  function NintField(reg: bv32): bv6 { (reg & NINT_MASK) as bv6 }
  function KintField(reg: bv32): bv32 { (reg & KINT_MASK) >> 12 }

  /** The value of a twenty-bit field. */
  function Number(k: bv32): (n: nat)
    ensures n < TWO_20
  {
    FiveValue(FiveOf(k, 15)) * 32768 + FiveValue(FiveOf(k, 10)) * 1024 + FiveValue(FiveOf(k, 5)) * 32
      + FiveValue(FiveOf(k, 0))
  }

  function FiveOf(k: bv32, at: bv5): bv5 { ((k >> at) & 0x1F) as bv5 }

  /** The register after masking out the PLL's fields and setting new ones. */
  function Written(reg: bv32, n: bv32, k: bv32, sdm: bool): bv32 {
    Merged(reg, if sdm then n | (k | SDM_EN) else n, (KINT_MASK | NINT_MASK) | SDM_EN)
  }

  function Merged(reg: bv32, val: bv32, mask: bv32): bv32 {
    (reg & !mask) | val
  }

  /** Inside the mask the bits of `val`, outside it the old ones, with those of `val` on top. */
  predicate MaskedWrite(was: bv32, val: bv32, mask: bv32, reg: bv32) {
    reg & mask == val & mask && reg & !mask == (was | val) & !mask
  }

  /** The bits inside the mask and those outside it make the register. */
  lemma {:induction false} MergedIs(was: bv32, val: bv32, mask: bv32, reg: bv32)
    requires MaskedWrite(was, val, mask, reg)
    ensures reg == Merged(was, val, mask)
  {
    assert reg == (reg & mask) | (reg & !mask);
  }

  lemma {:induction false} MergedMasked(was: bv32, val: bv32, mask: bv32)
    ensures MaskedWrite(was, val, mask, Merged(was, val, mask))
  {
  }

  lemma {:induction false} SixBits(n: nat)
    ensures SixValue(Six(n)) == n % 64
  {
  }

  lemma {:induction false} FiveBits(k: nat)
    ensures FiveValue(Five(k)) == k % 32
  {
  }

  /** The same bits back from the number they stand for. */
  lemma {:induction false} FiveBack(b: bv5, rest: nat)
    ensures Five(rest * 32 + FiveValue(b)) == b
  {
    assert (rest * 32 + FiveValue(b)) % 32 == FiveValue(b);
  }

  function ShiftedUp(k: bv32): bv32 { k << 12 }

  /** The driver's shift: the bits written for the value of a twenty-bit word are the word
      shifted up by twelve. */
  lemma {:induction false} KintBitsIsShift(k: bv32)
    requires k < 0x10_0000
    ensures KintBits(Number(k)) == ShiftedUp(k)
  {
    PlacedIsShift(k);
    NumberDigits(k);
    hide Five, FiveOf, Placed, ShiftedUp, Number;
  }

  lemma {:induction false} NumberDigits(k: bv32)
    ensures var n := Number(k);
      Five(n / 32768) == FiveOf(k, 15) && Five(n / 1024) == FiveOf(k, 10) && Five(n / 32) == FiveOf(k, 5)
        && Five(n) == FiveOf(k, 0)
  {
    hide Five, FiveValue, FiveOf;
    var a, b, c, d := FiveOf(k, 15), FiveOf(k, 10), FiveOf(k, 5), FiveOf(k, 0);
    Horner(FiveValue(a), FiveValue(b), FiveValue(c), FiveValue(d));
    FiveBack(d, FiveValue(a) * 1024 + FiveValue(b) * 32 + FiveValue(c));
    FiveBack(c, FiveValue(a) * 32 + FiveValue(b));
    FiveBack(b, FiveValue(a));
    FiveBack(a, 0);
  }

  lemma {:induction false} Horner(a: nat, b: nat, c: nat, d: nat)
    requires a < 32 && b < 32 && c < 32 && d < 32
    ensures var n := a * 32768 + b * 1024 + c * 32 + d;
      && n == (a * 1024 + b * 32 + c) * 32 + d
      && n / 32 == a * 1024 + b * 32 + c && n / 1024 == a * 32 + b && n / 32768 == a
  {
  }

  lemma {:induction false} PlacedIsShift(k: bv32)
    requires k < 0x10_0000
    ensures Placed(FiveOf(k, 15), FiveOf(k, 10), FiveOf(k, 5), FiveOf(k, 0)) == ShiftedUp(k)
  {
  }

  lemma {:induction false} FiveCounts(b: bv5)
    ensures FiveValue(0) == 0 && FiveValue(31) == 31
    ensures b != 31 ==> FiveValue(b + 1) == FiveValue(b) + 1
  {
  }

  lemma {:induction false} FiveCarries(k: bv32)
    requires k < 0xF_FFFF
    ensures FiveOf(k, 0) != 31 ==>
              FiveOf(k + 1, 0) == FiveOf(k, 0) + 1 && FiveOf(k + 1, 5) == FiveOf(k, 5)
              && FiveOf(k + 1, 10) == FiveOf(k, 10) && FiveOf(k + 1, 15) == FiveOf(k, 15)
    ensures FiveOf(k, 0) == 31 && FiveOf(k, 5) != 31 ==>
              FiveOf(k + 1, 0) == 0 && FiveOf(k + 1, 5) == FiveOf(k, 5) + 1
              && FiveOf(k + 1, 10) == FiveOf(k, 10) && FiveOf(k + 1, 15) == FiveOf(k, 15)
    ensures FiveOf(k, 0) == 31 && FiveOf(k, 5) == 31 && FiveOf(k, 10) != 31 ==>
              FiveOf(k + 1, 0) == 0 && FiveOf(k + 1, 5) == 0
              && FiveOf(k + 1, 10) == FiveOf(k, 10) + 1 && FiveOf(k + 1, 15) == FiveOf(k, 15)
    ensures FiveOf(k, 0) == 31 && FiveOf(k, 5) == 31 && FiveOf(k, 10) == 31 ==>
              FiveOf(k + 1, 0) == 0 && FiveOf(k + 1, 5) == 0 && FiveOf(k + 1, 10) == 0
              && FiveOf(k, 15) != 31 && FiveOf(k + 1, 15) == FiveOf(k, 15) + 1
  {
  }

  /** `Number` counts the twenty-bit words: zero is 0, and the next word is one more. */
  lemma {:induction false} NumberCounts(k: bv32)
    requires k < 0xF_FFFF
    ensures Number(0) == 0 && Number(k + 1) == Number(k) + 1
  {
    FiveCarries(k);
    FiveCounts(FiveOf(k, 0));
    FiveCounts(FiveOf(k, 5));
    FiveCounts(FiveOf(k, 10));
    FiveCounts(FiveOf(k, 15));
    assert FiveOf(0, 0) == 0 && FiveOf(0, 5) == 0 && FiveOf(0, 10) == 0 && FiveOf(0, 15) == 0;
    hide FiveOf, FiveValue;
  }

  lemma {:induction false} FieldsReadBack(reg: bv32, n: bv6, a: bv5, b: bv5, c: bv5, d: bv5, sdm: bool)
    ensures var w := Written(reg, n as bv32, Placed(a, b, c, d), sdm);
            && NintField(w) == n
            && (sdm ==>
                  var k := KintField(w);
                  FiveOf(k, 15) == a && FiveOf(k, 10) == b && FiveOf(k, 5) == c && FiveOf(k, 0) == d)
            && (w & SDM_EN != 0 <==> sdm)
            && w & 0x0000_0F80 == reg & 0x0000_0F80
  {
  }

  lemma {:induction false} Digits(k: nat)
    requires k < TWO_20
    ensures k / 32768 % 32 * 32768 + k / 1024 % 32 * 1024 + k / 32 % 32 * 32 + k % 32 == k
  {
    assert k / 32 / 32 == k / 1024;
    assert k / 1024 / 32 == k / 32768 < 32;
  }

  lemma {:induction false} FourFives(k: nat)
    requires k < TWO_20
    ensures FiveValue(Five(k / 32768)) * 32768 + FiveValue(Five(k / 1024)) * 1024 + FiveValue(Five(k / 32)) * 32
      + FiveValue(Five(k)) == k
  {
    hide Five, FiveValue;
    Digits(k);
    FiveBits(k / 32768);
    FiveBits(k / 1024);
    FiveBits(k / 32);
    FiveBits(k);
  }

  /** MAIN: both fields read back as the low bits of what was written, and no other bit of
      the register changes. */
  lemma {:induction false} RegisterRoundTrip(reg: bv32, n: nat, k: nat)
    requires k < TWO_20
    ensures var w := Written(reg, NintBits(n), KintBits(k), k != 0);
            && NintOf(w) == n % 64 && KintOf(w) == k
            && w & 0x0000_0F80 == reg & 0x0000_0F80
  {
    hide Written, NintField, KintField, FiveOf, Five, FiveValue, Six, SixValue, Placed;
    SixBits(n);
    FourFives(k);
    FieldsReadBack(reg, Six(n), Five(k / 32768), Five(k / 1024), Five(k / 32), Five(k), k != 0);
  }

  /** The word SetRate writes. */
  function ConfigWord(mn: nat, k: nat): bv32 {
    if k != 0 then NintBits(mn) | (KintBits(k) | SDM_EN) else NintBits(mn)
  }

  const PLL_MASK: bv32 := (KINT_MASK | NINT_MASK) | SDM_EN

  lemma {:induction false} StoredIs(was: bv32, mn: nat, k: nat, reg: bv32)
    requires k < TWO_20 && MaskedWrite(was, ConfigWord(mn, k), PLL_MASK, reg)
    ensures NintOf(reg) == mn % 64 && KintOf(reg) == k && reg & 0x0000_0F80 == was & 0x0000_0F80
  {
    hide NintBits, KintBits, NintOf, KintOf, MaskedWrite, Merged;
    RegisterRoundTrip(was, mn, k);
    MergedIs(was, ConfigWord(mn, k), PLL_MASK, reg);
  }

  class Pll {
    var reg: bv32

    constructor (reg: bv32)
      ensures this.reg == reg
    {
      this.reg := reg;
    }

    /** The rate the PLL reports. */
    function Reported(): nat
      reads this
    {
      RateOf(NintOf(reg), KintOf(reg))
    }

    /** Computes the rate; the 32-bit result is never cut. */
    method RecalcRate() returns (rate: nat)
      ensures rate == Reported()
    {
      hide NintOf, KintOf, RoundedQuotient;
      var n, k := NintOf(reg), KintOf(reg);
      RateInRange(n, k);
      rate := (26 * n * 1000000 + RoundedQuotient(26 * k * 100, TWO_20) * 10000) % TWO_32;
    }

    method RegWrite(val: bv32, mask: bv32)
      modifies this
      ensures MaskedWrite(old(reg), val, mask, reg)
    {
      hide MaskedWrite;
      MergedMasked(reg, val, mask);
      var tmp := reg;
      tmp := (tmp & !mask) | val;
      reg := tmp;
    }

    /** MAIN: after setting a rate the PLL reports it rounded down to 10 kHz if and only if
        the rate is below 64 times the reference; only the PLL's own fields of the register
        have changed. */
    method SetRate(rate: nat)
      requires rate < TWO_32
      modifies this
      ensures Reported() == rate / 10000 * 10000 <==> rate < 64 * 26000000
      ensures reg & 0x0000_0F80 == old(reg) & 0x0000_0F80
    {
      hide NintOf, KintOf, RateOf, Fraction;
      ReportedRightIff(rate);
      var mn := rate / 1000000 / 26;
      var k := Scaled(rate, mn);
      Store(mn, k);
    }

    /** Puts the multiple and the fraction into their fields. */
    method Store(mn: nat, k: nat)
      requires k < TWO_20
      modifies this
      ensures NintOf(reg) == mn % 64 && KintOf(reg) == k
      ensures reg & 0x0000_0F80 == old(reg) & 0x0000_0F80
    {
      hide NintBits, KintBits, NintOf, KintOf, MaskedWrite;
      var cfg := NintBits(mn);
      if k != 0 {
        cfg := cfg | (KintBits(k) | SDM_EN);
      }
      ghost var was := reg;
      RegWrite(cfg, PLL_MASK);
      StoredIs(was, mn, k, reg);
    }

    /** The fraction, computed in 32 bits. */
    method Scaled(rate: nat, mn: nat) returns (k: nat)
      requires rate < TWO_32 && mn == Multiple(rate) && 0 <= Residue(rate)
      ensures k == Fraction(rate)
    {
      FractionFits(rate);
      k := ((rate / 10000 - 26 * mn * 100) * TWO_20 % TWO_32 + REF_KHZ10 / 2) % TWO_32 / REF_KHZ10;
    }
  }
}
