/** The 64-by-32-bit division of the eMMC driver (sprd_mmc.c), on machine integers: every
    operation is shown to stay within its width. */
module LongDivision {

  import opened Basics

  newtype uint32 = x: int | 0 <= x < 0x1_0000_0000
  newtype uint64 = x: int | 0 <= x < 0x1_0000_0000_0000_0000

  const SIGN_BIT: uint64 := 0x8000_0000_0000_0000

  /** `b` is the divisor shifted up as far as `d` says. */
  ghost predicate Scaled(base: int, b: int, d: int) {
    base > 0 && PowerOfTwo(d) && b == base * d
  }

  lemma {:induction false} ScaledStart(base: int)
    requires base > 0
    ensures Scaled(base, base, 1)
  {
  }

  lemma {:induction false} ScaledUp(base: int, b: int, d: int)
    requires Scaled(base, b, d)
    ensures Scaled(base, b + b, d + d) && 0 < d <= b
  {
    TwiceProduct(base, d);
    assert d + d == 2 * d;
    ProductAtLeast(base, d);
  }

  lemma {:induction false} ScaledDown(base: int, b: int, d: int)
    requires Scaled(base, b, d)
    ensures 0 < d <= b
    ensures d == 1 ==> b == base
    ensures d > 1 ==> d % 2 == 0 && b % 2 == 0 && Scaled(base, b / 2, d / 2)
  {
    ProductAtLeast(base, d);
    if d > 1 {
      assert d == 2 * (d / 2);
      TwiceProduct(base, d / 2);
    }
  }

  lemma {:induction false} TwiceProduct(base: int, e: int)
    ensures base * (2 * e) == 2 * (base * e)
  {
  }

  /** Taking `b` off the remainder adds `d` to the quotient. */
  lemma {:induction false} Subtracted(n: int, base: int, res: int, rem: int, b: int, d: int)
    requires n == res * base + rem && Scaled(base, b, d) && b <= rem && 0 <= res
    ensures n == (res + d) * base + (rem - b)
    ensures res + d <= n
  {
    assert (res + d) * base == res * base + b;
    assert (res + d) * base - (res + d) == (res + d) * (base - 1);
  }

  /** The part of the quotient that comes from the upper half of the dividend. */
  lemma {:induction false} HighPart(rem: int, high: int, base: int)
    requires base > 0 && 0 <= rem && high == rem / TWO_32
    ensures 0 <= high / base * base <= high
    ensures 0 <= high / base * base * TWO_32 <= rem
    ensures rem == high / base * TWO_32 * base + (rem - high / base * base * TWO_32)
  {
    var q := high / base;
    assert high == q * base + high % base;
    assert q >= 0;
    assert q * base * TWO_32 == q * TWO_32 * base;
  }

  lemma {:induction false} ProductAtLeast(k: int, base: int)
    requires k >= 1 && base > 0
    ensures k * base >= base
  {
    assert k * base == (k - 1) * base + base;
    assert (k - 1) * base >= 0;
  }

  /** There is only one quotient and remainder. */
  lemma {:induction false} DivisionIsUnique(n: int, base: int, q: int, r: int)
    requires base > 0 && n == q * base + r && 0 <= r < base
    ensures q == n / base && r == n % base
  {
    var k := q - n / base;
    assert k * base == q * base - n / base * base;
    if k >= 1 { ProductAtLeast(k, base); }
    if k <= -1 { ProductAtLeast(-k, base); }
  }

  /** Divides `n` by `base`: the quotient is what the dividend becomes, the remainder is
      the result. */
  method Div64(n: uint64, base: uint32) returns (quotient: uint64, remainder: uint32)
    requires base > 0
    ensures quotient as int == n as int / base as int
    ensures remainder as int == n as int % base as int
  {
    var rem := n;
    var b: uint64 := base as uint64;
    var res: uint64, d: uint64 := 0, 1;
    var high: uint32 := (rem / 0x1_0000_0000) as uint32;
    ghost var g: int := base as int;
    if high >= base {
      HighPart(n as int, high as int, g);
      high := high / base;
      res := high as uint64 * 0x1_0000_0000;
      rem := rem - (high * base) as uint64 * 0x1_0000_0000;
    }
    ScaledStart(g);
    while b < SIGN_BIT && b < rem
      invariant n as int == res as int * g + rem as int
      invariant Scaled(g, b as int, d as int)
      decreases SIGN_BIT as int - b as int
    {
      ScaledUp(g, b as int, d as int);
      b := b + b;
      d := d + d;
    }
    ScaledDown(g, b as int, d as int);
    while d != 0
      invariant n as int == res as int * g + rem as int
      invariant d == 0 ==> rem as int < g
      invariant d != 0 ==> Scaled(g, b as int, d as int) && rem as int < 2 * b as int
    {
      ScaledDown(g, b as int, d as int);
      if rem >= b {
        Subtracted(n as int, g, res as int, rem as int, b as int, d as int);
        rem := rem - b;
        res := res + d;
      }
      b := b / 2;
      d := d / 2;
    }
    quotient, remainder := res, rem as uint32;
    DivisionIsUnique(n as int, g, res as int, rem as int);
  }
}
