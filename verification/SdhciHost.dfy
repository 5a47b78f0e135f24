/** The SD host controller driver (sprd_sdhci.c): the clock divisor and its register, and
    the busy-wait that adapts its own limit. */
module SdhciHost {
  import opened Basics

  const MAX_DIV_SPEC_200: nat := 256
  const MAX_DIV_SPEC_300: nat := 2046

  const DIV_MASK: bv32 := 0xFF
  const DIV_HI_MASK: bv32 := 0x300
  const CLOCK_INT_EN: bv16 := 1
  const CLOCK_INT_STABLE: bv16 := 2
  const CLOCK_CARD_EN: bv16 := 4

  /** What the version register says on hosts of version 3.00; 0 and 1 are 1.00 and 2.00. */
  const SPEC_300: nat := 2

  function MaxDivisor(v3: bool): nat {
    if v3 then MAX_DIV_SPEC_300 else MAX_DIV_SPEC_200
  }

  /** Version 3.00 divisors are 1 or even, version 2.00 divisors are powers of two
      (section 2.2.14 of the SD Host Controller Simplified Specification 3.00). */
  ghost predicate Legal(v3: bool, div: int) {
    0 < div <= MaxDivisor(v3) && if v3 then div == 1 || div % 2 == 0 else PowerOfTwo(div)
  }

  /** The divided clock, as the driver computes it, is not above the request. */
  predicate Meets(fMax: nat, clock: nat, div: nat)
    requires div > 0
  {
    fMax / div <= clock
  }

  /** The smallest legal divisor that meets the request, or the largest of all when none does. */
  ghost predicate Best(v3: bool, fMax: nat, clock: nat, div: nat) {
    && Legal(v3, div)
    && (Meets(fMax, clock, div) || div == MaxDivisor(v3))
    && forall d :: Legal(v3, d) && d < div ==> !Meets(fMax, clock, d)
  }

  lemma {:induction false} BestIsUnique(v3: bool, fMax: nat, clock: nat, d: nat, e: nat)
    requires Best(v3, fMax, clock, d) && Best(v3, fMax, clock, e)
    ensures d == e
  {
  }

  lemma {:induction false} BestIsTenBits(v3: bool, fMax: nat, clock: nat, div: nat)
    requires Best(v3, fMax, clock, div)
    ensures 0 < div && div / 2 < 0x400
    ensures !v3 ==> div / 2 < 0x100
  {
  }

  lemma {:induction false} MinimumMeets(v3: bool, fMax: nat, clock: nat, fMin: nat, div: nat)
    requires Best(v3, fMax, clock, div) && fMin <= clock
    ensures div > 0 && (Meets(fMax, clock, div) <==> fMax / MaxDivisor(v3) <= clock)
    ensures fMax / MaxDivisor(v3) <= fMin ==> Meets(fMax, clock, div)
  {
    BestMeetsIff(v3, fMax, clock, div);
  }

  lemma {:induction false} MaxDivisorPositive(v3: bool)
    ensures MaxDivisor(v3) > 0
  {
  }

  /** The base clock itself is asked for. */
  lemma {:induction false} OneIsBest(v3: bool, fMax: nat, div: nat)
    requires Best(v3, fMax, fMax, div)
    ensures div == 1
  {
    assert Legal(v3, 1) && Meets(fMax, fMax, 1);
  }

  lemma {:induction false} QuotientFits(f: nat, d: nat, c: nat)
    requires d > 0
    ensures f / d <= c <==> f < (c + 1) * d
  {
    var q := f / d;
    assert f == q * d + f % d;
    if q <= c {
      assert (c + 1) * d == (c - q) * d + q * d + d;
      assert (c - q) * d >= 0;
    } else {
      assert q * d == (q - c - 1) * d + (c + 1) * d;
      assert (q - c - 1) * d >= 0;
    }
  }

  lemma {:induction false} LargerMeets(fMax: nat, clock: nat, d: nat, e: nat)
    requires 0 < d <= e && Meets(fMax, clock, d)
    ensures Meets(fMax, clock, e)
  {
    QuotientFits(fMax, d, clock);
    QuotientFits(fMax, e, clock);
    assert (clock + 1) * e == (clock + 1) * d + (clock + 1) * (e - d);
  }

  /** MAIN: the request is met exactly when the largest divisor meets it; clamping the
      request to a minimum of `fMax / MaxDivisor` is what makes that so. */
  lemma {:induction false} BestMeetsIff(v3: bool, fMax: nat, clock: nat, div: nat)
    requires Best(v3, fMax, clock, div)
    ensures Meets(fMax, clock, div) <==> fMax / MaxDivisor(v3) <= clock
  {
    if Meets(fMax, clock, div) { LargerMeets(fMax, clock, div, MaxDivisor(v3)); }
  }

  /** The request lies just below some legal fraction of the base clock, so that the
      integer division hides what is over. */
  ghost predicate JustBelowFraction(v3: bool, fMax: nat, clock: nat) {
    exists d: nat :: Legal(v3, d) && clock * d < fMax < (clock + 1) * d
  }

  /** MAIN: the card runs faster than asked if and only if no legal divisor meets the request
      or the request lies just below a legal fraction of the base clock. */
  lemma {:induction false} TooFastIff(v3: bool, fMax: nat, clock: nat, div: nat)
    requires Best(v3, fMax, clock, div)
    ensures fMax > clock * div <==> fMax / MaxDivisor(v3) > clock || JustBelowFraction(v3, fMax, clock)
  {
    BestMeetsIff(v3, fMax, clock, div);
    QuotientFits(fMax, div, clock);
    if !Meets(fMax, clock, div) {
      ProductMono(clock, clock + 1, div);
    } else if d: nat :| Legal(v3, d) && clock * d < fMax < (clock + 1) * d {
      QuotientFits(fMax, d, clock);
      assert Meets(fMax, clock, d) && div <= d;
      ProductMono(div, d, clock);
    }
  }

  lemma {:induction false} ProductMono(a: nat, b: nat, c: nat)
    requires a <= b
    ensures a * c <= b * c
  {
    assert b * c == a * c + (b - a) * c;
  }

  /** A base clock of 5 and a request of 2 give 2.5: divisor 1 does not meet the request. */
  lemma {:induction false} TooFastExample()
    ensures Best(true, 5, 2, 2) && JustBelowFraction(true, 5, 2) && 5 > 2 * 2
  {
    forall d | Legal(true, d) && d < 2 ensures !Meets(5, 2, d) { assert d == 1; }
    assert Legal(true, 2);
  }

  lemma {:induction false} NotDivided(fMax: nat, clock: nat)
    ensures Meets(fMax, clock, 1) <==> fMax <= clock
  {
  }

  /** The next power of two is the next legal version 2.00 divisor. */
  lemma {:induction false} NothingBetween(p: nat, d: nat)
    requires PowerOfTwo(p) && PowerOfTwo(d) && p <= d < 2 * p
    ensures d == p
    decreases p
  {
    if p > 1 && d > 1 { NothingBetween(p / 2, d / 2); }
  }

  lemma {:induction false} Doubled(p: nat)
    requires PowerOfTwo(p)
    ensures PowerOfTwo(2 * p) && p > 0
  {
    assert 2 * p / 2 == p;
  }

  /** Powers of two below a bound are at most half the next one. */
  lemma {:induction false} StillPower(p: nat)
    requires PowerOfTwo(p) && p < MAX_DIV_SPEC_200
    ensures 2 * p <= MAX_DIV_SPEC_200
  {
    assert PowerOfTwo(256) by { SmallPowers(); }
    if 2 * p > 256 { NothingBetween(p, 256); }
  }

  lemma {:induction false} SmallPowers()
    ensures PowerOfTwo(256)
  {
    Doubled(1);
    Doubled(2);
    Doubled(4);
    Doubled(8);
    Doubled(16);
    Doubled(32);
    Doubled(64);
    Doubled(128);
  }

  /** What the controller reads out of the two divider fields. */
  function DividerIn(clk: bv16): bv32 {
    (((clk >> 8) & 0xFF) | (((clk >> 6) & 3) << 8)) as bv32
  }

  function ClockWord(div: bv32): bv32 {
    ((div & DIV_MASK) << 8) | (((div & DIV_HI_MASK) >> 8) << 6) | 1
  }

  /** MAIN: the split 8+2-bit field decodes to the ten bits it came from, and only the
      internal clock is enabled. */
  lemma {:induction false} ClockWordDecodes(div: bv32)
    requires div < 0x400
    ensures ClockWord(div) < 0x1_0000
    ensures DividerIn((ClockWord(div) & 0xFFFF) as bv16) == div
    ensures (ClockWord(div) & 0xFFFF) as bv16 & (CLOCK_INT_EN | CLOCK_INT_STABLE | CLOCK_CARD_EN) == CLOCK_INT_EN
  {
  }

  /** Reading the register back and setting status bits leaves the divider alone. */
  lemma {:induction false} StatusBits(clk: bv16)
    ensures DividerIn(clk | CLOCK_INT_STABLE) == DividerIn(clk) && DividerIn(clk | CLOCK_CARD_EN) == DividerIn(clk)
    ensures (clk | CLOCK_CARD_EN) & CLOCK_CARD_EN != 0
    ensures (clk | CLOCK_INT_STABLE) & CLOCK_CARD_EN == clk & CLOCK_CARD_EN
  {
  }

  lemma {:induction false} CardClockOff(clk: bv16)
    requires clk & (CLOCK_INT_EN | CLOCK_INT_STABLE | CLOCK_CARD_EN) == CLOCK_INT_EN
    ensures clk & CLOCK_CARD_EN == 0
  {
  }

  const CMD_MAX_TIMEOUT: nat := 32000
  const CMD_DEFAULT_TIMEOUT: nat := 1000

  /** Divides the base clock in the loop of the older controllers. */
  method SearchPowers(fMax: nat, clock: nat) returns (div: nat)
    ensures Best(false, fMax, clock, div)
  {
    SmallPowers();
    div := 1;
    while div < MAX_DIV_SPEC_200
      invariant PowerOfTwo(div) && 0 < div <= MAX_DIV_SPEC_200
      invariant forall d :: Legal(false, d) && d < div ==> !Meets(fMax, clock, d)
      decreases MAX_DIV_SPEC_200 - div
    {
      if fMax / div <= clock {
        break;
      }
      StillPower(div);
      Doubled(div);
      forall d | Legal(false, d) && d < 2 * div ensures !Meets(fMax, clock, d) {
        if d >= div { NothingBetween(div, d); }
      }
      div := div * 2;
    }
  }

  /** Divides the base clock in the loop of version 3.00 controllers. */
  method SearchEven(fMax: nat, clock: nat) returns (div: nat)
    ensures Best(true, fMax, clock, div)
  {
    hide PowerOfTwo, Meets;
    NotDivided(fMax, clock);
    if fMax <= clock {
      return 1;
    }
    div := 2;
    while div < MAX_DIV_SPEC_300
      invariant div % 2 == 0 && 2 <= div <= MAX_DIV_SPEC_300
      invariant forall d :: Legal(true, d) && d < div ==> !Meets(fMax, clock, d)
    {
      if Meets(fMax, clock, div) {
        break;
      }
      div := div + 2;
    }
  }

  class Host {
    const version: nat
    const fMin: nat
    const fMax: nat
    var clockControl: bv16
    var cmdTimeout: nat
    ghost var unstableReads: nat        // how often the internal clock was found unstable
    ghost var written: seq<bv16>        // what has been written to the clock register

    constructor (version: nat, fMin: nat, fMax: nat)
      ensures this.version == version && this.fMin == fMin && this.fMax == fMax
      ensures cmdTimeout == CMD_DEFAULT_TIMEOUT && clockControl == 0
    {
      this.version, this.fMin, this.fMax := version, fMin, fMax;
      clockControl, cmdTimeout := 0, CMD_DEFAULT_TIMEOUT;
    }

    predicate Version3() {
      version >= SPEC_300
    }

    method WriteClock(word: bv16)
      modifies this`clockControl, this`written
      ensures clockControl == word && written == old(written) + [word]
    {
      clockControl := word;
      written := written + [word];
    }

    /** The internal clock becomes stable when it likes. */
    method ReadClock() returns (clk: bv16)
      modifies this`unstableReads
      ensures clk == clockControl || clk == clockControl | CLOCK_INT_STABLE
      ensures unstableReads == old(unstableReads) + if clk & CLOCK_INT_STABLE == 0 then 1 else 0
    {
      var stable: bool := *;
      clk := if stable then clockControl | CLOCK_INT_STABLE else clockControl;
      if clk & CLOCK_INT_STABLE == 0 {
        unstableReads := unstableReads + 1;
      }
    }

    /** Waits for the internal clock, then lets the clock out to the card. */
    method EnableCardClock() returns (ok: bool)
      modifies this`clockControl, this`unstableReads, this`written
      ensures ok <==> unstableReads <= old(unstableReads) + 2000
      ensures written == old(written) + if ok then [clockControl] else []
      ensures DividerIn(clockControl) == DividerIn(old(clockControl))
      ensures ok ==> clockControl & CLOCK_CARD_EN != 0
      ensures !ok ==> clockControl == old(clockControl)
    {
      var timeout := 2000;
      StatusBits(clockControl);
      StatusBits(clockControl | CLOCK_INT_STABLE);
      var clk := ReadClock();
      while clk & CLOCK_INT_STABLE == 0
        invariant timeout >= 0 && clockControl == old(clockControl) && written == old(written)
        invariant unstableReads == old(unstableReads) + 2000 - timeout + if clk & CLOCK_INT_STABLE == 0 then 1 else 0
        invariant clk == clockControl || clk == clockControl | CLOCK_INT_STABLE
        decreases timeout
      {
        if timeout == 0 {
          return false;
        }
        timeout := timeout - 1;
        clk := ReadClock();
      }
      WriteClock(clk | CLOCK_CARD_EN);
      ok := true;
    }

    /** Writes the divider fields, with the card clock still off. */
    method WriteDivider(d: nat)
      requires d < 0x400
      modifies this`clockControl, this`written
      ensures written == old(written) + [clockControl]
      ensures DividerIn(clockControl) == d as bv32
      ensures clockControl & CLOCK_CARD_EN == 0
    {
      var word := ClockWord(d as bv32);
      ClockWordDecodes(d as bv32);
      CardClockOff((word & 0xFFFF) as bv16);
      WriteClock((word & 0xFFFF) as bv16);
    }

    /** What a restart of the clock writes: the divider while the card clock is off, and only
        with that divider the clock is let out to the card. */
    static ghost predicate Restarts(words: seq<bv16>, divider: bv32, enabled: bool) {
      && |words| == (if enabled then 2 else 1)
      && words[0] & CLOCK_CARD_EN == 0 && DividerIn(words[0]) == divider
      && (enabled ==> words[1] & CLOCK_CARD_EN != 0 && DividerIn(words[1]) == divider)
    }

    /** Sets the divider and lets the clock out when it is stable. */
    method Restart(d: nat) returns (ok: bool)
      requires d < 0x400
      modifies this`clockControl, this`unstableReads, this`written
      ensures ok <==> unstableReads <= old(unstableReads) + 2000
      ensures DividerIn(clockControl) == d as bv32
      ensures clockControl & CLOCK_CARD_EN != 0 <==> ok
      ensures old(written) <= written && Restarts(written[|old(written)|..], d as bv32, ok)
    {
      hide DividerIn;
      WriteDivider(d);
      ghost var word := clockControl;
      ok := EnableCardClock();
      assert written[|old(written)|..] == [word] + if ok then [clockControl] else [];
    }

    /** The best divisor for a request. */
    method BestDivisor(clock: nat) returns (div: nat)
      ensures Best(version >= 2, fMax, clock, div) && div / 2 < 0x400
      ensures fMax > clock * div
              <==> fMax / MaxDivisor(Version3()) > clock || JustBelowFraction(Version3(), fMax, clock)
    {
      hide Best, JustBelowFraction;
      if Version3() {
        div := SearchEven(fMax, clock);
      } else {
        div := SearchPowers(fMax, clock);
      }
      BestIsTenBits(Version3(), fMax, clock, div);
      TooFastIff(Version3(), fMax, clock, div);
    }

    /** Stops the clock, and restarts it with the best divisor unless the request is zero. */
    method SetClock(clock: nat) returns (ok: bool, ghost div: nat)
      modifies this`clockControl, this`unstableReads, this`written
      ensures clock == 0 ==> ok && clockControl == 0 && written == old(written) + [0]
      ensures clock > 0 ==> (ok <==> unstableReads <= old(unstableReads) + 2000)
      ensures clock > 0 ==> Best(version >= 2, fMax, clock, div) && DividerIn(clockControl) == (div / 2) as bv32
      ensures clock > 0 ==>
        old(written) + [0] <= written && Restarts(written[|old(written)| + 1..], (div / 2) as bv32, ok)
      ensures clock > 0 ==>
                (fMax > clock * div
                 <==> fMax / MaxDivisor(Version3()) > clock || JustBelowFraction(Version3(), fMax, clock))
      ensures clockControl & CLOCK_CARD_EN != 0 <==> ok && clock > 0
    {
      hide DividerIn, Best, JustBelowFraction, Restarts, Meets, MaxDivisor;
      MaxDivisorPositive(version >= 2);
      WriteClock(0);
      if clock == 0 {
        return true, 1;
      }
      var d := BestDivisor(clock);
      div := d;
      ok := Restart(d / 2);
      assert written[|old(written)| + 1..] == written[|old(written) + [0]|..];
    }

    /** The request clamped to what the controller can do. */
    function Clamped(clock: nat): (c: nat)
      ensures fMin <= c && (fMin <= fMax ==> c <= fMax)
      ensures fMin <= clock <= fMax ==> c == clock
      ensures fMin <= fMax <= clock ==> c == fMax
      ensures clock <= fMin || fMax <= fMin ==> c == fMin
    {
      var c := if clock > fMax then fMax else clock;
      if c < fMin then fMin else c
    }

    method Clamp(clock: nat) returns (c: nat)
      ensures c == Clamped(clock)
    {
      c := clock;
      if c > fMax {
        c := fMax;
      }
      if c < fMin {
        c := fMin;
      }
    }

    /** MAIN: the card runs at the clamped request (in whole hertz) or less if and only if
        the largest divisor gets it there; a minimum clock of at least the base clock over
        the largest divisor makes sure of it. */
    method SetMmcClock(clock: nat) returns (ok: bool, ghost div: nat)
      modifies this`clockControl, this`unstableReads, this`written
      ensures Clamped(clock) > 0 ==> (ok <==> unstableReads <= old(unstableReads) + 2000)
      ensures Clamped(clock) == 0 ==> ok && clockControl == 0
      ensures fMin <= fMax <= clock && fMax > 0 ==> div == 1
      ensures Clamped(clock) > 0 ==>
        && Best(version >= 2, fMax, Clamped(clock), div) && DividerIn(clockControl) == (div / 2) as bv32
        && (Meets(fMax, Clamped(clock), div) <==> fMax / MaxDivisor(Version3()) <= Clamped(clock))
        && (fMax / MaxDivisor(Version3()) <= fMin ==> Meets(fMax, Clamped(clock), div))
        && (fMax > Clamped(clock) * div
            <==> fMax / MaxDivisor(Version3()) > Clamped(clock) || JustBelowFraction(Version3(), fMax, Clamped(clock)))
      ensures clockControl & CLOCK_CARD_EN != 0 <==> ok && Clamped(clock) > 0
    {
      hide DividerIn, Best, JustBelowFraction, Meets, MaxDivisor, Clamped;
      MaxDivisorPositive(version >= 2);
      var c := Clamp(clock);
      ok, div := SetClock(c);
      if c > 0 { MinimumMeets(Version3(), fMax, c, fMin, div); }
      if c == fMax && c > 0 { OneIsBest(Version3(), fMax, div); }
    }

    /** The limit is the default one, doubled up to five times. */
    ghost predicate TimeoutOk()
      reads this
    {
      cmdTimeout in {1000, 2000, 4000, 8000, 16000, 32000}
    }

    /** MAIN: a command goes out exactly when the card is busy for at most 32000 polls,
        whatever limit earlier commands have left; the limit grows only as far as needed and
        never shrinks. */
    method WaitReady(busyPolls: nat) returns (ok: bool)
      requires TimeoutOk()
      modifies this`cmdTimeout
      ensures TimeoutOk() && cmdTimeout >= old(cmdTimeout)
      ensures ok <==> busyPolls <= CMD_MAX_TIMEOUT
      ensures ok ==> busyPolls <= cmdTimeout
      ensures cmdTimeout > old(cmdTimeout) ==> cmdTimeout / 2 < busyPolls
    {
      var time := 0;
      while time < busyPolls
        invariant TimeoutOk() && time <= busyPolls && time <= cmdTimeout && old(cmdTimeout) <= cmdTimeout
        invariant cmdTimeout > old(cmdTimeout) ==> cmdTimeout / 2 < busyPolls
      {
        if time >= cmdTimeout {
          if 2 * cmdTimeout <= CMD_MAX_TIMEOUT {
            cmdTimeout := cmdTimeout + cmdTimeout;
          } else {
            return false;
          }
        }
        time := time + 1;
      }
      return true;
    }
  }
}
