/** internal_normalize: brings a significand with guard, round and sticky bits into range,
    rounds it to nearest even, and packs the result. */
module Normalization {
  import opened MachineInts
  import opened Ieee754

  // A normalised significand has its leading one at bit 26: 23 fraction bits and 3 more.
  const LEADING: nat := 0x400_0000

  /** sig, whose lowest bit may be sticky, stands for the exact significand n/d: they are
      equal, or sig is odd and n/d lies strictly between its even neighbours. */
  ghost predicate StandsFor(sig: int, n: int, d: pos)
  {
    n == sig * d || (sig % 2 == 1 && (sig - 1) * d < n < (sig + 1) * d)
  }

  function OrBit(x: nat, b: bit): nat
  {
    if b == 1 && x % 2 == 0 then x + 1 else x
  }

  /** Shifting right and keeping the lost bit sticky stands for half the exact value. */
  lemma StickyShift(sig: nat, n: nat, d: pos)
    requires StandsFor(sig, n, d)
    ensures StandsFor(OrBit(sig / 2, sig % 2), n, 2 * d)
  {
    var h := sig / 2;
    MulAssociates(h, 2, d);
    MulAssociates(h + 1, 2, d);
    MulAssociates(h - 1, 2, d);
    MulDistributes(h * 2, 1, d);
    MulDistributes(h * 2, 2, d);
    MulDistributes(h * 2, -2, d);
    MulDistributes(h * 2, -1, d);
  }

  /** The sticky bit, also one place higher up, never moves a significand across a rounding
      boundary: the guard bits compare with one half exactly as the exact value does. */
  lemma StickyKeepsSide(sig: nat, n: nat, d: pos)
    requires StandsFor(sig, n, d) || (sig % 2 == 0 && StandsFor(sig / 2, n, 2 * d))
    ensures var fr, grs := sig / 8, sig % 8;
            && fr * (8 * d) <= n < (fr + 1) * (8 * d)
            && var rest := 2 * (n - fr * (8 * d));
               (rest < 8 * d <==> grs < 4) && (rest == 8 * d <==> grs == 4)
  {
    var fr, grs := sig / 8, sig % 8;
    MulDistributes(fr, 1, 8 * d);
    SplitAtGuard(fr, grs, d);
    if StandsFor(sig, n, d) {
      SplitAtGuard(fr, grs - 1, d);
      SplitAtGuard(fr, grs + 1, d);
    } else {
      SplitAtGuard(fr, grs - 2, d);
      SplitAtGuard(fr, grs + 2, d);
      MulAssociates(sig / 2, 2, d);
      MulAssociates(sig / 2 - 1, 2, d);
      MulAssociates(sig / 2 + 1, 2, d);
    }
    WithinGuard(grs, n - fr * (8 * d), d);
  }

  lemma SplitAtGuard(fr: nat, g: int, d: pos)
    ensures (fr * 8 + g) * d == fr * (8 * d) + g * d
  {
    MulDistributes(fr * 8, g, d);
    MulAssociates(fr, 8, d);
  }

  lemma WithinGuard(grs: nat, tail: int, d: pos)
    requires grs < 8
    requires tail == grs * d
             || (grs % 2 == 1 && (grs - 1) * d < tail < (grs + 1) * d)
             || (grs % 4 == 2 && (grs - 2) * d < tail < (grs + 2) * d)
    ensures 0 <= tail < 8 * d && (tail < 4 * d <==> grs < 4) && (tail == 4 * d <==> grs == 4)
  {
  }

  /** The magnitude pattern of the correctly rounded (n/d) * 2^(exp-153), the value that
      significand n/d has at biased exponent exp; at exponent 0 a significand below 2^27
      is scaled like exponent 1. */
  ghost function Rounded(exp: int, sig: nat, n: nat, d: pos): nat
  {
    RoundAt(n, d, (if exp == 0 && sig < 2 * LEADING then 1 else exp) - 4)
  }

  /** exp and sig are in range for packing, and still stand for the value to be rounded. */
  ghost predicate InRange(exp: int, sig: nat, n: nat, d: pos)
  {
    && 0 <= exp < 255
    && (exp == 0 ==> sig < LEADING)
    && (exp > 0 ==> LEADING <= sig < 2 * LEADING)
    && (StandsFor(sig, n, d) || (sig % 2 == 0 && StandsFor(sig / 2, n, 2 * d)))
  }

  /** A sticky shift to the right at the next exponent keeps the rounded value. */
  lemma StickyShiftKeepsValue(exp: int, sig: nat, n: nat, d: pos)
    requires StandsFor(sig, n, d)
    ensures StandsFor(OrBit(sig / 2, sig % 2), n, 2 * d)
    ensures RoundAt(n, 2 * d, exp - 3) == RoundAt(n, d, exp - 4)
  {
    hide RoundAt;
    StickyShift(sig, n, d);
    RoundAtDoubleDen(n, d, exp - 4);
  }

  method ShiftRight(exp0: i32, sig0: u64, ghost n: nat, ghost d: pos)
    returns (exp: i32, sig: u64, ghost dd: pos)
    requires StandsFor(sig0, n, d)
    requires sig0 >= 2 * LEADING || exp0 < 0
    ensures StandsFor(sig, n, dd) && RoundAt(n, dd, exp - 4) == RoundAt(n, d, exp0 - 4)
    ensures exp < 0 ==> sig <= 4
    ensures exp < 255 ==> sig < 2 * LEADING
    ensures exp > 0 ==> sig >= LEADING
    ensures exp0 > 0 && sig0 == 2 * LEADING && exp < 255 ==> exp > 0 && sig == LEADING
  {
    hide RoundAt, StandsFor;
    exp, sig := exp0, sig0;
    dd := d;
    while (sig / LEADING > 1 && exp < 0xff) || (sig > 4 && exp < 0)
      invariant exp0 <= exp && (exp <= 255 || exp == exp0)
      invariant exp > 0 ==> sig >= LEADING
      invariant exp > 255 ==> sig >= 2 * LEADING
      invariant StandsFor(sig, n, dd)
      invariant RoundAt(n, dd, exp - 4) == RoundAt(n, d, exp0 - 4)
      invariant exp0 > 0 && sig0 == 2 * LEADING ==> sig == LEADING || (sig == sig0 && exp == exp0)
      decreases 255 - exp
    {
      StickyShiftKeepsValue(exp, sig, n, dd);
      var sticky := sig % 2;
      sig := sig / 2;
      sig := OrBit(sig, sticky);
      exp := exp + 1;
      dd := 2 * dd;
    }
  }

  method NormalizeRight(exp0: i32, sig0: u64, ghost n: nat, ghost d: pos)
    returns (exp: i32, sig: u64, overflow: bool, ghost dd: pos)
    requires StandsFor(sig0, n, d)
    requires sig0 >= 2 * LEADING || exp0 < 0
    ensures overflow ==> (exp == 0 || exp == 255) && sig == 0
                         && exp * HIDDEN == RoundAt(n, d, exp0 - 4)
    ensures !overflow ==> InRange(exp, sig, n, dd) && Rounded(exp, sig, n, dd) == RoundAt(n, d, exp0 - 4)
    ensures !overflow && exp0 > 0 && sig0 == 2 * LEADING ==> sig == LEADING
  {
    hide RoundAt;
    exp, sig, dd := ShiftRight(exp0, sig0, n, d);
    overflow := false;
    if exp >= 0xff {
      LargeRoundsToInfinity(exp, sig, n, dd);
      exp := 255;
      sig := 0;
      overflow := true;
    }
    if exp == 0 {
      StickyShiftKeepsValue(0, sig, n, dd);
      var sticky := sig % 2;
      sig := sig / 2;
      sig := OrBit(sig, sticky);
      dd := 2 * dd;
    }
    if exp < 0 {
      SmallRoundsToZero(exp, sig, n, dd);
      exp := 0;
      sig := 0;
      overflow := true;
    }
  }

  lemma LargeRoundsToInfinity(exp: int, sig: nat, n: nat, d: pos)
    requires exp >= 255 && sig >= LEADING && StandsFor(sig, n, d)
    ensures RoundAt(n, d, exp - 4) == INF
  {
    assert n >= LEADING * d by {
      MulMonotone(LEADING, if n == sig * d then sig else sig - 1, d);
    }
    var p := Pow2(exp - 4);
    InfinityIsReached(exp);
    hide Grid, Round, Pow2;
    assert n * p >= Grid(INF) * d by {
      MulMonotone(LEADING * d, n, p);
      MulMonotone(Grid(INF), LEADING * p, d);
      MulAssociates(LEADING, p, d);
      MulCommutes(p, d);
      MulAssociates(LEADING, d, p);
    }
    RoundOverflows(n * p, d);
  }

  lemma InfinityIsReached(exp: int)
    requires exp >= 255
    ensures LEADING * Pow2(exp - 4) >= Grid(INF)
  {
    assert Grid(INF) == HIDDEN * Pow2(254);
    Pow2Add(3, 251);
    Pow2Monotone(251, exp - 4);
  }

  lemma SmallRoundsToZero(exp: int, sig: nat, n: nat, d: pos)
    requires exp < 0 && sig <= 4 && StandsFor(sig, n, d)
    ensures RoundAt(n, d, exp - 4) == 0
  {
    var p := Pow2(4 - exp);
    Pow2Monotone(5, 4 - exp);
    assert p >= 32;
    assert n <= 4 * d by {
      MulMonotone(if n == sig * d then sig else sig + 1, 4, d);
    }
    MulMonotone(8, p, d);
    RoundUnderflows(n, d * p);
  }

  method NormalizeLeft(exp0: i32, sig0: u64, ghost n: nat, ghost d: pos)
    returns (exp: i32, sig: u64, ghost nn: nat, ghost dd: pos)
    requires StandsFor(sig0, n, d) && (n == sig0 * d || sig0 >= LEADING / 2)
    requires sig0 < LEADING && 0 < exp0 < 255
    ensures InRange(exp, sig, nn, dd) && Rounded(exp, sig, nn, dd) == RoundAt(n, d, exp0 - 4)
    ensures exp <= exp0 && sig == sig0 * Pow2(exp0 - if exp == 0 then 1 else exp)
  {
    hide RoundAt;
    exp, sig := exp0, sig0;
    nn, dd := n, d;
    while sig / LEADING == 0 && exp > 0
      invariant 0 <= exp <= exp0 && sig < 2 * LEADING && sig == sig0 * Pow2(exp0 - exp)
      invariant exp < exp0 ==> sig % 2 == 0
      invariant dd == d && (nn == sig * dd || LeftOnce(exp0 - exp, sig, nn, dd))
      invariant RoundAt(nn, dd, exp - 4) == RoundAt(n, d, exp0 - 4)
      decreases exp
    {
      RoundAtDoubleNum(nn, dd, exp - 4);
      MulAssociates(2, sig, dd);
      if nn != sig * dd {
        RescaleStands(sig, nn, dd);
      }
      MulSwaps(sig0, 2, Pow2(exp0 - exp));
      sig := sig * 2;
      exp := exp - 1;
      nn := 2 * nn;
    }
    if exp == 0 {
      MulSwaps(sig0, 2, Pow2(exp0 - 1));
      RoundAtDoubleDen(nn, dd, -4);
      MulAssociates(sig / 2, 2, dd);
      var sticky := sig % 2;
      sig := sig / 2;
      sig := OrBit(sig, sticky);
      dd := 2 * dd;
    }
  }

  lemma RescaleStands(sig: int, n: int, d: pos)
    requires StandsFor(sig, n, d)
    ensures StandsFor(sig, 2 * n, 2 * d)
  {
    assert sig * (2 * d) == 2 * (sig * d);
    assert (sig - 1) * (2 * d) == 2 * ((sig - 1) * d);
    assert (sig + 1) * (2 * d) == 2 * ((sig + 1) * d);
  }

  /** An inexact significand is shifted left at most once. */
  ghost predicate LeftOnce(shifts: int, sig: nat, n: nat, d: pos)
  {
    || (shifts == 0 && sig >= LEADING / 2 && StandsFor(sig, n, d))
    || (shifts == 1 && sig >= LEADING && sig % 2 == 0 && StandsFor(sig / 2, n, 2 * d))
  }

  /** No more work is left for a significand that rounding has just produced. */
  ghost predicate Settled(exp: int, sig: nat)
  {
    && sig % 8 == 0
    && ((exp == 0 && sig <= LEADING) || (1 <= exp < 255 && LEADING <= sig <= 2 * LEADING))
  }

  /** The first half of the function: shift the significand into range. */
  method BringIntoRange(exp0: i32, sig0: u64, ghost n: nat, ghost d: pos)
    returns (exp: i32, sig: u64, overflow: bool, ghost nn: nat, ghost dd: pos)
    requires StandsFor(sig0, n, d) && (n == sig0 * d || sig0 >= LEADING / 2 || exp0 <= 0)
    requires exp0 < 255 || sig0 >= 2 * LEADING
    ensures overflow ==> (exp == 0 || exp == 255) && sig == 0 && exp * HIDDEN == Rounded(exp0, sig0, n, d)
    ensures !overflow ==> InRange(exp, sig, nn, dd) && Rounded(exp, sig, nn, dd) == Rounded(exp0, sig0, n, d)
    ensures !overflow && Settled(exp0, sig0) ==> sig % 8 == 0
  {
    hide RoundAt, StandsFor;
    exp, sig, overflow := exp0, sig0, false;
    nn, dd := n, d;
    if sig / LEADING > 1 || exp < 0 {
      exp, sig, overflow, dd := NormalizeRight(exp, sig, n, d);
    } else if sig / LEADING == 0 && exp > 0 {
      exp, sig, nn, dd := NormalizeLeft(exp, sig, n, d);
    } else if exp == 0 && sig / LEADING == 1 {
      exp := exp + 1;
    }
  }

  method RoundOff(exp: i32, sig: u64, ghost n: nat, ghost d: pos) returns (fraction: u64, didRound: bool)
    requires InRange(exp, sig, n, d)
    ensures fraction <= (if exp == 0 then HIDDEN else 2 * HIDDEN) && (exp > 0 ==> fraction >= HIDDEN)
    ensures !didRound ==> fraction == sig / 8
    ensures sig % 8 == 0 ==> !didRound
    ensures Rounded(exp, sig, n, d) == (if exp == 0 then 0 else exp - 1) * HIDDEN + fraction
  {
    var grs := sig % 8;
    fraction := sig / 8;
    didRound := false;
    if grs < 4 {
    } else if grs > 4 {
      didRound := true;
      fraction := fraction + 1;
    } else {
      if fraction % 2 == 0 {
      } else {
        fraction := fraction + 1;
        didRound := true;
      }
    }
    RoundGuardBits(exp, sig, n, d);
  }

  lemma RoundedUpIsSettled(exp: int, fr: nat)
    requires 0 <= exp < 255 && fr <= (if exp == 0 then HIDDEN else 2 * HIDDEN) && (exp > 0 ==> fr >= HIDDEN)
    ensures Settled(exp, fr * 8)
  {
  }

  /** The result carries the sign it is given and is the exact value rounded to nearest,
      ties to even, over the whole range: subnormals, zero and infinity included.  A sticky significand
      may not be so short that it is shifted to the left more than once.  Rounding
      up calls the function again, and the measure shows that this happens at most once. */
  method Normalize(sign: bit, exp0: i32, sig0: u64, ghost n: nat, ghost d: pos) returns (r: u32)
    requires StandsFor(sig0, n, d) && (n == sig0 * d || sig0 >= LEADING / 2 || exp0 <= 0)
    requires exp0 < 255 || sig0 >= 2 * LEADING
    ensures Rounded(exp0, sig0, n, d) <= INF
    ensures r == Encode(sign, Rounded(exp0, sig0, n, d))
    decreases if Settled(exp0, sig0) then 0 else 1
  {
    hide RoundAt, Rounded;
    var exp, sig, overflow, nn, dd := BringIntoRange(exp0, sig0, n, d);
    ghost var target := Rounded(exp0, sig0, n, d);
    if !overflow {
      var fraction, didRound := RoundOff(exp, sig, nn, dd);
      sig := fraction;
      if didRound {
        RoundedIsOnGrid(exp, sig);
        RoundedUpIsSettled(exp, sig);
        r := Normalize(sign, exp, sig * 8, sig * 8, 1);
        assert r == Encode(sign, target);
        return;
      }
    }
    PackedFields(exp, sig, target);
    r := sign * 0x8000_0000 + exp % 0x100 * HIDDEN + sig % HIDDEN;
  }

  lemma PackedFields(exp: int, sig: nat, m: nat)
    requires 0 <= exp <= 255 && sig < 2 * HIDDEN
    requires m == if exp == 0 || sig == 0 then exp * HIDDEN + sig else (exp - 1) * HIDDEN + sig
    requires (exp == 0 ==> sig < HIDDEN) && (0 < exp < 255 ==> sig >= HIDDEN) && (exp == 255 ==> sig == 0)
    ensures m == exp % 0x100 * HIDDEN + sig % HIDDEN
  {
  }

  /** The guard bits decide the rounding of an in-range significand. */
  lemma RoundGuardBits(exp: int, sig: nat, n: nat, d: pos)
    requires InRange(exp, sig, n, d)
    ensures var fr, grs := sig / 8, sig % 8;
            Rounded(exp, sig, n, d) ==
              (if exp == 0 then 0 else exp - 1) * HIDDEN
              + (if grs < 4 || (grs == 4 && fr % 2 == 0) then fr else fr + 1)
  {
    hide RoundAt, StandsFor;
    var e := if exp == 0 then 1 else exp;
    StickyKeepsSide(sig, n, d);
    RoundAtEighths(n, d, e - 4);
    RoundInBinade(e, sig / 8, n, 8 * d);
  }

  lemma RoundAtEighths(n: nat, d: pos, e: int)
    ensures RoundAt(n, 8 * d, e + 3) == RoundAt(n, d, e)
  {
    hide RoundAt;
    RoundAtDoubleDen(n, d, e);
    RoundAtDoubleDen(n, 2 * d, e + 1);
    RoundAtDoubleDen(n, 4 * d, e + 2);
  }

  /** A significand without guard bits is already a representable value. */
  lemma RoundedIsOnGrid(exp: int, fr: nat)
    requires 0 <= exp < 255 && fr <= 2 * HIDDEN
    requires if exp == 0 then fr <= HIDDEN else fr >= HIDDEN
    ensures Rounded(exp, fr * 8, fr * 8, 1) == (if exp == 0 then 0 else exp - 1) * HIDDEN + fr
  {
    hide RoundAt;
    var e := if exp == 0 then 1 else exp;
    RoundAtEighths(fr * 8, 1, e - 4);
    RoundAtScales(fr, 1, e - 1, 8);
    WholeSignificand(e, fr);
  }

  lemma WholeSignificand(e: int, fr: nat)
    requires 1 <= e < 255 && fr <= 2 * HIDDEN && (e == 1 || fr >= HIDDEN)
    ensures RoundAt(fr, 1, e - 1) == (e - 1) * HIDDEN + fr
  {
    hide Grid, Round;
    if fr < 2 * HIDDEN {
      RoundInBinade(e, fr, fr, 1);
    } else {
      GridInBinade(e + 1, HIDDEN);
      RoundOfGrid(e * HIDDEN + HIDDEN);
    }
  }
}
