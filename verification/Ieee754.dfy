/** What a correctly rounded single is (sections 3.4, 4.3.1 and 5.4.1 of IEEE 754-2008),
    in exact integer arithmetic and without reference to any algorithm.

    Every finite single is a whole number of units of 2^-149.  The low 31 bits of a single,
    its magnitude pattern, count the non-negative singles in increasing order, so neighbours
    have consecutive patterns and "even" is evenness of the pattern.  Infinity's pattern
    stands where the next finite number would be, at 2^128: a result that rounds there
    with an unbounded exponent range is one that overflows. */
module Ieee754 {
  import opened MachineInts

  const HIDDEN: nat := 0x80_0000
  const INF: nat := 0x7f80_0000

  /** The value of magnitude pattern m, in units of 2^-149. */
  function Grid(m: nat): nat
  {
    var e, f := m / HIDDEN, m % HIDDEN;
    if e == 0 then f else (HIDDEN + f) * Pow2(e - 1)
  }

  /** The distance from pattern m to the next one: one unit in the last place. */
  function Ulp(m: nat): pos
  {
    var e := m / HIDDEN;
    Pow2(if e == 0 then 0 else e - 1)
  }

  lemma GridStep(m: nat)
    ensures Grid(m + 1) == Grid(m) + Ulp(m)
  {
    var e, f := m / HIDDEN, m % HIDDEN;
    if f == HIDDEN - 1 {
      assert (m + 1) / HIDDEN == e + 1 && (m + 1) % HIDDEN == 0;
      if e > 0 {
        assert Pow2(e) == 2 * Pow2(e - 1);
      }
    } else {
      assert (m + 1) / HIDDEN == e && (m + 1) % HIDDEN == f + 1;
    }
  }

  lemma {:induction false} GridMonotone(m: nat, k: nat)
    requires m < k
    ensures Grid(m) < Grid(k)
  {
    GridStep(k - 1);
    if m < k - 1 {
      GridMonotone(m, k - 1);
    }
  }

  /** Pattern m is the last one whose value is at most n/d. */
  ghost predicate Brackets(n: nat, d: pos, m: nat)
  {
    && m <= INF
    && Grid(m) * d <= n
    && (m < INF ==> n < Grid(m + 1) * d)
  }

  lemma {:induction false} BracketExists(n: nat, d: pos, k: nat)
    requires k <= INF && (k < INF ==> n < Grid(k + 1) * d)
    ensures exists m :: Brackets(n, d, m)
  {
    if Grid(k) * d <= n {
      assert Brackets(n, d, k);
    } else {
      assert k != 0;
      BracketExists(n, d, k - 1);
    }
  }

  lemma BracketUnique(n: nat, d: pos, m: nat, k: nat)
    requires Brackets(n, d, m) && Brackets(n, d, k)
    ensures m == k
  {
    if m < k {
      BracketOrder(n, d, m, k);
    } else if k < m {
      BracketOrder(n, d, k, m);
    }
  }

  lemma BracketOrder(n: nat, d: pos, m: nat, k: nat)
    requires Brackets(n, d, k) && m < k
    ensures !Brackets(n, d, m)
  {
    hide Grid;
    if m + 1 < k {
      GridMonotone(m + 1, k);
    }
    MulMonotone(Grid(m + 1), Grid(k), d);
  }

  /** The largest pattern whose value does not exceed n/d. */
  ghost function Below(n: nat, d: pos): (m: nat)
    ensures Brackets(n, d, m)
  {
    BracketExists(n, d, INF);
    var m :| Brackets(n, d, m);
    m
  }

  /** The magnitude pattern of n/d units rounded to nearest, ties to even. */
  ghost function Round(n: nat, d: pos): nat
  {
    var m := Below(n, d);
    if m == INF then INF
    else
      var side := 2 * n - (Grid(m) + Grid(m + 1)) * d;
      if side < 0 || (side == 0 && m % 2 == 0) then m else m + 1
  }

  /** d times the distance between n/d and pattern k. */
  function Distance(n: nat, d: pos, k: nat): nat
  {
    Abs(n - Grid(k) * d)
  }

  /** Round is what the standard asks for: no pattern is closer to the exact value, and
      another pattern is equally close only when the one chosen is even. */
  lemma RoundIsNearestEven(n: nat, d: pos, k: nat)
    requires k <= INF && k != Round(n, d)
    ensures Round(n, d) <= INF
    ensures Distance(n, d, Round(n, d)) <= Distance(n, d, k)
    ensures Distance(n, d, Round(n, d)) == Distance(n, d, k) ==> Round(n, d) % 2 == 0
  {
    hide Grid;
    var m := Below(n, d);
    if k < m {
      GridMonotone(k, m);
      MulStrict(Grid(k), Grid(m), d);
    } else if m < INF && m + 1 < k {
      GridMonotone(m + 1, k);
      MulStrict(Grid(m + 1), Grid(k), d);
    }
    MulDistributes(Grid(m), Grid(m + 1), d);
  }

  /** Nothing else meets that description, so Round is the only correct rounding. */
  lemma NearestEvenIsRound(n: nat, d: pos, m: nat)
    requires m <= INF
    requires forall k :: 0 <= k <= INF && k != m ==>
               Distance(n, d, m) <= Distance(n, d, k)
               && (Distance(n, d, m) == Distance(n, d, k) ==> m % 2 == 0)
    ensures m == Round(n, d)
  {
    hide Grid, Round;
    var r := Round(n, d);
    if m != r {
      RoundIsNearestEven(n, d, m);
      assert m % 2 == 0 && r % 2 == 0;
      if m < r {
        BetweenIsCloser(n, d, m, m + 1, r);
      } else {
        BetweenIsCloser(n, d, r, r + 1, m);
      }
      assert false;
    }
  }

  /** A pattern strictly between two equally close ones is closer still. */
  lemma BetweenIsCloser(n: nat, d: pos, lo: nat, mid: nat, hi: nat)
    requires lo < mid < hi && Distance(n, d, lo) == Distance(n, d, hi)
    ensures Distance(n, d, mid) < Distance(n, d, lo)
  {
    hide Grid;
    GridMonotone(lo, mid);
    GridMonotone(mid, hi);
    MulStrict(Grid(lo), Grid(mid), d);
    MulStrict(Grid(mid), Grid(hi), d);
  }

  lemma RoundFromBracket(n: nat, d: pos, m: nat)
    requires Brackets(n, d, m)
    ensures m == INF ==> Round(n, d) == INF
    ensures m < INF ==>
              var side := 2 * n - (Grid(m) + Grid(m + 1)) * d;
              Round(n, d) == if side < 0 || (side == 0 && m % 2 == 0) then m else m + 1
  {
    hide Grid;
    BracketUnique(n, d, m, Below(n, d));
  }

  lemma RoundScales(n: nat, d: pos, k: pos)
    ensures Round(k * n, k * d) == Round(n, d)
  {
    hide Grid;
    var m := Below(n, d);
    ScaleComparison(n, d, Grid(m), k);
    ScaleComparison(n, d, Grid(m + 1), k);
    ScaleComparison(2 * n, d, Grid(m) + Grid(m + 1), k);
    MulAssociates(k, 2, n);
    RoundFromBracket(n, d, m);
    RoundFromBracket(k * n, k * d, m);
  }

  /** How n/d compares with g does not change when both are multiplied by k. */
  lemma ScaleComparison(n: nat, d: pos, g: nat, k: pos)
    ensures g * d <= n <==> g * (k * d) <= k * n
    ensures g * d == n <==> g * (k * d) == k * n
  {
    assert g * (k * d) == k * (g * d) by {
      MulSwaps(g, k, d);
    }
    if g * d < n {
      MulStrict(g * d, n, k);
    } else if n < g * d {
      MulStrict(n, g * d, k);
    }
  }

  lemma RoundInRange(n: nat, d: pos)
    ensures Round(n, d) <= INF
  {
    if Round(n, d) != 0 {
      RoundIsNearestEven(n, d, 0);
    }
  }

  lemma RoundOfGrid(m: nat)
    requires m <= INF
    ensures Round(Grid(m), 1) == m
  {
    if m < INF {
      GridStep(m);
    }
    assert Brackets(Grid(m), 1, m);
    RoundFromBracket(Grid(m), 1, m);
  }

  lemma RoundOverflows(n: nat, d: pos)
    requires n >= Grid(INF) * d
    ensures Round(n, d) == INF
  {
    assert Brackets(n, d, INF);
    RoundFromBracket(n, d, INF);
  }

  /** Infinity is the result exactly from the midpoint after the largest finite number on. */
  lemma RoundsToInfinityIff(n: nat, d: pos)
    ensures Round(n, d) == INF <==> 2 * n >= (Grid(INF - 1) + Grid(INF)) * d
  {
    var m := Below(n, d);
    RoundFromBracket(n, d, m);
    hide Grid, Round;
    MulDistributes(Grid(INF - 1), Grid(INF), d);
    GridMonotone(INF - 1, INF);
    MulMonotone(Grid(INF - 1), Grid(INF), d);
    if m < INF - 1 {
      if m + 1 < INF - 1 {
        GridMonotone(m + 1, INF - 1);
      }
      MulMonotone(Grid(m + 1), Grid(INF - 1), d);
    }
  }

  lemma RoundUnderflows(n: nat, d: pos)
    requires 2 * n <= d
    ensures Round(n, d) == 0
  {
    assert Grid(0) == 0 && Grid(1) == 1;
    assert Brackets(n, d, 0);
    RoundFromBracket(n, d, 0);
  }

  // ----- values scaled by a power of two of either sign -----

  function Up(e: int): pos { if e > 0 then Pow2(e) else 1 }

  function Down(e: int): pos { if e < 0 then Pow2(-e) else 1 }

  /** The nearest-even rounding of (n/d) * 2^e units. */
  ghost function RoundAt(n: nat, d: pos, e: int): nat
  {
    Round(n * Up(e), d * Down(e))
  }

  lemma RoundAtDoubleDen(n: nat, d: pos, e: int)
    ensures RoundAt(n, 2 * d, e + 1) == RoundAt(n, d, e)
  {
    hide Round;
    if e >= 0 {
      assert Up(e + 1) == 2 * Up(e);
      MulSwaps(n, 2, Up(e));
      RoundScales(n * Up(e), d, 2);
    } else {
      assert Down(e) == 2 * Down(e + 1);
      MulSwaps(d, 2, Down(e + 1));
      MulAssociates(2, d, Down(e + 1));
    }
  }

  lemma RoundAtScales(n: nat, d: pos, e: int, k: pos)
    ensures RoundAt(k * n, k * d, e) == RoundAt(n, d, e)
  {
    hide Round, Up, Down;
    RoundScales(n * Up(e), d * Down(e), k);
    MulAssociates(k, n, Up(e));
    MulAssociates(k, d, Down(e));
  }

  lemma RoundAtDoubleNum(n: nat, d: pos, e: int)
    ensures RoundAt(2 * n, d, e - 1) == RoundAt(n, d, e)
  {
    hide RoundAt;
    RoundAtDoubleDen(2 * n, d, e - 1);
    RoundAtScales(n, d, e, 2);
  }

  lemma RoundAtZero(n: nat, d: pos)
    ensures RoundAt(n, d, 0) == Round(n, d)
  {
    hide Round;
  }

  lemma {:induction false} RoundAtShiftNum(n: nat, d: pos, e: int, t: nat)
    ensures RoundAt(n * Pow2(t), d, e) == RoundAt(n, d, e + t)
    decreases t
  {
    hide RoundAt;
    if t > 0 {
      var p := Pow2(t - 1);
      MulSwaps(n, 2, p);
      RoundAtShiftNum(n, d, e + 1, t - 1);
      RoundAtDoubleNum(n * p, d, e + 1);
    }
  }

  lemma {:induction false} RoundAtShiftDen(n: nat, d: pos, e: int, k: nat)
    ensures RoundAt(n, d * Pow2(k), e) == RoundAt(n, d, e - k)
    decreases k
  {
    hide RoundAt;
    if k > 0 {
      var p := Pow2(k - 1);
      MulSwaps(d, 2, p);
      RoundAtShiftDen(n, d, e - 1, k - 1);
      RoundAtDoubleDen(n, d * p, e - 1);
    }
  }

  /** In the binade with spacing 2^(e-1), rounding looks only at the whole part fr and at
      how the remaining fraction compares with one half. */
  lemma RoundInBinade(e: int, fr: nat, n: nat, d: pos)
    requires 1 <= e <= 254 && fr < 2 * HIDDEN && (e == 1 || fr >= HIDDEN)
    requires fr * d <= n < (fr + 1) * d
    ensures var rest := 2 * (n - fr * d);
            RoundAt(n, d, e - 1) ==
              (e - 1) * HIDDEN + (if rest < d || (rest == d && fr % 2 == 0) then fr else fr + 1)
  {
    hide Grid, Ulp, Round;
    var m := (e - 1) * HIDDEN + fr;
    SameParity((e - 1) * 0x40_0000, fr);
    assert m < INF;
    GridInBinade(e, fr);
    RoundInCell(m, fr, Pow2(e - 1), n, d);
    assert RoundAt(n, d, e - 1) == Round(n * Pow2(e - 1), d);
  }

  lemma SameParity(k: int, fr: int)
    ensures (2 * k + fr) % 2 == fr % 2
  {
  }

  lemma RoundInCell(m: nat, fr: nat, p: pos, n: nat, d: pos)
    requires m < INF && Grid(m) == fr * p && Ulp(m) == p
    requires fr * d <= n < (fr + 1) * d
    ensures var rest := 2 * (n - fr * d);
            Round(n * p, d) == if rest < d || (rest == d && m % 2 == 0) then m else m + 1
  {
    hide Grid, Ulp, Round;
    GridStep(m);
    MulDistributes(fr, 1, p);
    BracketInBinade(m, fr, p, n, d);
    RoundFromBracket(n * p, d, m);
    MidpointInBinade(fr, p, n, d);
  }

  lemma BracketInBinade(m: nat, fr: nat, p: pos, n: nat, d: pos)
    requires m < INF && Grid(m) == fr * p && Grid(m + 1) == (fr + 1) * p
    requires fr * d <= n < (fr + 1) * d
    ensures Brackets(n * p, d, m)
  {
    hide Grid;
    CellComparison(n, d, fr, p);
    CellComparison(n, d, fr + 1, p);
  }

  lemma CellComparison(n: nat, d: pos, g: nat, p: pos)
    ensures g * d <= n <==> (g * p) * d <= n * p
    ensures g * d == n <==> (g * p) * d == n * p
  {
    ScaleComparison(n, d, g, p);
    MulAssociates(g, p, d);
    MulCommutes(n, p);
  }

  lemma MidpointInBinade(fr: nat, p: pos, n: nat, d: pos)
    ensures var side, rest := 2 * (n * p) - (fr * p + (fr + 1) * p) * d, 2 * (n - fr * d);
            (side < 0 <==> rest < d) && (side == 0 <==> rest == d)
  {
    CellComparison(2 * n, d, fr + (fr + 1), p);
    MulDistributes(fr, fr + 1, p);
    MulDistributes(fr, fr, d);
    MulDistributes(fr + fr, 1, d);
    MulAssociates(2, n, p);
  }

  lemma GridInBinade(e: int, fr: nat)
    requires 1 <= e && fr < 2 * HIDDEN && (e == 1 || fr >= HIDDEN)
    ensures var m := (e - 1) * HIDDEN + fr;
            Grid(m) == fr * Pow2(e - 1) && Ulp(m) == Pow2(e - 1)
  {
    var m := (e - 1) * HIDDEN + fr;
    if fr >= HIDDEN {
      assert m == e * HIDDEN + (fr - HIDDEN);
      assert m / HIDDEN == e && m % HIDDEN == fr - HIDDEN;
    }
  }

  // ----- bit patterns -----

  function SignBit(x: u32): bit { x / 0x8000_0000 }
  function Exponent(x: u32): nat { x / HIDDEN % 0x100 }
  function Fraction(x: u32): nat { x % HIDDEN }

  predicate Finite(x: u32) { Exponent(x) != 255 }

  /** The significand with its hidden bit, and the exponent with subnormals at 1. */
  function Significand(x: u32): nat { if Exponent(x) == 0 then Fraction(x) else HIDDEN + Fraction(x) }
  function Scale(x: u32): pos { if Exponent(x) == 0 then 1 else Exponent(x) }

  function Encode(s: bit, m: nat): u32
    requires m < 0x8000_0000
  {
    s * 0x8000_0000 + m
  }

  /** The magnitude of a finite single in units of 2^-149. */
  function Magnitude(x: u32): nat { Grid(x % 0x8000_0000) }

  /** The value of a finite single in units of 2^-149. */
  function Value(x: u32): int
  {
    var g: int := Magnitude(x);
    if SignBit(x) == 1 then -g else g
  }

  lemma PatternParts(x: u32)
    ensures x == SignBit(x) * 0x8000_0000 + Exponent(x) * HIDDEN + Fraction(x)
    ensures x % 0x8000_0000 == Exponent(x) * HIDDEN + Fraction(x)
    ensures (x % 0x8000_0000) / HIDDEN == Exponent(x) && (x % 0x8000_0000) % HIDDEN == Fraction(x)
    ensures x == Encode(SignBit(x), x % 0x8000_0000)
  {
  }

  lemma ValueOf(x: u32)
    ensures Magnitude(x) == Significand(x) * Pow2(Scale(x) - 1)
  {
    PatternParts(x);
  }

  // ----- signed rounding -----

  /** The single nearest to n/d units, ties to even; an exact zero is +0. */
  ghost function RoundRatio(n: int, d: pos): u32
  {
    RoundInRange(Abs(n), d);
    Encode(if n < 0 then 1 else 0, Round(Abs(n), d))
  }

  lemma RoundRatioIs(n: int, d: pos, s: bit, g: nat)
    requires Abs(n) == g && (n < 0 <==> s == 1)
    ensures Round(g, d) <= INF && RoundRatio(n, d) == s * 0x8000_0000 + Round(g, d)
  {
    hide Round;
    RoundInRange(g, d);
  }

  lemma EncodedParts(s: bit, m: nat)
    requires m < 0x8000_0000
    ensures SignBit(Encode(s, m)) == s && Encode(s, m) % 0x8000_0000 == m
  {
  }

  /** It has the sign of the exact value, no single is nearer to that, and an equally near one only when
      the one chosen is even. */
  lemma RoundRatioIsNearest(n: int, d: pos, x: u32)
    requires x % 0x8000_0000 <= INF
    ensures var r := RoundRatio(n, d);
            && (SignBit(r) == 1 <==> n < 0) && r % 0x8000_0000 <= INF
            && Abs(n - Value(r) * d) <= Abs(n - Value(x) * d)
            && (Abs(n - Value(r) * d) == Abs(n - Value(x) * d) && Value(x) != Value(r) ==> r % 2 == 0)
  {
    hide Grid, Round, Encode, SignBit, Distance, RoundRatio, Value;
    var r, m, k := RoundRatio(n, d), Round(Abs(n), d), x % 0x8000_0000;
    RoundRatioParts(n, d);
    NearestPattern(Abs(n), d, k);
    NearestPattern(Abs(n), d, 0);
    SignedDistance(n, d, SignBit(r), m);
    SignedDistance(n, d, SignBit(x), k);
    ValueIs(r);
    ValueIs(x);
    ParityOfPattern(r);
  }

  lemma RoundRatioParts(n: int, d: pos)
    ensures var r := RoundRatio(n, d);
            (SignBit(r) == 1 <==> n < 0) && r % 0x8000_0000 == Round(Abs(n), d) <= INF
  {
    hide Round;
    RoundInRange(Abs(n), d);
    EncodedParts(if n < 0 then 1 else 0, Round(Abs(n), d));
    hide Encode;
  }

  lemma NearestPattern(n: nat, d: pos, k: nat)
    requires k <= INF
    ensures Distance(n, d, Round(n, d)) <= Distance(n, d, k)
    ensures Distance(n, d, Round(n, d)) == Distance(n, d, k) && k != Round(n, d) ==> Round(n, d) % 2 == 0
  {
    hide Round, Distance;
    if k != Round(n, d) {
      RoundIsNearestEven(n, d, k);
    }
  }

  lemma ValueIs(x: u32)
    ensures Value(x) == if SignBit(x) == 1 then -(Grid(x % 0x8000_0000) as int) else Grid(x % 0x8000_0000)
  {
    hide Grid;
  }

  lemma ParityOfPattern(x: u32)
    ensures x % 0x8000_0000 % 2 == x % 2
  {
  }

  /** The distance of n/d from a signed pattern, by whether the signs agree. */
  lemma SignedDistance(n: int, d: pos, s: bit, k: nat)
    ensures var v: int := if s == 1 then -(Grid(k) as int) else Grid(k);
            Abs(n - v * d) == if (s == 1) == (n < 0) then Distance(Abs(n), d, k) else Abs(n) + Distance(0, d, k)
    ensures Distance(Abs(n), d, 0) == Abs(n)
    ensures Distance(0, d, k) == 0 ==> Grid(k) == 0
    ensures Grid(0) == 0
  {
    assert Grid(0) == 0;
    var p := Grid(k) * d;
    MulMonotone(0, Grid(k), d);
    if Grid(k) > 0 {
      MulMonotone(1, Grid(k), d);
    }
    MulSigns(Grid(k), d);
    hide Grid;
  }
}
