/** internal_float_div. */
module SoftFloatDiv {
  import opened MachineInts
  import opened Ieee754
  import opened Normalization
  import opened FloatOperands

  const TOP: nat := 0x8000_0000_0000_0000

  // ----- the two scaling loops -----

  /** How far x can be shifted left in 64 bits. */
  function LeadingZeros(x: pos): nat
    decreases TOP - x
  {
    if x >= TOP then 0 else 1 + LeadingZeros(2 * x)
  }

  function TrailingZeros(x: pos): nat
  {
    if x % 2 == 1 then 0 else 1 + TrailingZeros(x / 2)
  }

  function OddPart(x: pos): (r: pos)
    ensures r <= x && r % 2 == 1 && r * Pow2(TrailingZeros(x)) == x
  {
    if x % 2 == 1 then x else
      var r := OddPart(x / 2);
      assert r * (2 * Pow2(TrailingZeros(x / 2))) == 2 * (r * Pow2(TrailingZeros(x / 2)));
      r
  }

  /** The dividend's significand with its leading one in bit 63. */
  function TopAligned(x: pos): pos
  {
    x * Pow2(LeadingZeros(x))
  }

  /** The integer quotient that is computed, and whether it leaves no remainder. */
  function Truncated(x: pos, y: pos): nat { Quotient(TopAligned(x), OddPart(y)) }
  predicate DividesExactly(x: pos, y: pos) { Remainder(TopAligned(x), OddPart(y)) == 0 }

  function Quotient(x: pos, y: pos): nat { x / y }
  function Remainder(x: pos, y: pos): nat { x % y }

  /** By how many places the scaling loops shift altogether. */
  function TotalShift(x: pos, y: pos): nat { LeadingZeros(x) + TrailingZeros(y) }

  /** Terminates because the significand is not zero. */
  method ScaleUp(sig0: u64) returns (sig: u64, shift: nat)
    requires sig0 >= 1
    ensures sig == TopAligned(sig0) && shift == LeadingZeros(sig0)
  {
    sig, shift := sig0, 0;
    while sig / TOP == 0
      invariant sig >= 1 && sig == sig0 * Pow2(shift)
      invariant shift + LeadingZeros(sig) == LeadingZeros(sig0)
      decreases TOP - sig
    {
      assert sig0 * Pow2(shift + 1) == 2 * sig by { MulSwaps(sig0, 2, Pow2(shift)); }
      sig := sig * 2;
      shift := shift + 1;
    }
  }

  /** Terminates because the significand is not zero. */
  method ScaleDown(sig0: u64, shift0: nat) returns (sig: u64, shift: nat)
    requires sig0 >= 1
    ensures sig == OddPart(sig0) && shift == shift0 + TrailingZeros(sig0)
  {
    sig, shift := sig0, shift0;
    while sig % 2 == 0
      invariant sig >= 1 && OddPart(sig) == OddPart(sig0)
      invariant shift + TrailingZeros(sig) == shift0 + TrailingZeros(sig0)
      decreases sig
    {
      sig := sig / 2;
      shift := shift + 1;
    }
  }

  // ----- specification -----

  const CORNER_DIV: seq<CornerCaseRule> := [
    Rule(P_ZERO, P_ZERO, N_NAN),
    Rule(N_ZERO, P_ZERO, N_NAN),
    Rule(P_ZERO, N_ZERO, N_NAN),
    Rule(N_ZERO, N_ZERO, N_NAN),
    Rule(P_INF, P_ZERO, P_INF),
    Rule(N_INF, P_ZERO, N_INF),
    Rule(P_INF, N_ZERO, N_INF),
    Rule(N_INF, N_ZERO, P_INF),
    Rule(P_INF, P_INF, N_NAN),
    Rule(N_INF, P_INF, N_NAN),
    Rule(P_INF, N_INF, N_NAN),
    Rule(N_INF, N_INF, N_NAN)
  ]

  /** A finite dividend and a divisor that is not zero. */
  predicate Divisible(a: u32, b: u32)
  {
    Finite(a) && Finite(b) && !IsZero(a) && !IsZero(b)
  }

  lemma NonZeroSignificand(x: u32)
    requires Finite(x) && !IsZero(x)
    ensures 1 <= Significand(x) < 2 * HIDDEN && 1 <= Scale(x) <= 254
  {
    PatternParts(x);
  }

  function NonZeroSig(x: u32): pos
    requires Finite(x) && !IsZero(x)
  {
    NonZeroSignificand(x);
    Significand(x)
  }

  /** The truncated quotient, times 2^QuotientScale, approximates a/b in units of 2^-149. */
  function QuotientScale(a: u32, b: u32): int
    requires Divisible(a, b)
  {
    Scale(a) - Scale(b) + 149 - TotalShift(NonZeroSig(a), NonZeroSig(b))
  }

  function TruncatedQuotient(a: u32, b: u32): nat
    requires Divisible(a, b)
  {
    Truncated(NonZeroSig(a), NonZeroSig(b))
  }

  /** The dividend in units of 2^-298: divided by the magnitude of b, in units of 2^-149, it
      is the quotient in units of 2^-149. */
  function ExactDividend(a: u32): nat { Magnitude(a) * Pow2(149) }

  /** The correctly rounded magnitude of the quotient of two finite singles. */
  ghost function RoundedQuotient(a: u32, b: u32): nat
    requires Divisible(a, b)
  {
    MagnitudePositive(b);
    Round(ExactDividend(a), Magnitude(b))
  }

  /** q * 2^e is exactly halfway between two neighbours of which the lower is even. */
  ghost predicate TiesDown(q: nat, e: int)
  {
    var m := Below(q * Up(e), Down(e));
    m < INF && m % 2 == 0 && 2 * (q * Up(e)) == (Grid(m) + Grid(m + 1)) * Down(e)
  }

  function BitLength(q: nat): nat
  {
    if q == 0 then 0 else 1 + BitLength(q / 2)
  }

  /** The number of low bits of q that rounding q * 2^e drops. */
  function DroppedBits(q: nat, e: int): int { Max(BitLength(q) - 24, -e) }

  /** q * 2^e is in range, the bits that rounding drops are a one and then zeros, and the bit above
      them is zero. */
  predicate LooksTied(q: nat, e: int)
  {
    var k := DroppedBits(q, e);
    && BitLength(q) + e <= 277 && k > 0
    && q % Pow2(k) == Pow2(k - 1) && q / Pow2(k) % 2 == 0
  }

  /** The operands for which dropping the remainder changes the result: there is one, and the bits of
      the quotient look like a tie although the exact quotient lies above it. */
  predicate LosesRemainder(a: u32, b: u32)
  {
    && Divisible(a, b)
    && !DividesExactly(NonZeroSig(a), NonZeroSig(b))
    && LooksTied(TruncatedQuotient(a, b), QuotientScale(a, b))
  }

  /** The exact quotient of two values in units of 2^-149, with its sign, correctly rounded. */
  ghost function NearestToQuotient(a: u32, b: u32): u32
    requires Divisible(a, b)
  {
    MagnitudePositive(b);
    RoundRatio((if Value(b) < 0 then -Value(a) else Value(a)) * Pow2(149), Abs(Value(b)))
  }

  /** a / b as the standard defines it: the exact quotient correctly rounded, and the rules for zeros,
      infinities and NaNs, with the sign negative exactly when the operands' signs differ. */
  ghost predicate IsQuotient(a: u32, b: u32, r: u32)
  {
    var opposite := SignBit(a) != SignBit(b);
    if IsNaN(a) || IsNaN(b) then r == if a == P_NAN || b == P_NAN then P_NAN else N_NAN
    else if (IsZero(a) && IsZero(b)) || (IsInfinite(a) && IsInfinite(b)) then r == N_NAN
    else if IsInfinite(a) || IsZero(b) then r == if opposite then N_INF else P_INF
    else if IsZero(a) || IsInfinite(b) then r == if opposite then N_ZERO else P_ZERO
    else Divisible(a, b) && r == NearestToQuotient(a, b)
  }

  /** No single times b is nearer to a, and an equally near one only when the result is even. */
  lemma QuotientIsNearest(a: u32, b: u32, r: u32, x: u32)
    requires Divisible(a, b) && IsQuotient(a, b, r) && x % 0x8000_0000 <= INF
    ensures var v := Value(a) * Pow2(149);
            && Abs(v - Value(r) * Value(b)) <= Abs(v - Value(x) * Value(b))
            && (Abs(v - Value(r) * Value(b)) == Abs(v - Value(x) * Value(b)) && Value(x) != Value(r) ==> r % 2 == 0)
  {
    hide IsQuotient, Divisible, Value, RoundRatio, SignBit, Pow2;
    var n := FiniteQuotient(a, b, r);
    RoundRatioIsNearest(n, Abs(Value(b)), x);
    MulSigns(Value(r), Value(b));
    MulSigns(Value(x), Value(b));
  }

  lemma FiniteQuotient(a: u32, b: u32, r: u32) returns (n: int)
    requires Divisible(a, b) && IsQuotient(a, b, r)
    ensures Value(b) != 0 && n == (if Value(b) < 0 then -(Value(a) * Pow2(149)) else Value(a) * Pow2(149))
    ensures r == RoundRatio(n, Abs(Value(b)))
  {
    hide Value, RoundRatio, SignBit, Pow2;
    MagnitudePositive(b);
    MulSigns(Value(a), Pow2(149));
    n := if Value(b) < 0 then -(Value(a) * Pow2(149)) else Value(a) * Pow2(149);
  }

  /** Pattern k lies within 1/2 + 2^-16 units in the last place of n/d. */
  ghost predicate WithinBound(k: nat, n: nat, d: pos, m: nat)
  {
    0x1_0000 * Distance(n, d, k) <= 0x8001 * (Ulp(m) * d)
  }

  /** Unless a/b is past the largest finite number, k lies within that bound of it. */
  ghost predicate IsCloseQuotient(a: u32, b: u32, k: nat)
    requires Divisible(a, b)
  {
    MagnitudePositive(b);
    var m := Below(ExactDividend(a), Magnitude(b));
    m < INF ==> WithinBound(k, ExactDividend(a), Magnitude(b), m)
  }

  // ----- the operation -----

  /** a / b.  The result is the correctly rounded quotient exactly when no remainder is
      lost under a tie, and close to it in any case. */
  method Div(b: u32, a: u32) returns (r: u32)
    requires Operand(a) && Operand(b)
    ensures IsQuotient(a, b, r) <==> !LosesRemainder(a, b)
    ensures Divisible(a, b) ==>
              && (SignBit(r) == 1 <==> Value(a) * Value(b) < 0)
              && r % 0x8000_0000 == RoundAt(TruncatedQuotient(a, b), 1, QuotientScale(a, b))
    ensures Divisible(a, b) ==> IsCloseQuotient(a, b, r % 0x8000_0000)
  {
    hide IsQuotient, IsCloseQuotient, LosesRemainder, RoundAt, TruncatedQuotient, QuotientScale, Value, SignBit;
    var corner := LookUp(CORNER_DIV, a, b);
    CornerQuotients(a, b);
    if corner.Some? {
      return corner.value;
    }
    SpecialQuotients(a, b);
    if a == P_NAN || a == N_NAN || b == P_NAN || b == N_NAN {
      return if a == P_NAN || b == P_NAN then P_NAN else N_NAN;
    }
    if a == P_INF || a == N_INF {
      return if SignXor(a, b) == 1 then N_INF else P_INF;
    }
    if b == P_ZERO || b == N_ZERO {
      return if SignXor(a, b) == 1 then N_INF else P_INF;
    }
    if a == P_ZERO || a == N_ZERO {
      return SignXor(a, b) * 0x8000_0000 + a % 0x8000_0000;
    }
    if b == P_INF || b == N_INF {
      return if SignXor(a, b) == 1 then N_ZERO else P_ZERO;
    }
    r := DivFinite(a, b);
  }

  predicate InCornerDiv(a: u32, b: u32)
  {
    || (IsZero(a) && IsZero(b))
    || (IsInfinite(a) && (IsZero(b) || IsInfinite(b)))
  }

  lemma CornerQuotients(a: u32, b: u32)
    ensures forall res :: Rule(a, b, res) in CORNER_DIV ==> IsQuotient(a, b, res) && !LosesRemainder(a, b)
    ensures InCornerDiv(a, b) ==> exists res :: Rule(a, b, res) in CORNER_DIV
    ensures InCornerDiv(a, b) ==> !Divisible(a, b)
    ensures forall res :: Rule(a, b, res) in CORNER_DIV ==> InCornerDiv(a, b)
  {
    hide NearestToQuotient, LooksTied, TruncatedQuotient, DividesExactly, QuotientScale;
  }

  lemma SpecialQuotients(a: u32, b: u32)
    requires Operand(a) && Operand(b) && !InCornerDiv(a, b)
    ensures !Divisible(a, b) ==> !LosesRemainder(a, b)
    ensures IsNaN(a) || IsNaN(b) ==> IsQuotient(a, b, if a == P_NAN || b == P_NAN then P_NAN else N_NAN)
    ensures !IsNaN(a) && !IsNaN(b) && (IsInfinite(a) || IsZero(b)) ==>
              IsQuotient(a, b, if SignXor(a, b) == 1 then N_INF else P_INF)
    ensures !IsNaN(a) && !IsNaN(b) && !IsInfinite(a) && !IsZero(b) && (IsZero(a) || IsInfinite(b)) ==>
              IsQuotient(a, b, if SignXor(a, b) == 1 then N_ZERO else P_ZERO)
  {
    hide NearestToQuotient, LooksTied, TruncatedQuotient, DividesExactly, QuotientScale;
  }

  /** Scaling both significands to keep precision, and the integer division. */
  method ScaledDivision(sigA0: u64, sigB0: u64) returns (sigRes: u64, shift: nat)
    requires sigA0 >= 1 && sigB0 >= 1
    ensures sigRes == Truncated(sigA0, sigB0) && shift == TotalShift(sigA0, sigB0)
  {
    hide LeadingZeros, TrailingZeros, TopAligned, OddPart;
    var sigA, sigB;
    sigA, shift := ScaleUp(sigA0);
    sigB, shift := ScaleDown(sigB0, shift);
    sigRes := sigA / sigB;
  }

  /** The exponent is computed in uint32_t and passed on as int32_t. */
  function ResultExponent(ea: nat, eb: nat, shift: nat): (r: i32)
    requires ea < 0x100 && eb < 0x100 && shift < 0x100
    ensures r == ea - eb + 127 - (shift - 23 - 3)
  {
    var expRes: u32 := Wrap32(ea as int - eb as int + 127 - (shift as int - 23 - 3));
    if expRes < 0x8000_0000 then expRes else expRes - 0x1_0000_0000
  }

  /** The numeric case. */
  method DivFinite(a: u32, b: u32) returns (r: u32)
    requires Divisible(a, b)
    ensures IsQuotient(a, b, r) <==> !LosesRemainder(a, b)
    ensures SignBit(r) == 1 <==> Value(a) * Value(b) < 0
    ensures r % 0x8000_0000 == RoundAt(TruncatedQuotient(a, b), 1, QuotientScale(a, b))
    ensures IsCloseQuotient(a, b, r % 0x8000_0000)
  {
    hide IsQuotient, IsCloseQuotient, Value, SignBit, LosesRemainder, RoundAt, RoundedQuotient, SignXor, Exponent,
      Fraction, Scale, Significand, Truncated, LeadingZeros, TrailingZeros;
    var sigA, ea := UnpackOperand(a);
    var sigB, eb := UnpackOperand(b);
    NonZeroSignificand(a);
    NonZeroSignificand(b);
    ShiftBounds(sigA, sigB);
    QuotientRounds(a, b);
    var sigRes, total := ScaledDivision(sigA, sigB);
    var exp := ResultExponent(ea, eb, total);
    assert exp == QuotientScale(a, b) + 4;
    assert sigRes == TruncatedQuotient(a, b) && sigRes >= 2 * LEADING;
    assert Rounded(exp, sigRes, sigRes, 1) == RoundAt(TruncatedQuotient(a, b), 1, QuotientScale(a, b));
    hide QuotientScale, TruncatedQuotient, Rounded;
    r := Normalize(SignXor(a, b), exp, sigRes, sigRes, 1);
    NumericQuotient(a, b, r);
    CloseResult(a, b, r);
  }

  lemma CloseResult(a: u32, b: u32, r: u32)
    requires Divisible(a, b)
    requires r == SignXor(a, b) * 0x8000_0000 + RoundAt(TruncatedQuotient(a, b), 1, QuotientScale(a, b))
    ensures SignBit(r) == 1 <==> Value(a) * Value(b) < 0
    ensures r % 0x8000_0000 == RoundAt(TruncatedQuotient(a, b), 1, QuotientScale(a, b))
    ensures IsCloseQuotient(a, b, r % 0x8000_0000)
  {
    hide SignXor, TruncatedQuotient, QuotientScale, IsCloseQuotient, Round, Value, SignBit;
    ProductOfValues(a, b);
    hide Divisible;
    DivisionErrorBound(a, b);
    var q, e := TruncatedQuotient(a, b), QuotientScale(a, b);
    RoundInRange(q * Up(e), Down(e));
    MagnitudeOf(SignXor(a, b), RoundAt(q, 1, e));
  }

  lemma MagnitudeOf(s: bit, m: nat)
    requires m <= INF
    ensures (s * 0x8000_0000 + m) % 0x8000_0000 == m && SignBit(s * 0x8000_0000 + m) == s
  {
  }

  lemma NumericQuotient(a: u32, b: u32, r: u32)
    requires Divisible(a, b)
    ensures IsQuotient(a, b, r) <==> r == SignXor(a, b) * 0x8000_0000 + RoundedQuotient(a, b)
  {
    hide RoundedQuotient, NearestToQuotient, SignXor, SignBit;
    NearestIs(a, b);
  }

  lemma NearestIs(a: u32, b: u32)
    requires Divisible(a, b)
    ensures NearestToQuotient(a, b) == SignXor(a, b) * 0x8000_0000 + RoundedQuotient(a, b)
  {
    hide Round, RoundRatio, SignXor, Pow2, Grid;
    MagnitudePositive(a);
    MagnitudePositive(b);
    var v := if Value(b) < 0 then -Value(a) else Value(a);
    assert Abs(v) == Magnitude(a) && (v < 0 <==> SignXor(a, b) == 1) && Abs(Value(b)) == Magnitude(b);
    hide SignBit, Value, Magnitude;
    ScaledSign(v, Pow2(149));
    RoundRatioIs(v * Pow2(149), Magnitude(b), SignXor(a, b), ExactDividend(a));
  }

  lemma ScaledSign(v: int, p: pos)
    ensures Abs(v * p) == Abs(v) * p && (v * p < 0 <==> v < 0)
  {
    MulSigns(v, p);
    MulMonotone(if v == 0 then 0 else 1, Abs(v), p);
  }

  lemma {:induction false} LeadingZerosBound(x: pos)
    requires x < 2 * TOP
    ensures TOP <= TopAligned(x) < 2 * TOP
    decreases TOP - x
  {
    if x < TOP {
      LeadingZerosBound(2 * x);
      MulSwaps(x, 2, Pow2(LeadingZeros(2 * x)));
      MulAssociates(2, x, Pow2(LeadingZeros(2 * x)));
    }
  }

  lemma ShiftBounds(x: pos, y: pos)
    requires x < 2 * HIDDEN && y < 2 * HIDDEN
    ensures LeadingZeros(x) < 64 && TrailingZeros(y) < 24
  {
    LeadingZerosBound(x);
    PowerConstants();
    hide LeadingZeros, TrailingZeros, Pow2;
    MulMonotone(1, x, Pow2(LeadingZeros(x)));
    MulMonotone(1, OddPart(y), Pow2(TrailingZeros(y)));
    SmallExponent(LeadingZeros(x), 64);
    SmallExponent(TrailingZeros(y), 24);
  }

  lemma PowerConstants()
    ensures Pow2(64) == 2 * TOP && Pow2(24) == 2 * HIDDEN && Pow2(15) == 0x8000 && Pow2(0) == 1
  {
    SmallPowers();
    hide Pow2;
    Pow2Add(8, 7);
    Pow2Add(8, 8);
    Pow2Add(16, 8);
    Pow2Add(16, 16);
    Pow2Add(32, 32);
  }

  lemma SmallPowers()
    ensures Pow2(0) == 1 && Pow2(7) == 0x80 && Pow2(8) == 0x100
  {
  }

  lemma SmallExponent(e: nat, bound: nat)
    ensures Pow2(e) < Pow2(bound) ==> e < bound
  {
    if e >= bound {
      Pow2Monotone(bound, e);
    }
  }

  // ----- the quotient as an exact rational -----

  /** The scaled operands, at the quotient's scale, are the exact quotient. */
  lemma QuotientIsExact(a: u32, b: u32)
    requires Divisible(a, b)
    ensures RoundAt(TopAligned(NonZeroSig(a)), OddPart(NonZeroSig(b)), QuotientScale(a, b)) == RoundedQuotient(a, b)
  {
    hide RoundAt, Round, Magnitude, Significand, Scale, TopAligned, OddPart, TotalShift, IsZero, Finite;
    NonZeroSignificand(a);
    NonZeroSignificand(b);
    MagnitudePositive(b);
    ValueOf(a);
    ValueOf(b);
    ScaledQuotient(NonZeroSig(a), Scale(a), NonZeroSig(b), Scale(b), Magnitude(a), Magnitude(b));
  }

  lemma ScaledQuotient(sa: pos, ea: pos, sb: pos, eb: pos, ga: nat, gb: pos)
    requires ga == sa * Pow2(ea - 1) && gb == sb * Pow2(eb - 1)
    ensures RoundAt(TopAligned(sa), OddPart(sb), ea - eb + 149 - TotalShift(sa, sb)) == Round(ga * Pow2(149), gb)
  {
    var p, q := LeadingZeros(sa), TrailingZeros(sb);
    var e := ea - eb + 149 - p - q;
    hide RoundAt, Round, LeadingZeros, TrailingZeros, Pow2;
    RoundAtShiftNum(sa, OddPart(sb), e, p);
    RoundAtShiftDen(sa, OddPart(sb), e + p + q, q);
    RoundAtShiftDen(sa, sb, ea + 148, eb - 1);
    RoundAtShiftNum(sa, gb, 149, ea - 1);
    RoundAtShiftNum(ga, gb, 0, 149);
    RoundAtZero(ga * Pow2(149), gb);
  }

  /** What Normalize makes of the truncated quotient, and when that is right. */
  lemma QuotientRounds(a: u32, b: u32)
    requires Divisible(a, b)
    ensures var q, e := TruncatedQuotient(a, b), QuotientScale(a, b);
            && 2 * LEADING <= q < 2 * TOP
            && RoundAt(q, 1, e) <= INF
            && (RoundAt(q, 1, e) == RoundedQuotient(a, b) <==> !LosesRemainder(a, b))
  {
    NonZeroSignificand(a);
    NonZeroSignificand(b);
    QuotientIsExact(a, b);
    var sa, sb, e := NonZeroSig(a), NonZeroSig(b), QuotientScale(a, b);
    hide NonZeroSig, QuotientScale, RoundAt, RoundedQuotient, LeadingZeros, TopAligned, OddPart, TiesDown, LooksTied;
    LeadingZerosBound(sa);
    LongQuotient(TopAligned(sa), OddPart(sb));
    TruncationRounds(TopAligned(sa), OddPart(sb), e);
    TiesShowInBits(TopAligned(sa) / OddPart(sb), e);
  }

  lemma LongQuotient(x: pos, y: pos)
    requires TOP <= x < 2 * TOP && y < 2 * HIDDEN
    ensures LONG <= x / y < 2 * TOP
  {
    DivisionBounds(x, y);
    if x / y < LONG {
      MulMonotone(x / y + 1, LONG, y);
    } else {
      MulMonotone(1, y, x / y);
    }
  }

  const LONG: nat := 0x80_0000_0000

  lemma DivisionBounds(x: nat, y: pos)
    ensures (x / y) * y + x % y == x && (x / y + 1) * y > x
  {
    MulDistributes(x / y, 1, y);
  }

  // ----- truncation and rounding boundaries -----

  /** Below a quotient this long, half a unit in the last place is a whole, even number of
      quotient units. */
  lemma CellInUnits(q: nat, e: int, m: nat) returns (c: nat, l: nat)
    requires q >= LONG && m < INF && Brackets(q * Up(e), Down(e), m)
    ensures Grid(m) == c * Ulp(m) && Grid(m + 1) == (c + 1) * Ulp(m)
    ensures Ulp(m) * Down(e) == 2 * l * Up(e) && l >= 0x8000
    ensures UlpExponent(m) > e && l == Pow2(UlpExponent(m) - e - 1)
    ensures c % 2 == m % 2 && if m < HIDDEN then c < HIDDEN else HIDDEN <= c < 2 * HIDDEN
  {
    var s, r := UlpExponent(m) + (if e < 0 then -e else 0), if e > 0 then e else 0;
    c := GridCells(m);
    assert Up(e) == Pow2(r) && Ulp(m) * Down(e) == Pow2(s) by {
      hide Ulp, UlpExponent, Grid;
      Pow2Add(UlpExponent(m), if e < 0 then -e else 0);
      assert Pow2(0) == 1;
    }
    LongCell(q, Up(e), Down(e), c, Ulp(m), Grid(m + 1));
    hide Grid, Ulp, Up, Down, UlpExponent;
    l := HalfPower(s, r);
  }

  lemma LongCell(q: nat, u: pos, w: pos, c: nat, ulp: pos, g: nat)
    requires q >= LONG && q * u < g * w && g == (c + 1) * ulp && c + 1 <= 2 * HIDDEN
    ensures ulp * w > 0x8000 * u
  {
    MulMonotone(LONG, q, u);
    MulAssociates(c + 1, ulp, w);
    MulMonotone(c + 1, 2 * HIDDEN, ulp * w);
  }

  lemma HalfPower(s: nat, r: nat) returns (l: nat)
    requires Pow2(s) > 0x8000 * Pow2(r)
    ensures Pow2(s) == 2 * l * Pow2(r) && l >= 0x8000
    ensures s > r && l == Pow2(s - r - 1)
  {
    PowerConstants();
    Pow2Add(15, r);
    if s < 16 + r {
      Pow2Monotone(s, 15 + r);
    }
    l := Pow2(s - r - 1);
    assert Pow2(s) == 2 * Pow2(s - 1);
    hide Pow2;
    Pow2Add(s - r - 1, r);
    Pow2Monotone(15, s - r - 1);
    MulAssociates(2, l, Pow2(r));
  }

  function UlpExponent(m: nat): nat
  {
    if m / HIDDEN == 0 then 0 else m / HIDDEN - 1
  }

  lemma GridCells(m: nat) returns (c: nat)
    ensures Grid(m) == c * Ulp(m) && Grid(m + 1) == (c + 1) * Ulp(m) && c + 1 <= 2 * HIDDEN
    ensures Ulp(m) == Pow2(UlpExponent(m))
    ensures c % 2 == m % 2 && if m < HIDDEN then c < HIDDEN else c >= HIDDEN
  {
    c := if m / HIDDEN == 0 then m % HIDDEN else HIDDEN + m % HIDDEN;
    GridStep(m);
    MulDistributes(c, 1, Ulp(m));
  }

  // ----- ties in the bits of the quotient -----

  lemma {:induction false} BitLengthBounds(q: nat)
    requires q > 0
    ensures BitLength(q) > 0 && Pow2(BitLength(q) - 1) <= q < Pow2(BitLength(q))
    decreases q
  {
    if q > 1 {
      BitLengthBounds(q / 2);
    }
  }

  lemma BitLengthIs(q: nat, n: nat)
    requires q > 0 && q < Pow2(n)
    ensures BitLength(q) <= n
    ensures n > 0 && Pow2(n - 1) <= q ==> BitLength(q) == n
  {
    BitLengthBounds(q);
    var b := BitLength(q);
    hide BitLength, Pow2;
    if n < b {
      Pow2Monotone(n, b - 1);
    }
    if n > b {
      Pow2Monotone(b, n - 1);
    }
  }

  /** The tie of the real numbers is the bit test on the quotient. */
  lemma TiesShowInBits(q: nat, e: int)
    requires q >= LONG
    ensures TiesDown(q, e) <==> LooksTied(q, e)
  {
    hide Grid, Ulp, Up, Down, Pow2, BitLength;
    var m := Below(q * Up(e), Down(e));
    if m == INF {
      LongPastInfinity(q, e);
    } else {
      var c, l := CellInUnits(q, e, m);
      QuotientInCell(q, e, m, c, l);
      CellBits(q, e, m, c, l);
      DivisionIs(q, 2 * l, c, q - c * (2 * l));
    }
  }

  lemma LongPastInfinity(q: nat, e: int)
    requires q > 0 && Grid(INF) * Down(e) <= q * Up(e)
    ensures BitLength(q) + e > 277
  {
    BitLengthBounds(q);
    var n, r, s := BitLength(q), if e > 0 then e else 0, if e < 0 then -e else 0;
    assert Up(e) == Pow2(r) && Down(e) == Pow2(s) by {
      assert Pow2(0) == 1;
    }
    InfinityInUnits(277);
    hide BitLength, Grid, Up, Down, Pow2;
    Pow2Add(277, s);
    Pow2Add(n, r);
    MulStrict(q, Pow2(n), Pow2(r));
    SmallExponent(277 + s, n + r);
  }

  lemma InfinityInUnits(n: nat)
    requires n == 277
    ensures Grid(INF) == Pow2(n)
  {
    PowerConstants();
    assert Pow2(24) == 2 * Pow2(23);
    hide Pow2;
    Pow2Add(23, n - 23);
  }

  /** Quotient, cell and tie in quotient units. */
  lemma QuotientInCell(q: nat, e: int, m: nat, c: nat, l: nat)
    requires m < INF && Brackets(q * Up(e), Down(e), m)
    requires Grid(m) == c * Ulp(m) && Grid(m + 1) == (c + 1) * Ulp(m) && Ulp(m) * Down(e) == 2 * l * Up(e)
    ensures c * (2 * l) <= q < (c + 1) * (2 * l)
    ensures 2 * (q * Up(e)) == (Grid(m) + Grid(m + 1)) * Down(e) <==> q == c * (2 * l) + l
  {
    var u, w, ulp := Up(e), Down(e), Ulp(m);
    hide Grid, Ulp, Up, Down;
    MulAssociates(c, ulp, w);
    MulAssociates(c, 2 * l, u);
    MulAssociates(c + 1, ulp, w);
    MulAssociates(c + 1, 2 * l, u);
    CompareTimes(q, c * (2 * l), u);
    CompareTimes(q, (c + 1) * (2 * l), u);
    MulDistributes(Grid(m), Grid(m + 1), w);
    MulDistributes(c * (2 * l), (c + 1) * (2 * l), u);
    MulDistributes(c, 1, 2 * l);
    MulAssociates(2, q, u);
    CompareTimes(2 * q, c * (2 * l) + (c + 1) * (2 * l), u);
  }

  lemma CellBits(q: nat, e: int, m: nat, c: nat, l: nat)
    requires q > 0 && m < INF && c * (2 * l) <= q < (c + 1) * (2 * l)
    requires UlpExponent(m) > e && l == Pow2(UlpExponent(m) - e - 1)
    requires if m < HIDDEN then c < HIDDEN else HIDDEN <= c < 2 * HIDDEN
    ensures DroppedBits(q, e) == UlpExponent(m) - e && Pow2(UlpExponent(m) - e) == 2 * l
    ensures BitLength(q) + e <= 277
  {
    var k := UlpExponent(m) - e;
    assert Pow2(k) == 2 * l;
    PowerConstants();
    assert Pow2(24) == 2 * Pow2(23);
    hide Pow2, BitLength;
    Pow2Add(23, k);
    Pow2Add(24, k);
    if m < HIDDEN {
      MulMonotone(c + 1, HIDDEN, 2 * l);
      BitLengthIs(q, 23 + k);
    } else {
      MulMonotone(HIDDEN, c, 2 * l);
      MulMonotone(c + 1, 2 * HIDDEN, 2 * l);
      BitLengthIs(q, 24 + k);
    }
  }

  /** A boundary of k quotient units compares with the exact quotient x/y as k does with
      the truncated quotient, unless the truncated quotient is equal to it. */
  lemma BoundaryInUnits(x: nat, y: pos, k: nat, u: pos)
    ensures var q := x / y;
            && (k < q <==> k * u < q * u) && (k == q <==> k * u == q * u)
            && (q < k ==> x * u < (k * y) * u)
            && (k <= q ==> (k * y) * u <= x * u)
            && (k < q ==> (k * y) * u < x * u)
            && (k == q ==> ((k * y) * u == x * u <==> x % y == 0))
  {
    var q := x / y;
    DivisionBounds(x, y);
    CompareTimes(k, q, u);
    CompareTimes(k * y, x, u);
    if q < k {
      MulMonotone(q + 1, k, y);
    } else if k < q {
      MulStrict(k, q, y);
    }
  }

  lemma CompareTimes(a: nat, b: nat, u: pos)
    ensures (a < b <==> a * u < b * u) && (a == b <==> a * u == b * u)
  {
    if a < b {
      MulStrict(a, b, u);
    } else if b < a {
      MulStrict(b, a, u);
    }
  }

  lemma BoundaryTimes(g: nat, w: pos, k: nat, u: pos, y: pos)
    requires g * w == k * u
    ensures g * (y * w) == (k * y) * u
  {
    MulSwaps(g, y, w);
    MulAssociates(y, k, u);
    MulCommutes(y, k);
  }

  /** Truncating the quotient changes the rounding exactly when it hides the remainder of
      a quotient just above a midpoint whose lower neighbour is even. */
  lemma TruncationRounds(x: pos, y: pos, e: int)
    requires x / y >= LONG
    ensures var q := Quotient(x, y);
            && RoundAt(q, 1, e) <= INF
            && (RoundAt(q, 1, e) == RoundAt(x, y, e) <==> !(Remainder(x, y) != 0 && TiesDown(q, e)))
  {
    hide Up, Down, Ulp, Grid, Round;
    var q, u, w := x / y, Up(e), Down(e);
    var m := Below(q * u, w);
    RoundInRange(q * u, w);
    if m == INF {
      RoundFromBracket(q * u, w, m);
      TruncatedInfinity(x, y, u, w);
      RoundOverflows(x * u, y * w);
    } else {
      var c, l := CellInUnits(q, e, m);
      TruncatedInCell(x, y, u, w, m, c, l, Ulp(m));
    }
  }

  lemma TruncatedInfinity(x: pos, y: pos, u: pos, w: pos)
    requires Grid(INF) * w <= (x / y) * u
    ensures Grid(INF) * (y * w) <= x * u
  {
    var q := x / y;
    hide Grid;
    DivisionBounds(x, y);
    MulMonotone(Grid(INF) * w, q * u, y);
    MulMonotone(q * y, x, u);
    MulSwaps(Grid(INF), y, w);
    MulSwaps(y, q, u);
    MulAssociates(q, y, u);
    MulCommutes(y, Grid(INF) * w);
    MulCommutes(y, q * u);
  }

  lemma TruncatedInCell(x: pos, y: pos, u: pos, w: pos, m: nat, c: nat, l: nat, ulp: pos)
    requires m < INF && Brackets((x / y) * u, w, m)
    requires Grid(m) == c * ulp && Grid(m + 1) == (c + 1) * ulp && ulp * w == 2 * l * u
    ensures Brackets(x * u, y * w, m)
    ensures var q, tie := x / y, 2 * ((x / y) * u) == (Grid(m) + Grid(m + 1)) * w;
            Round(q * u, w) == Round(x * u, y * w) <==> !(x % y != 0 && m % 2 == 0 && tie)
  {
    hide Grid, Round;
    CellBoundaries(c, l, ulp, w, u);
    TruncatedBrackets(x, y, u, w, m, c * (2 * l), (c + 1) * (2 * l));
    TruncatedMidpoint(x, y, u, w, Grid(m) + Grid(m + 1), (2 * c + 1) * l);
    hide Brackets;
    RoundsAgree((x / y) * u, w, x * u, y * w, m);
  }

  lemma TruncatedBrackets(x: pos, y: pos, u: pos, w: pos, m: nat, k0: nat, k1: nat)
    requires m < INF && Brackets((x / y) * u, w, m)
    requires Grid(m) * w == k0 * u && Grid(m + 1) * w == k1 * u
    ensures Brackets(x * u, y * w, m)
  {
    hide Grid;
    BoundaryTimes(Grid(m), w, k0, u, y);
    BoundaryTimes(Grid(m + 1), w, k1, u, y);
    BoundaryInUnits(x, y, k0, u);
    BoundaryInUnits(x, y, k1, u);
  }

  lemma TruncatedMidpoint(x: pos, y: pos, u: pos, w: pos, g: nat, h: nat)
    requires g * w == 2 * (h * u)
    ensures var s1, s2 := 2 * ((x / y) * u) - g * w, 2 * (x * u) - g * (y * w);
            && (s1 < 0 ==> s2 < 0) && (s1 > 0 ==> s2 > 0)
            && (s1 == 0 ==> s2 >= 0 && (s2 == 0 <==> x % y == 0))
  {
    MidpointTimes(g, w, h, u, y);
    BoundaryInUnits(x, y, h, u);
  }

  /** Two values in the same cell and on corresponding sides of its midpoint round alike,
      except that only one of them may be a tie. */
  lemma RoundsAgree(n1: nat, d1: pos, n2: nat, d2: pos, m: nat)
    requires m < INF && Brackets(n1, d1, m) && Brackets(n2, d2, m)
    requires var s1, s2 := 2 * n1 - (Grid(m) + Grid(m + 1)) * d1, 2 * n2 - (Grid(m) + Grid(m + 1)) * d2;
             (s1 < 0 ==> s2 < 0) && (s1 > 0 ==> s2 > 0) && (s1 == 0 ==> s2 >= 0)
    ensures var s1, s2 := 2 * n1 - (Grid(m) + Grid(m + 1)) * d1, 2 * n2 - (Grid(m) + Grid(m + 1)) * d2;
            Round(n1, d1) == Round(n2, d2) <==> !(s1 == 0 && s2 != 0 && m % 2 == 0)
  {
    hide Grid, Round, Brackets;
    RoundFromBracket(n1, d1, m);
    RoundFromBracket(n2, d2, m);
  }

  lemma MidpointTimes(g: nat, w: pos, h: nat, u: pos, y: pos)
    requires g * w == 2 * (h * u)
    ensures g * (y * w) == 2 * ((h * y) * u)
  {
    MulSwaps(g, y, w);
    MulSwaps(y, 2, h * u);
    MulAssociates(y, h, u);
    MulCommutes(y, h);
  }

  lemma CellBoundaries(c: nat, l: nat, ulp: pos, w: pos, u: pos)
    requires ulp * w == 2 * l * u
    ensures (c * ulp) * w == (c * (2 * l)) * u
    ensures ((c + 1) * ulp) * w == ((c + 1) * (2 * l)) * u
    ensures (c * ulp + (c + 1) * ulp) * w == 2 * (((2 * c + 1) * l) * u)
  {
    TimesUlp(c, l, ulp, w, u);
    TimesUlp(c + 1, l, ulp, w, u);
    TimesUlp(2 * c + 1, l, ulp, w, u);
    MulDistributes(c, c + 1, ulp);
    MulSwaps(2 * c + 1, 2, l);
    MulAssociates(2, (2 * c + 1) * l, u);
  }

  lemma TimesUlp(c: nat, l: nat, ulp: pos, w: pos, u: pos)
    requires ulp * w == 2 * l * u
    ensures (c * ulp) * w == (c * (2 * l)) * u
  {
    MulAssociates(c, ulp, w);
    MulAssociates(c, 2 * l, u);
  }

  // ----- how far off the quotient can be -----

  /** The error of the rounded truncated quotient, in parts of y*w: at most half a unit in
      the last place and 2^-16 of one. */
  lemma TruncationError(x: pos, y: pos, e: int, m: nat)
    requires x / y >= LONG && m < INF && Brackets(x * Up(e), y * Down(e), m)
    ensures WithinBound(RoundAt(x / y, 1, e), x * Up(e), y * Down(e), m)
  {
    hide Up, Down, Ulp, Grid, Round, WithinBound;
    var q, u, w := x / y, Up(e), Down(e);
    var m' := Below(q * u, w);
    if m' == INF {
      TruncatedInfinity(x, y, u, w);
      BracketUnique(x * u, y * w, m, INF);
    } else {
      var c, l := CellInUnits(q, e, m');
      TruncatedInCell(x, y, u, w, m', c, l, Ulp(m'));
      BracketUnique(x * u, y * w, m, m');
      ErrorInCell(x, y, u, w, m, l);
    }
  }

  lemma ErrorInCell(x: pos, y: pos, u: pos, w: pos, m: nat, l: nat)
    requires m < INF && Brackets((x / y) * u, w, m) && Brackets(x * u, y * w, m)
    requires Ulp(m) * w == 2 * l * u && l >= 0x8000
    ensures WithinBound(Round((x / y) * u, w), x * u, y * w, m)
  {
    var q, ulp := x / y, Ulp(m);
    CellInParts(m, y * w);
    WideUlp(ulp, y, w, l, u);
    hide Grid, Ulp, Round;
    TruncationGap(x, y, u, w, Grid(m) + Grid(m + 1));
    RoundFromBracket(q * u, w, m);
    HalfAndABit(x * u, Grid(m) * (y * w), ulp * (y * w), y * u);
  }

  lemma CellInParts(m: nat, p: pos)
    ensures Grid(m + 1) * p == Grid(m) * p + Ulp(m) * p
    ensures (Grid(m) + Grid(m + 1)) * p == 2 * (Grid(m) * p) + Ulp(m) * p
  {
    GridStep(m);
    hide Grid, Ulp;
    MulDistributes(Grid(m), Ulp(m), p);
    MulDistributes(Grid(m), Grid(m + 1), p);
  }

  lemma WideUlp(ulp: pos, y: pos, w: pos, l: nat, u: pos)
    requires ulp * w == 2 * l * u && l >= 0x8000
    ensures ulp * (y * w) >= 0x1_0000 * (y * u)
  {
    MulSwaps(ulp, y, w);
    MulSwaps(y, 2 * l, u);
    MulMonotone(0x1_0000, 2 * l, y * u);
  }

  lemma HalfAndABit(n: int, below: int, ulp: nat, unit: nat)
    requires below <= n < below + ulp && 0x1_0000 * unit <= ulp
    ensures 2 * n - (2 * below + ulp) < 2 * unit ==> 0x1_0000 * (n - below) <= 0x8001 * ulp
    ensures 2 * n - (2 * below + ulp) >= 0 ==> 0x1_0000 * (below + ulp - n) <= 0x8001 * ulp
  {
  }

  /** The exact quotient exceeds the truncated one by less than one quotient unit. */
  lemma TruncationGap(x: pos, y: pos, u: pos, w: pos, g: nat)
    ensures var s1, s2 := 2 * ((x / y) * u) - g * w, 2 * (x * u) - g * (y * w);
            (s1 >= 0 ==> s2 >= 0) && (s1 <= 0 ==> s2 < 2 * (y * u))
  {
    var q := x / y;
    DivisionBounds(x, y);
    MulMonotone(q * y, x, u);
    MulMonotone(x, (q + 1) * y, u);
    MulSwaps(y, q, u);
    MulAssociates(q, y, u);
    MulSwaps(g, y, w);
    var s1 := 2 * (q * u) - g * w;
    SignOf(s1, y);
    assert y * s1 == 2 * (y * (q * u)) - y * (g * w);
    MulDistributes(q, 1, y);
    MulDistributes(q * y, y, u);
    MulStrict(x, (q + 1) * y, u);
  }

  lemma SignOf(s: int, y: pos)
    ensures (s >= 0 ==> y * s >= 0) && (s <= 0 ==> y * s <= 0)
  {
  }

  /** Whatever remainder is dropped, the result is close to a/b. */
  lemma DivisionErrorBound(a: u32, b: u32)
    requires Divisible(a, b)
    ensures IsCloseQuotient(a, b, RoundAt(TruncatedQuotient(a, b), 1, QuotientScale(a, b)))
  {
    hide RoundAt, Magnitude, Significand, Scale, WithinBound, Brackets, LeadingZeros, Fraction, Exponent;
    NonZeroSignificand(a);
    NonZeroSignificand(b);
    MagnitudePositive(b);
    ValueOf(a);
    ValueOf(b);
    var m := Below(ExactDividend(a), Magnitude(b));
    if m < INF {
      var sa, sb, e := NonZeroSig(a), NonZeroSig(b), QuotientScale(a, b);
      LeadingZerosBound(sa);
      LongQuotient(TopAligned(sa), OddPart(sb));
      SameRatio(sa, Scale(a), sb, Scale(b), Magnitude(a), Magnitude(b), e);
      hide TopAligned, OddPart, QuotientScale, NonZeroSig, ExactDividend;
      BoundByRatio(TopAligned(sa), OddPart(sb), e, ExactDividend(a), Magnitude(b), m);
    }
  }

  lemma BoundByRatio(x: pos, y: pos, e: int, n: nat, d: pos, m: nat)
    requires (x * Up(e)) * d == (y * Down(e)) * n && x / y >= LONG
    requires m < INF && Brackets(n, d, m)
    ensures WithinBound(RoundAt(x / y, 1, e), n, d, m)
  {
    hide Up, Down, RoundAt, WithinBound, Brackets;
    RatioBrackets(x * Up(e), y * Down(e), n, d, m);
    TruncationError(x, y, e, m);
    RatioBound(RoundAt(x / y, 1, e), x * Up(e), y * Down(e), n, d, m);
  }

  lemma SameRatio(sa: pos, ea: pos, sb: pos, eb: pos, ga: nat, gb: pos, e: int)
    requires ga == sa * Pow2(ea - 1) && gb == sb * Pow2(eb - 1)
    requires e == ea - eb + 149 - TotalShift(sa, sb)
    ensures (TopAligned(sa) * Up(e)) * gb == (OddPart(sb) * Down(e)) * (ga * Pow2(149))
  {
    hide LeadingZeros, TrailingZeros;
    var p, q, r, s := LeadingZeros(sa), TrailingZeros(sb), if e > 0 then e else 0, if e < 0 then -e else 0;
    assert Pow2(0) == 1;
    hide Pow2;
    assert Up(e) == Pow2(r) && Down(e) == Pow2(s);
    assert Pow2(p) * (Pow2(r) * (Pow2(q) * Pow2(eb - 1))) == Pow2(s) * (Pow2(ea - 1) * Pow2(149)) by {
      Pow2Add(q, eb - 1);
      Pow2Add(r, q + (eb - 1));
      Pow2Add(p, r + (q + (eb - 1)));
      Pow2Add(ea - 1, 149);
      Pow2Add(s, ea - 1 + 149);
    }
    Regroup(sa, Pow2(p), Pow2(r), OddPart(sb), Pow2(q), Pow2(eb - 1), Pow2(s), Pow2(ea - 1), Pow2(149));
  }

  lemma Regroup(x: pos, p: pos, r: pos, y: pos, q: pos, b: pos, s: pos, a: pos, k: pos)
    requires p * (r * (q * b)) == s * (a * k)
    ensures ((x * p) * r) * ((y * q) * b) == (y * s) * ((x * a) * k)
  {
    assert (x * y) * (p * (r * (q * b))) == (x * y) * (s * (a * k));
    assert ((x * p) * r) * ((y * q) * b) == (x * y) * (p * (r * (q * b)));
    assert (y * s) * ((x * a) * k) == (x * y) * (s * (a * k));
  }

  lemma RatioBrackets(n1: nat, d1: pos, n2: nat, d2: pos, m: nat)
    requires n1 * d2 == d1 * n2 && Brackets(n2, d2, m)
    ensures Brackets(n1, d1, m)
  {
    hide Grid;
    RatioCompare(n1, d1, n2, d2, Grid(m));
    RatioCompare(n1, d1, n2, d2, Grid(m + 1));
  }

  lemma RatioCompare(n1: nat, d1: pos, n2: nat, d2: pos, g: nat)
    requires n1 * d2 == d1 * n2
    ensures g * d1 <= n1 <==> g * d2 <= n2
    ensures Abs(n1 - g * d1) * d2 == Abs(n2 - g * d2) * d1
  {
    CompareTimes(n1, g * d1, d2);
    CompareTimes(n2, g * d2, d1);
    MulAssociates(g, d1, d2);
    MulAssociates(g, d2, d1);
    MulCommutes(d1, d2);
    MulCommutes(n2, d1);
    MulDistributes(n1, -(g * d1), d2);
    MulDistributes(n2, -(g * d2), d1);
    MulSigns(g * d1, d2);
    MulSigns(g * d2, d1);
    MulSigns(n1 - g * d1, d2);
    MulSigns(n2 - g * d2, d1);
  }

  lemma RatioBound(k: nat, n1: nat, d1: pos, n2: nat, d2: pos, m: nat)
    requires n1 * d2 == d1 * n2 && WithinBound(k, n1, d1, m)
    ensures WithinBound(k, n2, d2, m)
  {
    hide Grid, Ulp;
    RatioCompare(n1, d1, n2, d2, Grid(k));
    var t1, t2, ulp := Distance(n1, d1, k), Distance(n2, d2, k), Ulp(m);
    MulMonotone(0x1_0000 * t1, 0x8001 * (ulp * d1), d2);
    MulAssociates(0x1_0000, t1, d2);
    MulAssociates(0x1_0000, t2, d1);
    MulAssociates(0x8001, ulp * d1, d2);
    MulAssociates(0x8001, ulp * d2, d1);
    MulAssociates(ulp, d1, d2);
    MulAssociates(ulp, d2, d1);
    MulCommutes(d1, d2);
    CompareTimes(0x8001 * (ulp * d2), 0x1_0000 * t2, d1);
  }

  /** Without a remainder the result is correctly rounded. */
  lemma ExactDivisionIsRight(a: u32, b: u32)
    requires Divisible(a, b) && DividesExactly(NonZeroSig(a), NonZeroSig(b))
    ensures RoundAt(TruncatedQuotient(a, b), 1, QuotientScale(a, b)) == RoundedQuotient(a, b)
  {
    QuotientRounds(a, b);
    hide RoundAt, RoundedQuotient, TruncatedQuotient, QuotientScale;
  }

  /** A concrete pair for which the remainder is lost: with significands 2^23 + 49 and
      2^23 + 1473 the truncated quotient is the odd half 16774368.5, times 2^16. */
  lemma LostRemainderExample()
    ensures LosesRemainder(0x3f80_0031, 0x3f80_05c1)
  {
    hide LooksTied, BitLength, Pow2;
    TopAlignedExample(40);
    assert OddPart(0x80_05c1) == 0x80_05c1 && TrailingZeros(0x80_05c1) == 0;
    assert NonZeroSig(0x3f80_0031) == 0x80_0031 && NonZeroSig(0x3f80_05c1) == 0x80_05c1;
    BitsExample(1099325014016, 109);
  }

  lemma BitsExample(q: nat, e: int)
    requires q == 1099325014016 && e == 109
    ensures LooksTied(q, e)
  {
    TieExample(e);
    hide LooksTied, TiesDown;
    TiesShowInBits(q, e);
  }

  lemma TopAlignedExample(k: nat)
    requires k == 40
    ensures LeadingZeros(0x80_0031) == k && TopAligned(0x80_0031) == 0x80_05c1 * 1099325014016 + 4161536
  {
    SmallPowers();
    hide Pow2, LeadingZeros;
    Pow2Add(8, 8);
    Pow2Add(16, 16);
    Pow2Add(32, k - 32);
    LeadingZerosBound(0x80_0031);
    OnlyOneShift(0x80_0031, LeadingZeros(0x80_0031), k);
    OnlyOneShift(0x80_0031, k, LeadingZeros(0x80_0031));
  }

  lemma OnlyOneShift(x: pos, j: nat, k: nat)
    requires TOP <= x * Pow2(j) && x * Pow2(k) < 2 * TOP
    ensures k <= j
  {
    if j < k {
      Pow2Monotone(j + 1, k);
      assert Pow2(j + 1) == 2 * Pow2(j);
      hide Pow2;
      MulMonotone(2 * Pow2(j), Pow2(k), x);
      MulAssociates(2, Pow2(j), x);
      MulCommutes(Pow2(j), x);
      MulCommutes(Pow2(k), x);
    }
  }

  lemma TieExample(e: int)
    requires e == 109
    ensures TiesDown(1099325014016, e)
  {
    var p := GridExample(e);
    TieAt(e, p, 0x1_0000 * p, 125 * HIDDEN + 16774368);
  }

  lemma GridExample(e: nat) returns (p: pos)
    requires e == 109
    ensures p == Pow2(e)
    ensures var m, ulp := 125 * HIDDEN + 16774368, 0x1_0000 * p;
            Grid(m) == 16774368 * ulp && Grid(m + 1) == Grid(m) + ulp
  {
    p := Pow2(e);
    SmallPowers();
    hide Grid, Pow2, Ulp;
    GridInBinade(e + 17, 16774368);
    GridStep(125 * HIDDEN + 16774368);
    Pow2Add(16, e);
    Pow2Add(8, 8);
  }

  lemma TieAt(e: int, p: pos, ulp: pos, m: nat)
    requires ulp == 0x1_0000 * p && e > 0 && p == Pow2(e)
    requires m < INF && m % 2 == 0 && Grid(m) == 16774368 * ulp && Grid(m + 1) == Grid(m) + ulp
    ensures TiesDown(1099325014016, e)
  {
    hide Grid, Pow2;
    assert Brackets(1099325014016 * p, 1, m);
    BracketUnique(1099325014016 * p, 1, m, Below(1099325014016 * p, 1));
  }
}
