/** internal_float_add and internal_float_sub. */
module SoftFloatAdd {
  import opened MachineInts
  import opened Ieee754
  import opened Normalization
  import opened FloatOperands

  /** The single nearest to v units, ties to even; an exact zero is +0. */
  ghost function RoundSigned(v: int): u32 { RoundRatio(v, 1) }

  // ----- alignment -----

  /** sig is sig0 shifted right, sticky: exactly so while only guard bits are used up, and
      with at least three leading zeros afterwards. */
  ghost predicate Aligned(sig: nat, sig0: nat, shift: nat)
  {
    && StandsFor(sig, sig0, Pow2(shift))
    && (if shift <= 3 then sig0 == sig * Pow2(shift) else sig <= LEADING / 8)
  }

  /** s, or -s, is a sum fit for Normalize: sticky for n/d, with bits lost only below a
      leading one in one of the top two places. */
  ghost predicate StickySum(s: int, n: nat, d: pos)
  {
    StandsFor(Abs(s), n, d) && (n == Abs(s) * d || Abs(s) >= LEADING / 2)
  }

  method Align(sig0: u32, shift0: nat) returns (sig: u32)
    requires sig0 % 8 == 0 && sig0 < 2 * LEADING
    ensures Aligned(sig, sig0, shift0) && sig < 2 * LEADING
  {
    sig := sig0;
    var shift, sticky := shift0, 0;
    assert StandsFor(sig, sig0, Pow2(0));
    hide StandsFor, AlignedSoFar;
    ghost var done, f := 0, sig0 / 8;
    AlignedStart(sig0, f);
    while shift > 0
      invariant shift + done == shift0
      invariant 0 <= sticky < 2 && (sticky == 1 ==> sig % 2 == 1)
      invariant StandsFor(sig, sig0, Pow2(done))
      invariant AlignedSoFar(done, sig, f)
      decreases shift
    {
      StickyShift(sig, sig0, Pow2(done));
      AlignedStep(done, sig, f);
      sticky := if sticky == 1 || sig % 2 == 1 then 1 else 0;
      sig := sig / 2;
      sig := OrBit(sig, sticky);
      shift := shift - 1;
      done := done + 1;
    }
    AlignedEnd(done, sig, f);
  }

  lemma AlignedStart(sig: nat, f: nat)
    requires sig == 8 * f
    ensures AlignedSoFar(0, sig, f)
  {
  }

  lemma AlignedStep(done: nat, sig: nat, f: nat)
    requires AlignedSoFar(done, sig, f) && f < 2 * HIDDEN
    ensures AlignedSoFar(done + 1, OrBit(sig / 2, sig % 2), f)
  {
  }

  lemma AlignedEnd(done: nat, sig: nat, f: nat)
    requires AlignedSoFar(done, sig, f) && f < 2 * HIDDEN
    ensures done <= 3 ==> 8 * f == sig * Pow2(done)
    ensures sig < 2 * LEADING && (done > 3 ==> sig <= LEADING / 8)
  {
    assert Pow2(3) == 2 * Pow2(2) == 4 * Pow2(1) == 8;
  }

  /** The first three shifts only use up the empty guard bits. */
  ghost predicate AlignedSoFar(done: nat, sig: nat, f: nat)
  {
    if done == 0 then sig == 8 * f
    else if done == 1 then sig == 4 * f
    else if done == 2 then sig == 2 * f
    else if done == 3 then sig == f
    else sig <= LEADING / 8
  }

  // ----- two's-complement fraction add -----

  function Negated(x: u32): u32 { Wrap32(-(x as int)) }

  function Signed(s: bit, x: int): int { if s == 1 then -x else x }

  method AddFractions(signA: bit, sigA0: u32, signB: bit, sigB0: u32) returns (sign: bit, sig: u32)
    requires sigA0 < 2 * LEADING && sigB0 < 2 * LEADING
    ensures var s := Signed(signA, sigA0) + Signed(signB, sigB0);
            sig == Abs(s) && (sign == 1 <==> s < 0)
  {
    var sigA, sigB := sigA0, sigB0;
    if signA == 1 {
      sigA := Negated(sigA);
    }
    if signB == 1 {
      sigB := Negated(sigB);
    }
    sig := Wrap32(sigA as int + sigB);
    if sig / 0x8000_0000 == 1 {
      sign := 1;
      sig := Negated(sig);
    } else {
      sign := 0;
    }
  }

  /** Adding an exact multiple of 8 to a sticky significand gives a sticky sum. */
  lemma SumStandsFor(signA: bit, sigA: nat, nA: nat, signB: bit, sigB: nat, d: pos)
    requires StandsFor(sigA, nA, d) && sigB % 8 == 0
    ensures var s, n := Signed(signA, sigA) + Signed(signB, sigB), Signed(signA, nA) + Signed(signB, sigB * d);
            (s < 0 ==> n < 0) && (s >= 0 ==> n >= 0) && StandsFor(Abs(s), Abs(n), d)
            && (nA == sigA * d ==> Abs(n) == Abs(s) * d)
  {
    var s, n := Signed(signA, sigA) + Signed(signB, sigB), Signed(signA, nA) + Signed(signB, sigB * d);
    assert s * d == Signed(signA, sigA * d) + Signed(signB, sigB * d) by {
      SignedTimes(signA, sigA, d);
      SignedTimes(signB, sigB, d);
      MulDistributes(Signed(signA, sigA), Signed(signB, sigB), d);
    }
    MulSigns(s, d);
    SignOfProduct(s, d);
    StandsForByDistance(sigA, nA, d);
    OddSum(signA, sigA, signB, sigB);
    SumByDistance(signA, sigA, sigA * d, nA, signB, sigB, sigB * d, d, s * d);
    StandsForByDistance(Abs(s), Abs(n), d);
  }

  lemma OddSum(signA: bit, sigA: nat, signB: bit, sigB: nat)
    requires sigB % 8 == 0
    ensures sigA % 2 == 1 ==> Abs(Signed(signA, sigA) + Signed(signB, sigB)) % 2 == 1
  {
    var k, h := sigA / 2, sigB / 8;
    var j := Signed(signA, if signA == 1 then k + 1 else k) + Signed(signB, 4 * h);
    var s := Signed(signA, sigA) + Signed(signB, sigB);
    if sigA % 2 == 1 {
      assert sigA == 2 * k + 1 && sigB == 8 * h;
      OddIs(s, j);
      OddIs(-s, -j - 1);
    }
  }

  lemma OddIs(x: int, j: int)
    ensures x == 2 * j + 1 ==> x % 2 == 1
  {
  }

  lemma SumByDistance(signA: bit, sigA: nat, pa: int, nA: nat, signB: bit, sigB: nat, pb: int, d: pos, ps: int)
    requires nA == pa || (Abs(Signed(signA, sigA) + Signed(signB, sigB)) % 2 == 1 && pa - d < nA < pa + d)
    requires ps == Signed(signA, pa) + Signed(signB, pb)
    requires var s := Signed(signA, sigA) + Signed(signB, sigB);
             (s > 0 ==> ps >= d) && (s == 0 ==> ps == 0) && (s < 0 ==> ps + d <= 0)
    ensures var s, n := Signed(signA, sigA) + Signed(signB, sigB), Signed(signA, nA) + Signed(signB, pb);
            && (s < 0 ==> n < 0) && (s >= 0 ==> n >= 0)
            && var p := if s < 0 then -ps else ps;
               && (Abs(n) == p || (Abs(s) % 2 == 1 && p - d < Abs(n) < p + d))
               && (nA == pa ==> Abs(n) == p)
  {
  }

  lemma StandsForByDistance(sig: int, n: int, d: pos)
    ensures StandsFor(sig, n, d) <==> n == sig * d || (sig % 2 == 1 && sig * d - d < n < sig * d + d)
  {
    MulDistributes(sig, 1, d);
    MulDistributes(sig, -1, d);
  }

  lemma SignedTimes(sign: bit, x: int, d: pos)
    ensures Signed(sign, x * d) == Signed(sign, x) * d
  {
    MulSigns(x, d);
  }

  lemma SignOfProduct(s: int, d: pos)
    ensures s > 0 ==> s * d >= d
    ensures s == 0 ==> s * d == 0
    ensures s < 0 ==> s * d + d <= 0
  {
  }

  // ----- the value of the aligned sum -----

  /** The value, in units of 2^-149, of a significand at a biased exponent. */
  ghost function Weighted(s: bit, sig: nat, e: pos): int
  {
    Signed(s, sig) * Pow2(e - 1)
  }

  /** The value of a finite single, from its sign, significand and scale. */
  lemma Unpack(x: u32)
    ensures Value(x) == Weighted(SignBit(x), Significand(x), Scale(x))
    ensures if Exponent(x) == 0 then Scale(x) == 1 && Significand(x) < HIDDEN
            else Scale(x) == Exponent(x) && HIDDEN <= Significand(x) < 2 * HIDDEN
    ensures Finite(x) ==> Exponent(x) < 255
  {
    ValueOf(x);
    SignedTimes(SignBit(x), Significand(x), Pow2(Scale(x) - 1));
  }

  /** The aligned significands, weighted by the larger exponent, are the exact sum. */
  lemma AlignedSumIsExact(sa: int, ea: pos, sb: int, eb: pos, n: int)
    requires ea <= eb && n == 8 * sa + 8 * sb * Pow2(eb - ea)
    ensures var sum := sa * Pow2(ea - 1) + sb * Pow2(eb - 1);
            RoundAt(Abs(n), Pow2(eb - ea), eb - 4) == Round(Abs(sum), 1) && (n < 0 <==> sum < 0)
  {
    hide RoundAt, Round, Pow2;
    var d, p := Pow2(eb - ea), Pow2(ea - 1);
    var m := sa + sb * d;
    Pow2Add(eb - ea, ea - 1);
    MulAssociates(8, sb, d);
    MulAssociates(sb, d, p);
    MulDistributes(sa, sb * d, p);
    RoundSum(n, m, d, p, eb - 1);
  }

  lemma RoundSum(n: int, m: int, d: pos, p: pos, e: nat)
    requires n == 8 * m && Pow2(e) == d * p
    ensures RoundAt(Abs(n), d, e - 3) == Round(Abs(m * p), 1)
    ensures n < 0 <==> m * p < 0
  {
    hide RoundAt, Round, Pow2;
    MulSigns(m, p);
    SignOfProduct(m, p);
    RoundWeighted(Abs(m), d, p, e);
    RoundAtEighths(8 * Abs(m), d, e - 3);
    RoundAtScales(Abs(m), d, e, 8);
  }

  lemma RoundWeighted(m: nat, d: pos, p: pos, e: nat)
    requires Pow2(e) == d * p
    ensures RoundAt(m, d, e) == Round(m * p, 1)
  {
    assert m * Up(e) == d * (m * p) by {
      assert m * (d * p) == d * (m * p);
    }
    RoundScales(m * p, 1, d);
  }

  // ----- the operations -----

  const CORNER_ADD: seq<CornerCaseRule> := [
    Rule(P_ZERO, P_ZERO, P_ZERO),
    Rule(N_ZERO, P_ZERO, P_ZERO),
    Rule(P_ZERO, N_ZERO, P_ZERO),
    Rule(N_ZERO, N_ZERO, N_ZERO),
    Rule(P_INF, N_INF, N_NAN),
    Rule(N_INF, P_INF, N_NAN),
    Rule(P_INF, P_NAN, P_NAN),
    Rule(P_INF, N_NAN, N_NAN),
    Rule(N_INF, P_NAN, P_NAN),
    Rule(N_INF, N_NAN, N_NAN),
    Rule(N_NAN, P_NAN, P_NAN)
  ]

  /** a + b as the standard defines it: the exact sum correctly rounded, with the signs of
      zero sums from section 6.3, and the rules for infinities and NaNs from sections 6.1
      and 6.2 (an invalid sum is the negative quiet NaN, as on x86). */
  ghost predicate IsSum(a: u32, b: u32, r: u32)
  {
    && (Finite(a) && Finite(b) ==>
          r == if a == N_ZERO && b == N_ZERO then N_ZERO else RoundSigned(Value(a) + Value(b)))
    && (IsInfinite(a) && Finite(b) ==> r == a)
    && (Finite(a) && IsInfinite(b) ==> r == b)
    && (IsInfinite(a) && IsInfinite(b) ==> r == if a == b then a else N_NAN)
    && (IsNaN(a) && !IsNaN(b) ==> r == a)
    && (!IsNaN(a) && IsNaN(b) ==> r == b)
    && (IsNaN(a) && IsNaN(b) ==> IsNaN(r) && r == if a == b then a else P_NAN)
  }

  /** No single is nearer to the exact sum, and an equally near one only when the result is even. */
  lemma SumIsNearest(a: u32, b: u32, r: u32, x: u32)
    requires Finite(a) && Finite(b) && IsSum(a, b, r) && x % 0x8000_0000 <= INF
    ensures var v := Value(a) + Value(b);
            && Abs(v - Value(r)) <= Abs(v - Value(x))
            && (Abs(v - Value(r)) == Abs(v - Value(x)) && Value(x) != Value(r) ==> r % 2 == 0)
            && (v != 0 ==> (SignBit(r) == 1 <==> v < 0))
  {
    if a == N_ZERO && b == N_ZERO {
      assert Value(r) == 0;
    }
    hide Value, RoundRatio, SignBit;
    RoundRatioIsNearest(Value(a) + Value(b), 1, x);
  }

  /** a + b */
  method Add(b: u32, a: u32) returns (r: u32)
    requires Operand(a) && Operand(b)
    ensures IsSum(a, b, r)
  {
    hide Value, RoundSigned, IsSum;
    var corner := LookUp(CORNER_ADD, a, b);
    CornerSums(a, b);
    if corner.Some? {
      return corner.value;
    }
    if a == P_ZERO || a == N_ZERO {
      SumWithZero(a, b);
      return b;
    }
    if b == P_ZERO || b == N_ZERO {
      SumWithZero(b, a);
      return a;
    }
    SumWithSpecial(a, b);
    var fa, fb := a, b;
    if Exponent(fa) == 0xff {
      return a;
    }
    if Exponent(fb) == 0xff {
      return b;
    }
    if Exponent(fa) > Exponent(fb) {
      fa, fb := b, a;
    }
    r := AddOrdered(fa, fb);
    FiniteSum(a, b, r);
  }

  lemma FiniteSum(a: u32, b: u32, r: u32)
    requires Finite(a) && Finite(b) && !IsZero(a)
    requires r == RoundSigned(Value(a) + Value(b))
    ensures IsSum(a, b, r)
  {
    hide Value, RoundSigned;
  }

  lemma SumWithZero(z: u32, x: u32)
    requires IsZero(z) && !IsZero(x) && Operand(x)
    ensures IsSum(z, x, x) && IsSum(x, z, x)
  {
    hide Value, RoundSigned;
    RoundOwnValue(z);
    RoundOwnValue(x);
  }

  predicate InCornerAdd(a: u32, b: u32)
  {
    || (IsZero(a) && IsZero(b))
    || (IsInfinite(a) && IsInfinite(b) && a != b)
    || (IsInfinite(a) && b in {P_NAN, N_NAN})
    || (a == N_NAN && b == P_NAN)
  }

  lemma SumWithSpecial(a: u32, b: u32)
    requires Operand(a) && Operand(b) && !InCornerAdd(a, b)
    ensures !Finite(a) ==> IsSum(a, b, a)
    ensures Finite(a) && !Finite(b) ==> IsSum(a, b, b)
  {
    hide Value, RoundSigned;
  }

  /** The numeric case, with the operand of smaller exponent first. */
  method AddOrdered(fa: u32, fb: u32) returns (r: u32)
    requires Finite(fa) && Finite(fb) && Exponent(fa) <= Exponent(fb)
    ensures r == RoundSigned(Value(fa) + Value(fb))
  {
    hide Value, Round, Rounded, StandsFor, Pow2, SignBit;
    var sigA, ea := UnpackOperand(fa);
    var sigB, eb := UnpackOperand(fb);
    var shift := (eb as int - 127) - (ea as int - 127);
    sigA := sigA * 8;
    sigB := sigB * 8;
    var aligned := Align(sigA, shift);
    var sign, sigRes := AddFractions(SignBit(fa), aligned, SignBit(fb), sigB);
    ghost var n := AlignedOperands(fa, fb, aligned);
    r := Normalize(sign, Exponent(fb), sigRes, n, Pow2(shift));
  }

  /** What Normalize needs to know about the sum of the aligned significands. */
  lemma AlignedOperands(fa: u32, fb: u32, aligned: nat) returns (n: nat)
    requires Finite(fb) && Exponent(fa) <= Exponent(fb) && aligned < 2 * LEADING
    requires Aligned(aligned, 8 * Significand(fa), Scale(fb) - Scale(fa))
    ensures var d, s, v := Pow2(Scale(fb) - Scale(fa)),
                           Signed(SignBit(fa), aligned) + Signed(SignBit(fb), 8 * Significand(fb)),
                           Value(fa) + Value(fb);
            && StickySum(s, n, d)
            && Rounded(Exponent(fb), Abs(s), n, d) == Round(Abs(v), 1) && (s < 0 <==> v < 0)
  {
    hide Value, Round, RoundAt, StickySum, Aligned, Significand, Scale, Exponent, SignBit, Weighted;
    Unpack(fa);
    Unpack(fb);
    UnshiftedIsExact(aligned, 8 * Significand(fa));
    n := AlignedSum(SignBit(fa), Significand(fa), Scale(fa), SignBit(fb), Significand(fb), Scale(fb), aligned);
    SumMagnitude(SignBit(fa), Significand(fa), SignBit(fb), Significand(fb), Exponent(fb), aligned);
  }

  lemma UnshiftedIsExact(aligned: nat, sig0: nat)
    ensures Aligned(aligned, sig0, 0) ==> aligned == sig0
  {
  }

  /** Two subnormals are not shifted apart, and their sum keeps the subnormal scale. */
  lemma SumMagnitude(signA: bit, sigA: nat, signB: bit, sigB: nat, exp: nat, aligned: nat)
    requires exp == 0 ==> sigA < HIDDEN && sigB < HIDDEN && aligned == 8 * sigA
    ensures exp == 0 ==> Abs(Signed(signA, aligned) + Signed(signB, 8 * sigB)) < 2 * LEADING
  {
  }

  /** The sticky sum of aligned significands rounds like the exact sum of the operands. */
  lemma AlignedSum(signA: bit, sigA: nat, ea: pos, signB: bit, sigB: nat, eb: pos, aligned: nat) returns (n: nat)
    requires ea <= eb && Aligned(aligned, 8 * sigA, eb - ea) && (eb > 1 ==> sigB >= HIDDEN)
    ensures var d, s, sum := Pow2(eb - ea),
                             Signed(signA, aligned) + Signed(signB, 8 * sigB),
                             Weighted(signA, sigA, ea) + Weighted(signB, sigB, eb);
            && StickySum(s, n, d)
            && RoundAt(n, d, eb - 4) == Round(Abs(sum), 1)
            && (s < 0 <==> sum < 0)
  {
    hide RoundAt, Round, StandsFor, Pow2;
    var d := Pow2(eb - ea);
    var sum := Signed(signA, 8 * sigA) + Signed(signB, 8 * sigB * d);
    n := Abs(sum);
    assert sum == 8 * Signed(signA, sigA) + 8 * Signed(signB, sigB) * d by {
      SignedTimes(signB, 8 * sigB, d);
    }
    SumStandsFor(signA, aligned, 8 * sigA, signB, 8 * sigB, d);
    AlignedSumIsExact(Signed(signA, sigA), ea, Signed(signB, sigB), eb, sum);
  }

  lemma CornerSums(a: u32, b: u32)
    ensures forall res :: Rule(a, b, res) in CORNER_ADD ==> IsSum(a, b, res)
    ensures InCornerAdd(a, b) ==> exists res :: Rule(a, b, res) in CORNER_ADD
  {
    ZeroSums();
    hide Value, RoundSigned;
    forall res | Rule(a, b, res) in CORNER_ADD
      ensures IsSum(a, b, res)
    {
    }
  }

  lemma ZeroSums()
    ensures Value(P_ZERO) == 0 && Value(N_ZERO) == 0 && RoundSigned(0) == P_ZERO
  {
    RoundOfGrid(0);
  }

  /** A finite single is its own rounded value. */
  lemma RoundOwnValue(x: u32)
    ensures IsZero(x) ==> Value(x) == 0
    ensures Finite(x) && !IsZero(x) ==> RoundSigned(Value(x)) == x
  {
    assert Grid(0) == 0;
    hide Grid, Round, RoundRatio;
    if Finite(x) && !IsZero(x) {
      var m := x % 0x8000_0000;
      PatternParts(x);
      MagnitudePositive(x);
      RoundOfGrid(m);
      RoundRatioIs(Value(x), 1, SignBit(x), Grid(m));
    }
  }

  // ----- subtraction -----

  const CORNER_SUB: seq<CornerCaseRule> := [
    Rule(P_ZERO, P_ZERO, P_ZERO),
    Rule(N_ZERO, P_ZERO, N_ZERO),
    Rule(P_ZERO, N_ZERO, P_ZERO),
    Rule(N_ZERO, N_ZERO, P_ZERO),
    Rule(P_NAN, P_NAN, P_NAN),
    Rule(N_NAN, P_NAN, P_NAN),
    Rule(P_NAN, N_NAN, P_NAN),
    Rule(N_NAN, N_NAN, N_NAN)
  ]

  /** a - b as the standard defines it. */
  ghost predicate IsDifference(a: u32, b: u32, r: u32)
  {
    && (Finite(a) && Finite(b) ==>
          r == if a == N_ZERO && b == P_ZERO then N_ZERO else RoundSigned(Value(a) - Value(b)))
    && (IsInfinite(a) && Finite(b) ==> r == a)
    && (Finite(a) && IsInfinite(b) ==> r == if b == P_INF then N_INF else P_INF)
    && (IsInfinite(a) && IsInfinite(b) ==> r == if a != b then a else N_NAN)
    && (IsNaN(a) && !IsNaN(b) ==> r == a)
    && (!IsNaN(a) && IsNaN(b) ==> r == b)
    && (IsNaN(a) && IsNaN(b) ==> IsNaN(r) && r == if a == b then a else P_NAN)
  }

  function FlipSign(x: u32): u32
  {
    if SignBit(x) == 1 then x - 0x8000_0000 else x + 0x8000_0000
  }

  lemma FlipSignNegates(x: u32)
    ensures Value(FlipSign(x)) == -Value(x)
    ensures Exponent(FlipSign(x)) == Exponent(x) && Fraction(FlipSign(x)) == Fraction(x)
    ensures FlipSign(x) == P_ZERO <==> x == N_ZERO
    ensures FlipSign(x) == N_ZERO <==> x == P_ZERO
    ensures FlipSign(x) == P_INF <==> x == N_INF
    ensures FlipSign(x) == N_INF <==> x == P_INF
  {
    hide Grid;
    TopBitOnly(if SignBit(x) == 1 then FlipSign(x) else x);
  }

  lemma TopBitOnly(m: u32)
    requires m < 0x8000_0000
    ensures SignBit(m) == 0 && SignBit(m + 0x8000_0000) == 1
    ensures Exponent(m + 0x8000_0000) == Exponent(m) && Fraction(m + 0x8000_0000) == Fraction(m)
    ensures (m + 0x8000_0000) % 0x8000_0000 == m % 0x8000_0000
  {
  }

  /** a - b */
  method Sub(b: u32, a: u32) returns (r: u32)
    requires Operand(a) && Operand(b)
    ensures IsDifference(a, b, r)
    ensures !IsNaN(b) ==> IsSum(a, FlipSign(b), r)
  {
    hide Value, RoundSigned, IsSum, IsDifference;
    var corner := LookUp(CORNER_SUB, a, b);
    CornerDifferences(a, b);
    if corner.Some? {
      return corner.value;
    }
    DifferenceOfNaN(a, b);
    if a == P_NAN || a == N_NAN {
      return a;
    }
    if b == P_NAN || b == N_NAN {
      return b;
    }
    FlipSignNegates(b);
    r := Add(FlipSign(b), a);
    SumIsDifference(a, b, r);
  }

  lemma CornerDifferences(a: u32, b: u32)
    ensures forall res :: Rule(a, b, res) in CORNER_SUB ==>
              IsDifference(a, b, res) && (!IsNaN(b) ==> IsSum(a, FlipSign(b), res))
    ensures IsNaN(a) && IsNaN(b) && Operand(a) && Operand(b) ==> exists res :: Rule(a, b, res) in CORNER_SUB
  {
    ZeroSums();
    hide Value, RoundSigned;
  }

  lemma DifferenceOfNaN(a: u32, b: u32)
    requires !(IsNaN(a) && IsNaN(b))
    ensures IsNaN(a) ==> IsDifference(a, b, a) && IsSum(a, FlipSign(b), a)
    ensures IsNaN(b) ==> IsDifference(a, b, b)
  {
    FlipSignNegates(b);
    hide Value, RoundSigned;
  }

  lemma SumIsDifference(a: u32, b: u32, r: u32)
    requires Operand(a) && Operand(b) && !IsNaN(a) && !IsNaN(b) && IsSum(a, FlipSign(b), r)
    ensures IsDifference(a, b, r)
  {
    FlipSignNegates(b);
    hide Value, RoundSigned;
  }

  // ----- commutativity -----

  /** Addition commutes on every pair of operands: each order has only one correct result. */
  lemma SumsCommute(a: u32, b: u32, r: u32, s: u32)
    requires Operand(a) && Operand(b) && IsSum(a, b, r) && IsSum(b, a, s)
    ensures r == s
  {
    hide Value, RoundSigned;
  }
}
