/** internal_float_mul. */
module SoftFloatMul {
  import opened MachineInts
  import opened Ieee754
  import opened Normalization
  import opened FloatOperands

  const CORNER_MUL: seq<CornerCaseRule> := [
    Rule(P_ZERO, P_INF, N_NAN),
    Rule(P_ZERO, N_INF, N_NAN),
    Rule(N_ZERO, P_INF, N_NAN),
    Rule(N_ZERO, N_INF, N_NAN),
    Rule(P_INF, P_ZERO, N_NAN),
    Rule(P_INF, N_ZERO, N_NAN),
    Rule(N_INF, P_ZERO, N_NAN),
    Rule(N_INF, N_ZERO, N_NAN)
  ]

  /** The exact product of two magnitudes, in units of 2^-298. */
  function ExactProduct(a: u32, b: u32): nat
  {
    Magnitude(a) * Magnitude(b)
  }

  /** The correctly rounded magnitude of the product of two finite singles. */
  ghost function RoundedProduct(a: u32, b: u32): nat
  {
    Round(ExactProduct(a, b), Pow2(149))
  }

  /** The correctly rounded magnitude of twice the product. */
  ghost function RoundedTwiceProduct(a: u32, b: u32): nat
  {
    Round(2 * ExactProduct(a, b), Pow2(149))
  }

  /** The exact product of two values, in units of 2^-298, over 2^149: in units of 2^-149, with its
      sign, correctly rounded. */
  ghost function NearestToProduct(a: u32, b: u32): u32
  {
    RoundRatio(Value(a) * Value(b), Pow2(149))
  }

  ghost function NearestToTwiceProduct(a: u32, b: u32): u32
  {
    RoundRatio(2 * (Value(a) * Value(b)), Pow2(149))
  }

  /** a * b as the standard defines it: the exact product correctly rounded, and the rules for zeros,
      infinities and NaNs, with the sign negative exactly when the operands' signs differ. */
  ghost predicate IsProduct(a: u32, b: u32, r: u32)
  {
    var opposite := SignBit(a) != SignBit(b);
    if IsNaN(a) || IsNaN(b) then r == if a == P_NAN || b == P_NAN then P_NAN else N_NAN
    else if (IsInfinite(a) && IsZero(b)) || (IsZero(a) && IsInfinite(b)) then r == N_NAN
    else if IsInfinite(a) || IsInfinite(b) then r == if opposite then N_INF else P_INF
    else if IsZero(a) || IsZero(b) then r == if opposite then N_ZERO else P_ZERO
    else Finite(a) && Finite(b) && r == NearestToProduct(a, b)
  }

  /** No single is nearer to the exact product, and an equally near one only when the result is even. */
  lemma ProductIsNearest(a: u32, b: u32, r: u32, x: u32)
    requires Finite(a) && !IsZero(a) && Finite(b) && !IsZero(b) && IsProduct(a, b, r) && x % 0x8000_0000 <= INF
    ensures var v, unit := Value(a) * Value(b), Pow2(149);
            && Abs(v - Value(r) * unit) <= Abs(v - Value(x) * unit)
            && (Abs(v - Value(r) * unit) == Abs(v - Value(x) * unit) && Value(x) != Value(r) ==> r % 2 == 0)
            && (SignBit(r) == 1 <==> v < 0)
  {
    hide IsProduct, Finite, IsZero, Value, RoundRatio, SignBit, Pow2;
    FiniteProduct(a, b, r);
    RoundRatioIsNearest(Value(a) * Value(b), Pow2(149), x);
  }

  lemma FiniteProduct(a: u32, b: u32, r: u32)
    requires Finite(a) && !IsZero(a) && Finite(b) && !IsZero(b) && IsProduct(a, b, r)
    ensures r == RoundRatio(Value(a) * Value(b), Pow2(149))
  {
    hide Value, RoundRatio, SignBit, Pow2;
  }

  /** The unnormalised significand of a product, with 46 fraction bits. */
  function RawProduct(a: u32, b: u32): nat
  {
    Significand(a) * Significand(b)
  }

  /** The one family of operands the code gets wrong: the exponent of the unnormalised
      product is exactly 0 and the significand is too short to be shifted, so Normalize
      takes it for a subnormal and doubles the value. */
  predicate Misscaled(a: u32, b: u32)
  {
    && Finite(a) && Finite(b) && !IsZero(a) && !IsZero(b)
    && Scale(a) + Scale(b) - 147 == 0
    && RawProduct(a, b) < 2 * LEADING
  }

  /** a * b.  The result is the correctly rounded product exactly when the operands are not
      misscaled. */
  method Mul(b: u32, a: u32) returns (r: u32)
    requires Operand(a) && Operand(b)
    ensures IsProduct(a, b, r) <==> !Misscaled(a, b)
    ensures Misscaled(a, b) ==> r == NearestToTwiceProduct(a, b)
    ensures Finite(a) && Finite(b) && !IsZero(a) && !IsZero(b) ==> (SignBit(r) == 1 <==> Value(a) * Value(b) < 0)
  {
    hide NearestToTwiceProduct, IsProduct, Misscaled;
    var corner := LookUp(CORNER_MUL, a, b);
    CornerProducts(a, b);
    if corner.Some? {
      return corner.value;
    }
    if a == P_NAN || a == N_NAN || b == P_NAN || b == N_NAN {
      ProductsOfNaN(a, b);
      return if a == P_NAN || b == P_NAN then P_NAN else N_NAN;
    }
    if a == P_ZERO || a == N_ZERO {
      ProductsOfZero(a, b);
      return if SignXor(a, b) == 1 then N_ZERO else P_ZERO;
    }
    if b == P_ZERO || b == N_ZERO {
      ProductsOfZero(a, b);
      return if SignXor(a, b) == 1 then N_ZERO else P_ZERO;
    }
    if a == P_INF || a == N_INF {
      ProductsOfInfinity(a, b);
      return if SignXor(a, b) == 1 then N_INF else P_INF;
    }
    if b == P_INF || b == N_INF {
      ProductsOfInfinity(a, b);
      return if SignXor(a, b) == 1 then N_INF else P_INF;
    }
    r := MulFinite(a, b);
  }

  predicate ZeroTimesInfinity(a: u32, b: u32)
  {
    (IsInfinite(a) && IsZero(b)) || (IsZero(a) && IsInfinite(b))
  }

  lemma CornerProducts(a: u32, b: u32)
    ensures forall res :: Rule(a, b, res) in CORNER_MUL ==> IsProduct(a, b, res) && !Misscaled(a, b)
    ensures ZeroTimesInfinity(a, b) ==> Rule(a, b, N_NAN) in CORNER_MUL
  {
    hide NearestToProduct, Significand, Scale;
  }

  lemma ProductsOfNaN(a: u32, b: u32)
    requires IsNaN(a) || IsNaN(b)
    ensures IsProduct(a, b, if a == P_NAN || b == P_NAN then P_NAN else N_NAN) && !Misscaled(a, b)
  {
    hide NearestToProduct, Significand, Scale;
  }

  lemma ProductsOfZero(a: u32, b: u32)
    requires IsZero(a) || IsZero(b)
    requires !IsNaN(a) && !IsNaN(b) && Operand(a) && Operand(b) && !ZeroTimesInfinity(a, b)
    ensures IsProduct(a, b, if SignXor(a, b) == 1 then N_ZERO else P_ZERO) && !Misscaled(a, b)
  {
    hide NearestToProduct, Significand, Scale;
  }

  lemma ProductsOfInfinity(a: u32, b: u32)
    requires IsInfinite(a) || IsInfinite(b)
    requires !IsNaN(a) && !IsNaN(b) && !ZeroTimesInfinity(a, b)
    ensures IsProduct(a, b, if SignXor(a, b) == 1 then N_INF else P_INF) && !Misscaled(a, b)
  {
    hide NearestToProduct, Significand, Scale;
  }

  /** The numeric case. */
  method MulFinite(a: u32, b: u32) returns (r: u32)
    requires Finite(a) && Finite(b) && !IsZero(a) && !IsZero(b)
    ensures IsProduct(a, b, r) <==> !Misscaled(a, b)
    ensures Misscaled(a, b) ==> r == NearestToTwiceProduct(a, b)
    ensures SignBit(r) == 1 <==> Value(a) * Value(b) < 0
  {
    hide RoundedProduct, RoundedTwiceProduct, NearestToProduct, NearestToTwiceProduct, Value, SignBit, Rounded,
      Significand, Scale, SignXor, Grid, Exponent, Fraction;
    var sigA, ea := UnpackOperand(a);
    var sigB, eb := UnpackOperand(b);
    RawProductBounds(a, b);
    ProductRounds(a, b);
    SignificandBounds(a);
    SignificandBounds(b);
    var sigRes: u64 := sigA as int * sigB as int;
    var ae: int, be: int := ea as int - 127, eb as int - 127;
    var re := ae + be - 20;
    var expRes := re + 127;
    r := Normalize(SignXor(a, b), expRes, sigRes, sigRes, 1);
    NumericProduct(a, b, r);
    SignOfProduct(a, b, r);
  }

  lemma SignOfProduct(a: u32, b: u32, r: u32)
    requires Finite(a) && Finite(b) && !IsZero(a) && !IsZero(b)
    requires r == NearestToProduct(a, b) || r == NearestToTwiceProduct(a, b)
    ensures SignBit(r) == 1 <==> Value(a) * Value(b) < 0
  {
    hide RoundRatio, Value, SignBit, Pow2;
    RoundRatioParts(Value(a) * Value(b), Pow2(149));
    RoundRatioParts(2 * (Value(a) * Value(b)), Pow2(149));
  }

  lemma NumericProduct(a: u32, b: u32, r: u32)
    requires Finite(a) && Finite(b) && !IsZero(a) && !IsZero(b)
    ensures IsProduct(a, b, r) <==> r == SignXor(a, b) * 0x8000_0000 + RoundedProduct(a, b)
    ensures NearestToProduct(a, b) == SignXor(a, b) * 0x8000_0000 + RoundedProduct(a, b)
    ensures NearestToTwiceProduct(a, b) == SignXor(a, b) * 0x8000_0000 + RoundedTwiceProduct(a, b)
  {
    hide RoundedProduct, RoundedTwiceProduct, NearestToProduct, NearestToTwiceProduct, SignXor, SignBit;
    NearestIs(a, b);
  }

  lemma NearestIs(a: u32, b: u32)
    requires Finite(a) && Finite(b) && !IsZero(a) && !IsZero(b)
    ensures NearestToProduct(a, b) == SignXor(a, b) * 0x8000_0000 + RoundedProduct(a, b)
    ensures NearestToTwiceProduct(a, b) == SignXor(a, b) * 0x8000_0000 + RoundedTwiceProduct(a, b)
  {
    hide Round, RoundRatio, SignXor, SignBit, Value, Magnitude, Pow2;
    ProductOfValues(a, b);
    var v, p := Value(a) * Value(b), Pow2(149);
    RoundRatioIs(v, p, SignXor(a, b), ExactProduct(a, b));
    RoundRatioIs(2 * v, p, SignXor(a, b), 2 * ExactProduct(a, b));
  }

  /** The raw product is in the range Normalize accepts, and it is never very short where
      its exponent is zero. */
  lemma RawProductBounds(a: u32, b: u32)
    requires Finite(a) && Finite(b) && !IsZero(a) && !IsZero(b)
    ensures var e, sig := Scale(a) + Scale(b) - 147, RawProduct(a, b);
            && 0 <= sig < 0x1_0000_0000_0000_0000
            && (e < 255 || sig >= 2 * LEADING)
            && (e == 0 ==> sig >= HIDDEN)
  {
    SignificandBounds(a);
    SignificandBounds(b);
    ProductBounds(Significand(a), Significand(b));
    hide Significand, Scale;
  }

  lemma SignificandBounds(x: u32)
    requires Finite(x) && !IsZero(x)
    ensures 1 <= Significand(x) < 2 * HIDDEN && 1 <= Scale(x) <= 254
    ensures Scale(x) > 1 ==> Significand(x) >= HIDDEN
  {
    PatternParts(x);
  }

  lemma ProductBounds(x: nat, y: nat)
    requires 1 <= x < 2 * HIDDEN && 1 <= y < 2 * HIDDEN
    ensures 1 <= x * y < 4 * HIDDEN * HIDDEN
    ensures x >= HIDDEN ==> x * y >= HIDDEN
    ensures y >= HIDDEN ==> x * y >= HIDDEN
    ensures x >= HIDDEN && y >= HIDDEN ==> x * y >= HIDDEN * HIDDEN
  {
    MulMonotone(x, 2 * HIDDEN - 1, y);
    MulMonotone(y, 2 * HIDDEN - 1, 2 * HIDDEN - 1);
    MulMonotone(1, x, y);
    if x >= HIDDEN {
      MulMonotone(HIDDEN, x, y);
    }
    if y >= HIDDEN {
      MulMonotone(HIDDEN, y, x);
    }
  }

  /** How Normalize rounds the raw product, and how that relates to the exact product. */
  lemma ProductRounds(a: u32, b: u32)
    requires Finite(a) && Finite(b) && !IsZero(a) && !IsZero(b)
    ensures var e, sig := Scale(a) + Scale(b) - 147, RawProduct(a, b);
            && RoundedProduct(a, b) <= INF
            && (!Misscaled(a, b) ==> Rounded(e, sig, sig, 1) == RoundedProduct(a, b))
            && (Misscaled(a, b) ==>
                  && Rounded(e, sig, sig, 1) != RoundedProduct(a, b)
                  && Rounded(e, sig, sig, 1) == RoundedTwiceProduct(a, b))
  {
    hide Round, RoundAt, Pow2, ExactProduct, RawProduct, Significand, Scale;
    var e, sig := Scale(a) + Scale(b) - 147, RawProduct(a, b);
    RoundInRange(ExactProduct(a, b), Pow2(149));
    GridProduct(a, b);
    RoundAtUnits(sig, Scale(a) + Scale(b) - 2, 149);
    if Misscaled(a, b) {
      RawProductBounds(a, b);
      DoublingShows(sig);
      RoundAtDoubleNum(sig, 1, -3);
      RoundAtUnits(2 * sig, Scale(a) + Scale(b) - 2, 149);
      MulAssociates(2, sig, Pow2(Scale(a) + Scale(b) - 2));
    }
  }

  lemma GridProduct(a: u32, b: u32)
    ensures ExactProduct(a, b) == RawProduct(a, b) * Pow2(Scale(a) + Scale(b) - 2)
  {
    hide Magnitude, Pow2, Significand, Scale;
    var pa, pb := Pow2(Scale(a) - 1), Pow2(Scale(b) - 1);
    ValueOf(a);
    ValueOf(b);
    Pow2Add(Scale(a) - 1, Scale(b) - 1);
    MulAssociates(Significand(a), pa, Significand(b) * pb);
    MulSwaps(pa, Significand(b), pb);
    MulAssociates(Significand(a), Significand(b), pa * pb);
  }

  /** n * 2^(t-k) units rounds like n * 2^t parts of 2^-k. */
  lemma RoundAtUnits(n: nat, t: nat, k: nat)
    ensures RoundAt(n, 1, t - k) == Round(n * Pow2(t), Pow2(k))
  {
    hide Round, RoundAt;
    var m: nat := n * Pow2(t);
    RoundAtShiftNum(n, 1, -(k as int), t);
    RoundAtShiftDen(m, 1, 0, k);
    assert RoundAt(m, 1 * Pow2(k), 0) == Round(m, Pow2(k)) by {
      RoundAtZero(m, Pow2(k));
    }
  }

  /** A subnormal result of this size changes visibly when it is doubled. */
  lemma DoublingShows(sig: nat)
    requires HIDDEN <= sig < 2 * LEADING
    ensures RoundAt(sig, 1, -3) != RoundAt(sig, 1, -4)
  {
    hide RoundAt;
    RoundAtDoubleDen(sig, 1, -3);
    RoundAtDoubleDen(sig, 2, -2);
    RoundAtDoubleDen(sig, 4, -1);
    RoundAtDoubleDen(sig, 1, -4);
    RoundAtDoubleDen(sig, 2, -3);
    RoundAtDoubleDen(sig, 4, -2);
    RoundAtDoubleDen(sig, 8, -1);
    RoundInBinade(1, sig / 8, sig, 8);
    RoundInBinade(1, sig / 16, sig, 16);
  }

  /** Two normal operands are always multiplied correctly. */
  lemma NormalOperandsAreNotMisscaled(a: u32, b: u32)
    requires Exponent(a) > 0 && Exponent(b) > 0
    ensures !Misscaled(a, b)
  {
    if Finite(a) && Finite(b) {
      ProductBounds(Significand(a), Significand(b));
    }
  }

  /** A concrete failure: 2^19 times the smallest subnormal comes out twice too large. */
  lemma MisscaledExample()
    ensures Misscaled(0x4900_0000, 0x1)
  {
  }
}
