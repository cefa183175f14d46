/** The operands the floating-point operations distinguish, and their corner-case tables. */
module FloatOperands {
  import opened MachineInts
  import opened Ieee754

  const P_ZERO: u32 := 0x0
  const N_ZERO: u32 := 0x8000_0000
  const P_INF: u32 := 0x7f80_0000
  const N_INF: u32 := 0xff80_0000
  const P_NAN: u32 := 0x7fc0_0000
  const N_NAN: u32 := 0xffc0_0000

  /** The operands the code distinguishes: finite numbers, infinities and its two NaNs. */
  predicate Operand(x: u32) { Finite(x) || x in {P_INF, N_INF, P_NAN, N_NAN} }
  predicate IsNaN(x: u32) { Exponent(x) == 255 && Fraction(x) != 0 }
  predicate IsInfinite(x: u32) { x == P_INF || x == N_INF }
  predicate IsZero(x: u32) { x == P_ZERO || x == N_ZERO }

  /** The patterns up to infinity's, with either sign, and the two NaNs. */
  lemma OperandIff(x: u32)
    ensures Finite(x) <==> x % 0x8000_0000 < INF
    ensures IsInfinite(x) <==> x % 0x8000_0000 == INF
    ensures IsNaN(x) <==> x % 0x8000_0000 > INF
    ensures IsZero(x) <==> x % 0x8000_0000 == 0
    ensures Operand(x) <==> x % 0x8000_0000 <= INF || x == P_NAN || x == N_NAN
  {
    PatternParts(x);
  }

  datatype Option<+T> = None | Some(value: T)
  datatype CornerCaseRule = Rule(a: u32, b: u32, res: u32)

  /** The search through a table of corner cases that opens every operation. */
  method LookUp(table: seq<CornerCaseRule>, a: u32, b: u32) returns (found: Option<u32>)
    ensures found.Some? ==> Rule(a, b, found.value) in table
    ensures found.None? ==> forall res :: Rule(a, b, res) !in table
  {
    var i := 0;
    while i < |table|
      invariant 0 <= i <= |table|
      invariant forall res :: Rule(a, b, res) !in table[..i]
    {
      if a == table[i].a && b == table[i].b {
        return Some(table[i].res);
      }
      i := i + 1;
    }
    return None;
  }

  /** The sign of a product or quotient. */
  function SignXor(a: u32, b: u32): (s: bit)
    ensures s == 1 <==> SignBit(a) != SignBit(b)
  {
    if SignBit(a) == SignBit(b) then 0 else 1
  }

  lemma MagnitudePositive(x: u32)
    requires Finite(x) && !IsZero(x)
    ensures Magnitude(x) > 0 && Value(x) != 0
  {
    PatternParts(x);
    assert Grid(0) == 0;
    hide Grid;
    GridMonotone(0, x % 0x8000_0000);
  }

  /** Size and sign of the product of two values. */
  lemma ProductOfValues(a: u32, b: u32)
    requires Finite(a) && !IsZero(a) && Finite(b) && !IsZero(b)
    ensures Abs(Value(a) * Value(b)) == Magnitude(a) * Magnitude(b)
    ensures Value(a) * Value(b) < 0 <==> SignXor(a, b) == 1
  {
    MagnitudePositive(a);
    MagnitudePositive(b);
    var ga: int, gb: int := Magnitude(a), Magnitude(b);
    MulSigns(ga, gb);
    MulSigns(ga, -gb);
    MulMonotone(1, Magnitude(a), Magnitude(b));
    hide Magnitude;
  }

  /** Puts back the hidden leading one, and gives subnormals the exponent of the smallest
      normal numbers. */
  method UnpackOperand(x: u32) returns (sig: u32, exponent: nat)
    ensures sig == Significand(x) && exponent == Scale(x)
  {
    sig := Fraction(x);
    if Exponent(x) != 0 {
      sig := sig + HIDDEN;
    }
    exponent := Exponent(x);
    if exponent == 0 {
      exponent := exponent + 1;
    }
  }
}
