/** Multi-limb arithmetic, as compiled code does it: ADD then ADC, or SUB then SBB, from the
    least significant limb up. */
module MultiLimb {
  import opened MachineInts
  import opened Alu

  predicate Limbs(s: seq<u32>, w: Size) { forall i :: 0 <= i < |s| ==> s[i] < Modulus(w) }

  /** (2^w)^n */
  function Weight(w: Size, n: nat): pos
  {
    if n == 0 then 1 else Modulus(w) * Weight(w, n - 1)
  }

  lemma {:induction false} WeightIsPower(w: Size, n: nat)
    ensures w * n >= 0 && Weight(w, n) == Pow2(w * n)
    ensures n > 0 ==> w * n > 0 && Half(w) * Weight(w, n - 1) == Pow2(w * n - 1)
  {
    if n > 0 {
      WeightIsPower(w, n - 1);
      CutIsResidue(0, w);
      hide Modulus, Half;
      assert w * n == w + w * (n - 1);
      Pow2Add(w, w * (n - 1));
      Pow2Add(w - 1, w * (n - 1));
    }
  }

  /** The number written by the limbs, least significant first. */
  function Number(s: seq<u32>, w: Size): nat
  {
    if s == [] then 0
    else
      var n := |s| - 1;
      Number(s[..n], w) + s[n] * Weight(w, n)
  }

  lemma {:induction false} NumberBelowWeight(s: seq<u32>, w: Size)
    requires Limbs(s, w)
    ensures Number(s, w) < Weight(w, |s|)
  {
    if s != [] {
      var n := |s| - 1;
      NumberBelowWeight(s[..n], w);
      MulMonotone(s[n] as int + 1, Modulus(w), Weight(w, n));
      MulDistributes(s[n], 1, Weight(w, n));
    }
  }

  /** The two's-complement reading of the whole number. */
  function SignedNumber(s: seq<u32>, w: Size): int
  {
    if s == [] then 0
    else
      var n := |s| - 1;
      Number(s[..n], w) + AsSigned(s[n], w) * Weight(w, n)
  }

  /** It is the number itself or the number less 2^total, by its top bit. */
  lemma SignedNumberIsTwosComplement(s: seq<u32>, w: Size)
    requires Limbs(s, w) && s != []
    ensures var m := Weight(w, |s|);
            SignedNumber(s, w) == if s[|s| - 1] < Half(w) then Number(s, w) else Number(s, w) - m
  {
    var n, top := |s| - 1, s[|s| - 1];
    assert Weight(w, |s|) == Modulus(w) * Weight(w, n);
    assert AsSigned(top, w) == if top < Half(w) then top else top - Modulus(w);
    hide AsSigned, Weight, Modulus, Half, Cut;
    MulDistributes(top, -(Modulus(w) as int), Weight(w, n));
    MulSigns(Modulus(w), Weight(w, n));
  }

  /** x is representable as a signed number of n limbs. */
  predicate FitsLimbs(x: int, w: Size, n: nat)
    requires n > 0
  {
    var h: int := Half(w) * Weight(w, n - 1);
    -h <= x < h
  }

  lemma NumberStep(s: seq<u32>, i: nat, w: Size)
    requires i < |s|
    ensures Number(s[..i + 1], w) == Number(s[..i], w) + s[i] * Weight(w, i)
    ensures SignedNumber(s[..i + 1], w) == Number(s[..i], w) + AsSigned(s[i], w) * Weight(w, i)
  {
    assert s[..i + 1][..i] == s[..i];
  }

  /** a + b or a - b */
  function Combine(sub: bool, a: int, b: int): int { if sub then a - b else a + b }

  function LimbOf(sub: bool, x: u32, y: u32, c: bit, w: Size): (z: u32)
    ensures z < Modulus(w)
  {
    if sub then DifferenceOf(y, x, c, w) else SumOf(y, x, c, w)
  }

  function LimbFlags(sub: bool, x: u32, y: u32, c: bit, w: Size): Flags
  {
    if sub then DifferenceFlags(y, x, c, w) else SumFlags(y, x, c, w)
  }

  /** The whole numbers are combined exactly: CF is the carry or borrow out of the top limb
      and OF the signed overflow of the whole result. */
  ghost predicate Combined(sub: bool, xs: seq<u32>, ys: seq<u32>, zs: seq<u32>, f: Flags, w: Size)
    requires |xs| == |ys| == |zs| > 0
  {
    CombinedUnsigned(sub, xs, ys, zs, f.CF, w) && CombinedSigned(sub, xs, ys, zs, f.OF, w)
  }

  ghost predicate CombinedUnsigned(sub: bool, xs: seq<u32>, ys: seq<u32>, zs: seq<u32>, carry: bit, w: Size)
  {
    Combine(sub, Number(zs, w), carry * Weight(w, |zs|)) == Combine(sub, Number(xs, w), Number(ys, w))
  }

  ghost predicate CombinedSigned(sub: bool, xs: seq<u32>, ys: seq<u32>, zs: seq<u32>, overflow: bit, w: Size)
    requires |xs| > 0
  {
    var exact := Combine(sub, SignedNumber(xs, w), SignedNumber(ys, w));
    && (overflow == 1 <==> !FitsLimbs(exact, w, |xs|))
    && (overflow == 0 ==> SignedNumber(zs, w) == exact)
  }

  /** What that says of the numbers themselves. */
  lemma CombinedMeans(sub: bool, xs: seq<u32>, ys: seq<u32>, zs: seq<u32>, f: Flags, w: Size)
    requires |xs| == |ys| == |zs| > 0 && Combined(sub, xs, ys, zs, f, w)
    ensures w * |xs| > 0
    ensures !sub ==> Number(zs, w) + f.CF * Pow2(w * |xs|) == Number(xs, w) + Number(ys, w)
    ensures sub ==> Number(zs, w) - f.CF * Pow2(w * |xs|) == Number(xs, w) - Number(ys, w)
    ensures var half := Pow2(w * |xs| - 1) as int;
            var exact := SignedNumber(xs, w) + (if sub then -SignedNumber(ys, w) else SignedNumber(ys, w));
            && (f.OF == 1 <==> !(-half <= exact < half))
            && (f.OF == 0 ==> SignedNumber(zs, w) == exact)
  {
    WeightIsPower(w, |xs|);
  }

  /** ADD then ADC through the limbs adds the whole numbers. */
  method AddLimbs(cpu: Cpu, xs: seq<u32>, ys: seq<u32>, w: Size) returns (zs: seq<u32>)
    requires |xs| == |ys| > 0 && Limbs(xs, w) && Limbs(ys, w)
    modifies cpu
    ensures |zs| == |xs| && Limbs(zs, w) && Combined(false, xs, ys, zs, cpu.eflags, w)
    ensures w * |xs| > 0 && Number(zs, w) + cpu.eflags.CF * Pow2(w * |xs|) == Number(xs, w) + Number(ys, w)
    ensures var half, exact := Pow2(w * |xs| - 1) as int, SignedNumber(xs, w) + SignedNumber(ys, w);
            && (cpu.eflags.OF == 1 <==> !(-half <= exact < half))
            && (cpu.eflags.OF == 0 ==> SignedNumber(zs, w) == exact)
  {
    hide Combined, Number, SumOf, SumFlags;
    var z := cpu.AluAdd(ys[0], xs[0], w);
    FirstLimb(false, xs, ys, w);
    zs := [z];
    var i := 1;
    while i < |xs|
      invariant 1 <= i <= |xs| && |zs| == i && Limbs(zs, w)
      invariant Combined(false, xs[..i], ys[..i], zs, cpu.eflags, w)
      decreases |xs| - i
    {
      NextLimb(false, xs, ys, zs, i, cpu.eflags, w);
      z := cpu.AluAdc(ys[i], xs[i], w);
      zs := zs + [z];
      i := i + 1;
    }
    assert xs[..i] == xs && ys[..i] == ys;
    CombinedMeans(false, xs, ys, zs, cpu.eflags, w);
  }

  /** SUB then SBB through the limbs subtracts the whole numbers. */
  method SubLimbs(cpu: Cpu, xs: seq<u32>, ys: seq<u32>, w: Size) returns (zs: seq<u32>)
    requires |xs| == |ys| > 0 && Limbs(xs, w) && Limbs(ys, w)
    modifies cpu
    ensures |zs| == |xs| && Limbs(zs, w) && Combined(true, xs, ys, zs, cpu.eflags, w)
    ensures w * |xs| > 0 && Number(zs, w) - cpu.eflags.CF * Pow2(w * |xs|) == Number(xs, w) - Number(ys, w)
    ensures var half, exact := Pow2(w * |xs| - 1) as int, SignedNumber(xs, w) - SignedNumber(ys, w);
            && (cpu.eflags.OF == 1 <==> !(-half <= exact < half))
            && (cpu.eflags.OF == 0 ==> SignedNumber(zs, w) == exact)
  {
    hide Combined, Number, DifferenceOf, DifferenceFlags;
    var z := cpu.AluSub(ys[0], xs[0], w);
    FirstLimb(true, xs, ys, w);
    zs := [z];
    var i := 1;
    while i < |xs|
      invariant 1 <= i <= |xs| && |zs| == i && Limbs(zs, w)
      invariant Combined(true, xs[..i], ys[..i], zs, cpu.eflags, w)
      decreases |xs| - i
    {
      NextLimb(true, xs, ys, zs, i, cpu.eflags, w);
      z := cpu.AluSbb(ys[i], xs[i], w);
      zs := zs + [z];
      i := i + 1;
    }
    assert xs[..i] == xs && ys[..i] == ys;
    CombinedMeans(true, xs, ys, zs, cpu.eflags, w);
  }

  lemma FirstLimb(sub: bool, xs: seq<u32>, ys: seq<u32>, w: Size)
    requires |xs| == |ys| > 0 && Limbs(xs, w) && Limbs(ys, w)
    ensures Combined(sub, xs[..1], ys[..1], [LimbOf(sub, xs[0], ys[0], 0, w)], LimbFlags(sub, xs[0], ys[0], 0, w), w)
  {
    assert Number([], w) == 0 && Weight(w, 0) == 1;
    hide Number, LimbOf, LimbFlags;
    assert xs[..0] == [] && ys[..0] == [];
    OneLimb(sub, xs, ys, [], 0, 0, w);
    assert [] + [LimbOf(sub, xs[0], ys[0], 0, w)] == [LimbOf(sub, xs[0], ys[0], 0, w)];
  }

  lemma NextLimb(sub: bool, xs: seq<u32>, ys: seq<u32>, zs: seq<u32>, i: nat, f: Flags, w: Size)
    requires 0 < i < |xs| == |ys| && |zs| == i && Limbs(xs, w) && Limbs(ys, w) && Limbs(zs, w)
    requires Combined(sub, xs[..i], ys[..i], zs, f, w)
    ensures Combined(sub, xs[..i + 1], ys[..i + 1],
                     zs + [LimbOf(sub, xs[i], ys[i], f.CF, w)], LimbFlags(sub, xs[i], ys[i], f.CF, w), w)
  {
    hide Number, LimbOf, LimbFlags;
    OneLimb(sub, xs, ys, zs, i, f.CF, w);
  }

  /** One more limb: the parts below, with their carry, and the two limbs. */
  lemma OneLimb(sub: bool, xs: seq<u32>, ys: seq<u32>, zs: seq<u32>, i: nat, c: bit, w: Size)
    requires i < |xs| == |ys| && |zs| == i && Limbs(xs, w) && Limbs(ys, w) && Limbs(zs, w)
    requires Combine(sub, Number(zs, w), c * Weight(w, i)) == Combine(sub, Number(xs[..i], w), Number(ys[..i], w))
    ensures Combined(sub, xs[..i + 1], ys[..i + 1],
                     zs + [LimbOf(sub, xs[i], ys[i], c, w)], LimbFlags(sub, xs[i], ys[i], c, w), w)
  {
    var z, zs' := LimbOf(sub, xs[i], ys[i], c, w), zs + [LimbOf(sub, xs[i], ys[i], c, w)];
    NumberStep(xs, i, w);
    NumberStep(ys, i, w);
    NumberStep(zs', i, w);
    assert zs'[..i] == zs && zs'[..i + 1] == zs';
    NumberBelowWeight(zs, w);
    LimbSum(sub, xs[i], ys[i], c, w);
    assert xs[..i + 1] != [] && |xs[..i + 1]| == i + 1;
    hide LimbOf, LimbFlags, AsSigned, Number, SignedNumber, Cut, FitsSigned, Modulus, Combine;
    OneLimbUnsigned(sub, xs[..i + 1], ys[..i + 1], zs', Number(xs[..i], w), xs[i], Number(ys[..i], w), ys[i],
                    Number(zs, w), z, c, LimbFlags(sub, xs[i], ys[i], c, w).CF, w, i);
    OneLimbSigned(sub, xs[..i + 1], ys[..i + 1], zs', Number(xs[..i], w), AsSigned(xs[i], w),
                  Number(ys[..i], w), AsSigned(ys[i], w), Number(zs, w), AsSigned(z, w), c,
                  LimbFlags(sub, xs[i], ys[i], c, w).OF, w, i);
  }

  lemma OneLimbUnsigned(sub: bool, xs: seq<u32>, ys: seq<u32>, zs: seq<u32>, nx: int, x: int, ny: int, y: int,
                        nz: int, z: int, c: bit, carry: bit, w: Size, i: nat)
    requires |zs| == i + 1 && Combine(sub, nz, c * Weight(w, i)) == Combine(sub, nx, ny)
    requires Number(xs, w) == nx + x * Weight(w, i) && Number(ys, w) == ny + y * Weight(w, i)
             && Number(zs, w) == nz + z * Weight(w, i)
    requires Combine(sub, z, carry * Modulus(w)) == Combine(sub, Combine(sub, x, y), c)
    ensures CombinedUnsigned(sub, xs, ys, zs, carry, w)
  {
    hide Number, Combine, Modulus;
    LimbArithmetic(sub, nx, x, ny, y, nz, z, c, carry, Modulus(w), Weight(w, i));
  }

  lemma OneLimbSigned(sub: bool, xs: seq<u32>, ys: seq<u32>, zs: seq<u32>, nx: int, sx: int, ny: int, sy: int,
                      nz: nat, sz: int, c: bit, overflow: bit, w: Size, i: nat)
    requires |xs| == i + 1 && nz < Weight(w, i) && Combine(sub, nz, c * Weight(w, i)) == Combine(sub, nx, ny)
    requires SignedNumber(xs, w) == nx + sx * Weight(w, i) && SignedNumber(ys, w) == ny + sy * Weight(w, i)
             && SignedNumber(zs, w) == nz + sz * Weight(w, i)
    requires var t := Combine(sub, Combine(sub, sx, sy), c);
             (overflow == 1 <==> !FitsSigned(t, w)) && (overflow == 0 ==> sz == t)
    ensures CombinedSigned(sub, xs, ys, zs, overflow, w)
  {
    hide SignedNumber, Combine, FitsSigned, Weight;
    SignedLimb(sub, nx, sx, ny, sy, nz, c, w, Weight(w, i));
  }

  lemma LimbArithmetic(sub: bool, nx: int, x: int, ny: int, y: int, nz: int, z: int, c: int, carry: int, m: pos, p: pos)
    requires Combine(sub, nz, c * p) == Combine(sub, nx, ny)
    requires Combine(sub, z, carry * m) == Combine(sub, Combine(sub, x, y), c)
    ensures Combine(sub, nz + z * p, carry * (m * p)) == Combine(sub, nx + x * p, ny + y * p)
  {
    TopDigit(sub, nz, nx, x, ny, y, c, p);
    MulDistributes(z, Combine(sub, 0, carry * m), p);
    MulAssociates(carry, m, p);
    MulSigns(carry * m, p);
  }

  lemma SignedLimb(sub: bool, nx: int, sx: int, ny: int, sy: int, nz: nat, c: int, w: Size, p: pos)
    requires nz < p && Combine(sub, nz, c * p) == Combine(sub, nx, ny)
    ensures var t, sum := Combine(sub, Combine(sub, sx, sy), c), Combine(sub, nx + sx * p, ny + sy * p);
            sum == nz + t * p && (-((Half(w) * p) as int) <= sum < Half(w) * p <==> FitsSigned(t, w))
  {
    TopDigit(sub, nz, nx, sx, ny, sy, c, p);
    RangeOfTopDigit(nz, Combine(sub, Combine(sub, sx, sy), c), Half(w), p);
  }

  /** What one operation with carry says about its limb. */
  lemma LimbSum(sub: bool, x: u32, y: u32, c: bit, w: Size)
    requires x < Modulus(w) && y < Modulus(w)
    ensures var z, f, t := LimbOf(sub, x, y, c, w), LimbFlags(sub, x, y, c, w),
                           Combine(sub, Combine(sub, AsSigned(x, w), AsSigned(y, w)), c);
            && Combine(sub, z, f.CF * Modulus(w)) == Combine(sub, Combine(sub, x, y), c)
            && (f.OF == 1 <==> !FitsSigned(t, w))
            && (f.OF == 0 ==> AsSigned(z, w) == t)
  {
    if sub {
      LimbDifference(x, y, c, w);
    } else {
      LimbAddition(x, y, c, w);
    }
    hide SumOf, SumFlags, DifferenceOf, DifferenceFlags, AsSigned, FitsSigned;
  }

  lemma LimbAddition(x: u32, y: u32, c: bit, w: Size)
    requires x < Modulus(w) && y < Modulus(w)
    ensures var z, f, t := SumOf(y, x, c, w), SumFlags(y, x, c, w), AsSigned(x, w) + AsSigned(y, w) + c;
            && z + f.CF * Modulus(w) == x + y + c
            && (f.OF == 1 <==> !FitsSigned(t, w)) && (f.OF == 0 ==> AsSigned(z, w) == t)
  {
    hide Ones;
  }

  lemma LimbDifference(x: u32, y: u32, c: bit, w: Size)
    requires x < Modulus(w) && y < Modulus(w)
    ensures var z, f, t := DifferenceOf(y, x, c, w), DifferenceFlags(y, x, c, w), AsSigned(x, w) - AsSigned(y, w) - c;
            && z - f.CF * Modulus(w) == x - y - c
            && (f.OF == 1 <==> !FitsSigned(t, w)) && (f.OF == 0 ==> AsSigned(z, w) == t)
  {
    hide Ones;
  }

  /** Combining digits on top of two numbers whose lower parts leave nz and a carry. */
  lemma TopDigit(sub: bool, nz: int, nx: int, x: int, ny: int, y: int, c: int, p: int)
    requires Combine(sub, nz, c * p) == Combine(sub, nx, ny)
    ensures nz + Combine(sub, Combine(sub, x, y), c) * p == Combine(sub, nx + x * p, ny + y * p)
  {
    var y', c' := Combine(sub, 0, y), Combine(sub, 0, c);
    MulSigns(y, p);
    MulSigns(c, p);
    MulDistributes(x + y', c', p);
    MulDistributes(x, y', p);
  }

  lemma RangeOfTopDigit(low: nat, t: int, h: pos, p: pos)
    requires low < p
    ensures -((h * p) as int) <= low + t * p < h * p <==> -(h as int) <= t < h
  {
    if t < -(h as int) {
      MulMonotone(h + 1, -t, p);
      MulSigns(t, p);
      MulDistributes(h, 1, p);
    } else if t < h {
      MulSigns(t, p);
      if t < 0 {
        MulMonotone(-t, h, p);
      } else {
        MulMonotone(t + 1, h, p);
        MulDistributes(t, 1, p);
      }
    } else {
      MulMonotone(h, t, p);
    }
  }
}
