/** The integer ALU: fixed-width arithmetic on 8-, 16- and 32-bit operands and its flags. */
module Alu {
  import opened MachineInts

  type Size = w: int | w == 8 || w == 16 || w == 32 witness 8

  datatype Flags = Flags(CF: bit, OF: bit, SF: bit, ZF: bit, PF: bit)

  function Modulus(w: Size): pos
  {
    if w == 8 then 0x100 else if w == 16 then 0x1_0000 else 0x1_0000_0000
  }

  function Half(w: Size): pos
  {
    if w == 8 then 0x80 else if w == 16 then 0x8000 else 0x8000_0000
  }

  /** The low w bits of a C integer, also of a negative one. */
  function Cut(x: int, w: Size): (r: u32)
    ensures r < Modulus(w)
    ensures 0 <= x < Modulus(w) ==> r == x
    ensures Modulus(w) <= x < 2 * Modulus(w) ==> r == x - Modulus(w)
    ensures -(Modulus(w) as int) <= x < 0 ==> r == x + Modulus(w)
  {
    if w == 8 then x % 0x100 else if w == 16 then x % 0x1_0000 else x % 0x1_0000_0000
  }

  /** Cutting depends only on the value modulo 2^w, of which 2^32 is a multiple. */
  lemma CutAbsorbs(x: int, k: int, w: Size)
    ensures Cut(x + k * 0x1_0000_0000, w) == Cut(x, w)
    ensures Cut(x + k * Modulus(w), w) == Cut(x, w)
  {
    if w == 8 {
      ModAbsorbs8(x, k);
      ModAbsorbs8(x, k * 0x100_0000);
    } else if w == 16 {
      ModAbsorbs16(x, k);
      ModAbsorbs16(x, k * 0x1_0000);
    } else {
      ModAbsorbs32(x, k);
    }
  }

  lemma ModAbsorbs8(x: int, k: int)
    ensures (x + k * 0x100) % 0x100 == x % 0x100
  {
  }

  lemma ModAbsorbs16(x: int, k: int)
    ensures (x + k * 0x1_0000) % 0x1_0000 == x % 0x1_0000
  {
  }

  lemma ModAbsorbs32(x: int, k: int)
    ensures (x + k * 0x1_0000_0000) % 0x1_0000_0000 == x % 0x1_0000_0000
  {
  }

  /** What the cut leaves out. */
  function High(x: int, w: Size): (h: int)
    ensures Cut(x, w) + h * Modulus(w) == x
  {
    if w == 8 then x / 0x100 else if w == 16 then x / 0x1_0000 else x / 0x1_0000_0000
  }

  /** The sizes are powers of two, and cutting leaves the residue. */
  lemma CutIsResidue(x: int, w: Size)
    ensures Modulus(w) == Pow2(w) && Half(w) == Pow2(w - 1)
    ensures Cut(x, w) == x % Pow2(w)
  {
    SizesArePowers();
  }

  lemma SizesArePowers()
    ensures Pow2(8) == 0x100 && Pow2(16) == 0x1_0000 && Pow2(32) == 0x1_0000_0000
    ensures Pow2(7) == 0x80 && Pow2(15) == 0x8000 && Pow2(31) == 0x8000_0000
  {
    Pow2Add(8, 8);
    Pow2Add(16, 16);
    Pow2Add(8, 7);
    Pow2Add(16, 15);
  }

  lemma CutOfSum(x: int, y: int, w: Size)
    ensures Cut(Cut(x, w) + y, w) == Cut(x + y, w)
    ensures Cut(x + Cut(y, w), w) == Cut(x + y, w)
  {
    CutAbsorbs(Cut(x, w) + y, High(x, w), w);
    CutAbsorbs(x + Cut(y, w), High(y, w), w);
    var hx, hy := High(x, w) * Modulus(w), High(y, w) * Modulus(w);
    hide Cut, High, Modulus;
    assert Cut(x, w) + y + hx == x + y;
    assert x + Cut(y, w) + hy == x + y;
  }

  lemma CutOfWrap(x: int, w: Size)
    ensures Cut(Wrap32(x), w) == Cut(x, w)
  {
    CutAbsorbs(Wrap32(x), x / 0x1_0000_0000, w);
  }

  /** The two's-complement reading of the low w bits. */
  function AsSigned(x: int, w: Size): int
  {
    var c: int := Cut(x, w);
    if c < Half(w) then c else c - Modulus(w)
  }

  /** It is the one number of w signed bits that is congruent to x. */
  lemma SignedIsCongruent(x: int, w: Size)
    ensures -(Pow2(w - 1) as int) <= AsSigned(x, w) < Pow2(w - 1) && (x - AsSigned(x, w)) % Pow2(w) == 0
  {
    CutIsResidue(x, w);
    var h := High(x, w) + if AsSigned(x, w) < 0 then 1 else 0;
    assert x - AsSigned(x, w) == h * Modulus(w);
    DivisionIs(x - AsSigned(x, w), Modulus(w), h, 0);
  }

  function ToI32(x: u32): i32 { if x < 0x8000_0000 then x else x - 0x1_0000_0000 }

  function Bit(b: bool): bit { if b then 1 else 0 }

  // ----- what the flags mean -----

  predicate FitsSigned(x: int, w: Size) { -(Half(w) as int) <= x < Half(w) }

  /** The number of ones among the k lowest bits. */
  function Ones(x: nat, k: nat): nat
  {
    if k == 0 then 0 else x % 2 + Ones(x / 2, k - 1)
  }

  /** SF, ZF and PF describe the result r; carry and overflow are given. */
  function FlagsOf(carry: bool, overflow: bool, r: nat, w: Size): Flags
  {
    Flags(Bit(carry), Bit(overflow), Bit(Negative(r, w)), Bit(Cut(r, w) == 0), Bit(Ones(r, 8) % 2 == 0))
  }

  /** The five flags by the numbers they are about; PF says that the low byte has an even number of ones. */
  lemma FlagsMean(carry: bool, overflow: bool, r: nat, w: Size)
    requires r < Pow2(w)
    ensures var f := FlagsOf(carry, overflow, r, w);
            && (f.CF == 1 <==> carry) && (f.OF == 1 <==> overflow)
            && (f.ZF == 1 <==> r == 0) && (f.SF == 1 <==> r >= Pow2(w - 1))
            && (f.PF == 1 <==> (r % 2 + r / 2 % 2 + r / 4 % 2 + r / 8 % 2
                                + r / 16 % 2 + r / 32 % 2 + r / 64 % 2 + r / 128 % 2) % 2 == 0)
  {
    CutIsResidue(r, w);
    OnesOfByte(r);
  }

  /** One summand for each bit of the low byte. */
  lemma OnesOfByte(x: nat)
    ensures Ones(x, 8) == x % 2 + x / 2 % 2 + x / 4 % 2 + x / 8 % 2
                          + x / 16 % 2 + x / 32 % 2 + x / 64 % 2 + x / 128 % 2
  {
    hide Ones;
    OnesOfFour(x, 8);
    OnesOfFour(x / 16, 4);
    assert x / 16 / 2 == x / 32 && x / 16 / 4 == x / 64 && x / 16 / 8 == x / 128;
  }

  lemma OnesOfFour(x: nat, k: nat)
    requires k >= 4
    ensures Ones(x, k) == x % 2 + x / 2 % 2 + x / 4 % 2 + x / 8 % 2 + Ones(x / 16, k - 4)
    ensures k == 4 ==> Ones(x / 16, k - 4) == 0
  {
    hide Ones;
    OnesOfTwo(x, k);
    OnesOfTwo(x / 4, k - 2);
    assert x / 4 / 2 == x / 8 && x / 4 / 4 == x / 16;
  }

  lemma OnesOfTwo(x: nat, k: nat)
    requires k >= 2
    ensures Ones(x, k) == x % 2 + x / 2 % 2 + Ones(x / 4, k - 2)
    ensures k == 2 ==> Ones(x / 4, k - 2) == 0
  {
    assert Ones(x / 2, k - 1) == x / 2 % 2 + Ones(x / 2 / 2, k - 2);
  }

  function SumOf(src: int, dest: int, c: bit, w: Size): (r: u32)
    ensures r < Modulus(w)
  { Cut(Cut(src, w) + Cut(dest, w) + c, w) }

  function SumFlags(src: int, dest: int, c: bit, w: Size): Flags
  {
    FlagsOf(Cut(src, w) + Cut(dest, w) + c >= Modulus(w),
            !FitsSigned(AsSigned(src, w) + AsSigned(dest, w) + c, w),
            SumOf(src, dest, c, w), w)
  }

  /** The result is the sum of the uncut operands modulo 2^w. */
  lemma SumIsResidue(src: int, dest: int, c: bit, w: Size)
    ensures SumOf(src, dest, c, w) == (src + dest + c) % Pow2(w)
  {
    CutOfSum(src, Cut(dest, w) + c, w);
    CutOfSum(src + c, dest, w);
    CutIsResidue(src + dest + c, w);
    hide Cut;
    assert src + (Cut(dest, w) + c) == src + c + Cut(dest, w);
    assert src + c + dest == src + dest + c;
  }

  function DifferenceOf(src: int, dest: int, c: bit, w: Size): (r: u32)
    ensures r < Modulus(w)
  { Cut(Cut(dest, w) - Cut(src, w) - c, w) }

  lemma DifferenceIsResidue(src: int, dest: int, c: bit, w: Size)
    ensures DifferenceOf(src, dest, c, w) == (dest - src - c) % Pow2(w)
  {
    var h := High(src, w);
    CutOfSum(dest, -(Cut(src, w) as int) - c, w);
    CutAbsorbs(dest - src - c, h, w);
    CutIsResidue(dest - src - c, w);
    hide Cut;
    assert dest + (-(Cut(src, w) as int) - c) == dest - src - c + h * Modulus(w);
  }

  function DifferenceFlags(src: int, dest: int, c: bit, w: Size): Flags
  {
    FlagsOf(Cut(dest, w) - Cut(src, w) - c < 0,
            !FitsSigned(AsSigned(dest, w) - AsSigned(src, w) - c, w),
            DifferenceOf(src, dest, c, w), w)
  }

  /** The sign test of the code: an arithmetic shift, truncated to 8 bits. */
  predicate Positive(x: i32, w: Size)
  {
    (if w == 8 then x / 0x80 else if w == 16 then x / 0x8000 else x / 0x8000_0000) % 0x100 == 0
  }

  predicate Negative(x: int, w: Size) { AsSigned(x, w) < 0 }

  lemma PositiveIsSign(x: u32, w: Size)
    requires x < Modulus(w)
    ensures Positive(ToI32(x), w) <==> !Negative(Cut(x, w), w)
  {
  }

  /** Equal signs give a different one. */
  predicate SumSigns(a: int, b: int, r: int, w: Size)
  {
    Negative(Cut(a, w), w) == Negative(Cut(b, w), w) && Negative(Cut(r, w), w) != Negative(Cut(a, w), w)
  }

  /** Unequal signs lose the first operand's sign. */
  predicate DifferenceSigns(a: int, b: int, r: int, w: Size)
  {
    Negative(Cut(a, w), w) != Negative(Cut(b, w), w) && Negative(Cut(r, w), w) != Negative(Cut(a, w), w)
  }

  lemma SumOfI32(a: u32, b: u32, w: Size)
    ensures Cut(ToI32(a) as int + ToI32(b), w) == Cut(a as int + b, w)
  {
    CutAbsorbs(ToI32(a) as int + ToI32(b), (if a < 0x8000_0000 then 0 else 1) + (if b < 0x8000_0000 then 0 else 1), w);
  }

  /** The sign tests recognise signed overflow, with or without a carry in. */
  lemma SumOverflow(a: int, b: int, c: bit, w: Size)
    ensures !FitsSigned(AsSigned(a, w) + AsSigned(b, w) + c, w) <==> SumSigns(a, b, SumOf(a, b, c, w), w)
  {
  }

  lemma DifferenceOverflow(a: int, b: int, c: bit, w: Size)
    ensures !FitsSigned(AsSigned(a, w) - AsSigned(b, w) - c, w)
            <==> DifferenceSigns(a, b, DifferenceOf(b, a, c, w), w)
  {
  }

  lemma SumFlagsBySigns(src: int, dest: int, c: bit, w: Size)
    ensures var r := SumOf(src, dest, c, w);
            SumFlags(src, dest, c, w)
            == FlagsOf(Cut(src, w) + Cut(dest, w) + c >= Modulus(w), SumSigns(src, dest, r, w), r, w)
  {
    SumOverflow(src, dest, c, w);
  }

  lemma DifferenceFlagsBySigns(src: int, dest: int, c: bit, w: Size)
    ensures var r := DifferenceOf(src, dest, c, w);
            DifferenceFlags(src, dest, c, w)
            == FlagsOf(Cut(dest, w) - Cut(src, w) - c < 0, DifferenceSigns(dest, src, r, w), r, w)
  {
    DifferenceOverflow(dest, src, c, w);
  }

  class Cpu {
    var eflags: Flags

    method SetOFAdd(a0: u32, b0: u32, w: Size)
      modifies this
      ensures eflags == old(eflags).(OF := Bit(SumSigns(a0, b0, SumOf(a0, b0, 0, w), w)))
    {
      var a, b := ToI32(Cut(ToI32(a0), w)), ToI32(Cut(ToI32(b0), w));
      var r := ToI32(Cut(a as int + b, w));
      SignedBits(a0, w);
      SignedBits(b0, w);
      PositiveIsSign(Cut(a0, w), w);
      PositiveIsSign(Cut(b0, w), w);
      PositiveIsSign(Cut(a as int + b, w), w);
      SumOfI32(Cut(a0, w), Cut(b0, w), w);
      hide Cut, AsSigned, Positive, ToI32;
      if Positive(a, w) == Positive(b, w) && Positive(r, w) != Positive(a, w) {
        eflags := eflags.(OF := 1);
      } else {
        eflags := eflags.(OF := 0);
      }
    }

    method SetOFSub(a0: u32, b0: u32, result: u32, w: Size)
      requires result < Modulus(w)
      modifies this
      ensures eflags == old(eflags).(OF := Bit(DifferenceSigns(a0, b0, result, w)))
    {
      var a, b := ToI32(Cut(ToI32(a0), w)), ToI32(Cut(ToI32(b0), w));
      SignedBits(a0, w);
      SignedBits(b0, w);
      PositiveIsSign(Cut(a0, w), w);
      PositiveIsSign(Cut(b0, w), w);
      PositiveIsSign(result, w);
      hide Cut, AsSigned, Positive, ToI32;
      if Positive(a, w) != Positive(b, w) && Positive(a, w) != Positive(ToI32(result), w) {
        eflags := eflags.(OF := 1);
      } else {
        eflags := eflags.(OF := 0);
      }
    }

    method SetSF(result: u32, w: Size)
      requires result < Modulus(w)
      modifies this
      ensures eflags == old(eflags).(SF := Bit(Negative(result, w)))
    {
      PositiveIsSign(result, w);
      if Positive(ToI32(result), w) {
        eflags := eflags.(SF := 0);
      } else {
        eflags := eflags.(SF := 1);
      }
    }

    method SetZF(result: u32, w: Size)
      modifies this
      ensures eflags == old(eflags).(ZF := Bit(Cut(result, w) == 0))
    {
      if Cut(result, w) == 0 {
        eflags := eflags.(ZF := 1);
      } else {
        eflags := eflags.(ZF := 0);
      }
    }

    method SetCFAdd(a0: u32, b0: u32, w: Size)
      modifies this
      ensures eflags == old(eflags).(CF := Bit(Cut(a0, w) + Cut(b0, w) >= Modulus(w)))
    {
      var a, b := Cut(a0, w), Cut(b0, w);
      var r := Cut(Wrap32(a as int + b), w);
      if r < a {
        eflags := eflags.(CF := 1);
      } else {
        eflags := eflags.(CF := 0);
      }
    }

    method SetCFSub(a: u32, b: u32)
      modifies this
      ensures eflags == old(eflags).(CF := Bit(a < b))
    {
      if a < b {
        eflags := eflags.(CF := 1);
      } else {
        eflags := eflags.(CF := 0);
      }
    }

    method SetPF(x0: u32)
      modifies this
      ensures eflags == old(eflags).(PF := Bit(Ones(x0, 8) % 2 == 0))
      ensures eflags.PF == 1 <==> (x0 % 2 + x0 / 2 % 2 + x0 / 4 % 2 + x0 / 8 % 2
                                   + x0 / 16 % 2 + x0 / 32 % 2 + x0 / 64 % 2 + x0 / 128 % 2) % 2 == 0
    {
      OnesOfByte(x0);
      var x, count := x0, 0;
      for i := 0 to 8
        invariant eflags == old(eflags)
        invariant count + Ones(x, 8 - i) == Ones(x0, 8)
      {
        if x % 2 == 1 {
          count := count + 1;
        }
        x := x / 2;
      }
      if count % 2 == 1 {
        eflags := eflags.(PF := 0);
      } else {
        eflags := eflags.(PF := 1);
      }
    }

    method AluAdd(src: u32, dest: u32, w: Size) returns (result: u32)
      modifies this
      ensures result == SumOf(src, dest, 0, w)
      ensures eflags == SumFlags(src, dest, 0, w)
    {
      hide Cut, Ones, SumFlags, SumSigns, SumOf, Negative;
      SumOfCut(src, dest, w);
      SumFlagsBySigns(src, dest, 0, w);
      result := Wrap32(src as int + dest);
      result := Cut(result, w);
      SetOFAdd(src, dest, w);
      SetSF(result, w);
      SetZF(result, w);
      SetCFAdd(src, dest, w);
      SetPF(result);
    }

    method AluAdc(src0: u32, dest0: u32, w: Size) returns (result: u32)
      modifies this
      ensures result == SumOf(src0, dest0, old(eflags).CF, w)
      ensures eflags == SumFlags(src0, dest0, old(eflags).CF, w)
    {
      hide Ones, SumFlags, SumOf, AsSigned;
      ghost var c := eflags.CF;
      var src, dest := Cut(src0, w), Cut(dest0, w);
      CarryInTwoSteps(src0, dest0, c, w);
      SumFlagsBySigns(src0, dest0, c, w);
      SumFlagsBySigns(src, c, 0, w);
      SumFlagsBySigns(SumOf(src, c, 0, w), dest, 0, w);
      PositiveIsSign(src, w);
      PositiveIsSign(dest, w);
      PositiveIsSign(SumOf(src0, dest0, c, w), w);
      hide Cut, Positive, Negative, ToI32;
      var a := AluAdd(src, eflags.CF, w);
      var backup := eflags.CF;
      result := AluAdd(a, dest, w);
      eflags := eflags.(CF := if eflags.CF == 1 || backup == 1 then 1 else 0);
      if Positive(ToI32(src), w) == Positive(ToI32(dest), w) && Positive(ToI32(src), w) != Positive(ToI32(result), w) {
        eflags := eflags.(OF := 1);
      } else {
        eflags := eflags.(OF := 0);
      }
    }

    method AluSub(src0: u32, dest0: u32, w: Size) returns (result: u32)
      modifies this
      ensures result == DifferenceOf(src0, dest0, 0, w)
      ensures eflags == DifferenceFlags(src0, dest0, 0, w)
    {
      hide Ones, SumFlags, DifferenceFlags, DifferenceSigns, SumOf, Negative, AsSigned;
      var src, dest := Cut(src0, w), Cut(dest0, w);
      NegatedSum(src0, dest0, w);
      DifferenceFlagsBySigns(src0, dest0, 0, w);
      SignsOfCut(dest0, src0, DifferenceOf(src0, dest0, 0, w), w);
      hide Cut, DifferenceOf;
      result := AluAdd(dest, Wrap32(-(src as int)), w);
      SetOFSub(dest, src, result, w);
      SetSF(result, w);
      SetZF(result, w);
      SetPF(result);
      SetCFSub(dest, src);
    }

    method AluSbb(src0: u32, dest0: u32, w: Size) returns (result: u32)
      modifies this
      ensures result == DifferenceOf(src0, dest0, old(eflags).CF, w)
      ensures eflags == DifferenceFlags(src0, dest0, old(eflags).CF, w)
    {
      hide Ones, DifferenceFlags, DifferenceSigns, Negative, AsSigned;
      var src, dest := Cut(src0, w), Cut(dest0, w);
      var backup := eflags.CF;
      BorrowInTwoSteps(src0, dest0, backup, w);
      DifferenceFlagsBySigns(src0, dest0, backup, w);
      DifferenceFlagsBySigns(src, dest, 0, w);
      DifferenceFlagsBySigns(backup, DifferenceOf(src, dest, 0, w), 0, w);
      SignsOfCut(dest0, src0, DifferenceOf(src0, dest0, backup, w), w);
      hide Cut, DifferenceOf;
      var a := AluSub(src, dest, w);
      var stage1 := eflags.CF;
      result := AluSub(backup, a, w);
      SetOFSub(dest, src, result, w);
      SetSF(result, w);
      SetZF(result, w);
      SetPF(result);
      eflags := eflags.(CF := if eflags.CF == 1 || stage1 == 1 then 1 else 0);
    }

    // ----- shifts -----

    /** dest * 2^count mod 2^w; CF is the last bit shifted out. */
    method AluShl(src0: u32, dest0: u32, w: Size) returns (dest: u32)
      modifies this
      ensures var n := Cut(src0, w);
              && dest == Shl(Cut(dest0, w), n, w)
              && eflags == FlagsOf(
                   if n == 0 then old(eflags).CF == 1 else TopBit(Shl(Cut(dest0, w), n - 1, w), w),
                   if n == 1 then TopBit(dest, w) != TopBit(Cut(dest0, w), w) else old(eflags).OF == 1,
                   dest, w)
    {
      hide Ones, Negative, Cut;
      var src := Cut(src0, w);
      dest := Cut(dest0, w);
      var count := src;
      ghost var done := 0;
      ShlZero(dest, w);
      while count != 0
        invariant count as int + done == src
        invariant dest == Shl(Cut(dest0, w), done, w)
        invariant eflags == if done == 0 then old(eflags)
                            else old(eflags).(CF := Bit(TopBit(Shl(Cut(dest0, w), done - 1, w), w)))
        decreases count
      {
        ShlStep(Cut(dest0, w), done, w);
        TopBitOf(dest, w);
        hide Shl, TopBit;
        eflags := eflags.(CF := if w == 8 then dest / 0x80 % 2 else if w == 16 then dest / 0x8000 % 2 else dest / 0x8000_0000 % 2);
        dest := Wrap32(dest as int * 2);
        dest := Cut(dest, w);
        count := count - 1;
        done := done + 1;
      }
      if src == 1 {
        eflags := eflags.(OF := Bit(Bit(TopBit(dest, w)) != eflags.CF));
      }
      SetZF(dest, w);
      SetPF(dest);
      SetSF(dest, w);
    }

    /** floor(dest / 2^count); CF is the last bit shifted out. */
    method AluShr(src0: u32, dest0: u32, w: Size) returns (dest: u32)
      modifies this
      ensures var n := Cut(src0, w);
              && dest == FloorShift(Cut(dest0, w), n)
              && eflags == FlagsOf(
                   if n == 0 then old(eflags).CF == 1 else FloorShift(Cut(dest0, w), n - 1) % 2 == 1,
                   if n == 1 then false else old(eflags).OF == 1,
                   dest, w)
    {
      hide Ones, Negative, Cut, FloorShift;
      var src := Cut(src0, w);
      dest := Cut(dest0, w);
      var count := src;
      ghost var done := 0;
      FloorShiftZero(dest);
      while count != 0
        invariant count as int + done == src
        invariant dest == FloorShift(Cut(dest0, w), done) && dest < Modulus(w)
        invariant done > 0 ==> dest < Half(w)
        invariant eflags == if done == 0 then old(eflags)
                            else old(eflags).(CF := Bit(FloorShift(Cut(dest0, w), done - 1) % 2 == 1))
        decreases count
      {
        FloorShiftStep(Cut(dest0, w), done);
        eflags := eflags.(CF := dest % 2);
        dest := dest / 2;
        dest := Cut(dest, w);
        count := count - 1;
        done := done + 1;
      }
      if src == 1 {
        eflags := eflags.(OF := Bit(TopBit(dest, w)));
      }
      SetZF(dest, w);
      SetPF(dest);
      SetSF(dest, w);
    }

    /** floor(signed dest / 2^count) mod 2^w; CF is the last bit shifted out. */
    method AluSar(src0: u32, dest0: u32, w: Size) returns (result: u32)
      modifies this
      ensures var n := Cut(src0, w);
              && result == Cut(FloorShift(AsSigned(dest0, w), n), w)
              && eflags == FlagsOf(
                   if n == 0 then old(eflags).CF == 1 else FloorShift(AsSigned(dest0, w), n - 1) % 2 == 1,
                   if n == 1 then false else old(eflags).OF == 1,
                   result, w)
    {
      var src := Cut(src0, w);
      var count := src;
      var r: i32 := AsSigned(Cut(dest0, w), w);
      hide Ones, Negative, Cut, FloorShift, AsSigned;
      ghost var done := 0;
      FloorShiftZero(r);
      while count != 0
        invariant count as int + done == src
        invariant r == FloorShift(AsSigned(dest0, w), done)
        invariant eflags == if done == 0 then old(eflags)
                            else old(eflags).(CF := Bit(FloorShift(AsSigned(dest0, w), done - 1) % 2 == 1))
        decreases count
      {
        FloorShiftStep(AsSigned(dest0, w), done);
        eflags := eflags.(CF := r % 2);
        r := r / 2;
        count := count - 1;
        done := done + 1;
      }
      result := Cut(r, w);
      if src == 1 {
        eflags := eflags.(OF := 0);
      }
      SetZF(result, w);
      SetPF(result);
      SetSF(result, w);
    }

    // ----- multiplication -----

    /** The exact unsigned product; CF and OF say whether it needs more than w bits. */
    method AluMul(src0: u32, dest0: u32, w: Size) returns (result: u64)
      modifies this
      ensures result == Cut(src0, w) * Cut(dest0, w)
      ensures eflags == old(eflags).(CF := Bit(result >= Modulus(w)), OF := Bit(result >= Modulus(w)))
    {
      var src, dest := Cut(src0, w), Cut(dest0, w);
      ProductRange(src, dest, w);
      var product := src as int * dest as int;
      HighHalfIsZero(product, w);
      hide HighHalf;
      if w != 32 {
        result := Cut(Wrap32(product), 2 * w);
      } else {
        result := product;
      }
      var high := HighHalf(result, w);
      if high == 0 {
        eflags := eflags.(CF := 0, OF := 0);
      } else {
        eflags := eflags.(CF := 1, OF := 1);
      }
    }

    /** The exact signed product; CF and OF say whether it is out of range for w bits. */
    method AluImul(src0: i32, dest0: i32, w: Size) returns (result: i64)
      modifies this
      ensures result == AsSigned(src0, w) * AsSigned(dest0, w)
      ensures eflags == old(eflags).(CF := Bit(!FitsSigned(result, w)), OF := Bit(!FitsSigned(result, w)))
    {
      var src: i32, dest: i32 := AsSigned(Cut(src0, w), w), AsSigned(Cut(dest0, w), w);
      SignedProductRange(src, dest, w);
      result := src as int * dest as int;
      hide Cut;
      NarrowAndWide(result, w);
      var fits := if w == 8 then AsSigned(result, 16) == AsSigned(result, 8)
                  else if w == 16 then AsSigned(result, 32) == AsSigned(result, 16)
                  else result == AsSigned(result, 32);
      if fits {
        eflags := eflags.(CF := 0, OF := 0);
      } else {
        eflags := eflags.(CF := 1, OF := 1);
      }
    }
  }

  /** The upper w bits of a double-width product. */
  function HighHalf(x: nat, w: Size): u32
  {
    Cut(if w == 8 then x / 0x100 else if w == 16 then x / 0x1_0000 else x / 0x1_0000_0000, w)
  }

  lemma HighHalfIsZero(x: nat, w: Size)
    requires x < Modulus(w) * Modulus(w)
    ensures HighHalf(x, w) == 0 <==> x < Modulus(w)
  {
  }

  lemma ProductRange(x: nat, y: nat, w: Size)
    requires x < Modulus(w) && y < Modulus(w)
    ensures 0 <= x * y < Modulus(w) * Modulus(w)
  {
    MulMonotone(x, Modulus(w), y);
    MulStrict(y, Modulus(w), Modulus(w));
    MulMonotone(0, x, y);
  }

  lemma SignedProductRange(x: int, y: int, w: Size)
    requires FitsSigned(x, w) && FitsSigned(y, w)
    ensures -(Half(w) * Half(w)) <= x * y <= Half(w) * Half(w)
  {
    MulMonotone(Abs(x), Half(w), Abs(y));
    MulMonotone(Abs(y), Half(w), Half(w));
    MulSigns(x, y);
    MulSigns(-x, y);
  }

  lemma NarrowAndWide(x: int, w: Size)
    requires -(Half(w) * Half(w)) <= x <= Half(w) * Half(w)
    ensures FitsSigned(x, w) <==> x == AsSigned(x, w)
    ensures w == 8 ==> x == AsSigned(x, 16)
    ensures w == 16 ==> x == AsSigned(x, 32)
  {
  }

  // ----- signed division -----

  /** C division, which truncates towards zero. */
  function TruncDiv(n: int, d: int): int
    requires d != 0
  {
    var q := Abs(n) / Abs(d);
    if (n < 0) == (d < 0) then q else -q
  }

  function TruncRem(n: int, d: int): int
    requires d != 0
  {
    var r := Abs(n) % Abs(d);
    if n < 0 then -r else r
  }

  /** The remainder takes the dividend's sign and is smaller than the divisor. */
  lemma TruncatedDivision(n: int, d: int)
    requires d != 0
    ensures n == d * TruncDiv(n, d) + TruncRem(n, d)
    ensures Abs(TruncRem(n, d)) < Abs(d) && (n >= 0 ==> TruncRem(n, d) >= 0) && (n <= 0 ==> TruncRem(n, d) <= 0)
  {
    EuclideanDivision(Abs(n), Abs(d));
    SignedDivision(n, d, Abs(n) / Abs(d), Abs(n) % Abs(d));
  }

  lemma SignedDivision(n: int, d: int, q: nat, r: nat)
    requires Abs(n) == Abs(d) * q + r
    ensures n == d * (if (n < 0) == (d < 0) then q else -(q as int)) + (if n < 0 then -(r as int) else r)
    ensures n == 0 ==> r == 0
  {
    MulSigns(d, q);
  }

  lemma EuclideanDivision(n: nat, d: pos)
    ensures n == d * (n / d) + n % d && 0 <= n % d < d
  {
  }

  function Wrap64(x: int): i64
  {
    var c := x % 0x1_0000_0000_0000_0000;
    if c < 0x8000_0000_0000_0000 then c else c - 0x1_0000_0000_0000_0000
  }

  /** alu_idiv at 64 bits: the quotient is cut to an int32_t. */
  function AluIdiv64(src: i64, dest: i64): i32
    requires src != 0 && !(dest == -0x8000_0000_0000_0000 && src == -1)
  {
    AsSigned(TruncDiv(dest, src), 32)
  }

  /** The remainder computed from the cut quotient is right exactly when the true remainder
      is an int32_t at all. */
  method AluImod(src: i64, dest: i64) returns (res: i32)
    requires src != 0 && !(dest == -0x8000_0000_0000_0000 && src == -1)
    ensures res == TruncRem(dest, src) <==> -0x8000_0000 <= TruncRem(dest, src) < 0x8000_0000
    ensures Abs(src) <= 0x8000_0000 ==> res == TruncRem(dest, src)
    ensures res == AsSigned(TruncRem(dest, src), 32)
  {
    var quo := AluIdiv64(src, dest);
    res := AsSigned(Wrap64(dest as int - Wrap64(src as int * quo as int)), 32);
    CutQuotientKeepsRemainder(src, dest);
    RemainderFits(src, dest);
  }

  /** A divisor of 2^40 and a dividend of 2^35: the remainder is the dividend, but 0 is returned. */
  lemma CutRemainderExample(src: i64, dest: i64)
    requires src == 0x100_0000_0000 && dest == 0x8_0000_0000
    ensures TruncRem(dest, src) == 0x8_0000_0000
    ensures AsSigned(Wrap64(dest as int - Wrap64(src as int * AluIdiv64(src, dest) as int)), 32) == 0
  {
    assert TruncDiv(dest, src) == 0;
  }

  lemma CutQuotientKeepsRemainder(src: i64, dest: i64)
    requires src != 0 && !(dest == -0x8000_0000_0000_0000 && src == -1)
    ensures AsSigned(Wrap64(dest as int - Wrap64(src as int * AluIdiv64(src, dest) as int)), 32)
            == AsSigned(TruncRem(dest, src), 32)
  {
    hide TruncDiv, TruncRem, Cut, AsSigned, Wrap64;
    TruncatedDivision(dest, src);
    var r, q, quo := TruncRem(dest, src), TruncDiv(dest, src), AluIdiv64(src, dest);
    var k := QuotientCut(q);
    var p: int := src as int * quo as int;
    CutQuotientTimes(src, q, quo, k);
    WrappedDifference(dest, p, r, src as int * k);
  }

  lemma CutQuotientTimes(src: int, q: int, quo: int, k: int)
    requires q == quo + k * 0x1_0000_0000
    ensures src * q == src * quo + (src * k) * 0x1_0000_0000
  {
    MulDistributes(quo, k * 0x1_0000_0000, src);
    MulAssociates(src, k, 0x1_0000_0000);
    MulCommutes(src, q);
    MulCommutes(src, quo);
    MulCommutes(src, k * 0x1_0000_0000);
  }

  lemma WrappedDifference(dest: int, p: int, r: int, k: int)
    requires dest == p + k * 0x1_0000_0000 + r
    ensures AsSigned(Wrap64(dest - Wrap64(p)), 32) == AsSigned(r, 32)
  {
    var j := Wrap64Multiple(p);
    var t := Wrap64Multiple(dest - Wrap64(p));
    var m := k + j * 0x1_0000_0000 - t * 0x1_0000_0000;
    hide Wrap64, Cut;
    assert Wrap64(dest - Wrap64(p)) == r + m * 0x1_0000_0000;
    CutAbsorbs(r, m, 32);
  }

  lemma RemainderFits(src: i64, dest: i64)
    requires src != 0
    ensures var r := TruncRem(dest, src);
            && (AsSigned(r, 32) == r <==> -0x8000_0000 <= r < 0x8000_0000)
            && (Abs(src) <= 0x8000_0000 ==> -0x8000_0000 <= r < 0x8000_0000)
  {
    TruncatedDivision(dest, src);
    hide TruncRem;
  }

  lemma QuotientCut(q: int) returns (k: int)
    ensures q == AsSigned(q, 32) + k * 0x1_0000_0000
  {
    k := q / 0x1_0000_0000 + (if AsSigned(q, 32) < 0 then 1 else 0);
  }

  lemma Wrap64Multiple(x: int) returns (k: int)
    ensures x == Wrap64(x) + k * 0x1_0000_0000_0000_0000
  {
    k := x / 0x1_0000_0000_0000_0000 + (if Wrap64(x) < 0 then 1 else 0);
  }

  // ----- conditions -----

  predicate CondE(f: Flags) { f.ZF == 1 }
  predicate CondNE(f: Flags) { f.ZF == 0 }
  predicate CondA(f: Flags) { f.CF == 0 && f.ZF == 0 }
  predicate CondAE(f: Flags) { f.CF == 0 }
  predicate CondB(f: Flags) { f.CF == 1 }
  predicate CondBE(f: Flags) { f.CF == 1 || f.ZF == 1 }
  predicate CondNA(f: Flags) { f.CF == 1 || f.ZF == 1 }
  predicate CondG(f: Flags) { f.ZF == 0 && f.SF == f.OF }
  predicate CondGE(f: Flags) { f.SF == f.OF }
  predicate CondL(f: Flags) { f.SF != f.OF }
  predicate CondLE(f: Flags) { f.ZF == 1 || f.SF != f.OF }

  /** After a subtraction or comparison the condition codes order the operands. */
  lemma ConditionsCompare(src: int, dest: int, w: Size)
    ensures var f, d, s := DifferenceFlags(src, dest, 0, w), Cut(dest, w), Cut(src, w);
            && (CondE(f) <==> d == s) && (CondNE(f) <==> d != s)
            && (CondA(f) <==> d > s) && (CondAE(f) <==> d >= s)
            && (CondB(f) <==> d < s) && (CondBE(f) <==> d <= s) && (CondNA(f) <==> d <= s)
    ensures var f, d, s := DifferenceFlags(src, dest, 0, w), AsSigned(dest, w), AsSigned(src, w);
            && (CondG(f) <==> d > s) && (CondGE(f) <==> d >= s)
            && (CondL(f) <==> d < s) && (CondLE(f) <==> d <= s)
  {
    hide Ones;
  }

  // ----- closed forms of the shifts -----

  function Shl(x: nat, n: nat, w: Size): (r: u32)
    ensures r < Modulus(w)
  {
    Cut(x * Pow2(n), w)
  }

  /** The floor of x / 2^n, for negative x too. */
  function FloorShift(x: int, n: nat): int { x / Pow2(n) }

  predicate TopBit(x: nat, w: Size) { (if w == 8 then x / 0x80 else if w == 16 then x / 0x8000 else x / 0x8000_0000) % 2 == 1 }

  lemma TopBitIsHighest(x: nat, w: Size)
    ensures TopBit(x, w) <==> x / Pow2(w - 1) % 2 == 1
  {
    SizesArePowers();
  }

  lemma TopBitOf(x: nat, w: Size)
    ensures Bit(TopBit(x, w)) == (if w == 8 then x / 0x80 else if w == 16 then x / 0x8000 else x / 0x8000_0000) % 2
  {
  }

  lemma ShlZero(x: nat, w: Size)
    requires x < Modulus(w)
    ensures Shl(x, 0, w) == x
  {
  }

  lemma ShlStep(x: nat, n: nat, w: Size)
    ensures Cut(Wrap32(Shl(x, n, w) as int * 2), w) == Shl(x, n + 1, w)
  {
    var y := x * Pow2(n);
    MulSwaps(x, 2, Pow2(n));
    CutOfWrap(Shl(x, n, w) as int * 2, w);
    CutOfSum(y, Cut(y, w), w);
    CutOfSum(y, y, w);
    hide Cut;
  }

  lemma FloorShiftZero(x: int)
    ensures FloorShift(x, 0) == x
  {
  }

  lemma FloorShiftStep(x: int, n: nat)
    ensures FloorShift(x, n) / 2 == FloorShift(x, n + 1)
  {
    DivTwice(x, Pow2(n));
  }

  /** Halving a floored quotient floors the quotient by twice the divisor. */
  lemma DivTwice(x: int, p: pos)
    ensures (x / p) / 2 == x / (2 * p)
  {
    var q := x / p;
    var h, b := q / 2, q % 2;
    var t := b * p + x % p;
    assert x == q * p + x % p;
    assert q * p == h * (2 * p) + b * p by {
      MulDistributes(2 * h, b, p);
      MulSwaps(h, 2, p);
      MulAssociates(2, h, p);
    }
    assert 0 <= t < 2 * p;
    DivisionIs(x, 2 * p, h, t);
  }

  lemma CutTwice(x: int, w: Size)
    ensures Cut(Cut(x, w), w) == Cut(x, w)
  {
  }

  lemma SignsOfCut(a: int, b: int, r: int, w: Size)
    ensures DifferenceSigns(Cut(a, w), Cut(b, w), r, w) == DifferenceSigns(a, b, r, w)
  {
    hide Cut;
    CutTwice(a, w);
    CutTwice(b, w);
  }

  lemma CarryInTwoSteps(src: int, dest: int, c: bit, w: Size)
    ensures var s, d := Cut(src, w), Cut(dest, w);
            var a := SumOf(s, c, 0, w);
            && SumOf(a, d, 0, w) == SumOf(src, dest, c, w)
            && (Cut(s, w) + Cut(c, w) >= Modulus(w) || Cut(a, w) + Cut(d, w) >= Modulus(w)
                <==> Cut(src, w) + Cut(dest, w) + c >= Modulus(w))
  {
  }

  lemma BorrowInTwoSteps(src: int, dest: int, c: bit, w: Size)
    ensures var s, d := Cut(src, w), Cut(dest, w);
            var a := DifferenceOf(s, d, 0, w);
            && DifferenceOf(c, a, 0, w) == DifferenceOf(src, dest, c, w)
            && (Cut(d, w) - Cut(s, w) < 0 || Cut(a, w) - Cut(c, w) < 0 <==> Cut(dest, w) - Cut(src, w) - c < 0)
  {
  }

  lemma NegatedSum(src: int, dest: int, w: Size)
    ensures SumOf(Cut(dest, w), Wrap32(-(Cut(src, w) as int)), 0, w) == DifferenceOf(src, dest, 0, w)
  {
    var s, d := Cut(src, w), Cut(dest, w);
    CutOfWrap(-(s as int), w);
    CutOfSum(d, Wrap32(-(s as int)), w);
    CutOfSum(d, -(s as int), w);
  }

  lemma SumOfCut(x: int, y: int, w: Size)
    ensures Cut(Wrap32(x + y), w) == SumOf(x, y, 0, w)
  {
    CutOfWrap(x + y, w);
    CutOfSum(x, y, w);
    CutOfSum(Cut(x, w), y, w);
  }

  lemma SignedBits(x: u32, w: Size)
    ensures Cut(ToI32(x), w) == Cut(x, w) && AsSigned(ToI32(x), w) == AsSigned(x, w)
  {
    CutAbsorbs(ToI32(x), if x < 0x8000_0000 then 0 else 1, w);
  }
}
