# Verified model of the NEMU emulator, its kernel and its games

NEMU is an x86 emulator written in C, shipped with a small kernel and two games that run on it. This
project models the parts of the repository whose correctness is a matter of mathematics and states what
they compute, for all inputs and all runs:

* **Software floating point.** Addition, subtraction, multiplication and division of single-precision
  numbers with integer arithmetic, against the definition of correct rounding in sections 3.4, 4.3.1 and
  5.4.1 of IEEE 754-2008. A finite single is an integer multiple of 2^-149, so everything is stated on
  integers: `Ieee754.Round(n, d)` is the magnitude pattern nearest to n/d units, ties to even, and infinity
  stands where the next power of two would be. `Normalization` proves that a significand with a sticky bit
  stands for an exact value and that the whole normalisation rounds that value correctly. Addition and
  subtraction turn out right for every pair of operands. Multiplication and division do not: each is proved
  right **if and only if** a stated condition on the operands holds, and what it returns otherwise is
  proved too.
* **The ALU and the condition codes.** Results and flags of 8-, 16- and 32-bit operations agree with
  unbounded integer arithmetic, chains of ADD/ADC and SUB/SBB over any number of limbs compute the whole
  sum or difference, and the condition macros after a subtraction are exactly the unsigned and signed
  comparisons.
* **Linear memory and page tables.** Page-crossing accesses refine byte-by-byte access to a flat memory
  for every translation that keeps page offsets; the nested loops that fill the tables yield exactly the
  intended translations under the two-level walk of 32-bit paging (section 4.3 of Intel SDM Volume 3A).
* **The interrupt protocol.** Device threads and the CPU thread are a step machine around a mutex with two
  unlocked reads; the assertion, the priority and the masking are proved over all interleavings.
* **Data structures.** The breakpoint pool that patches program bytes, the pooled doubly linked list of the
  typing game, the file descriptor table, the clipped run-length blitters and the inventory.

Code that updates state step by step is a method over arrays, fields and loops, proved against a
specification; pure code is a function. Every file holds one module; `MachineInts`, `ByteSequences` and
`NodeLists` hold the shared vocabulary.

## Where the code and its intention differ

The code was kept as it is. In each case the condition under which it does what it is for is proved
to be exact, and a lemma shows an input outside it.

* Multiplication doubles a product whose unnormalised exponent is exactly 0 and whose significand is too
  short to be shifted (`SoftFloatMul.Mul`, `SoftFloatMul.MisscaledExample`). Products of normal numbers are
  never in that family.
* Division drops the remainder of the integer division, so a quotient just above a tie with an even lower
  neighbour rounds down. The condition is a test on the bits of the quotient (`SoftFloatDiv.Div`,
  `SoftFloatDiv.LosesRemainder`, `SoftFloatDiv.LostRemainderExample`).
* The remainder of a signed division is computed from a quotient cut to 32 bits and is right exactly when
  the true remainder fits 32 bits (`Alu.AluImod`, `Alu.CutRemainderExample`).
* Request 223 would be stored as the number that stands for no interrupt, and makes the assertion in
  `do_intr` fail (`InterruptProtocol.AssertionHoldsIff`, `InterruptProtocol.FailingRun`). With requests above
  it, or with it and any other, an interrupt can be delivered that is not the largest request
  (`InterruptProtocol.LargestIsDeliveredIff`, `InterruptProtocol.WrappedRun`,
  `InterruptProtocol.ForgottenRun`).
* A second breakpoint at one address saves the INT3 of the first as the program's byte
  (`Breakpoints.Monitor.SetThenDeleteAll`, `Breakpoints.RepeatedExample`).
* `check_boundary` compares the new offset with the file's place on the disk, as unsigned numbers, although
  its messages speak of the ends of the file (`FileSystem.SeekIff`, `FileSystem.SeekExamples`); the last file
  of the table lies over the first thirteen (`FileSystem.ApartIff`, `FileSystem.LastFileOverwrites`); and a
  transfer whose end wraps around 2^32 is not clipped (`FileSystem.ClipIff`, `FileSystem.UnclippedExample`).
* Jumps of the blitters over pixels right of the surface or above it lose visible pixels of some runs that
  cross the end of a row. Which runs is a condition on where the run starts and ends and on the place of the
  bitmap (`RleClipping.RunLosesIff`, `RleBlit.ExactIff`, `RleBlit.LosingAtTheRight`,
  `RleBlit.LosingAtTheTop`).
* Adding to an inventory slot wraps at 16 bits before it is capped at 99 (`Inventory.AdditionIff`,
  `Inventory.WrappedExample`).

## Model

| member | source | states |
|---|---|---|
| Ieee754.RoundIsNearestEven | nemu/src/cpu/fpu.c:68-228 | no magnitude pattern is nearer to the exact value than the rounded one, and of two equally near ones the even one is taken |
| Ieee754.NearestEvenIsRound | nemu/src/cpu/fpu.c:68-228 | conversely, a pattern that is nearest, with ties to even, is the rounded one: rounding is the only such function |
| Ieee754.RoundRatioIsNearest | nemu/src/cpu/fpu.c:68-228 | with signs: the rounded single has the sign of the exact value, no single is nearer to it, and an equally near one only when the rounded one is even |
| Ieee754.RoundScales | nemu/src/cpu/fpu.c:68-228 | rounding depends only on the ratio of numerator and denominator |
| Ieee754.RoundInBinade | nemu/src/cpu/fpu.c:174-213 | inside one binade, or below the normal numbers, the midpoint comparison decides between a fraction and its successor, including the carry into the next exponent |
| Ieee754.RoundsToInfinityIff | nemu/src/cpu/fpu.c:104-110 | a value rounds to infinity exactly when it is at least the midpoint after the largest finite number |
| Ieee754.RoundUnderflows | nemu/src/cpu/fpu.c:123-129 | a value below half the smallest subnormal rounds to zero |
| Normalization.StickyShift | nemu/src/cpu/fpu.c:95-101 | shifting right and keeping the lost bit in the lowest place still stands for the exact value |
| Normalization.StickyKeepsSide | nemu/src/cpu/fpu.c:177-208 | guard, round and sticky bits compare with one half exactly as the exact value does, so no sticky shift moves a value across a rounding boundary |
| Normalization.StickyShiftKeepsValue | nemu/src/cpu/fpu.c:95-101 | a sticky shift together with an increment of the exponent keeps the rounded value |
| Normalization.ShiftRight | nemu/src/cpu/fpu.c:89-102 | the shifting loop keeps the value to be rounded and ends in range, at the overflow limit or with at most the lowest bits left |
| Normalization.NormalizeRight | nemu/src/cpu/fpu.c:83-130 | the branch to the right ends in range with the same rounded value, or returns the correctly rounded infinity or zero |
| Normalization.NormalizeLeft | nemu/src/cpu/fpu.c:131-158 | the branch to the left, down to subnormals, keeps the value to be rounded |
| Normalization.BringIntoRange | nemu/src/cpu/fpu.c:75-170 | all branches before rounding keep the rounded value of the operand |
| Normalization.RoundOff | nemu/src/cpu/fpu.c:179-206 | rounding the guard bits to nearest even gives the correctly rounded fraction |
| Normalization.Normalize | nemu/src/cpu/fpu.c:68-228 | the packed result is the exact value rounded to nearest, ties to even, over the whole range, and the recursion after rounding up runs at most once more |
| FloatOperands.OperandIff | nemu/src/cpu/fpu.c:250-287 | finite numbers, infinities, NaNs and zeros by the order of their patterns; operands are all patterns but the other NaNs |
| FloatOperands.LookUp | nemu/src/cpu/fpu.c:253-259 | the search through a corner-case table finds an entry for the pair, or there is none |
| FloatOperands.UnpackOperand | nemu/src/cpu/fpu.c:437-448 | significand with the hidden bit, and the exponent at which a subnormal counts |
| FloatOperands.ProductOfValues | nemu/src/cpu/fpu.c:426-426 | the exclusive or of the sign bits is the sign of the product of two finite values, and its size the product of the magnitudes |
| SoftFloatAdd.Align | nemu/src/cpu/fpu.c:325-335 | after the alignment loop the smaller significand stands, with its sticky bit, for its exact value at the larger exponent |
| SoftFloatAdd.AddFractions | nemu/src/cpu/fpu.c:337-357 | the two's-complement addition in uint32_t gives sign and magnitude of the exact signed sum |
| SoftFloatAdd.AlignedSum | nemu/src/cpu/fpu.c:314-357 | a sum with a sticky operand still stands for the exact sum of the two operands |
| SoftFloatAdd.AlignedSumIsExact | nemu/src/cpu/fpu.c:314-357 | the exact value behind the aligned sum is the sum of the operands' values |
| SoftFloatAdd.AddOrdered | nemu/src/cpu/fpu.c:289-365 | for finite operands the result is their exact sum correctly rounded, subnormals, cancellation and overflow included |
| SoftFloatAdd.CornerSums | nemu/src/cpu/fpu.c:230-242 | every entry of the table is the sum the standard asks for |
| SoftFloatAdd.Add | nemu/src/cpu/fpu.c:250-366 | the sum of any two operands as IEEE 754-2008 defines it, with signed zeros, infinities and the two NaNs |
| SoftFloatAdd.SumIsNearest | nemu/src/cpu/fpu.c:250-366 | what the definition says of finite operands: the sign of the exact sum, no single nearer to it, ties to even |
| SoftFloatAdd.Sub | nemu/src/cpu/fpu.c:368-397 | the difference of any two operands as the standard defines it, which is the sum with the sign of the second flipped |
| SoftFloatAdd.FlipSignNegates | nemu/src/cpu/fpu.c:394-395 | flipping the sign bit negates the value of every operand |
| SoftFloatAdd.SumsCommute | nemu/src/cpu/fpu.c:250-366 | addition commutes on all operands |
| SoftFloatMul.Mul | nemu/src/cpu/fpu.c:399-459 | the product is the one the standard defines if and only if the operands are not misscaled; if they are, it is the correctly rounded double of the product; the sign of a finite product is always that of the exact one |
| SoftFloatMul.ProductIsNearest | nemu/src/cpu/fpu.c:399-459 | what the definition of the product says of finite operands: the sign of the exact product, no single nearer to it, ties to even |
| SoftFloatMul.MulFinite | nemu/src/cpu/fpu.c:436-458 | the same for the numeric branch, with the sign of the exact product |
| SoftFloatMul.ProductRounds | nemu/src/cpu/fpu.c:450-458 | what is handed to the normalisation rounds to the exact product |
| SoftFloatMul.DoublingShows | nemu/src/cpu/fpu.c:450-458 | doubling a product in the misscaled family always changes its rounding, so the condition cannot be weakened |
| SoftFloatMul.NormalOperandsAreNotMisscaled | nemu/src/cpu/fpu.c:411-459 | products of normal numbers are outside the misscaled family, so they are always correctly rounded |
| SoftFloatMul.MisscaledExample | nemu/src/cpu/fpu.c:411-459 | the misscaled family is not empty: a concrete pair in it |
| SoftFloatMul.CornerProducts | nemu/src/cpu/fpu.c:399-408 | every entry of the table is the product the standard asks for |
| SoftFloatDiv.ScaleUp | nemu/src/cpu/fpu.c:520-526 | the first scaling loop ends and leaves the dividend with its top bit at bit 63 |
| SoftFloatDiv.ScaleDown | nemu/src/cpu/fpu.c:527-531 | the second scaling loop ends and leaves the odd part of the divisor |
| SoftFloatDiv.ScaledDivision | nemu/src/cpu/fpu.c:520-533 | the quotient of the scaled significands and the total number of shifts |
| SoftFloatDiv.Div | nemu/src/cpu/fpu.c:461-541 | the quotient is the one the standard defines if and only if no remainder is lost under a tie; in any case it has the sign of the exact quotient, is the nearest-even rounding of the floored one, and close to the exact one |
| SoftFloatDiv.QuotientIsNearest | nemu/src/cpu/fpu.c:461-541 | what the definition of the quotient says of finite operands: no single times the divisor is nearer to the dividend, ties to even |
| SoftFloatDiv.DivFinite | nemu/src/cpu/fpu.c:510-540 | the same for the numeric branch, with the sign of the exact quotient |
| SoftFloatDiv.TruncationRounds | nemu/src/cpu/fpu.c:533-540 | dropping the remainder changes the rounding exactly when the floored quotient is a tie whose lower neighbour is even and a remainder was dropped |
| SoftFloatDiv.QuotientRounds | nemu/src/cpu/fpu.c:510-540 | the same for the significands and exponents of two operands |
| SoftFloatDiv.QuotientIsExact | nemu/src/cpu/fpu.c:520-540 | the scaled significands at the exponent computed for them have, as a ratio, the same rounding as the exact quotient of the operands |
| SoftFloatDiv.ExactDivisionIsRight | nemu/src/cpu/fpu.c:533-540 | without a remainder the result is correctly rounded |
| SoftFloatDiv.TiesShowInBits | nemu/src/cpu/fpu.c:533-540 | a quotient is a tie whose lower neighbour is even exactly when the bits that rounding drops are a one followed by zeros and the bit above them is zero |
| SoftFloatDiv.DivisionErrorBound | nemu/src/cpu/fpu.c:520-540 | whatever remainder is dropped, a quotient that does not overflow is within 1/2 + 2^-16 units in the last place of the exact one |
| SoftFloatDiv.LostRemainderExample | nemu/src/cpu/fpu.c:520-540 | a concrete pair whose remainder is lost |
| SoftFloatDiv.CornerQuotients | nemu/src/cpu/fpu.c:461-474 | every entry of the table is the quotient the standard asks for |
| Alu.CutAbsorbs | nemu/src/cpu/alu.c:21-26 | cutting to the operand size depends only on the value modulo 2^w |
| Alu.CutIsResidue | nemu/src/cpu/alu.c:21-26 | the bounds of each size are 2^w and 2^(w-1), and cutting is the residue modulo 2^w |
| Alu.SignedIsCongruent | nemu/src/cpu/alu.c:525-537 | the signed reading is the one number between -2^(w-1) and 2^(w-1) congruent to the operand modulo 2^w |
| Alu.FlagsMean | nemu/src/cpu/alu.c:69-126 | ZF, SF and PF of a result by the number itself: zero, at least 2^(w-1), and an even sum of the eight low bits |
| Alu.SumIsResidue | nemu/src/cpu/alu.c:133-173 | the result of an addition, with or without carry, is the sum of the uncut operands modulo 2^w |
| Alu.DifferenceIsResidue | nemu/src/cpu/alu.c:177-217 | the result of a subtraction, with or without borrow, is the difference of the uncut operands modulo 2^w |
| Alu.PositiveIsSign | nemu/src/cpu/alu.c:6-9 | the sign-bit test is the sign of the two's-complement reading |
| Alu.SumOverflow | nemu/src/cpu/alu.c:40-53 | equal operand signs and a different result sign is exactly signed overflow of the unbounded sum |
| Alu.DifferenceOverflow | nemu/src/cpu/alu.c:55-67 | the sign rule for differences is exactly signed overflow |
| Alu.Cpu.SetOFAdd | nemu/src/cpu/alu.c:40-53 | OF by the sign rule, other flags unchanged |
| Alu.Cpu.SetOFSub | nemu/src/cpu/alu.c:55-67 | OF by the sign rule for differences, other flags unchanged |
| Alu.Cpu.SetSF | nemu/src/cpu/alu.c:69-75 | SF is the sign of the result, other flags unchanged |
| Alu.Cpu.SetZF | nemu/src/cpu/alu.c:77-84 | ZF says whether the cut result is zero, other flags unchanged |
| Alu.Cpu.SetCFAdd | nemu/src/cpu/alu.c:89-98 | the comparison after wrap-around detects exactly the carry out of the unbounded sum |
| Alu.Cpu.SetCFSub | nemu/src/cpu/alu.c:100-106 | CF is the unsigned borrow, other flags unchanged |
| Alu.Cpu.SetPF | nemu/src/cpu/alu.c:108-126 | PF is set exactly when the sum of the eight low bits is even, other flags unchanged |
| Alu.Cpu.AluAdd | nemu/src/cpu/alu.c:133-148 | the sum modulo 2^w and all five flags in terms of the unbounded unsigned and signed sums |
| Alu.Cpu.AluAdc | nemu/src/cpu/alu.c:150-173 | the sum with carry in, and the flags of the three-term sum although it is computed in two steps |
| Alu.Cpu.AluSub | nemu/src/cpu/alu.c:177-195 | the difference modulo 2^w, CF the unsigned borrow and OF the signed overflow |
| Alu.Cpu.AluSbb | nemu/src/cpu/alu.c:197-217 | the difference with borrow in, and the flags of the three-term difference |
| Alu.Cpu.AluMul | nemu/src/cpu/alu.c:229-266 | the exact unsigned product; CF and OF are set exactly when it does not fit the narrow width |
| Alu.Cpu.AluImul | nemu/src/cpu/alu.c:276-314 | the exact signed product; CF and OF are set exactly when it does not fit the narrow width |
| Alu.TruncatedDivision | nemu/src/cpu/alu.c:333-347 | quotient and remainder recompose the dividend and the remainder is smaller than the divisor and has the dividend's sign |
| Alu.CutQuotientKeepsRemainder | nemu/src/cpu/alu.c:364-374 | through 64-bit wrap-around the cut quotient still gives the true remainder modulo 2^32 |
| Alu.AluImod | nemu/src/cpu/alu.c:364-374 | the returned remainder is the true one modulo 2^32 read as an int32_t, and so the true one itself if and only if that fits, which it always does for divisors up to 2^31 |
| Alu.CutRemainderExample | nemu/src/cpu/alu.c:364-374 | a divisor and a dividend for which 0 is returned although the remainder is the dividend |
| Alu.Cpu.AluShl | nemu/src/cpu/alu.c:430-459 | dest * 2^count modulo 2^w for every count, and CF the last bit shifted out |
| Alu.Cpu.AluShr | nemu/src/cpu/alu.c:461-486 | the floor of dest / 2^count for every count, and CF the last bit shifted out |
| Alu.Cpu.AluSar | nemu/src/cpu/alu.c:488-513 | the floor of the signed quotient modulo 2^w for every count, and CF the last bit shifted out |
| Alu.ShlStep | nemu/src/cpu/alu.c:439-444 | one round of the loop advances the closed form by one |
| Alu.FloorShiftStep | nemu/src/cpu/alu.c:497-501 | one round of the loop advances the closed form by one, for negative values too |
| Alu.TopBitIsHighest | nemu/src/cpu/alu.c:439-444 | the bit that goes into CF is the one of weight 2^(w-1) |
| Alu.ConditionsCompare | nemu/include/cpu/instr_helper.h:172-221 | after a subtraction e, ne, a, ae, b, be, na, g, ge, l and le hold exactly when the unsigned or signed comparison of the operands does |
| MultiLimb.SignedNumberIsTwosComplement | testcase/src/add-longlong.c:3-7 | the signed reading of a number in limbs is its two's complement |
| MultiLimb.WeightIsPower | testcase/src/add-longlong.c:3-7 | limb n of width w has the weight 2^(wn) |
| MultiLimb.CombinedMeans | testcase/src/add-longlong.c:3-7 | an exact combination, as equations between the numbers and 2^(wn), with OF the signed range of all limbs together |
| MultiLimb.OneLimb | nemu/src/cpu/alu.c:133-217 | one more limb extends an exact combination of the lower limbs, flags included |
| MultiLimb.AddLimbs | testcase/src/add-longlong.c:3-7 | ADD then ADC over any number of limbs is the whole sum modulo 2^total, CF its carry and OF its signed overflow |
| MultiLimb.SubLimbs | testcase/src/sub-longlong.c:3-8 | SUB then SBB over any number of limbs is the whole difference, CF its borrow and OF its signed overflow |
| LinearMemory.ComposeBytes | nemu/src/memory/memory.c:22-40 | the bytes of a number, put together little-endian, are the number modulo the access size |
| LinearMemory.ByteAt | nemu/src/memory/memory.c:34-40 | byte i of a number is its digit of weight 2^(8i) |
| LinearMemory.ComposedByteAt | nemu/src/memory/memory.c:22-32 | byte i is the digit of weight 2^(8i) of the number that bytes make |
| LinearMemory.ReadMeans | nemu/src/memory/memory.c:78-98 | byte i of the number read is the byte at the linear address i on, in the frame of its own page when paging is on and at that address itself when it is off |
| LinearMemory.WriteMeans | nemu/src/memory/memory.c:100-116 | byte i of the data is at the same place after the write, and only bytes at such places have changed |
| LinearMemory.Memory.HwMemRead | nemu/src/memory/memory.c:22-32 | copying the bytes one by one over a zeroed word gives the little-endian number they write, upper bytes zero |
| LinearMemory.Memory.HwMemWrite | nemu/src/memory/memory.c:34-40 | the bytes of the data replace those at the address, and nothing else changes |
| LinearMemory.Memory.LaddrRead | nemu/src/memory/memory.c:78-98 | a read, crossing a page or not, is the little-endian composition of separately translated byte reads: through the page map with paging on, at the address itself with paging off |
| LinearMemory.Memory.LaddrWrite | nemu/src/memory/memory.c:100-116 | a write, crossing a page or not, equals the separately translated byte writes, to the places the paging bit and the page map say |
| LinearMemory.StoredInTwo | nemu/src/memory/memory.c:104-106 | an access split at any point equals the two accesses in a row |
| LinearMemory.StoredElsewhere | nemu/src/memory/memory.c:100-116 | a write leaves every other physical byte alone |
| LinearMemory.TranslateDistinct | nemu/src/memory/memory.c:78-116 | bytes of one access have different physical addresses, even when both pages share a frame or the second has wrapped around 2^32 |
| LinearMemory.ReadAfterWrite | nemu/src/memory/memory.c:80-116 | reading back what was written gives the data cut to the access size |
| Paging.Tables.InitPage | kernel/src/memory/kvm.c:13-47 | after the nested loops the walk maps each address below 128 MiB, and again from 3 GiB, to that physical address, and nothing else |
| Paging.KernelWalk | kernel/src/memory/kvm.c:27-37 | tables with those contents give that translation for every address |
| Paging.Tables.InitMm | kernel/src/memory/mm.c:25-37 | the user directory agrees with the kernel's from 3 GiB on and is empty below; the value for CR3 names the frame of that directory, and the walk from it is the user's translation |
| Paging.Tables.CreateVideoMapping | kernel/src/memory/vmem.c:32-65 | identity pages for the screen are added, in the entries 0xa0 to 0xaf of the table the first directory entry leads to, and no other address changes its translation |
| Paging.VideoWalk | kernel/src/memory/vmem.c:49-63 | the walk before and after, for every address |
| Paging.ScreenIsCovered | kernel/src/memory/vmem.c:41-43 | every byte of the screen lies in the added pages |
| Paging.Tables.SetUp | kernel/src/memory/mm.c:25-37 | after all three, the walks from the kernel's and the user's directory give the intended translation, written out in numbers, for every address |
| InterruptProtocol.InvStep | nemu/src/device/i8259_pic.c:16-52 | every step of every thread keeps the invariant of mutex, flag and number |
| InterruptProtocol.InvRun | nemu/src/cpu/cpu.c:195-206 | so does every run |
| InterruptProtocol.AssertionHoldsIff | nemu/src/cpu/cpu.c:201-202 | the assertion that a number is pending holds in every interleaving of any number of devices if and only if no device raises request 223 |
| InterruptProtocol.FailingRun | nemu/src/device/i8259_pic.c:26-30 | a run with request 223 in which the assertion fails |
| InterruptProtocol.PriorityStep | nemu/src/device/i8259_pic.c:26-32 | with requests below 223 every step keeps the pending number at the largest request since the last clear |
| InterruptProtocol.LargestIsDeliveredIff | nemu/src/device/i8259_pic.c:26-32 | in all interleavings every delivered number is the largest request committed since the last clear up to the query, if and only if all requests are below 223 or 223 is the only one |
| InterruptProtocol.LargestIsDelivered | nemu/src/cpu/cpu.c:195-206 | the first case of it, for each single delivery |
| InterruptProtocol.NoneDelivered | nemu/src/device/i8259_pic.c:26-32 | with no request but 223 nothing is ever delivered |
| InterruptProtocol.WrappedRun | nemu/src/device/i8259_pic.c:30-30 | for every request above 223 a run that delivers a number that has wrapped around |
| InterruptProtocol.ForgottenRun | nemu/src/device/i8259_pic.c:26-30 | for every request below 223 a run in which it is delivered before the larger request 223 |
| InterruptProtocol.QuietWhileMasked | nemu/src/cpu/cpu.c:197-199 | while IF is clear and no instruction sets it nothing is delivered, whatever the devices do |
| InterruptProtocol.MaskedAfterDelivery | nemu/src/cpu/intr.c:31-31 | after a delivery through an interrupt gate the next one needs an instruction that sets IF |
| InterruptProtocol.UnmaskedDelivery | nemu/src/cpu/intr.c:31-31 | with IF set a pending number is delivered without any instruction, and IF stays set exactly when the gate is not an interrupt gate |
| NodeLists.WithoutIsDistinct | nemu/src/monitor/breakpoint.c:102-109 | taking a node out of a list without repetitions removes exactly that node |
| Breakpoints.ChainUnlink | nemu/src/monitor/breakpoint.c:102-109 | redirecting the link before a node unlinks it and keeps the rest of the chain |
| Breakpoints.RestoredAt | nemu/src/monitor/breakpoint.c:114-122 | writing the saved bytes back changes exactly the breakpoint addresses, to the program's bytes |
| Breakpoints.RestoredIsProgram | nemu/src/monitor/breakpoint.c:114-128 | memory that differs from the program only by INT3 at breakpoints is restored to the program |
| Breakpoints.OverwrittenAt | nemu/src/monitor/breakpoint.c:168-193 | the loops of masking and resuming write exactly the breakpoint addresses |
| Breakpoints.OverwrittenElsewhere | nemu/src/monitor/breakpoint.c:168-193 | without any assumption on the breakpoints, bytes at other addresses stay |
| Breakpoints.OverwrittenByInt3 | nemu/src/monitor/breakpoint.c:168-180 | and resuming leaves INT3 at every breakpoint address |
| Breakpoints.RepeatedExample | nemu/src/monitor/breakpoint.c:51-128 | two breakpoints at one address, after whose deletion INT3 is left in memory |
| Breakpoints.PatchedIsUnique | nemu/src/monitor/breakpoint.c:168-193 | the patched memory is determined by the program and the breakpoints |
| Breakpoints.RestoredIff | nemu/src/monitor/breakpoint.c:51-128 | breakpoints set at any addresses and undone restore memory exactly when repeated addresses held INT3 to begin with |
| Breakpoints.RestoredRecords | nemu/src/monitor/breakpoint.c:51-128 | byte by byte, a repeated address is left with INT3 and every other one gets its own byte |
| Breakpoints.Monitor.InitBpList | nemu/src/monitor/breakpoint.c:13-26 | all 32 nodes are free and linked, none is used |
| Breakpoints.Monitor.NewBP | nemu/src/monitor/breakpoint.c:28-36 | the first free node moves off the free list and both lists stay well formed |
| Breakpoints.Monitor.FreeBP | nemu/src/monitor/breakpoint.c:38-49 | the node goes in front of the free list and its byte is written back |
| Breakpoints.Monitor.SetBreakpoint | nemu/src/monitor/breakpoint.c:51-64 | a free node is used and enabled, INT3 is at the address, and the program stays the one with INT3 at exactly the breakpoints |
| Breakpoints.Monitor.SetWatchpoint | nemu/src/monitor/breakpoint.c:66-84 | a node is used and enabled only if the expression evaluates, no other node changes, and memory is untouched |
| Breakpoints.Monitor.DeleteBreakpoint | nemu/src/monitor/breakpoint.c:86-112 | exactly the node of that number leaves the used list, a breakpoint's saved byte is written back, and memory stays patched at exactly the remaining breakpoints |
| Breakpoints.Monitor.DeleteAllRecursively | nemu/src/monitor/breakpoint.c:114-122 | the nodes from p on are given back from the last to the first |
| Breakpoints.Monitor.DeleteAllBreakpoint | nemu/src/monitor/breakpoint.c:124-128 | every node is free again and the program has its own bytes back |
| Breakpoints.Monitor.MaskBreakpoints | nemu/src/monitor/breakpoint.c:182-193 | memory is the program |
| Breakpoints.Monitor.ResumeBreakpoints | nemu/src/monitor/breakpoint.c:168-180 | memory has INT3 at exactly the breakpoints, and exactly the breakpoints in use are enabled |
| Breakpoints.Monitor.MaskThenResume | nemu/src/monitor/breakpoint.c:168-193 | masking and resuming is the identity on memory whenever every breakpoint address holds INT3, also where addresses are repeated |
| Breakpoints.Monitor.SetThenDeleteAll | nemu/src/monitor/breakpoint.c:51-128 | setting any breakpoints and deleting all restores memory if and only if no address is repeated except where INT3 was before |
| LetterList.InsertLinks | game/include/adt/linklist.h:77-86 | mirrored links at any position of a doubly linked list insert a node there |
| LetterList.RemoveLinks | game/include/adt/linklist.h:87-95 | joining the neighbours takes a node off the list |
| LetterList.RoomLeft | game/include/adt/linklist.h:61-61 | the assertion in the allocation holds exactly while fewer than 1000 letters are live, because one node always stays free |
| LetterList.PartitionSizes | game/include/adt/linklist.h:46-46 | live and free nodes together are all 1001 |
| LetterList.Game.constructor | game/src/typing/effect.c:10-13 | the game starts with no letter and an unlinked pool |
| LetterList.Game.NewNode | game/include/adt/linklist.h:48-66 | a node from the free list, which is linked once in the whole run and never while letters are live |
| LetterList.Game.Insert | game/include/adt/linklist.h:77-86 | the live list with the node at its position, letters untouched |
| LetterList.Game.Remove | game/include/adt/linklist.h:87-95 | the live list without the node, letters untouched |
| LetterList.Game.FreeNode | game/include/adt/linklist.h:96-100 | the node is in front of the free list, and live and free nodes partition the pool |
| LetterList.Game.CreateNewLetter | game/src/typing/effect.c:32-50 | one more live letter, in front, on the screen, with its old key press forgotten; the invariant with created = live + hit + miss is kept |
| LetterList.Game.UpdateLetter | game/src/typing/effect.c:56-72 | one letter moves, and if off the screen is counted, unlinked and freed |
| LetterList.Game.UpdateLetterPos | game/src/typing/effect.c:53-73 | every letter moves once, exactly the letters off the screen leave, in order, and each is counted as hit or miss |
| LetterList.AdvancedIff | game/src/typing/effect.c:59-59 | every letter that stays has moved by its speed and is otherwise the same |
| LetterList.StaysIff | game/src/typing/effect.c:60-60 | exactly the letters that are wholly on the screen after the step stay |
| LetterList.StaysInOrder | game/src/typing/effect.c:53-73 | those that stay keep their order |
| LetterList.HitsAre | game/src/typing/effect.c:62-65 | the number counted as hit is the number of letters above the screen after the step |
| LetterList.Game.UpdateKeypress | game/src/typing/effect.c:76-102 | the lowest falling letter whose key is down, the first among equals, is turned upwards and its key released; if there is none nothing changes |
| LetterList.Game.FindTarget | game/src/typing/effect.c:83-91 | the scan finds that letter if there is one |
| LetterList.Game.HandleKeys | game/src/typing/game.c:56-57 | the loop over key presses ends, and then no falling letter has its key down |
| LetterList.MovedStaysOnScreen | game/src/typing/effect.c:59-60 | a letter that is not removed stays wholly on the screen at a multiple of half a pixel, where float arithmetic is exact |
| LetterList.LeavesOnTime | game/src/typing/effect.c:53-73 | every letter left alone leaves at a known tick, through the top exactly when it was hit |
| FileSystem.Contiguous | kernel/src/fs/fs.c:28-30 | the extents of all but the last file follow one another from byte 0x100000 on, where the last file starts too |
| FileSystem.ApartIff | kernel/src/fs/fs.c:28-30 | two extents share no byte unless one is that of the last file and the other one of the first thirteen |
| FileSystem.LastFileOverwrites | kernel/src/fs/fs.c:117-128 | a write to the last file changes each of those thirteen |
| FileSystem.ClipIff | kernel/src/fs/fs.c:82-85 | clipping leaves what remains of the file exactly when the end of the transfer does not wrap around into the file |
| FileSystem.TransferableIff | kernel/src/fs/fs.c:82-90 | from inside a file the access stays on the disk exactly then |
| FileSystem.WriteChangesOnly | kernel/src/fs/fs.c:117-128 | a write inside one extent changes that file as intended and files with extents apart not at all |
| FileSystem.SeekIff | kernel/src/fs/fs.c:134-145 | a seek stays in the file, and goes where the messages say, exactly under stated conditions on target, size and place on the disk |
| FileSystem.ReadsConcatenate | kernel/src/fs/fs.c:74-99 | what reads of any lengths deliver, each starting where the one before ended, is together the file from the first offset on |
| FileSystem.Kernel.ReadInPieces | kernel/src/fs/fs.c:74-99 | any number of calls of the read function on one descriptor, of any lengths that do not wrap, deliver together the bytes of the file from the first offset on, and keep every descriptor inside its file |
| FileSystem.UnclippedExample | kernel/src/fs/fs.c:82-85 | a length that is not clipped at all |
| FileSystem.SeekExamples | kernel/src/fs/fs.c:134-145 | seeks past the end, inside and before the start of a file that end up elsewhere than the messages say |
| FileSystem.Kernel.constructor | kernel/src/fs/fs.c:34-34 | every descriptor starts free |
| FileSystem.Kernel.FsOpen | kernel/src/fs/fs.c:41-72 | the first file with the lower-cased name gets the first free descriptor from 3 on, at offset 0; an unknown name halts; no other descriptor changes |
| FileSystem.OpensInAnyCase | kernel/src/fs/fs.c:43-52 | a path finds a file of the table exactly when it is its name with any of the letters written as capitals |
| FileSystem.Kernel.FsRead | kernel/src/fs/fs.c:74-99 | the clipped stretch of the disk is delivered and the offset advanced; from inside the file it is the next stretch of the file's bytes and the offset stays inside |
| FileSystem.Kernel.FsWrite | kernel/src/fs/fs.c:101-132 | the clipped stretch is written; from inside the file exactly that file changes at the offset, and files apart from it do not |
| FileSystem.Kernel.FsLseek | kernel/src/fs/fs.c:147-174 | for the three origins the new offset is the target, modulo 2^32, where that is not past the file's place on the disk, and the file's size otherwise; exactly when it stays inside the file and is the one asked for |
| FileSystem.Kernel.FsClose | kernel/src/fs/fs.c:176-186 | exactly that descriptor becomes free |
| RleBlit.PlotIsExact | game/src/nemu-pal/global/palcommon.c:99-152 | looking at all pixels one by one stores exactly the opaque ones that fall on the surface, each at its place, and leaves every other byte alone |
| RleClipping.BelowStaysBelow | game/src/nemu-pal/global/palcommon.c:137-140 | once a pixel is below the surface so are all later ones, so the early exit loses nothing |
| RleClipping.JumpLosesIff | game/src/nemu-pal/global/palcommon.c:121-136 | a jump passes over a visible pixel of its run exactly under a condition on its row and column, the end of the run and the place of the bitmap: never at the left, at the right when it reaches the visible part of the next row, above when it comes down right of the first visible column |
| RleClipping.RunLosesIff | game/src/nemu-pal/global/palcommon.c:109-141 | the inner loop fails to reach some visible pixel of a run exactly under a condition on the row and column where the run starts, its end and the place of the bitmap |
| RleBlit.StreamLosesIff | game/src/nemu-pal/global/palcommon.c:99-152 | a bitmap has a visible pixel that is jumped over exactly when one of its runs meets that condition |
| RleBlit.ExactIff | game/src/nemu-pal/global/palcommon.c:99-152 | the result is the one of looking at every pixel, whatever the surface holds, if and only if no run meets that condition |
| RleBlit.ShownIff | game/src/nemu-pal/global/palcommon.c:109-141 | the pixels that are drawn are pixels of the bitmap, and all visible ones exactly when none is lost |
| RleBlit.StayingInRowsLosesNothing | game/src/nemu-pal/global/palcommon.c:109-141 | nothing is lost when no run crosses the end of its row, or when the bitmap is clipped neither at the right nor at the top |
| RleBlit.LosingAtTheRight | game/src/nemu-pal/global/palcommon.c:126-130 | a bitmap that loses a pixel in a jump from beyond the right edge |
| RleBlit.LosingAtTheTop | game/src/nemu-pal/global/palcommon.c:132-136 | a bitmap that loses a pixel in a jump from above the surface |
| RleBlit.Surface.DrawRun | game/src/nemu-pal/global/palcommon.c:109-148 | for every run, crossing row ends or not, the clipping inner loop stores exactly the visible pixels it reaches |
| RleBlit.Surface.Blit | game/src/nemu-pal/global/palcommon.c:65-157 | for every stream that fills its bitmap, header, sizes, runs, jumps and early exit together draw the image without the pixels that are jumped over |
| RleBlit.RleBlitToSurface | game/src/nemu-pal/global/palcommon.c:26-157 | exactly the opaque pixels that fall on the surface and are not jumped over are drawn and every other byte is unchanged; where no run loses a pixel these are all opaque pixels that fall on the surface; null arguments give -1 |
| RleBlit.RleBlitWithColorShift | game/src/nemu-pal/global/palcommon.c:159-300 | the same with the low four bits of each colour shifted and held between 0 and 15 and the high four bits kept, stated on the drawn bytes |
| RleBlit.ShiftMeans | game/src/nemu-pal/global/palcommon.c:273-288 | the high four bits of a shifted colour stay and the low four are moved by the shift as far as 0 and 15 |
| RleBlit.DrawnMeans | game/src/nemu-pal/global/palcommon.c:99-152 | byte by byte: in column x and row y of the surface is the opaque pixel of the bitmap that falls there, painted, and otherwise what was there before |
| RleBlit.SizesByBytes | game/src/nemu-pal/global/palcommon.c:71-95 | the optional four bytes in front, and width and height as 16-bit numbers of two bytes each, low byte first |
| RleBlit.InRun | game/src/nemu-pal/global/palcommon.c:105-152 | pixel k of an opaque run is the byte that many places behind the run's code |
| RleBlit.InClears | game/src/nemu-pal/global/palcommon.c:101-104 | the pixels of a skip code are clear |
| RleBlit.DrawnAlike | game/src/nemu-pal/global/palcommon.c:159-300 | a shift of 0 leaves the same surface as the plain blitter |
| Inventory.AmountIsFound | game/src/nemu-pal/global/global.c:586-604 | where the search stops is where the item's amount is, or it has none |
| Inventory.OthersKeepAmounts | game/src/nemu-pal/global/global.c:606-664 | changing one slot leaves the amounts of all other items alone |
| Inventory.AdditionIff | game/src/nemu-pal/global/global.c:619-638 | a successful addition gives the amount capped at 99 unless the item has a slot and the 16-bit sum wraps to less than that |
| Inventory.WrappedExample | game/src/nemu-pal/global/global.c:619-638 | an addition of 65530 to 10 that leaves 4 |
| Inventory.KeptInOrder | game/src/nemu-pal/global/global.c:722-735 | compressing keeps the order of the slots that stay |
| Inventory.KeptAmounts | game/src/nemu-pal/global/global.c:722-743 | compressing changes no item's amount |
| Inventory.KeptIsWellKept | game/src/nemu-pal/global/global.c:722-743 | afterwards occupied slots are a prefix of distinct items, and none is used up |
| Inventory.Globals.AddItemToInventory | game/src/nemu-pal/global/global.c:553-665 | additions fail exactly for item 0 and for inventories with neither the item nor an empty slot; otherwise the amount becomes the sum, or one more for 0, at most 99, after the 16-bit wrap when the item had a slot; removals leave max(0, old - n) and succeed exactly when enough was there; other items and in-use amounts are untouched; the invariant is kept |
| Inventory.Globals.Search | game/src/nemu-pal/global/global.c:586-604 | the search stops at the item or at the first empty slot |
| Inventory.Globals.GetItemAmount | game/src/nemu-pal/global/global.c:667-700 | the amount the map has for the item |
| Inventory.Globals.CompressInventory | game/src/nemu-pal/global/global.c:702-744 | in place, the kept slots followed by empty ones; every item keeps its amount, and what has no amount is an empty slot |

## Left out

- The FPU register stack (`fpu_load`, `fpu_store` and the operations on it) and the comparisons, which use the host's floating point.
- NaNs other than the two constants of the header: operands are finite numbers, infinities and those two.
- `alu_div`, `alu_mod`, `alu_and`, `alu_or`, `alu_xor`, the sign-extension functions on their own and the narrow widths of `alu_idiv`: easy members with the same helpers.
- Alu.Cpu.AluShr: OF after a shift by one is stated as the code leaves it, read from the already shifted operand, not as the processor defines it; counts are not masked and flags not preserved for count 0, as in the code.
- Alu.AluImod: excludes the most negative 64-bit number divided by -1, where C leaves the division undefined.
- LinearMemory.Memory.LaddrRead: translation is any function that keeps page offsets and stays in memory, fixed during the access; memory-mapped devices, the disk-in-memory branches and segments are not modelled, and addresses at which the emulator stops are excluded.
- Page faults, access rights and the accessed and dirty bits of page table entries; entries that lead to tables other than those built here are an opaque third outcome of the walk.
- Paging.Tables.CreateVideoMapping: asks that the directory entry is free or leads to the video table, since the code otherwise writes into a table it did not build.
- Segments, `mm_malloc`, `mm_brk`.
- InterruptProtocol.LargestIsDeliveredIff: nothing is claimed about requests that land between the query and the acknowledgement, which overwrites them.
- The early returns of the mutex loops when the emulator stops, the pushes and the gate address in `raise_intr`; a gate is its type.
- The union of the node fields of breakpoints and watchpoints, expression strings, and printing; a watchpoint's evaluation is a parameter.
- Breakpoint bytes are written to a flat memory at the address; segment and page translation of that write is the subject of other modules.
- LetterList.Game.CreateNewLetter: the two results of `rand` are parameters, and a full pool, where the code's assertion stops the game, is excluded.
- The typing game's coordinates are real numbers; the invariant that they are multiples of one half below 200 shows that float arithmetic on them is exact. Key presses arriving inside an update are not modelled.
- The disk driver behind the file system copies bytes; console output is a byte sequence. A path of 100 characters or more, which overflows a buffer in the code, is excluded.
- FileSystem.Kernel.FsRead: asks, like the driver, that the access is on the disk and fits the buffer; `TransferableIff` says when that is so.
- Normalization.Normalize: excludes sticky significands so short that the code would shift them to the left more than once, which no operation passes.
- RleBlit.Surface.Blit: the two blitters share one method with the stored byte as a function, since their loops are the same; streams that end early or whose last run goes past the bitmap, where the code reads or draws beyond it, are excluded.
- The mono-colour blitter, file archives, menus, battles, scripts and poison slots of the role-playing game.
- Inventory.Globals.AddItemToInventory: excludes the most negative number, which C cannot negate; counters of letters hit and missed are unbounded.
- Device, display, audio and keyboard code, the ELF loader, the expression tokenizer and the test programs.
