# RISC-C firmware runtime and tools: a verified model

Dafny model of the computational core of RISC-C: the binary32 soft float, the limb-based
parts of libm, the heap allocator, the word-at-a-time string and memory routines, the
instruction set with its interrupt entry, encoder and two-pass assembler, the formatter and
the number parser, and the interrupt-shared uptime clock.  `dafny verify dfyconfig.toml`
checks everything; nothing is executed.

## How it is built

Code that changes state is modelled by methods with loops, arrays and classes, each proved
against a specification; what the specification promises is proved by lemmas beside it.

- **Numbers.** `Bits` defines the C bit operators on natural numbers.  A float is its bit
  pattern; finite values are integers in units of the smallest subnormal, so correct rounding
  is an integer statement (`Rounding.NearestEven`, `Binary32.RoundedTo`): of all patterns, with
  the exponent range unbounded, the nearest one, even when there is a tie, and infinity when
  that is too large.  `Sticky` says what a significand with guard bits stands for.
  `AddSf3`, `MulSf3`, `DivSf3` and `Packing` are the soft float, `Scalb` rests on `MulSf3`, and
  `Decompose` is its inverse.
- **libm.** `WideLimbs` proves the limb helpers to be arithmetic; `SquareRoot`, `RootRounding`
  and `Sqrt` give correctly rounded roots, `Fmod` exact remainders, `IntegralRounding`,
  `IntegralDouble` and `IntegralFloat` rounding to integers.
- **Heap.** `RawMemory`, `HeapBlocks`, `HeapSteps`, `HeapRuns` and `Alloc`: memory is an array of
  bytes, headers and links are words in it, and a ghost row of blocks says what they mean.
- **Machine.** `Isa` is the step function, `IsaLaws` what its instructions do in congruences, bits and
  bytes, `Sim` the simulator object that refines it, `Interrupts` and `InterruptExample` the runs with
  interrupts, `Assembler` the encoder, `AsWritten` what each mnemonic does when its words run, `Layout`
  the two passes, `ImageLaws` what is in the image and what a machine that has loaded it does.
- **Strings and text.** `Words`, `Memory` and `Strings` for both native word widths; `CStrings`,
  `Convert`, `Printf` and `PrintParse` for numbers as text, `ParseLaws` and `PrintLaws` for what is read and
  printed, character by character.
- **Clock.** The counters, the tick handler and the reader that retries.

## A property that does not hold as first stated

It is natural to expect interrupts to be invisible to a program that uses S0 only while
interrupts are off.  The simulator does not give that: entry overwrites S0 whenever it
happens, so a value moved to S0, kept across a stretch with interrupts on, and read
after they are off again is lost.  `InterruptExample.OffWhenUsedIsNotEnough` is such a program,
and `Interrupts.TransparencyExact` states when interrupts are invisible, in both directions: no
read of S0 may be reached from a boundary with interrupts on without a write of S0 in
between, unless the difference cannot be observed.

## Model

| member | source | states |
|---|---|---|
| `AddSf3.AddFloats` | firmware/builtins/softfloat/addsf3.c:3-95 | sections 6.1 to 6.3 of IEEE 754-2019 for NaNs, infinities and signs, an exact zero sum is +0 unless both operands are negative zeros, and every other sum of finite operands is the exact sum rounded once to nearest, ties to even |
| `AddSf3.AddFinite` | firmware/builtins/softfloat/addsf3.c:36-65 | the same for finite operands: zeros, the exponent of subnormals and the exchange of the operands |
| `AddSf3.AddOrdered` | firmware/builtins/softfloat/addsf3.c:67-94 | after alignment with guard, round and sticky bits the packed result is the exact signed sum rounded once |
| `AddSf3.PackSum` | firmware/builtins/softfloat/addsf3.c:73-81 | equal signs: the carry is absorbed by one more sticky shift without a second rounding |
| `AddSf3.PackDifference` | firmware/builtins/softfloat/addsf3.c:82-94 | opposite signs: renormalising to the left after cancellation still leaves enough sticky information to round the exact difference |
| `AddSf3.AlignedOperands` | firmware/builtins/softfloat/internal.h:92-117 | the sticky-shifted smaller operand is exact for shifts up to 3, is not larger than the other operand, and otherwise lies strictly between its even neighbours exactly where the true value does |
| `MulSf3.MulFloats` | firmware/builtins/softfloat/mulsf3.c:3-58 | special operands as in sections 6.1 to 6.3 of IEEE 754-2019; the exact product of finite operands rounded once to nearest even, with subnormal results and overflow |
| `MulSf3.MulFinite` | firmware/builtins/softfloat/mulsf3.c:35-57 | the same for finite operands, for every pair of exponents and significands |
| `MulSf3.MultiplySignificands` | firmware/builtins/softfloat/internal.h:271-285 | shift-and-add on three limbs gives the exact 48-bit product; no carry is lost |
| `MulSf3.WideAdd` | firmware/builtins/softfloat/internal.h:241-257 | three-limb addition is addition of the numbers the limbs stand for |
| `MulSf3.WideShiftLeftOne` | firmware/builtins/softfloat/internal.h:259-269 | three-limb shift doubles the number |
| `MulSf3.ProductToExtended` | firmware/builtins/softfloat/internal.h:287-302 | the reduction by 20 or 21 bits is a shift with all lost bits ORed into the lowest one |
| `DivSf3.DivideFloats` | firmware/builtins/softfloat/divsf3.c:3-76 | special operands, division by zero and zero quotients as in IEEE 754-2019; the exact quotient of finite nonzero operands rounded once to nearest even |
| `DivSf3.DivideFinite` | firmware/builtins/softfloat/divsf3.c:44-75 | the same for finite nonzero operands, including subnormal operands and results |
| `DivSf3.RestoringDivision` | firmware/builtins/softfloat/divsf3.c:60-73 | 27 quotient bits with the remainder ORed in: scaled numerator == quotient * divisor + remainder with remainder below the divisor, so the quotient stands for the true one at both rounding granularities |
| `Packing.PackFloat` | firmware/builtins/softfloat/internal.h:201-239 | whatever exact value the extended significand stands for is rounded once, in the normal, subnormal and overflow ranges |
| `Packing.RoundAndAssemble` | firmware/builtins/softfloat/internal.h:216-238 | the pattern is the rounded significand plus the exponent field, the carry out of rounding included, capped at infinity |
| `Packing.Assemble` | firmware/builtins/softfloat/internal.h:234-238 | the two halves are the sign, the exponent field and the fraction |
| `Packing.NormalizeSignificand` | firmware/builtins/softfloat/internal.h:187-195 | reaches the hidden bit and keeps significand * 2^exponent |
| `Limbs.ShiftRightSticky` | firmware/builtins/softfloat/internal.h:92-117 | the shifted value with its lowest bit ORed with every lost bit, for every count |
| `Limbs.Add` | firmware/builtins/softfloat/internal.h:54-62 | addition modulo 2^32 |
| `Limbs.Subtract` | firmware/builtins/softfloat/internal.h:64-72 | subtraction modulo 2^32 |
| `Limbs.Compare` | firmware/builtins/softfloat/internal.h:45-52 | orders the 32-bit values |
| `Limbs.ShiftLeftOne` | firmware/builtins/softfloat/internal.h:74-81 | doubles modulo 2^32 |
| `Limbs.ShiftRightOne` | firmware/builtins/softfloat/internal.h:83-90 | halves, rounding down |
| `Limbs.ExtendSignificand` | firmware/builtins/softfloat/internal.h:130-137 | three zero bits below the significand |
| `Binary32.Exponent` | firmware/builtins/softfloat/internal.h:139-142 | the exponent field of the pattern |
| `Binary32.Sign` | firmware/builtins/softfloat/internal.h:144-147 | the sign bit of the pattern |
| `Binary32.FractionIsZero` | firmware/builtins/softfloat/internal.h:149-152 | tells whether the fraction field is zero |
| `Binary32.Significand` | firmware/builtins/softfloat/internal.h:119-128 | fraction and hidden bit, which with the exponent give the magnitude (lemma SignificandMagnitude) |
| `Binary32.Infinity` | firmware/builtins/softfloat/internal.h:163-170 | the infinity with this sign |
| `Binary32.QuietNaN` | firmware/builtins/softfloat/internal.h:181-185 | a quiet NaN that differs from its argument in the quiet bit only |
| `Binary32.RoundedUnique` | firmware/builtins/softfloat/internal.h:197-239 | the specification of rounding determines the result: there is exactly one correctly rounded float |
| `Sticky.RoundOffNearest` | firmware/builtins/softfloat/internal.h:216-219 | rounding the guard bits to nearest even rounds the exact value the significand stands for, also just below a power of two |
| `Sticky.StandsShifted` | firmware/builtins/softfloat/internal.h:92-117 | a right shift into the sticky bit keeps what the significand stands for, so a subnormal shift after a reduction never rounds twice |
| `Scalb.MultiplyFloatPower` | firmware/libm/decompose.c:124-129 | the value times an exact power of two, rounded once |
| `Scalb.ScaleBNF` | firmware/libm/decompose.c:138-165 | value * 2^n rounded exactly once for every float and every integer n (section 5.3.3 of IEEE 754-2019): no double rounding through the 2^-102 steps, no wrong overflow or underflow through the clamps |
| `Scalb.DownClamp` | firmware/libm/decompose.c:151-162 | every exponent from -330 down flushes to the same zero, so clamping it is harmless |
| `Scalb.UpClamp` | firmware/libm/decompose.c:140-150 | every exponent from 381 up overflows every nonzero float alike |
| `Decompose.FrexpF` | firmware/libm/decompose.c:61-87 | section 7.12.6.4 of C17: the value is exactly r * 2^exponent with the magnitude of r in [1/2, 1), for subnormal values too; zeros, infinities and NaNs come back with exponent 0 |
| `Decompose.ILogBF` | firmware/libm/decompose.c:239-258 | section 7.12.6.5 of C17: the exponent of the leading bit, for subnormal values too, and the two special results |
| `Decompose.RoundTrip` | firmware/libm/decompose.c:61-165 | scalbnf puts back together what frexpf took apart, for every float |
| `Decompose.LogOfFrexp` | firmware/libm/decompose.c:61-258 | ilogbf is one less than the exponent frexpf gives |
| `WideLimbs.Compare` | firmware/rc32/libm_wide.c:3-13 | orders the numbers the limb arrays stand for |
| `WideLimbs.IsZero` | firmware/rc32/libm_wide.c:15-23 | tells whether the number is zero |
| `WideLimbs.Increment` | firmware/rc32/libm_wide.c:25-34 | adds one modulo the width; other limbs keep their values |
| `WideLimbs.ShiftLeftOne` | firmware/rc32/libm_wide.c:36-46 | doubles modulo the width; other limbs keep their values |
| `WideLimbs.ShiftLeftTwo` | firmware/rc32/libm_wide.c:48-58 | quadruples modulo the width; other limbs keep their values |
| `WideLimbs.ShiftRightOne` | firmware/rc32/libm_wide.c:60-71 | halves, rounding down; other limbs keep their values |
| `WideLimbs.Subtract` | firmware/rc32/libm_wide.c:73-86 | subtracts modulo the width with the borrow carried through all limbs, also when both arguments are one array |
| `SquareRoot.ScaledSquareRoot` | firmware/libm/sqrt.c:16-52 | root^2 + remainder == significand * 2^(precision-1) with remainder at most 2 * root, for both precisions |
| `SquareRoot.RootDigit` | firmware/libm/sqrt.c:38-50 | one base-four digit on the limbs; nothing overflows |
| `SquareRoot.NextPair` | firmware/libm/sqrt.c:32-39 | the two bits fetched are the next base-four digit of the scaled significand (significand_bit, lines 6-14) |
| `SquareRoot.RoundedRoot` | firmware/libm/sqrt.c:105-114 | remainder above root is exactly the test for rounding up, there are no ties, and the rounded root never needs another bit |
| `Sqrt.NoCarry` | firmware/libm/sqrt.c:110-114 | the carry branch after rounding is dead in sqrtf |
| `Sqrt.SqrtF` | firmware/libm/sqrt.c:54-119 | NaNs are made quiet, zeros and +infinity are returned, negative operands give a NaN, and every positive float gives the float nearest to its square root |
| `Sqrt.PositiveRoot` | firmware/libm/sqrt.c:82-118 | the nearest root for positive finite floats, subnormal ones included |
| `Sqrt.NormalizeRadicand` | firmware/libm/sqrt.c:82-101 | the significand and even exponent that the radicand is split into |
| `Sqrt.SqrtD` | firmware/libm/sqrt.c:121-197 | the same for doubles |
| `Sqrt.PositiveRoot64` | firmware/libm/sqrt.c:157-196 | the nearest root for positive finite doubles |
| `Sqrt.NormalizeRadicand64` | firmware/libm/sqrt.c:157-179 | the significand limbs and even exponent that the radicand is split into |
| `RootRounding.NearestRootReal` | firmware/libm/sqrt.c:54-119 | the integer definition of the nearest root is the one by distances to the real square root |
| `RootRounding.NearestRootUnique` | firmware/libm/sqrt.c:54-119 | there is exactly one nearest root |
| `Fmod.FmodF` | firmware/libm/fmod.c:84-113 | section 7.12.10.1 of C17: exactly x - y * trunc(x / y), with the sign of x, for all finite operands; NaNs, infinities and a zero divisor |
| `Fmod.UnsignedFmodF` | firmware/libm/fmod.c:14-82 | long division on significands gives the remainder of the magnitudes exactly |
| `Fmod.ExactHalf` | firmware/libm/fmod.c:76-80 | the denormalising right shifts discard only zero bits |
| `Fmod.Fmod` | firmware/libm/fmod.c:161-238 | the same for doubles |
| `Fmod.UnsignedFmod` | firmware/libm/fmod.c:136-159 | the limbs and the exponent left are the exact remainder of the magnitudes |
| `Fmod.DoubleSignificand` | firmware/libm/fmod.c:115-134 | the normalised significand and its exponent stand for the pattern |
| `Fmod.PackRemainder` | firmware/libm/fmod.c:221-237 | the exponent field, or exact right shifts, restore the pattern of the remainder |
| `Fmod.QuietFloatNaN` | firmware/libm/fmod.c:6-12 | a NaN made quiet, and the default NaN for anything else |
| `IntegralDouble.TruncateDouble` | firmware/libm/bits.c:71-133 | the pattern with its bits below the binary point cleared and the sign kept; changed exactly when a set bit was cleared |
| `IntegralDouble.ClearNibble` | firmware/libm/bits.c:91-106 | the binary point in the top word: what is cleared, in all four words |
| `IntegralDouble.ClearFraction` | firmware/libm/bits.c:108-132 | the binary point in a lower word: what is cleared, in all words below it |
| `IntegralDouble.IncrementDouble` | firmware/libm/bits.c:135-147 | adds 2^bit to the 64-bit number, carrying through the words |
| `IntegralDouble.NextInteger` | firmware/libm/bits.c:135-147 | the carry into the exponent field gives the next integer in magnitude |
| `IntegralDouble.Trunc` | firmware/libm/bits.c:156-161 | the integer part, for every finite double |
| `IntegralDouble.Floor` | firmware/libm/bits.c:189-209 | the greatest integer not above the value, with the sign of the value |
| `IntegralDouble.Ceil` | firmware/libm/bits.c:237-257 | the least integer not below the value, with the sign of the value |
| `IntegralDouble.Round` | firmware/libm/bits.c:298-332 | the nearest integer, halfway cases away from zero |
| `IntegralFloat.TruncFloatBits` | firmware/libm/bits.c:48-69 | the float pattern with its bits below the binary point cleared |
| `IntegralFloat.TruncF` | firmware/libm/bits.c:149-154 | the integer part, for every finite float |
| `IntegralFloat.FloorF` | firmware/libm/bits.c:168-187 | the greatest integer not above the value |
| `IntegralFloat.CeilF` | firmware/libm/bits.c:216-235 | the least integer not below the value |
| `IntegralFloat.RoundF` | firmware/libm/bits.c:264-296 | the nearest integer, halfway cases away from zero |
| `IntegralRounding.FractionCleared` | firmware/libm/bits.c:63-68 | in any format, clearing the low bits of a pattern is truncation, adding one unit above them is the next integer, and the value is an integer exactly when they are zero |
| `Alloc.Heap.Malloc` | firmware/libc/alloc.c:26-84 | returns the place that Placement gives: the start of the lowest maximal run of contiguous free space that is large enough, the break only when there is none, and null otherwise; the tiling invariant holds, the block is new, and no live block changes |
| `Alloc.Heap.Free` | firmware/libc/alloc.c:86-105 | exactly that block stops being live, the list stays in address order, no other live block changes |
| `Alloc.Heap.Calloc` | firmware/libc/alloc.c:107-122 | the product overflow test is exact; otherwise an allocation of the product whose bytes are all zero |
| `Alloc.Heap.Realloc` | firmware/libc/alloc.c:124-147 | null and zero size, a failure that keeps the original, and otherwise a block at the place malloc gives holding the first min(old, new) bytes, with every other block kept |
| `Alloc.Heap.Coalesce` | firmware/libc/alloc.c:45-50 | merges exactly the maximal run of contiguous free blocks |
| `Alloc.Heap.Take` | firmware/libc/alloc.c:51-75 | splits when the rest can hold a list node, otherwise takes the whole block; the new block is live and all others are kept |
| `Alloc.Heap.Grow` | firmware/libc/alloc.c:79-83 | a block at the break exactly when both ceilings allow it |
| `Alloc.Heap.Sbrk` | firmware/libc/heap.c:11-37 | the break moves only up and only below both ceilings; the error codes |
| `Alloc.Heap.constructor` | firmware/libc/heap.c:5-9 | the empty heap |
| `HeapRuns.BlockSize` | firmware/libc/alloc.c:16-24 | zero for no request or overflow, otherwise a word multiple with room for the header and later a list node |
| `HeapRuns.BlockSizeLeast` | firmware/libc/alloc.c:16-24 | no smaller total would do |
| `HeapRuns.FirstFit` | firmware/libc/alloc.c:43-78 | the first maximal run that fits: none before it does |
| `HeapSteps.Merge` | firmware/libc/alloc.c:45-50 | absorbing the next block keeps the memory a faithful heap with the same live blocks |
| `HeapSteps.TakeSplit` | firmware/libc/alloc.c:53-65 | the memory after a split represents the heap with one more live block |
| `HeapSteps.TakeWhole` | firmware/libc/alloc.c:66-74 | the memory after unlinking represents the heap with one more live block |
| `HeapSteps.Extend` | firmware/libc/alloc.c:79-83 | a header written at the old break extends the tiling |
| `HeapSteps.Release` | firmware/libc/alloc.c:94-104 | linking a block in front of the first higher list node represents the heap without it |
| `HeapSteps.WalkOrdered` | firmware/libc/alloc.c:95-104 | the free list is strictly ordered by address |
| `HeapSteps.WalkMembers` | firmware/libc/alloc.c:95-104 | the free list holds the free blocks and no others |
| `HeapSteps.WalkIsStored` | firmware/libc/alloc.c:95-104 | following the stored links visits exactly that list |
| `HeapSteps.Conservation` | firmware/libc/alloc.c:26-147 | live and free bytes add up to the distance from the heap start to the break |
| `HeapSteps.LiveDisjoint` | firmware/libc/alloc.c:26-147 | two live blocks do not overlap |
| `HeapSteps.PayloadWritten` | firmware/libc/alloc.c:26-147 | whatever a client writes into a payload leaves the heap and the other blocks alone |
| `Words.HasZeroMeaning` | firmware/libc/word.h:16-20 | the word test sees a NUL exactly when a byte loop would, for 16-bit and 32-bit words |
| `Words.EqualMeaning` | firmware/libc/word.h:7-9 | words are equal exactly when their bytes are |
| `Words.CompareMeaning` | firmware/libc/word.h:27-42 | the word comparison orders as a loop over unsigned bytes does, with or without stopping at a NUL, whatever carries and borrows do after the first event |
| `Words.ComparedMeaning` | firmware/libc/string.c:53-60 | the byte loop is lexicographic order by unsigned bytes up to the first event |
| `Words.LoadedBytes` | firmware/libc/memory.c:85-89 | storing a loaded word copies its bytes in order |
| `Memory.Memcmp` | firmware/libc/memory.c:24-66 | the sign of the bytewise unsigned comparison, for every alignment and size |
| `Memory.SignMeans` | firmware/libc/memory.c:24-66 | the sign of memcmp, strcmp and strncmp: negative exactly when, at the first difference before a common NUL, the left byte is the smaller unsigned one |
| `Memory.MovedBytes` | firmware/libc/memory.c:68-157 | byte by byte, what the copying functions leave in memory |
| `Memory.Memcpy` | firmware/libc/memory.c:68-98 | the destination holds the source bytes and nothing else changes |
| `Memory.Memmove` | firmware/libc/memory.c:100-157 | the destination holds the old source bytes and nothing else changes, for every overlap, alignment and size |
| `Memory.CopyUp` | firmware/libc/memory.c:74-96 | the ascending byte and word loops that memcpy and memmove share |
| `Memory.CopyDown` | firmware/libc/memory.c:131-154 | the descending loops: no word is overwritten before it is read |
| `Memory.Memset` | firmware/libc/memory.c:159-189 | exactly the given bytes become the value |
| `Strings.Strlen` | firmware/libc/string.c:136-159 | the number of bytes before the NUL |
| `Strings.StringUnique` | firmware/libc/string.c:136-159 | the number of bytes before the NUL is determined by the memory and the address |
| `Strings.Strcmp` | firmware/libc/string.c:29-61 | the sign of the comparison by unsigned bytes up to the NUL, aligned or not |
| `Strings.CompareWords` | firmware/libc/string.c:32-51 | the word loop of strcmp |
| `Strings.Strncmp` | firmware/libc/string.c:175-207 | the sign of the comparison of at most count bytes; the arrays need not be terminated |
| `Strings.StringsDecide` | firmware/libc/string.c:175-207 | terminated strings meet what strncmp asks of its arguments, for every count |
| `Strings.Strcpy` | firmware/libc/string.c:68-101 | the destination holds the string with its NUL, and no byte beyond it changes |
| `Strings.CopyWords` | firmware/libc/string.c:83-94 | the word loop of strcpy stops before the word that holds the NUL |
| `Sim.Sim.constructor` | tools/riscc_sim.py:159-191 | the reset state, and the image as little-endian words |
| `Sim.Sim.Step` | tools/riscc_sim.py:271-458 | one architectural step, interrupt entry or instruction, is the step function of the model; undefined encodings and operands are refused in the same states |
| `Sim.Sim.Instruction` | tools/riscc_sim.py:284-456 | the decoding by masks and nested tests selects the instruction that Decode gives and has its effect |
| `Sim.Sim.LoadWord` | tools/riscc_sim.py:205-222 | the word at an address; a load of the test register acknowledges the interrupt |
| `Sim.Sim.StoreWord` | tools/riscc_sim.py:224-244 | the byte lanes of the mask; the test register raises the line and the result word ends the run |
| `Sim.Sim.Ldb` | tools/riscc_sim.py:246-252 | the addressed byte, sign-extended on request; no acknowledgement |
| `Sim.Sim.Stb` | tools/riscc_sim.py:254-258 | the addressed byte lane |
| `Sim.Sim.Immediate` | tools/riscc_sim.py:306-322 | the immediate group |
| `Sim.Sim.BranchGroup` | tools/riscc_sim.py:323-337 | the rotated displacement, the four conditions, JMP8 and the halt convention |
| `Sim.Sim.Arithmetic` | tools/riscc_sim.py:339-362 | the ALU group and its profile conditions |
| `Sim.Sim.ShiftRight` | tools/riscc_sim.py:375-381 | the one-place-at-a-time shifts divide by a power of two, rounding down, for either sign |
| `Sim.Sim.Paired` | tools/riscc_sim.py:386-403 | DIVU and MULHU with their operand conditions |
| `Sim.Sim.Funnel` | tools/riscc_sim.py:404-413 | the funnel shifts |
| `Sim.Sim.Indexed` | tools/riscc_sim.py:363-374 | LDX, LDB, LDBS and, at lines 414-417, STB |
| `Sim.Sim.Register` | tools/riscc_sim.py:338-417 | every register-format instruction below the system group |
| `Sim.Sim.System` | tools/riscc_sim.py:418-454 | the system group, and the call of the nano profile |
| `Sim.Sim.Control` | tools/riscc_sim.py:429-443 | RET, RETI, IFLUSH, CLI and STI |
| `Sim.Sim.Long` | tools/riscc_sim.py:292-299 | the two-word call |
| `Sim.Sim.Memory` | tools/riscc_sim.py:300-305 | word loads and stores |
| `Sim.Sim.Run` | tools/riscc_sim.py:460-474 | stops after exactly the steps it takes to finish, halt, fail or use up the instruction limit; a limit that is not positive is none, and then the run has to end by itself |
| `Sim.StepCounts` | tools/riscc_sim.py:276-283 | every step counts an instruction or turns interrupts off, so a run with a limit ends |
| `Interrupts.Transparency` | tools/riscc_sim.py:271-283 | over whole runs and every schedule of raised lines: the interrupted run never fails, agrees with the uninterrupted one on registers, pc, IE and memory outside the handler, and each interrupt costs exactly eight steps (handler at tools/riscc_fuzz.py lines 400-405) |
| `Interrupts.TransparencyExact` | tools/riscc_sim.py:271-283 | a program that leaves the handler, S2 and the test register alone is unaffected by every schedule if and only if no read of S0 could see the address an interrupt left there |
| `Interrupts.OneStep` | tools/riscc_sim.py:271-458 | every step of the interrupted run keeps it in step with the uninterrupted one |
| `Interrupts.HandlerStep` | tools/riscc_fuzz.py:400-405 | each of the seven instructions after entry, vector jump and handler, runs as intended and the last one resumes the program |
| `Interrupts.PlainStep` | tools/riscc_sim.py:284-456 | a program instruction does the same in both runs |
| `Interrupts.PatchedExecute` | tools/riscc_sim.py:284-456 | instructions that do not touch system registers or the test register do not depend on what an interrupt may change |
| `Interrupts.Exposed` | tools/riscc_sim.py:271-283 | an unsafe read of S0 really is exposed by some schedule |
| `InterruptExample.OffWhenUsedIsNotEnough` | tools/riscc_sim.py:276-282 | a concrete program that never uses S0 while interrupts are on and still behaves differently when interrupted |
| `InterruptExample.Start` | tools/riscc_sim.py:160-189 | the run of that program starts where the constructor leaves a simulator with its image |
| `IsaLaws.AluStep` | tools/riscc_sim.py:339-362 | on a machine about to run an ALU instruction: ADD and SUB undo each other modulo 2^16, SLT and SLTU give 1 exactly when the order holds (SLT is unsigned in nano), AND, OR and XOR are bit by bit, MUL is congruent to the product, and only rd, pc and the count change |
| `IsaLaws.AluUnique` | tools/riscc_sim.py:339-362 | those conditions leave one result |
| `IsaLaws.ImmStep` | tools/riscc_sim.py:306-322 | immediate instructions by the operand as written: ADDI and CMPI by congruence, ANDI, ORI and XORI bit by bit with a zero high byte, LDI and LUI by byte; CMPI writes r0 |
| `IsaLaws.ShiftStep` | tools/riscc_sim.py:375-385 | bit k of the result is bit k - n or k + n of the operand, 0 beyond the word, and the sign bit beyond it for SRAI |
| `IsaLaws.FunnelStep` | tools/riscc_sim.py:404-413 | one place, with the end bit of the other register |
| `IsaLaws.DivuStep` | tools/riscc_sim.py:396-403 | a step exactly when the quotient fits a word; quotient * divisor + remainder is the two-word dividend and the remainder is below the divisor |
| `IsaLaws.MulhuStep` | tools/riscc_sim.py:390-395 | high word * 2^16 + low word is the product |
| `IsaLaws.BranchStep` | tools/riscc_sim.py:323-330 | each condition branches exactly when the signed r0 is zero, is not, is negative, or is not |
| `IsaLaws.JumpStep` | tools/riscc_sim.py:331-337 | a short jump, which halts the machine exactly when it goes to itself |
| `IsaLaws.CallStep` | tools/riscc_sim.py:418-428 | JALR saves the address of the next word, in a system register or in nano in a general one, and nothing for register 0 |
| `IsaLaws.LongCallStep` | tools/riscc_sim.py:292-299 | JALL goes to the word that follows it and saves the address after that |
| `IsaLaws.CallReturns` | tools/riscc_sim.py:418-448 | RET after JALR goes to the word after the call, whatever ran in between |
| `IsaLaws.LongCallReturns` | tools/riscc_sim.py:292-299 | RET after JALL goes to the word after both words of the call |
| `IsaLaws.NanoReturns` | tools/riscc_sim.py:418-428 | the same in nano, with a call that does not link as the return |
| `IsaLaws.InterruptReturns` | tools/riscc_sim.py:276-282 | entry goes to byte 4 with interrupts off and changes S0 only; RETI S0 then resumes the interrupted word with interrupts on |
| `IsaLaws.ReturnStep` | tools/riscc_sim.py:429-434 | RET keeps IE and RETI sets it |
| `IsaLaws.FlagStep` | tools/riscc_sim.py:435-441 | CLI, STI and IFLUSH change IE and nothing else |
| `IsaLaws.SystemStep` | tools/riscc_sim.py:449-454 | MTS writes and MFS reads one system register |
| `IsaLaws.LoadStep` | tools/riscc_sim.py:300-305 | LD and LDX read the two bytes at the address, low byte first; the test register reads as the raised line and lowers it |
| `IsaLaws.StoreStep` | tools/riscc_sim.py:300-303 | ST writes exactly those two bytes; the test register raises the line and the last word ends the run |
| `IsaLaws.ByteStoreStep` | tools/riscc_sim.py:414-417 | STB writes exactly the byte addressed |
| `IsaLaws.ByteLoadStep` | tools/riscc_sim.py:366-374 | LDB and LDBS read the byte addressed and extend it with zeros or its sign |
| `IsaLaws.LoadAfterStore` | tools/riscc_sim.py:205-244 | LD or LDX after ST at the same address gives back what was stored, as long as memory is kept |
| `IsaLaws.ByteAfterByteStore` | tools/riscc_sim.py:246-258 | LDB after STB gives back the byte stored, and any other byte as it was |
| `IsaLaws.StepFails` | tools/riscc_sim.py:284-458 | only an undefined word or a quotient that does not fit stops a step |
| `AsWritten.ComputesAsWritten` | tools/riscc_asm.py:464-636 | every computing mnemonic, run from its encoding, does what its name says by the laws above; MOV copies ra to rd, NOP changes pc and the count only, SHL1 doubles, MFEPC and MTEPC are S0 |
| `AsWritten.TransfersAsWritten` | tools/riscc_asm.py:464-636 | every mnemonic for memory and control, run from its encoding at its own address: loads, stores, taken branches at their targets, calls that link and JMP and JMPL that do not, returns and flags |
| `AsWritten.AcceptedOperands` | tools/riscc_asm.py:464-636 | exactly the operands that the fields can hold are accepted |
| `AsWritten.PublishedImmediates` | doc/RISC-C-ISA.md:267-274 | the immediate operations have the published operation fields |
| `AsWritten.PublishedBranches` | doc/RISC-C-ISA.md:299-314 | the branches have the published selectors and the rotated displacement |
| `AsWritten.PublishedTransfers` | doc/RISC-C-ISA.md:181-197 | loads and stores, and the long call of lines 487-509, have the published formats |
| `AsWritten.PublishedRegisters` | doc/RISC-C-ISA.md:344-364 | the register format has the published function fields, with the control group of lines 437-463 |
| `Assembler.EncodedMeans` | tools/riscc_asm.py:464-636 | whatever the encoder accepts decodes to the instruction that was written, on the same operands, in exactly the builds that have it |
| `Assembler.StepsAsWritten` | tools/riscc_asm.py:464-636 | one simulator step on the encoded words has the effect of the mnemonic |
| `Assembler.BranchLands` | tools/riscc_asm.py:527-533 | a taken branch lands on its label for every accepted displacement, despite the rotated field |
| `Assembler.BranchReach` | tools/riscc_asm.py:527-533 | exactly the even targets within 128 halfwords are accepted |
| `Assembler.LoadsConstant` | tools/riscc_asm.py:495-500 | the LDI16 pair loads any 16-bit constant and changes nothing else |
| `Assembler.WordCount` | tools/riscc_asm.py:278-286 | the encoder emits the number of words that insn_size announces |
| `Assembler.EncMemI` | tools/riscc_asm.py:438-439 | the fields of a load or store word do not overlap |
| `Assembler.EncI` | tools/riscc_asm.py:442-443 | the fields of an immediate word do not overlap |
| `Assembler.EncR` | tools/riscc_asm.py:446-447 | the fields of a register word do not overlap |
| `Assembler.EncBranch` | tools/riscc_asm.py:450-456 | the displacement with its sign in bit 0 |
| `Assembler.EncodeLong` | tools/riscc_asm.py:459-461 | the two words of a long call |
| `Layout.ParseSource` | tools/riscc_asm.py:345-417 | accepts exactly the sources with distinct labels and known sizes; every item starts where the earlier ones of its section end, and every label is where its section then ends |
| `ImageLaws.ExpressionSums` | tools/riscc_asm.py:178-210 | numbers and labels are themselves, x + y less y is x, x - y plus y is x, and x plus its negative is 0 |
| `ImageLaws.ExpressionShifts` | tools/riscc_asm.py:193-195 | a left shift doubles once for each place, a right shift halves rounding down and undoes it, and a negative count is an error |
| `ImageLaws.ExpressionOr` | tools/riscc_asm.py:196-199 | the or of integers of any sign is bit by bit |
| `ImageLaws.DataInImage` | tools/riscc_asm.py:639-703 | byte k of a .byte item is its k-th value modulo 2^8, a .word has its low byte first, text is its characters, and .space and .align leave zeros |
| `ImageLaws.SpaceReserved` | tools/riscc_asm.py:381-408 | what .byte, .space and .align reserve |
| `ImageLaws.SectionOfLast` | tools/riscc_asm.py:345-380 | items go to the section of the last directive before them, and to .text without one |
| `ImageLaws.NegativeInImage` | tools/riscc_asm.py:187-188 | the bytes of ADDI with a negative literal decode to ADDI with that signed operand |
| `ImageLaws.RunsAsWritten` | tools/riscc_asm.py:670-703 | on a machine that has loaded the image, one step at any item of the source has the effect of its mnemonic on the value of its operand expression |
| `ImageLaws.ConstantAsWritten` | tools/riscc_asm.py:495-500 | the same for LDI16, in two steps |
| `ImageLaws.AssembleAndLoad` | tools/riscc_sim.py:160-166 | a simulator constructed from an assembled source holds the image, so RunsAsWritten applies to it |
| `Layout.LayoutSections` | tools/riscc_asm.py:420-431 | bases in section order, each after the previous section and even |
| `Layout.Assemble` | tools/riscc_asm.py:670-703 | succeeds exactly when the source is accepted and every item can be emitted; then the image holds the bytes of every item at its address, and the internal size mismatch cannot occur |
| `Layout.SizesAgree` | tools/riscc_asm.py:639-691 | every item is emitted with the size the first pass reserved |
| `Layout.AlignEnd` | tools/riscc_asm.py:402-408 | a positive alignment never moves back and moves less than its size |
| `Layout.AlignsPowers` | tools/riscc_asm.py:402-408 | the offset after .align with a power of two is a multiple of it |
| `Layout.ItemsApart` | tools/riscc_asm.py:670-703 | no two items of the image overlap, in one section or in two |
| `Layout.SectionsApart` | tools/riscc_asm.py:420-431 | sections begin on even addresses and do not overlap |
| `Layout.LabelAddress` | tools/riscc_asm.py:434-435 | a label is the address of the item that follows it in its section |
| `Layout.LabelAtEnd` | tools/riscc_asm.py:434-435 | a label after the last item of its section is the end of the section |
| `Layout.JumpFindsLabel` | tools/riscc_asm.py:670-703 | both passes together: the bytes emitted for a branch, JMP8, JALL or JMPL to a label decode to that instruction, and it goes to the item after the label |
| `Layout.IntAndBits` | tools/riscc_asm.py:196-199 | the and of two integers of any sign is bit by bit, in unbounded twos complement; shifts, and the or by complement, are built on it |
| `Printf.Vsnprintf` | firmware/libc/printf.c:274-282 | returns the length of the whole expansion, stores exactly the prefix that fits and a NUL, and writes nothing beyond the size |
| `Printf.BoundedSink.VFormat` | firmware/libc/printf.c:73-188 | emits the expansion of the format and returns its length |
| `Printf.BoundedSink.PutConversion` | firmware/libc/printf.c:114-185 | emits what the directive renders its argument to |
| `Printf.Scan` | firmware/libc/printf.c:92-113 | reads flags, width, length and conversion as the directive grammar says |
| `Printf.BoundedSink.PutNumber` | firmware/libc/printf.c:22-50 | emits sign, padding and digits in the order of the flags, and counts them |
| `Printf.FillDigits` | firmware/libc/printf.c:26-36 | the digit loop fills the buffer with the numeral in reverse and never beyond ten characters |
| `Printf.TenDigits` | firmware/libc/printf.c:26-26 | ten characters hold every 32-bit number in base 10 and 16 |
| `Printf.BoundedSink.PutDigits` | firmware/libc/printf.c:46-47 | emits the digits in reading order |
| `Printf.BoundedSink.PutLead` | firmware/libc/printf.c:37-45 | the sign and what stands before the digits |
| `Printf.BoundedSink.PutPadded` | firmware/libc/printf.c:52-71 | text padded to the width on either side; lines 116-129 for characters |
| `Printf.BoundedSink.PutRepeat` | firmware/libc/printf.c:15-20 | emits and counts the character that many times |
| `Printf.BoundedSink.PutCharacter` | firmware/libc/printf.c:8-13 | emits and counts one character |
| `Printf.BoundedSink.Put` | firmware/libc/printf.c:218-223 | stores the character only while there is room for it and a NUL |
| `Convert.Strtol` | firmware/libc/convert.c:109-142 | the nearest long to the integer written, ERANGE exactly when it is not the integer itself, EINVAL for a bad base, and where parsing stops |
| `Convert.Strtoul` | firmware/libc/convert.c:90-107 | the integer modulo 2^32, or the largest value with ERANGE |
| `ParseLaws.ReadsNumeral` | firmware/libc/convert.c:29-79 | white space, a sign, a prefix and digits before anything else are read as the value of the digits in the base chosen, up to the last digit: base 0 means 16 behind 0x, 8 behind 0 and 10 otherwise |
| `ParseLaws.ReadsNothing` | firmware/libc/convert.c:72-77 | without a digit the value is 0 and nothing is consumed |
| `ParseLaws.BaseZero` | firmware/libc/convert.c:36-61 | for every string, base 0 reads what base 16, 8 or 10 reads, by its first characters |
| `ParseLaws.ValueJoined` | firmware/libc/convert.c:62-71 | the value of digits is positional: the front counts base^n times before n more digits, and one digit is worth itself |
| `Convert.ParseUnsigned` | firmware/libc/convert.c:17-88 | sign, base prefix, the value of the longest numeral, saturation, errno and the end pointer |
| `Convert.Accumulate` | firmware/libc/convert.c:62-71 | the digit loop: the value while it fits, and overflow exactly when it does not |
| `Convert.WouldOverflow` | firmware/libc/convert.c:66-69 | the division test is exact |
| `Convert.DigitMeaning` | firmware/libc/convert.c:6-15 | a character is worth d exactly when it is the digit d of a base up to 36, a letter in either case |
| `PrintLaws.SpecRead` | firmware/libc/printf.c:92-113 | any flags, width, l and conversion are read as they are written, the width as the decimal number it is |
| `PrintLaws.SpecFirst` | firmware/libc/printf.c:77-187 | a format prints what its first specification prints alone of its own argument, and then the rest with the arguments left |
| `PrintLaws.TextFirst` | firmware/libc/printf.c:87-91 | text without % stands for itself |
| `PrintLaws.EndPrinted` | firmware/libc/printf.c:108-113 | the end of the format prints nothing, and a specification that is cut off by it prints its % alone |
| `PrintLaws.TextPrinted` | firmware/libc/printf.c:114-133 | %%, %c and %s: the text, with spaces before it, or behind it for -, up to the width |
| `PrintLaws.NumberPrinted` | firmware/libc/printf.c:134-168 | %d, %i, %u, %x and %X: sign and numeral without a leading zero, with spaces before them, behind them for -, or zeros between them for 0, up to the width |
| `PrintLaws.PointerPrinted` | firmware/libc/printf.c:169-179 | %p: lower-case hexadecimal, at least four digits without a width |
| `PrintLaws.OtherPrinted` | firmware/libc/printf.c:180-185 | an unknown conversion is echoed |
| `PrintParse.PrintedLongParses` | firmware/libc/printf.c:134-156 | strtol reads back the value from every %ld and %li, with any flags and width, and stops after the last digit |
| `PrintParse.PrintedUnsignedParses` | firmware/libc/printf.c:157-168 | strtoul reads back the value from every %lu, %lx and %lX, and stops after the last digit |
| `PrintParse.LongThroughBuffer` | firmware/libc/printf.c:274-282 | vsnprintf into a buffer that is large enough and then strtol on the string in it: the value printed, errno as it was, and the end after the last digit |
| `PrintParse.UnsignedThroughBuffer` | firmware/libc/printf.c:274-282 | the same for %lu, %lx and %lX and strtoul |
| `PrintParse.LongRoundTrip` | firmware/libc/printf.c:22-50 | the number text of any long, however padded, parses to it |
| `PrintParse.UnsignedRoundTrip` | firmware/libc/printf.c:22-50 | the number text of any unsigned long, however padded, parses to it |
| `Clock.UptimeClock.Seconds` | firmware/bsp/demo/time.c:55-68 | interleaved with any ticks between its reads: the pass that returns is the first whose two high reads agree; the value is the 32-bit count at the moment that pass reads the low half if and only if the carries after that read are a multiple of 2^16, so always when the pass sees fewer than 2^16 carries; the counters are left as those ticks leave them |
| `Clock.AttemptExact` | firmware/bsp/demo/time.c:60-67 | an accepted pass gives that count if and only if the carries after the low read are a multiple of 2^16 |
| `Clock.AttemptCorrect` | firmware/bsp/demo/time.c:60-67 | with fewer than 2^16 carries equal high halves mean there was none |
| `Clock.UptimeClock.TickHandler` | firmware/bsp/demo/time.c:18-35 | the whole new state of one tick |
| `Clock.TickCounts` | firmware/bsp/demo/time.c:18-35 | a tick advances the 32-bit count as a whole and keeps the frames within the second |
| `Clock.SecondCounts` | firmware/bsp/demo/time.c:26-33 | a timer tick is one second modulo 2^32 and leaves the frames alone |
| `Clock.SecondsCounted` | firmware/bsp/demo/time.c:26-33 | n timer ticks are n seconds modulo 2^32 |
| `Clock.FramesConserved` | firmware/bsp/demo/time.c:20-33 | frames seen == 60 * seconds + second_frames over any ticks fewer than 2^16 frames apart, modulo the wrap of the count |
| `Clock.HighCounts` | firmware/bsp/demo/time.c:31-33 | the high half counts the carries of the low half |
| `Clock.UptimeClock.Init` | firmware/bsp/demo/time.c:37-53 | starts the clock once and never resets it |

## Left out

- RTL, caches, pipelines, the SDRAM controller and other hardware; the simulator is the machine.
- Where doc/RISC-C-ISA.md leaves a case undefined the model does what the simulator does: SRLI and SRAI in builds without shifts ignore their count field (lines 391-394), and a word access at an odd address uses the word around it (lines 164-170).
- The UART, the framebuffer, tracing, the record of written words and the update callback of the simulator.
- The C++ simulator, whose timer and UART interrupt gating differ.
- NaN payloads beyond the quiet bit, floating-point flags, and the texts of `strerror`.
- Double soft float and float comparison, and with them `scalbn`, `modf`, `fmin`, `fmax`, `fdim` and `nextafter`; `frexp` and `ilogb` on doubles, `logb` and `logbf`; the long double forwards.
- The 16-bit limb helpers of RC16 are not part of this model: limbs are the 32-bit words of RC32.
- Reading the words of a limb as 16-bit halves (`word[3]` of a 64-bit union) is arithmetic on the limbs; aliasing through unions is not modelled.
- The reduced builds without word loops (`__RISCC_NANO__`, `__RISCC_MIN__`): their byte loops are the tails of the loops modelled here.
- The assembler reads statements that are already split into mnemonics and operands; its tokenizer, preprocessor and string escapes are not modelled.
- Overflow of the int counters of printf for texts longer than `INT_MAX`; widths and counts are unbounded.  The file and string sinks, and varargs: arguments are a sequence of typed values.
- `strcat`, `strchr` and the other string functions that are plain byte loops, `search.c`, `ctype.c`, `stdio.c`, `rand.c`.
- Pointers are indices into one memory, and addresses do not wrap; the memory of the string routines is a whole number of words, so a word that holds a byte of a string can be read.
- Long functions of the source are split: AddFinite, AddOrdered, PackSum and PackDifference; MulFinite; DivideFinite and RestoringDivision; RoundAndAssemble; NormalizeRadicand and PositiveRoot; ClearNibble and ClearFraction; Coalesce, Take and Grow; CopyUp and CopyDown; the methods of Sim for instruction groups; FillDigits, Scan and PutConversion are each a stretch of one of them, taken out so that it has its own contract.
- The limit below the stack depends on the stack pointer; it is a parameter of each heap operation.
- Sim.Sim.constructor: the UART state, the trace switch and the record of written words of the object are not modelled.
- Sim.Sim.Step: the UART as a source of interrupts, the trace and the record of written words are not modelled.
- Sim.Sim.LoadWord: the UART registers are not modelled, so every address is memory.
- Sim.Sim.StoreWord: the UART registers and the record of written words are not modelled.
- ImageLaws.RunsAsWritten: for images of at most 64 KiB, which is what the machine has.
- Sim.Sim.Run: a run without an instruction limit is covered when it ends; for one that never ends there is no result to state.
- Layout.ParseSource: statements arrive split into mnemonics and operands; labels are names already folded to upper case.
- Clock.UptimeClock.Seconds: the interrupts during a call are a finite schedule, with none after it runs out; a reader that is interrupted for ever is not modelled.
- Layout.JumpFindsLabel: for addresses below 2^16, which is what the machine can reach.
- The results of floor, ceil, trunc and round keep the sign of the argument, as the code does, also when they are zero.
