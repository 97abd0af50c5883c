# A verified model of the RISC-V machine emulator

The repository emulates a 64-bit RISC-V machine: a soft-float library built from one C template,
a hart with its CSRs, traps, interrupt controller and page walk, an instruction decoder, a
file-backed block device and a writer for the device tree handed to the guest.
This project models those parts in Dafny 4.11 and proves what they promise.
`dafny verify dfyconfig.toml` checks all of it.

## What is modelled, and how

**Soft-float** (`softfp_template.h`, `softfp_template_icvt.h`). The template is modelled once, for
any `Format` with the shape of IEEE 754 formats; `SF32`, `SF64` and `SF128` are the three
instances of the C code. Words are natural numbers below `2^F_SIZE`, with shifts, masks and
wrap-around written out. `Ieee.dfy` defines correct rounding and the five flags over real
numbers, independently of any algorithm (`Delivers`), and shows the definition fixes result and
flags. `Sticky.dfy` is the bridge: an integer mantissa with sticky bit "agrees" with an exact real
when every comparison rounding makes comes out the same. Every operation is a method over the
accrued flags (`class Fcsr`, the C code's `*pfflags`), proved to deliver the correctly rounded exact
result for all inputs, all five modes and all three formats. Exponents are unbounded integers;
the C `int` exponents stay below `2^18`, far from overflow.

**The hart** (`regs.c`, `regs.h`, `plic.c`, WFI in `instructions.c`). `class Hart` has the fields of
`cpu_state_t`, those of one kind grouped in records. Registers whose bits are used one by one
(mstatus, mie, mip, the delegation masks, the controller's two words) are sets of bit numbers, so
`|=` is union and `& ~` difference; all others are 64-bit numbers. Each method's contract gives the
new state as a function or relation of the old one; `HartRuns.dfy` defines steps and runs over
arbitrary interleavings of device lines, claims, completions, timer events, CSR writes, traps,
interrupts, returns and WFI, and proves what holds in every reachable state.
`HartTraps.dfy` is about nesting, `HartCsr.dfy` about saving and restoring CSRs.

**The page walk** (`iomap.c`). `class Mmu` owns the memory that can hold page tables. An
unreadable entry leaves the local variable `pte` as the level above set it, as in the code.

**The instructions** (`instructions.c`). `Rvc.dfy` has every 32-bit branch of `decode_inst` as a
function from the registers to an act, and the expansion of every 16-bit encoding, from the tables of the
ISA manual. `RvcDecode.dfy` follows the compressed branch of `decode_inst` with the code's own bit
expressions and proves it does what the expansion does. `Core.dfy` applies acts to the register files,
the reservation and the floating-point status; its `class Interpreter` does so step by step in the code's
order. `Machine.dfy` joins the interpreter with the hart (`class Emulator`), so that exceptions, CSR
instructions, trap returns and WFI act on the same state, and proves what holds after every instruction
and in every history of instructions, fetch faults, interrupts and device events. The results of
floating-point operations are a parameter of a step there; `FloatUnit.dfy` runs the instructions that round with the
soft-float methods behind them. `Words.dfy` relates registers as bit vectors to numbers and has the division
instructions; `MulUnit.dfy` joins the multiplications to the routines for high halves.

What each instruction is to do is stated once more without any of these functions, over the numbers registers hold. The
`Isa` modules write every instruction word from the opcode tables (chapter 24 of the Unprivileged ISA 20191213), as code
and operand fields, and state a law of the interpreter's step on it: sums modulo 2^64, quotients, signed and unsigned
order, single bits, displacements, the number of the bytes read. `IsaRefused.dfy` says which words have no meaning,
`Compressed.dfy` lays out the compressed words and gives the full-size words they stand for, and `FloatInsts.dfy` runs the
floating-point words that round, with what each computes spelled out by mnemonic. `Numbers.dfy` and `Shifts.dfy` prove what
the C operators do to numbers. `MmuRights.dfy` does the same for the page walk, over the bits of the entries.

**The device-tree writer** (`fdt.c`). `class Writer` keeps the structure block and the deduplicated string
table; `FdtParse.dfy` is an independent reader that undoes it.

**The block device** (`virtio_block_device.c`). `class FileDevice` has the image file and a table of sector
buffers over it. A snapshot refines a flat disk and never writes the image; the other modes do so for every sector
number below 2^54, and beyond it do what the file position says.

## Where the code and what is said about it differ

The model follows the code. Each difference is stated as a lemma with its exact condition where one exists.

- `sqrtrem_u` starts at a power of two its comment calls at least the root. For the double-word variant
  that is false exactly when the high word is a power of two at an even position and the low word
  exceeds twice the start (`StartIff`, example `StartTooLowExample`). The word-sized variant fails the assertion of a
  division for one operand, the largest (`SqrtRemWord`). `sqrt_sf` always passes a zero low word, where neither
  happens (`StartHighEnough`, `SqrtRemHigh`).
- Vectored trap entry adds four times the whole cause register, interrupt bit included. The bit leaves the
  64-bit sum at width 64 only: there an interrupt enters its own slot, at 32 it lands 8 GiB beyond it
  (`VectorSlot`, example `VectorMissesExample`).
- mie has no writable bit 11, so the machine external bit the interrupt controller raises can never be enabled
  (`InterruptIs`).
- A write to sip while SEIP is delegated overwrites the bit the interrupt controller owns (`SeipFollows`,
  example `SeipLostExample`).
- A saved misa does not restore the width after a write in between has selected another one (`SaveRestore`, example
  `MisaLostExample`).
- Trap entry stacks the enable bit of the interrupted privilege, and the return leaves the bit of the mode it
  went through cleared; this is the rule of version 1.9.1 of the Privileged Architecture, section 3.1.7
  (`TrapReturnExact`).
- Four families of reserved compressed encodings are executed instead of refused (`RefusedIs`, one halfword of each
  in `ToleratedExamples`).
- `fma_sf` of infinity times zero plus a quiet NaN raises no invalid flag; the F extension asks for one. These are the
  only operands on which the flag is wrong (`InvalidMet`, example `InvalidMissedExample`).
- FS is to tell a kernel whether floating-point state changed since it was saved. The conversions between single and
  double precision, the comparisons and the conversions to integer change a register or a flag without setting it
  (`DirtyTracked`, example `DirtyLostExample`).
- The D extension (section 12.2 of the Unprivileged ISA 20191213) wants single-precision results boxed in 64-bit
  registers. The sign injections apply to the upper half of their second operand too: fsgnj.s boxes exactly if that is
  boxed, fsgnjn.s if its upper half is zero, fsgnjx.s if the upper halves of both are complements, so the last two
  never do for boxed operands. fmv.w.x boxes only if bit 31 is set (`SinglesBoxed`, example `UnboxedExample`).
- A store-conditional that fails keeps the reservation, which the A extension ends (`FailedScKeeps`, example
  `FailedScExample`), and "no reservation" is the address 0, so that a store-conditional to 0 stores without any
  load-reserved (`UnreservedStoreExample`); at every other address it needs one (`StoreWasReserved`).
- ecall and ebreak report the trap value of the last exception, where the Privileged Architecture has zero for ecall.
  They report zero exactly if there was no exception before or the last one's trap value was zero (`TrapReports`,
  `ZeroReportedIff`, example `StaleExample`).
- A refused compressed instruction reports all 32 fetched bits, where the Privileged Architecture wants the unused upper
  bits zero. They are exactly if the halfword that follows is (`RefusalReports`, example `RefusalReportsExample`).
- The timer compares through the signed difference of deadline and clock. It fires exactly when due only while the
  deadline is less than 2^63 ticks ahead and at most 2^63 back; the largest deadline, by which a guest asks for no timer, fires at once
  (`TimerIff`, example `TimerExample`).
- A superpage's mask is shifted by the wrong amount. The access goes to another page exactly if the entry's page number
  has one of its high bits set, `9 * i` of them at level `i` (`SuperpageIff`, example `SuperpageExample`).
- A superpage whose page number is not aligned faults, but only after its leaf has been marked; the Privileged
  Architecture 20190608 (section 4.3.2) checks the alignment first. No other fault writes (`FaultWritesIff`, example
  `FaultWritesExample`).
- mstatus.SUM lets supervisor code be fetched from user pages too, and an entry that is executable and writable but not
  readable is taken as it is; section 4.3.1 excludes both. In all else the rights are those of the architecture
  (`AllowedIff`).
- jalr is accepted with every function field and wfi with every source register (`RefusedIff`).
- A mode field of 7 where the field selects the instruction, as in fsgnj, is not refused: the word acts as the instruction
  that frm selects (`DynamicSelects`).
- In the file modes the byte offset is a product in 64 bits, which fseek takes as a signed number. A seek goes to its
  sector if and only if the number is below 2^54; otherwise the number is taken modulo 2^55, or the seek fails and the
  request is served where the file happens to be (`SeekIff`, `OffsetIs`, example `SeekExample`).
- The D extension has a single-precision instruction read a register that is not boxed as the default NaN. The code takes
  its low half, which is the same if and only if that is the default NaN (`OperandIff`, example `OperandExample`).
- The range check of a snapshot write adds in 64 bits. It lets through exactly the writes that fit unless the sum wraps
  around to a number in range; then the loop indexes the sector table at the sector number (`CheckIff`, example
  `CheckFailsExample`).
- `cvt_sf64_sf32` drops the result of `normalize_subnormal`, and `fma_sf` drops a low word for some shifts. Both
  are harmless: the results are proved correctly rounded all the same.

## Model

| member | source | states |
|---|---|---|
| Ieee.RoundsToUnique | softfp_template.h:108-175 | a real (or square root) rounds to at most one number of a format, in each mode |
| Ieee.DeliversUnique | softfp_template.h:108-175 | the definition of correct delivery fixes both the result word and the flags |
| Ieee.NearestIsNearest | softfp_template.h:114-118 | round-to-nearest: no number is closer; ties go to even (RNE) or away from zero (RMM) |
| Ieee.DirectedIsTight | softfp_template.h:119-131 | directed modes: result on the required side of the value and no number in between |
| Ieee.ExactDelivers | softfp_template.h:108-175 | a representable value is delivered unchanged and raises nothing |
| SoftFpRound.FieldsOf | softfp_template.h:85-91 | the three fields of a word and the magnitude number determine each other |
| SoftFpRound.PackIs | softfp_template.h:71-83 | packing fields gives the encoding of the magnitude number they denote |
| SoftFpRound.RShiftRnd | softfp_template.h:93-105 | the shift with sticky bit compares with every even number as the exact quotient does (`Jam`) |
| SoftFpRound.RoundMantIs | softfp_template.h:152-155 | add-and-shift with the half-way fix rounds up exactly when the guard bits ask for it in the mode |
| SoftFpRound.GridRound | softfp_template.h:133-155 | rounding a mantissa that agrees with the exact value is the rounding of that value |
| SoftFpRound.TinyIff | softfp_template.h:135-145 | the code's subnormal condition is tininess after rounding, stated without exponent limit |
| SoftFpRound.RoundedDelivers | softfp_template.h:133-175 | result, overflow, underflow and inexact flags are those of the exact value |
| SoftFpRound.RoundPack | softfp_template.h:108-175 | round_pack_sf delivers the correctly rounded value with exact flags, with no double rounding at the subnormal shift |
| SoftFpRound.NormalizeSf | softfp_template.h:178-187 | normalising a word mantissa that agrees with the exact value, then rounding, delivers it |
| SoftFpRound.Normalize2Sf | softfp_template.h:191-213 | the same for a double-word mantissa, in all three shift ranges |
| Operand.ClassesByFields | softfp_template.h:215-231 | finite, infinite, NaN and signalling NaN words by their fields, as the two predicates decide them |
| Operand.RawValue | softfp_template.h:266-275 | the value of a finite word is its raw mantissa at its raw exponent |
| Operand.SignificandIs | softfp_template.h:298-304 | subnormals are normalised exactly: a full mantissa at an exponent below the format's least |
| SoftFpAdd.AddSf | softfp_template.h:234-290 | the sum is correctly rounded for all finite operands; zero signs, infinities and NaNs as IEEE 754 asks |
| SoftFpAdd.SumReady | softfp_template.h:266-288 | three guard bits and a sticky bit suffice to round the exact sum or difference; zero exactly on cancellation |
| SoftFpAdd.SubSf | softfp_template.h:292-296 | subtraction is the correctly rounded sum with the second sign flipped |
| SoftFpMul.MulSf | softfp_template.h:349-399 | the product is correctly rounded for all finite operands; special operands and invalid flag |
| SoftFpMul.ProductReady | softfp_template.h:394-397 | the high word with sticky low word is within one bit of normalised and agrees with the exact product |
| SoftFpDiv.DivSf | softfp_template.h:589-653 | the quotient is correctly rounded for all finite operands; division by zero and invalid flags |
| SoftFpDiv.QuotientReady | softfp_template.h:648-651 | the integer quotient with sticky remainder is within one bit of normalised and agrees with the exact quotient |
| SoftFpDiv.SqrtRemU | softfp_template.h:655-718 | both variants, for every operand below the comment's bound: the result is the floor square root if and only if the start is not too low, inexact says whether its square differs from the operand, and exactly one operand fails the assertion of a division, in the word-sized variant |
| SoftFpDiv.SqrtRemHigh | softfp_template.h:655-763 | as sqrt_sf calls it: the floor square root, and inexact exactly for non-squares, in both variants |
| SoftFpDiv.SqrtSf | softfp_template.h:720-767 | the square root is correctly rounded for every positive finite input, subnormals included |
| SoftFpDiv.RootReady | softfp_template.h:756-766 | the floor root with inexact bit agrees with the real root at every comparison rounding makes |
| SoftFpFma.AlignDouble | softfp_template.h:501-516 | the four alignment ranges, including the one that drops a low word |
| SoftFpFma.FusedRounds | softfp_template.h:501-532 | whatever the range, the aligned sum or difference still agrees with the exact one, down to massive cancellation |
| SoftFpFma.CombineWords | softfp_template.h:519-532 | double-word addition with carry and subtraction with borrow are exact |
| SoftFpFma.AddTerms | softfp_template.h:491-550 | swap, alignment, addition and the sign of an exact zero deliver the exact sum of two terms |
| SoftFpFma.FmaSf | softfp_template.h:402-552 | one rounding: the result is the rounding of the exact a*b + c for all finite operands and modes |
| SoftFpFma.InvalidMet | softfp_template.h:419-439 | the invalid flag is raised as the F extension asks for all operands but infinity times zero plus a NaN that is not signalling |
| SoftFpFma.InvalidMissedExample | softfp_template.h:419-439 | infinity, zero and the default NaN, where it is not |
| SoftFpFma.FmaNonzero | softfp_template.h:462-550 | the part of it for nonzero factors |
| SoftFpCvt.WiderFormats | softfp_template.h:949-1016 | the three formats and which conversions widen |
| SoftFpCvt.WidenSf | softfp_template.h:951-982 | widening keeps the exact value of every number, infinity and zero, and raises nothing but invalid for a signalling NaN |
| SoftFpCvt.NarrowSf | softfp_template.h:984-1016 | narrowing is correctly rounded with exact flags, subnormal inputs included although their normalised mantissa is dropped |
| SoftFpCvt.NarrowUndoesWiden | softfp_template.h:951-1016 | narrowing a widened non-NaN number gives it back in every mode with the flags untouched |
| SoftFpInt.RoundsToIntUnique | softfp_template_icvt.h:73-101 | a value rounds to at most one integer |
| SoftFpInt.RoundFraction | softfp_template_icvt.h:74-98 | the shift, add and even fix round the real value to an integer in the given mode, and detect change |
| SoftFpInt.CvtSfInt | softfp_template_icvt.h:38-108 | float to integer is round, then saturate; invalid exactly if saturated or NaN, inexact exactly if in range and changed |
| SoftFpInt.CvtIntSf | softfp_template_icvt.h:125-153 | integer to float is correctly rounded for every word, range reduction included |
| SoftFpInt.SmallIntegerExact | softfp_template_icvt.h:125-153 | every integer of at most MANT_SIZE + 1 bits is a number of the format |
| SoftFpInt.IntRoundTrip | softfp_template_icvt.h:38-153 | integer to float to integer is the identity without flags whenever the integer fits the significand |
| WordArith.SchoolbookExact | softfp_template.h:320-343 | the half-word columns with their carries are exactly the product |
| WordArith.MulU | softfp_template.h:306-343 | both variants: high * 2^F_SIZE + low = a * b |
| WordArith.Mulhu | instructions.c:40-61 | floor(a * b / 2^64) |
| WordArith.Mulh | instructions.c:63-73 | the high half of the signed product through the subtractive corrections |
| WordArith.Mulhsu | instructions.c:75-82 | the high half of the mixed product |
| WordArith.DivRemU | softfp_template.h:554-587 | q * b + r = ah * 2^F_SIZE + al with r < b, for every ah < b |
| WordArith.DivRemRestoring | softfp_template.h:567-585 | the restoring loop, also when the shifted-out bit is only in `ab` |
| WordArith.NewtonAbove | softfp_template.h:676-681 | one Newton step from at or above the root stays at or above it |
| WordArith.NewtonStops | softfp_template.h:679-683 | the iterate at which the step no longer decreases is the floor root |
| WordArith.SqrtRemWide | softfp_template.h:659-685 | the Newton loop terminates; the result is the floor root exactly if the start is at least the root |
| WordArith.StartIff | softfp_template.h:664-675 | the start is at least the root if and only if a condition on the two input words holds |
| WordArith.StartTooLowExample | softfp_template.h:664-675 | an input on which the comment "2^l >= a" fails |
| WordArith.StartHighEnough | softfp_template.h:664-675 | with a zero low word it never fails |
| WordArith.SqrtRemWord | softfp_template.h:689-716 | word-sized loop: every division meets a1 < b and no sum q + s wraps, except for the largest operand, where it does; else the result is the floor root exactly if the start is at least the root, and inexact is exact |
| BitSets.Ctz32 | cutils.h:164-174 | the number of the lowest bit, 32 if there is none |
| BitSets.SetOfNumber | regs.c:254-386 | a register's number and its set of bits determine each other |
| Hart.Hart.constructor | space.c:60-77 | the reset state |
| Hart.Hart.SetMip | regs.h:115-120 | raises pending bits and wakes a sleeping hart exactly if an enabled bit is then pending |
| Hart.Hart.ResetMip | regs.h:122-125 | clears pending bits and nothing else |
| Hart.Hart.PlicUpdateMip | plic.c:11-22 | both external bits say whether a line is pending and not being served |
| Hart.Hart.PlicSetIrq | plic.c:24-32 | one line changes, the external bits follow |
| Hart.Hart.PlicClaim | plic.c:58-72 | the lowest eligible line is answered and marked served, or 0 and no change |
| Hart.Hart.PlicComplete | plic.c:104-125 | completion ends the service of a line in range and ignores any other value, 0 included |
| Hart.Hart.SetPriv | regs.c:388-407 | the width moves with the privilege |
| Hart.Hart.RaiseException | regs.c:409-471 | delegation, the stacked privilege and enable bit, cause, tval, and the target, with nothing else changed |
| Hart.PushS | regs.c:434-438 | the three mstatus updates stack the interrupted enable bit and privilege and mask the mode |
| Hart.PushM | regs.c:455-459 | the same for machine mode, from any privilege |
| Hart.CauseOr | regs.c:425-427 | ORing in the shifted interrupt bit gives the cause register: the number, plus the top bit of the width for an interrupt |
| Hart.Hart.GetPendingIrqMask | regs.c:473-498 | exactly the interrupts that are pending, enabled and not masked at this privilege |
| Hart.Hart.RaiseInterrupt | regs.c:500-519 | takes the lowest such interrupt, or reports that there is none |
| Hart.Hart.HandleSret | regs.c:521-531 | unstacks enable bit and privilege, resets the stack, changes no other bit |
| Hart.Hart.HandleMret | regs.c:533-543 | the same for machine mode |
| Hart.PopM | regs.c:538-540 | the mstatus updates of mret, for every stacked privilege |
| Hart.Hart.Wfi | instructions.c:1811-1825 | sleeps exactly if no enabled interrupt is pending |
| Hart.Hart.SleepDuration | regs.c:545-568 | raises the timer bit when the unsigned difference of deadline and clock, read as signed, is not positive; never waits while awake, longer than allowed, or beyond the timer |
| HartRuns.TimerIff | regs.c:549-556 | the bit is raised exactly if the deadline has come, if and only if it is less than 2^63 ticks ahead and at most 2^63 back |
| HartRuns.TimerExample | regs.c:549-556 | the largest deadline is due at clock 0 |
| HartRuns.ResetValid | space.c:60-77 | the reset state satisfies the invariant |
| HartRuns.StepKeepsValid | regs.c:254-568 | every step keeps the invariant: FS bits zero in stored mstatus, width = 16 << XL(privilege), masks, satp modes Bare, Sv39 and Sv48 only, even pc and epc, MEIP exactly if a line is eligible, no sleep with an enabled interrupt pending |
| HartRuns.CsrKeepsValid | regs.c:254-386 | every CSR write that passes the privilege check of csr_read keeps it |
| HartRuns.MstatusKeepsValid | regs.c:49-73 | no mstatus or sstatus write changes the width in force |
| HartRuns.TrapKeepsValid | regs.c:409-471 | trap entry keeps it |
| HartRuns.ReturnKeepsValid | regs.c:521-543 | returns keep it |
| HartRuns.RunKeepsValid | regs.c:254-568 | every state of every run satisfies the invariant |
| HartRuns.LoopTurn | instructions.c:2200-2268 | a turn of the machine loop before the fetch: timer, then interrupts; an instruction only runs on an awake hart with nothing to take, and only a sleeping hart waits |
| HartRuns.CsrAccess | instructions.c:1854-1971 | csrrw, csrrs and csrrc with register or immediate operand: the checks of csr_read guard csr_write; success is the read value and exactly the write, or no change with source register 0; anything else is exactly an illegal-instruction trap |
| HartRuns.NoDoubleClaim | plic.c:58-72 | in every run, between two claims of the same source lies its completion |
| HartRuns.ClaimsDrain | plic.c:58-72 | claiming until 0 answers exactly the eligible lines, in ascending order |
| HartRuns.SeipFollows | regs.c:299-302 | SEIP follows MEIP through a step if and only if it is not a sip write that gives a delegated SEIP another value |
| HartRuns.SeipLostExample | regs.c:299-302 | a valid state with SEIP delegated and a line raised, in which writing 0 to sip loses SEIP |
| HartRuns.LineRestoresSeip | plic.c:24-32 | the next change of a line brings SEIP back in step |
| HartRuns.InterruptIs | regs.c:500-519 | an interrupt taken is the lowest that is pending, enabled and not masked by MIE, SIE and mideleg, never the machine external one; it goes to the delegated mode, which is then masked |
| HartRuns.NoInterrupt | regs.c:473-519 | none is taken only if none is pending, enabled and unmasked |
| HartRuns.ExceptionIs | regs.c:409-471 | an exception enters supervisor mode if and only if it comes from there or below and its bit in medeleg is set, whatever mideleg holds; it always enters at the vector base, with pc, number and trap value in that mode's registers and the privilege and enable bit in its bits of mstatus |
| HartRuns.CauseTells | regs.c:412-427 | at widths 16, 32 and 64 the cause register determines the cause: interrupts, exceptions and their numbers are all told apart |
| HartRuns.VectorSlot | regs.c:440-444 | among widths 16, 32 and 64 a vectored interrupt enters its own slot exactly at 64; otherwise it lands 2^(width + 1) bytes beyond |
| HartRuns.VectorMissesExample | regs.c:440-444 | a vector base and an interrupt at width 32 for which it does |
| HartRuns.SupervisorCannotTouchMachine | regs.c:274-324 | no CSR write below machine mode changes a machine register, an undelegated bit, the machine trap stack or SXL |
| HartTraps.EntryStacks | regs.c:429-470 | every trap stacks pc, privilege and enable bit in the frame of the mode entered, which is never below the one interrupted, and leaves the other frame alone |
| HartTraps.ExitRestores | regs.c:521-543 | every return takes all three from its frame, resets it, and leaves the other frame alone |
| HartTraps.ActsKeep | regs.c:409-543 | any sequence of work, handled traps and acts around which a frame is saved, nested to any length, keeps privilege, widths and the frames in use |
| HartTraps.HandledRestores | regs.c:409-543 | every trap through a free frame, the same mode included, its handler with anything nested in it, and the matching return restore pc, privilege, width, enable bit and all frames in use; the frame gone through is used up |
| HartTraps.FramedKeeps | regs.c:409-543 | a frame saved and put back around acts may be used by traps in between |
| HartTraps.FramePutBack | regs.c:84-386 | writing back what epc and the status register read as puts a frame back and leaves the other alone |
| HartTraps.PlainKeeps | regs.c:254-568 | every step keeps the frames in use but traps, interrupts taken, returns, and CSR writes of misa, of the epc of a frame in use, or of other frame or width bits |
| HartTraps.TrapReturnExact | regs.c:429-543 | exactly which mstatus bits an immediate return leaves different |
| HartCsr.SaveRestore | regs.c:84-386 | saving, writing anything and restoring gives the state back for every readable and writable CSR, except misa exactly when the written width field is legal and differs from the one in force |
| HartCsr.MisaRestored | regs.c:328-348 | the misa case, with its condition on the written value |
| HartCsr.MisaLostExample | regs.c:328-348 | from reset, selecting 32 bits and writing the saved misa back leaves 32 bits |
| HartCsr.StatusRestored | regs.c:38-73 | the mstatus and sstatus cases, where FS and the summary bit are not stored |
| HartCsr.MaskedMie | instructions.c:1877-1912 | csrrs and csrrc on mie set or clear exactly the writable bits named, and read the old value |
| HartCsr.HandlerReads | regs.c:84-471 | after an exception epc, cause and tval of the mode entered read as the interrupted pc, the number and the trap value |
| HartCsr.ReturnsTo | regs.c:254-543 | a return goes to what was written to epc, bit 0 cleared |
| HartCsr.Vectors | regs.c:254-471 | exceptions enter at the value written to the vector register, rounded down to 4; the bits written to medeleg decide the mode |
| HartCsr.WordsApart | regs.c:84-386 | tvec, scratch, epc, cause and tval of both modes read back as written, epc with bit 0 cleared, and then no other CSR reads differently |
| HartCsr.BitsWritten | regs.c:254-386 | which bits of medeleg, mideleg, mie and mip a write sets, through sie and sip too |
| HartCsr.StatusWritten | regs.c:38-73 | which bits of mstatus a write sets, through sstatus too |
| HartCsr.FloatCsrs | regs.c:84-270 | fflags, frm and fcsr read and written, reserved rounding modes included |
| Mmu.Mmu.TranslateAction | iomap.c:129-202 | the level loop finds the leaf, decides permission, marks the leaf exactly if needed, and gives the address or the fault |
| Mmu.Mmu.SuperpageAddress | iomap.c:176-198 | the page-number loop and the mask: page numbers and offset of the virtual address under the low bits of the entry's page number |
| Mmu.SuperpageIff | iomap.c:176-198 | that is where the entry says if and only if its page number has none of the bits that get lost |
| Mmu.SuperpageExample | iomap.c:176-198 | a 512 GiB page that is read at address 0 |
| Mmu.Mmu.AddressTranslate | iomap.c:205-305 | the outcome, address included, and the memory after an access, for every privilege and every mode satp can hold |
| Mmu.LeafStored | iomap.c:136-149 | a walk only ends in an entry that is in memory, also after unreadable entries |
| Mmu.WalkAlike | iomap.c:136-149 | memories that differ only in accessed and dirty bits of leaves have the same walks |
| Mmu.TranslationsUnchanged | iomap.c:170-175 | whatever an access marks, every address translates as before for every access kind, status and root |
| Mmu.RepeatWritesNothing | iomap.c:170-175 | repeating an access writes nothing, nor does a load or fetch after an allowed store |
| Mmu.LeafMarked | iomap.c:170-175 | after a translated access its leaf is accessed, and newly dirty exactly after a store; no other entry changes |
| Mmu.TouchesCommute | iomap.c:170-175 | two accesses leave the same memory in either order |
| MmuRights.WalkThree | iomap.c:129-149 | Sv39: which entries a walk reads, from the root's index on top, and that a leaf in any of the three tables ends it |
| MmuRights.WalkFour | iomap.c:129-149 | Sv48: one table more above those |
| MmuRights.Untranslated | iomap.c:205-236 | machine mode and Bare give the address itself, other modes fault; which privilege a load or store counts as under MPRV |
| MmuRights.NothingFound | iomap.c:129-149 | without a leaf an access faults and writes nothing |
| MmuRights.FaultIff | iomap.c:151-168 | an access through an aligned leaf faults if and only if a right is missing: W for a store, X for a fetch, R or under MXR X for a load, U outside supervisor mode, SUM for a user page in it |
| MmuRights.AllowedIff | iomap.c:151-168 | that is what the architecture permits unless the code lets through a writable page that is not readable, or a supervisor fetch from a user page |
| MmuRights.MisalignedFaults | iomap.c:176-185 | a superpage that is not aligned faults for every access |
| MmuRights.Address | iomap.c:176-199 | the physical address of an access that goes through |
| MmuRights.Writes | iomap.c:170-175 | an access that goes through sets A on its leaf and D exactly for a store, and changes nothing else |
| MmuRights.FaultWritesIff | iomap.c:151-185 | a fault leaves memory as it was, if and only if it is not that of a misaligned superpage with the rights there and a mark missing |
| MmuRights.FaultWritesExample | iomap.c:170-185 | a store that faults and leaves its leaf dirty |
| MmuRights.FewerRights | iomap.c:151-168 | taking rights from a leaf never lets an access through that faulted |
| MmuRights.LoadsAlone | iomap.c:163-164 | MXR changes neither outcome nor memory of stores and fetches |
| MmuRights.SupervisorAlone | iomap.c:151-155 | SUM changes nothing outside supervisor mode or for pages that are not user pages |
| RvcDecode.DecodeCompressed | instructions.c:303-770 | every halfword does what its 32-bit expansion does, or is refused if it has none, whatever follows it in memory |
| RvcDecode.Quadrant0 | instructions.c:308-433 | quadrant 0 |
| RvcDecode.Quadrant1 | instructions.c:434-602 | quadrant 1 |
| RvcDecode.Quadrant2 | instructions.c:603-770 | quadrant 2, relying on register 0 being zero |
| RvcDecode.IFields | instructions.c:283-303 | decoding an encoded I-format instruction gives its fields and sign-extended immediate |
| RvcDecode.SFields | instructions.c:283-303 | the same for the S format |
| RvcDecode.BFields | instructions.c:283-303 | the same for the B format |
| RvcDecode.JFields | instructions.c:283-303 | the same for the J format |
| RvcDecode.TargetJ | instructions.c:560-569 | the code's c.j bit shuffle is the offset of the encoding table |
| RvcDecode.TargetB | instructions.c:570-598 | the same for c.beqz and c.bnez |
| RvcDecode.ShiftIs | instructions.c:853-899 | the immediate shifts of the 32-bit branch, told apart by bit 10 |
| RvcDecode.RefusedIs | instructions.c:303-770 | a halfword is refused exactly if it is reserved and not in one of four tolerated families |
| RvcDecode.ToleratedExamples | instructions.c:303-770 | one halfword of each tolerated family: reserved, and executed |
| Compressed.Offsets | instructions.c:303-770 | c.lw, c.ld and c.fld: every halfword of the table stands for its load |
| Compressed.OffsetStores | instructions.c:303-770 | c.sw, c.sd and c.fsd |
| Compressed.Constants | instructions.c:303-770 | c.addi, c.addiw, c.li, c.lui, c.addi4spn and c.addi16sp |
| Compressed.Immediates | instructions.c:303-770 | c.srli, c.srai, c.andi and c.slli |
| Compressed.Arithmetic | instructions.c:303-770 | c.sub, c.xor, c.or, c.and, c.subw and c.addw |
| Compressed.Jumps | instructions.c:303-770 | c.j, c.beqz and c.bnez, every displacement |
| Compressed.StackAccess | instructions.c:303-770 | the loads and stores at the stack pointer |
| Compressed.Moves | instructions.c:303-770 | c.jr, c.jalr, c.ebreak, c.mv and c.add |
| Core.Interpreter.Step | instructions.c:286-2199 | the interpreter leaves what the act of the instruction, compressed or not, says: state, stored value, exception, or a hart instruction untouched |
| Core.Interpreter.ReadModifyWrite | instructions.c:2024-2083 | an atomic reads, writes, then sets its register; a fault at either access changes nothing but the trap value |
| Core.Interpreter.StoreIfReserved | instructions.c:2011-2023 | a store-conditional stores and answers 0 exactly at the reserved address, else answers 1 |
| Core.Interpreter.FloatStep | instructions.c:1164-1716 | refusals change nothing; results go to one register, flags accrue, FS is set where the code sets it |
| Core.SameButLength | instructions.c:2178-2183 | short and long form agree but for two bytes in the next pc and the link register |
| Core.BaseActSane | instructions.c:771-2174 | no instruction writes register 0 or jumps to an odd address |
| Core.StepKeepsSound | instructions.c:286-2199 | every instruction keeps register 0 zero and pc even; one that raises an exception changes no register of either file, no reservation, no floating-point status and not pc |
| Core.DirtyTracked | instructions.c:1278-1716 | a step that changes a floating-point register or flag leaves FS dirty, if and only if it is not of the three families that forget to or FS was dirty |
| Core.DirtyLostExample | instructions.c:1451-1462 | a state in which fcvt.s.d changes its register, whatever it computes, and FS stays initial |
| Core.SinglesBoxed | instructions.c:1374-1392 | which single-precision results are boxed, for all operations and operands |
| Core.UnboxedExample | instructions.c:1374-1392 | from reset fsgnj.s leaves an unboxed 0; of boxed 1.0 the other two leave unboxed -1.0 and 1.0 |
| Core.RefusalReports | instructions.c:2184-2187 | a refused instruction reports its own bits alone if and only if it is a full one or the halfword after it is zero |
| Core.RefusalReportsExample | instructions.c:2184-2187 | the all-zero halfword before another one |
| IsaAlu.Arithmetic | instructions.c:771-860 | add and sub are sum and difference modulo 2^64; slt and sltu answer whether the signed or unsigned number of the first operand is below that of the second |
| IsaAlu.ArithmeticImmediate | instructions.c:861-913 | addi, slti and sltiu: the same with the sign-extended 12-bit immediate |
| IsaAlu.Logic | instructions.c:771-860 | xor, or and and, bit by bit |
| IsaAlu.LogicImmediate | instructions.c:861-913 | xori, ori and andi, bit by bit |
| IsaAlu.Shift | instructions.c:771-860 | sll multiplies by 2^k modulo 2^64, srl is the quotient by 2^k, sra the floor of the signed quotient, k the second operand modulo 64 |
| IsaAlu.ShiftImmediate | instructions.c:861-913 | slli, srli and srai by every amount below 64 |
| IsaAlu.WordArithmetic | instructions.c:914-1006 | addw, subw and addiw: the low 32 bits of sum and difference, sign-extended |
| IsaAlu.WordShift | instructions.c:942-1006 | sllw, srlw and sraw on the low 32 bits, by the second operand modulo 32, sign-extended |
| IsaAlu.WordShiftImmediate | instructions.c:914-941 | slliw, srliw and sraiw by every amount below 32 |
| IsaAlu.Multiplication | instructions.c:797-836 | mul, mulh, mulhsu and mulhu: low and high half of the product of the numbers, signed as each names them |
| IsaAlu.WordMultiplication | instructions.c:942-1006 | mulw: the low 32 bits of the product, sign-extended |
| IsaAlu.DivisionExists | instructions.c:86-132 | every division by a number other than 0 has such a quotient and remainder |
| IsaAlu.DivisionUnique | instructions.c:86-132 | quotient and remainder rounding toward zero are determined by recomposing the dividend |
| IsaAlu.Division | instructions.c:86-172 | div and rem are quotient and remainder of the signed numbers, rounding toward zero, modulo 2^64 |
| IsaAlu.UnsignedDivision | instructions.c:102-180 | divu and remu: quotient and remainder of the unsigned numbers |
| IsaAlu.DivisionByZero | instructions.c:86-180 | every quotient by zero is all ones, every remainder the dividend |
| IsaAlu.WordDivision | instructions.c:86-172 | divw and remw on the signed numbers of the low 32 bits |
| IsaAlu.UnsignedWordDivision | instructions.c:102-180 | divuw and remuw on the unsigned ones, results sign-extended |
| IsaAlu.WordDivisionByZero | instructions.c:86-180 | the same by zero |
| IsaFlow.Branch | instructions.c:1723-1750 | each of the six branches goes to pc plus displacement if and only if its relation holds of the signed or unsigned numbers, and to the next instruction otherwise |
| IsaFlow.JumpAndLink | instructions.c:1751-1757 | jal goes to pc plus displacement and leaves the next address in rd |
| IsaFlow.JumpAndLinkRegister | instructions.c:1758-1767 | jalr goes to register plus immediate with bit 0 cleared, read before rd is written |
| IsaFlow.Upper | instructions.c:1717-1773 | lui gives the sign-extended immediate, auipc pc plus it |
| IsaMemory.Loading | instructions.c:1038-1110 | the seven loads: address, size, and the signed or unsigned number of the bytes read |
| IsaMemory.Storing | instructions.c:1007-1037 | the four stores: address, size, and the low bytes stored |
| IsaMemory.AccessFaults | instructions.c:1007-1163 | a faulting access is the instruction's exception and changes nothing but the trap value |
| IsaMemory.FloatLoading | instructions.c:1111-1141 | flw puts the word into a box, fld fills the register; refused without the unit, which becomes dirty |
| IsaMemory.FloatStoring | instructions.c:1142-1163 | fsw and fsd store the low bytes of the register |
| IsaAtomic.Atomics64 | instructions.c:1991-2174 | the nine atomics on 64 bits: what is stored is the operand, the sum modulo 2^64, the bits of and, or and xor, or the smaller or larger in signed or unsigned order; rd gets the old number |
| IsaAtomic.Atomics32 | instructions.c:1991-2174 | the same on 32 bits: all modulo 2^32, order and result sign-extended |
| IsaAtomic.Reservations | instructions.c:1998-2023 | lr reads, sign-extends and remembers its address; sc stores and answers 0 at that address, and answers 1 anywhere else |
| IsaSystem.Calls | instructions.c:1780-1825 | which words are ecall, ebreak, sret, mret and wfi |
| IsaSystem.Synchronizes | instructions.c:1826-1853 | sfence.vma with every pair of registers |
| IsaSystem.CsrWords | instructions.c:1854-1971 | the six CSR words: which CSR, operation and operand, and that the set and clear forms with register or operand 0 do not write |
| IsaSystem.Fences | instructions.c:1976-1990 | fence and fence.i only move on |
| IsaRefused.RefusedIff | instructions.c:771-2195 | outside floating-point arithmetic a full-size word is refused as illegal if and only if its bits are in none of the accepted patterns, or it needs the unit while that is off |
| IsaFloat.Decodes | instructions.c:1164-1716 | every word of the F and D tables is read as its operation, format, integer type, fused signs, operands and rounding mode, the one in frm for mode 7; modes 5 and 6 are refused |
| IsaFloat.Injections | instructions.c:1374-1412 | fsgnj, fsgnjn and fsgnjx, bit by bit: the sign is bit 63 of a double, and all bits from 31 on in the single format |
| IsaFloat.Moves | instructions.c:1537-1710 | the moves transfer a whole register, or its low half sign-extended, in both directions |
| IsaFloat.DynamicSelects | instructions.c:1374-1600 | a mode field of 7 in an instruction it selects acts as the mode field frm |
| FloatInsts.Run | instructions.c:1164-1716 | a floating-point word that rounds, from the fetched word on: refused exactly without the unit or with mode 5 or 6; otherwise the sum, difference, product, quotient, root, fused form with its own signs, or conversion its mnemonic names, of the numbers in its registers in the mode named, goes to its register, boxed or extended, with NV, DZ, OF, UF and NX accrued in bits 4 to 0 |
| FloatUnit.FloatInst | instructions.c:1164-1716 | the instructions that round, with the library behind them: the destination, read again, holds the correctly rounded result of the words in the source registers, and exactly its flags are accrued |
| FloatUnit.Compute | instructions.c:1164-1716 | which library routine each operation calls, on which operands, with which integer width and signedness |
| FloatUnit.ReadBack | instructions.c:1374-1392 | a result word survives boxing: reading its register gives it back |
| FloatUnit.OperandIff | instructions.c:1164-1716 | a single-precision operand is what the D extension wants if and only if its register is boxed or its low half is the default NaN |
| FloatUnit.OperandExample | instructions.c:1164-1716 | fadd.s of two zero registers, as after reset: the code delivers 0, a NaN is wanted |
| FloatUnit.ResultWord | softfp_template.h:108-175 | every delivered result is a word of its format |
| MulUnit.Multiply | instructions.c:797-836 | mul, mulh, mulhsu and mulhu are the low and high halves of the product read with the signs each one names |
| Words.TruncatedIs | instructions.c:86-132 | C division is an exact decomposition whose remainder is smaller than the divisor and has the dividend's sign |
| Words.DivisionIs | instructions.c:86-172 | the signed division instructions, zero divisor and overflow included: results are words and dividend = divisor * quotient + remainder modulo the word size |
| Words.UnsignedDivisionIs | instructions.c:102-180 | the same, exactly, for the unsigned ones |
| Machine.ExecuteKeeps | instructions.c:286-2199 | every instruction keeps register 0 zero and the hart's invariant |
| Machine.PreciseTrap | instructions.c:2185-2195 | an instruction that raises an exception leaves both register files, the reservation and the rest of the hart alone; it enters supervisor mode exactly if medeleg has its cause and it was not in machine mode, at the vector base, where the trap registers hold its own pc, its cause and its trap value |
| Machine.RestartExact | instructions.c:2185-2195 | after a trap whose handler only returns, the instruction meets the registers, reservation, pc, privilege and width it first met; the pending trap value and exactly the given bits of mstatus differ |
| Machine.TrapReports | instructions.c:1781-1790 | ecall and ebreak, long and short, report the pending trap value: zero if and only if that is zero |
| Machine.TvalStep | instructions.c:2185-2268 | the pending trap value changes exactly with the exceptions raised, to their trap values |
| Machine.ZeroReportedIff | instructions.c:1781-1790 | in every history from a zero trap value they report zero if and only if there was no exception before, or the last one's trap value was zero |
| Machine.StaleExample | instructions.c:1781-1790 | from reset, an ecall after a refused word reports that word |
| Machine.HistorySound | instructions.c:2200-2268 | register 0 is zero and the hart's invariant holds in every state of every history of instructions, fetch faults, interrupts and device events |
| Machine.ReservationStep | instructions.c:1991-2174 | only a load-reserved sets the reserved address, only a storing store-conditional clears it |
| Machine.StoreWasReserved | instructions.c:2003-2023 | in every history, a store-conditional that stores to a nonzero address was preceded by a load-reserved of it, with no storing store-conditional between |
| Machine.UnreservedStoreExample | instructions.c:2011-2018 | at address 0 one stores with no load-reserved at all |
| Machine.FailedScKeeps | instructions.c:2011-2023 | after a store-conditional without fault no reservation is left exactly if it stored or there was none |
| Machine.FailedScExample | instructions.c:2011-2023 | a store-conditional to 0 that fails and leaves the reservation at 8 |
| Machine.Emulator.DecodeInst | instructions.c:286-2199 | decode_inst on the joined state: what the instruction comes to, its exception raised in the hart with the instruction's own pc |
| Machine.Emulator.CsrInst | instructions.c:1854-1971 | the CSR instructions on the joined state, destination register included |
| Fdt.ReadBe32 | fdt.c:82-86 | a cell holds a number up to its low 32 bits |
| Fdt.ReadCells | fdt.c:154-162 | every cell of an array is found at its place |
| Fdt.FindIs | fdt.c:123-129 | the scan finds a name exactly if it is an entry |
| Fdt.CStrStable | fdt.c:119-144 | a string keeps its offset however the table grows |
| Fdt.WithStringIs | fdt.c:119-144 | a known name leaves the table as it is, a new one becomes its last entry; entries stay distinct |
| Fdt.OffsetStands | fdt.c:119-144 | the offset handed out stands for the name in every later table |
| Fdt.Writer.PutData | fdt.c:88-97 | data padded with zeros to a cell boundary |
| Fdt.Writer.BeginNode | fdt.c:99-104 | begin token and padded name |
| Fdt.Writer.EndNode | fdt.c:113-117 | end token |
| Fdt.Writer.GetStringOffset | fdt.c:119-144 | the loop's offset and the table after it |
| Fdt.Writer.Prop | fdt.c:146-152 | a property record, with the string table it needs |
| Fdt.Writer.PropTabU32 | fdt.c:154-162 | the cell loop writes the same record as a property of those bytes |
| Fdt.Writer.WriteNode | fdt.c:99-162 | the calls for a tree leave exactly its structure block and string table |
| Fdt.Writer.Output | fdt.c:229-282 | the blob: ten header cells, structure block, empty reservation map, strings, each where its header cell says; nothing beyond its size changes |
| Fdt.Writer.AlignTo8 | fdt.c:257-261 | zeros up to the next multiple of 8 |
| FdtParse.ItemsRead | fdt.c:99-162 | reading a node's items gives them back, whatever surrounds them |
| FdtParse.NodeRead | fdt.c:99-152 | reading a node gives it back |
| FdtParse.HeaderReads | fdt.c:243-279 | the header cells read back |
| FdtParse.BlobReads | fdt.c:229-282 | the blob of any tree below 4 GiB reads back as that tree, names and property bytes included |
| FdtParse.BlocksApart | fdt.c:251-279 | header and blocks do not overlap; reservation map and size are multiples of 8 |
| FdtParse.WriteAndRead | fdt.c:57-282 | writing a tree and reading the blob gives the tree |
| BlockDevice.LastWriteWins | virtio_block_device.c:50-88 | after any writes, a sector holds the last accepted write that covers it, else the base image |
| BlockDevice.FittingAlike | virtio_block_device.c:50-88 | a write that fits does the same in read-write mode as in a snapshot |
| BlockDevice.FileDevice.constructor | virtio_block_device.c:90-141 | a new device reads as its image |
| BlockDevice.SeekIff | virtio_block_device.c:46-61 | a seek goes to its sector if and only if the sector number is below 2^54 |
| BlockDevice.OffsetIs | virtio_block_device.c:46-61 | any other number is taken modulo 2^55, or refused |
| BlockDevice.SeekExample | virtio_block_device.c:46-61 | sector 2^55 is sector 0; a seek to sector 2^54 fails |
| BlockDevice.FileDevice.ReadAsync | virtio_block_device.c:16-48 | a read in range returns the disk's sectors and changes nothing else, in every mode; out of range a snapshot delivers the sectors there are and leaves its table, a file read delivers the bytes there are where the seek left the file and leaves the rest of the buffer |
| BlockDevice.FileDevice.ReadSector | virtio_block_device.c:27-42 | one sector, from its buffer or from the image |
| BlockDevice.FileDevice.WriteSector | virtio_block_device.c:69-80 | one sector changes and no other, so buffers do not alias |
| BlockDevice.WrittenSector | virtio_block_device.c:60-64 | after a write-through a sector of the file is its data if covered, and what it was otherwise |
| BlockDevice.CheckIff | virtio_block_device.c:65 | the 64-bit check decides fitting if and only if the sum does not wrap around to a number in range |
| BlockDevice.CheckFailsExample | virtio_block_device.c:65 | one sector at the last sector number passes it, on every disk |
| BlockDevice.FileDevice.WriteAsync | virtio_block_device.c:50-88 | read-only rejects; a snapshot takes exactly the writes that fit, rejects those that do not, and leaves its table on those whose check wraps, with disk and image kept; read-write lays the data over the file where the seek left it, which for a sector number below 2^54 is over the disk there, and the file may grow |
| BlockDevice.RunWrites | virtio_block_device.c:50-88 | any list of writes on a snapshot: the disk is the replay of those before the first whose check wraps, the image stays |

## Left out

- Hart.CauseOr: C leaves shifts by 64 or more undefined; at width 128, which an unchecked SXL can select, the model lets the interrupt bit fall off.
- Hart.GetMstatus: at width 128 the summary bit would be bit 127, which the model drops.
- BlockDevice.FileDevice.WriteAsync: fwrite is taken not to fail and fseek to take every offset that is not negative; the byte count `size * 512` is taken to be an int, as it is for every request of the virtio layer; what C does once the table is left is undefined and not modelled.
- Machine.Emulator.DecodeInst: the memory system's answers, floating-point results and what csr_read leaves in an unset variable are parameters of a step; an access to a device register changes the hart by separate events.
- FloatUnit.FloatInst: min, max, comparison and classification keep their results a parameter; the sign injections and moves, which call no library routine, are in `Core` and `IsaFloat`.
- Core.Interpreter.ReadModifyWrite: an access that crosses a page and faults on the second page may have stored the first part; a step either stores all or faults.
- Core.Interpreter.Step: the 32-bit branches are a function (`BaseAct`) the interpreter calls, not statements; what they do is in the laws of the `Isa` modules.
- Mmu.Mmu.SuperpageAddress: the distance of the second mask shift exceeds the word, which C leaves undefined; it is taken modulo 64, as 64-bit processors do.
- Sv32, and virtual accesses that cross a page (read_vaddr, write_vaddr): satp never holds the Sv32 mode at 64 bits (`HartRuns.StepKeepsValid`), and the split adds nothing to the walk.
- min, max, comparisons and classification of floats, and the NaN payload rules of the fmin and fmax variants: single-branch facts.
- CLINT, HTIF, PCI, the virtio transport, the console and the GUI; realloc growth in the device-tree writer; `build_fdt`'s choice of nodes and its file input.
- The cycle counter, which the loop increments after an instruction; timer ticks, device lines and the real-time clock are arbitrary events and parameters.
