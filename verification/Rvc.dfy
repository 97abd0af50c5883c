/** The 32-bit instructions as decode_inst executes them (instructions.c:771-2174), and the
    expansion of the compressed ones (chapter 16 of the RISC-V Unprivileged ISA 20191213). */
module Rvc {
  import opened Words

  /** The integer registers by number. */
  type Regs = bv32 -> bv64

  /** What an instruction does to the hart, apart from how far the next pc is. Loads, stores
      and atomics leave the outcome to the memory system; the acts from `Float` on leave
      their remaining checks to the state of the floating-point unit or of the hart. */
  datatype Act =
    | Next
    | SetReg(rd: bv32, value: bv64)
    | Load(rd: bv32, addr: bv64, size: nat, signed: bool)
    | LoadFp(rd: bv32, addr: bv64, size: nat)
    | Store(addr: bv64, size: nat, value: bv64)
    | StoreFp(addr: bv64, rs: bv32, size: nat)
    | Goto(target: bv64)
    | Call(target: bv64, rd: bv32)
    | Trap(cause: nat)
    | LoadReserved(rd: bv32, addr: bv64, size: nat)
    | StoreConditional(rd: bv32, addr: bv64, size: nat, value: bv64)
    | Atomic(op: bv32, rd: bv32, addr: bv64, size: nat, value: bv64)
    | Float(inst: bv32)
    | Ecall
    | Return(lvl: nat)
    | Wait
    | SyncTables
    | Csr(csr: bv32, op: bv32, rd: bv32, operand: bv64, writes: bool)

  /** The acts compressed instructions have. */
  predicate Plain(a: Act) {
    match a
    case Next => true
    case SetReg(_, _) => true
    case Load(_, _, _, _) => true
    case LoadFp(_, _, _) => true
    case Store(_, _, _) => true
    case StoreFp(_, _, _) => true
    case Goto(_) => true
    case Call(_, _) => true
    case Trap(_) => true
    case _ => false
  }

  const ILLEGAL := Trap(2)
  const BREAKPOINT := Trap(3)

  const OP_LOAD: bv32 := 0x03
  const OP_FP_LOAD: bv32 := 0x07
  const OP_IMM: bv32 := 0x13
  const OP_IMM32: bv32 := 0x1B
  const OP_STORE: bv32 := 0x23
  const OP_FP_STORE: bv32 := 0x27
  const OP_REG: bv32 := 0x33
  const OP_LUI: bv32 := 0x37
  const OP_32: bv32 := 0x3B
  const OP_AUIPC: bv32 := 0x17
  const OP_AMO: bv32 := 0x2F
  const OP_FENCE: bv32 := 0x0F
  const OP_FP_FMADD: bv32 := 0x43
  const OP_FP_FMSUB: bv32 := 0x47
  const OP_FP_FNMSUB: bv32 := 0x4B
  const OP_FP_FNMADD: bv32 := 0x4F
  const OP_FP_NORMAL: bv32 := 0x53
  const OP_BRANCH: bv32 := 0x63
  const OP_JALR: bv32 := 0x67
  const OP_JAL: bv32 := 0x6F
  const OP_SYSTEM: bv32 := 0x73

  // ---------- C arithmetic ----------

  /** `(int32_t)x >> n` */
  function Sra(x: bv32, n: bv32): bv32
    requires n < 32
  {
    if x & 0x8000_0000 != 0 then !(!x >> n) else x >> n
  }

  function Sra64(x: bv64, n: bv64): bv64
    requires n < 64
  {
    if x & 0x8000_0000_0000_0000 != 0 then !(!x >> n) else x >> n
  }

  function Sll64(x: bv64, n: bv64): bv64
    requires n < 64
  {
    x << n
  }

  function Srl64(x: bv64, n: bv64): bv64
    requires n < 64
  {
    x >> n
  }

  /** `(int64_t)(int32_t)x` */
  function Sx(x: bv32): bv64 {
    if x & 0x8000_0000 != 0 then (x as bv64) | 0xFFFF_FFFF_0000_0000 else x as bv64
  }

  /** `(int32_t)v`, widened again */
  function Word(v: bv64): bv64 {
    Sx((v & 0xFFFF_FFFF) as bv32)
  }

  // ---------- the 32-bit formats ----------

  function Opcode(i: bv32): bv32 { i & 0x7F }
  function Rd(i: bv32): bv32 { (i >> 7) & 0x1F }
  function Funct3(i: bv32): bv32 { (i >> 12) & 7 }
  function Rs1(i: bv32): bv32 { (i >> 15) & 0x1F }
  function Rs2(i: bv32): bv32 { (i >> 20) & 0x1F }
  function Funct7(i: bv32): bv32 { (i >> 25) & 0x7F }
  function ImmI(i: bv32): bv32 { Sra(i, 20) }
  function ImmS(i: bv32): bv32 { Sra((Rd(i) | ((i >> 20) & 0xFE0)) << 20, 20) }
  function ImmB(i: bv32): bv32 {
    Sra((((i >> 7) & 0x1E) | ((i >> 20) & 0x7E0) | ((i << 4) & 0x800) | ((i >> 19) & 0x1000)) << 19, 19)
  }
  function ImmU(i: bv32): bv32 { i & 0xFFFF_F000 }
  function ImmJ(i: bv32): bv32 {
    Sra((((i >> 20) & 0x7FE) | ((i >> 9) & 0x800) | (i & 0xF_F000) | ((i >> 11) & 0x10_0000)) << 11, 11)
  }

  // ---------- the 32-bit instructions ----------

  function Set(rd: bv32, v: bv64): Act {
    if rd == 0 then Next else SetReg(rd, v)
  }

  /** `(int_t)(a + b)` */
  function Plus(a: bv64, b: bv64): bv64 {
    a + b
  }

  function And64(a: bv64, b: bv64): bv64 {
    a & b
  }

  function Minus(a: bv64, b: bv64): bv64 {
    a - b
  }

  /** `(int_t)a < (int_t)b` */
  predicate Less(a: bv64, b: bv64) {
    a ^ 0x8000_0000_0000_0000 < b ^ 0x8000_0000_0000_0000
  }

  function Flag(b: bool): bv64 {
    if b then 1 else 0
  }

  /** `(uint32_t)v` */
  function Low32(v: bv64): bv32 {
    (v & 0xFFFF_FFFF) as bv32
  }

  /** The 32-bit shifts by the low five bits of `n`, sign-extended. */
  function SllW(v: bv64, n: bv64): bv64 {
    Sx(Low32(v) << Low32(n & 31))
  }

  function SrlW(v: bv64, n: bv64): bv64 {
    Sx(Low32(v) >> Low32(n & 31))
  }

  function SraW(v: bv64, n: bv64): bv64 {
    Sx(Sra(Low32(v), Low32(n & 31)))
  }

  function ImmAct(x: Regs, f3: bv32, rd: bv32, rs1: bv32, imm: bv64): Act {
    match f3
    case 0 => Set(rd, Plus(x(rs1), imm))
    case 1 => if imm & !63 != 0 then ILLEGAL else Set(rd, Sll64(x(rs1), imm & 63))
    case 2 => Set(rd, Flag(Less(x(rs1), imm)))
    case 3 => Set(rd, Flag(x(rs1) < imm))
    case 4 => Set(rd, x(rs1) ^ imm)
    case 5 =>
      if imm & !(63 | 0x400) != 0 then ILLEGAL
      else if imm & 0x400 != 0 then Set(rd, Sra64(x(rs1), imm & 63))
      else Set(rd, Srl64(x(rs1), imm & 63))
    case 6 => Set(rd, x(rs1) | imm)
    case 7 => Set(rd, And64(x(rs1), imm))
    case _ => ILLEGAL
  }

  function Imm32Act(x: Regs, f3: bv32, rd: bv32, rs1: bv32, imm: bv64): Act {
    match f3
    case 0 => Set(rd, Word(Plus(x(rs1), imm)))
    case 1 => if imm & !31 != 0 then ILLEGAL else Set(rd, SllW(x(rs1), imm))
    case 5 =>
      if imm & !(31 | 0x400) != 0 then ILLEGAL
      else if imm & 0x400 != 0 then Set(rd, SraW(x(rs1), imm))
      else Set(rd, SrlW(x(rs1), imm))
    case _ => ILLEGAL
  }

  function RegAct(x: Regs, f3: bv32, f7: bv32, rd: bv32, rs1: bv32, rs2: bv32): Act {
    if f7 == 0 then
      match f3
      case 0 => Set(rd, Plus(x(rs1), x(rs2)))
      case 1 => Set(rd, Sll64(x(rs1), x(rs2) & 63))
      case 2 => Set(rd, Flag(Less(x(rs1), x(rs2))))
      case 3 => Set(rd, Flag(x(rs1) < x(rs2)))
      case 4 => Set(rd, x(rs1) ^ x(rs2))
      case 5 => Set(rd, Srl64(x(rs1), x(rs2) & 63))
      case 6 => Set(rd, x(rs1) | x(rs2))
      case 7 => Set(rd, And64(x(rs1), x(rs2)))
      case _ => ILLEGAL
    else if f7 == 1 then Set(rd, MulDiv(f3, x(rs1), x(rs2)))
    else if f7 == 0x20 && f3 == 0 then Set(rd, Minus(x(rs1), x(rs2)))
    else if f7 == 0x20 && f3 == 5 then Set(rd, Sra64(x(rs1), x(rs2) & 63))
    else ILLEGAL
  }

  function Reg32Act(x: Regs, f3: bv32, f7: bv32, rd: bv32, rs1: bv32, rs2: bv32): Act {
    if f7 == 0 then
      match f3
      case 0 => Set(rd, Word(Plus(x(rs1), x(rs2))))
      case 1 => Set(rd, SllW(x(rs1), x(rs2)))
      case 5 => Set(rd, SrlW(x(rs1), x(rs2)))
      case _ => ILLEGAL
    else if f7 == 1 then
      if f3 in {0, 4, 5, 6, 7} then Set(rd, MulDiv32(f3, x(rs1), x(rs2))) else ILLEGAL
    else if f7 == 0x20 && f3 == 0 then Set(rd, Word(Minus(x(rs1), x(rs2))))
    else if f7 == 0x20 && f3 == 5 then Set(rd, SraW(x(rs1), x(rs2)))
    else ILLEGAL
  }

  function LoadAct(x: Regs, f3: bv32, rd: bv32, rs1: bv32, imm: bv64): Act {
    var addr := Plus(x(rs1), imm);
    match f3
    case 0 => Load(rd, addr, 1, true)
    case 1 => Load(rd, addr, 2, true)
    case 2 => Load(rd, addr, 4, true)
    case 3 => Load(rd, addr, 8, true)
    case 4 => Load(rd, addr, 1, false)
    case 5 => Load(rd, addr, 2, false)
    case 6 => Load(rd, addr, 4, false)
    case _ => ILLEGAL
  }

  function StoreAct(x: Regs, f3: bv32, rs1: bv32, rs2: bv32, imm: bv64): Act {
    var addr := Plus(x(rs1), imm);
    match f3
    case 0 => Store(addr, 1, x(rs2))
    case 1 => Store(addr, 2, x(rs2))
    case 2 => Store(addr, 4, x(rs2))
    case 3 => Store(addr, 8, x(rs2))
    case _ => ILLEGAL
  }

  function FpLoadAct(x: Regs, fpOn: bool, f3: bv32, rd: bv32, rs1: bv32, imm: bv64): Act {
    if !fpOn then ILLEGAL
    else if f3 == 2 then LoadFp(rd, Plus(x(rs1), imm), 4)
    else if f3 == 3 then LoadFp(rd, Plus(x(rs1), imm), 8)
    else ILLEGAL
  }

  function FpStoreAct(x: Regs, fpOn: bool, f3: bv32, rs1: bv32, rs2: bv32, imm: bv64): Act {
    if !fpOn then ILLEGAL
    else if f3 == 2 then StoreFp(Plus(x(rs1), imm), rs2, 4)
    else if f3 == 3 then StoreFp(Plus(x(rs1), imm), rs2, 8)
    else ILLEGAL
  }

  function Jump(target: bv64, rd: bv32): Act {
    if rd == 0 then Goto(target) else Call(target, rd)
  }

  function JumpRegAct(x: Regs, rd: bv32, rs1: bv32, imm: bv64): Act {
    Jump((Plus(x(rs1), imm)) & !1, rd)
  }

  function BranchAct(x: Regs, pc: bv64, f3: bv32, rs1: bv32, rs2: bv32, imm: bv64): Act {
    if f3 in {2, 3} then ILLEGAL
    else
      var holds := if f3 <= 1 then x(rs1) == x(rs2) else if f3 <= 5 then Less(x(rs1), x(rs2)) else x(rs1) < x(rs2);
      if holds == (f3 in {0, 4, 6}) then Goto(Plus(pc, imm)) else Next
  }

  /** funct3 = 0 of opcode SYSTEM. */
  function SystemCall(i: bv32): Act {
    var code := i >> 20;
    if code == 0 then if i & 0x000F_FF80 != 0 then ILLEGAL else Ecall
    else if code == 1 then if i & 0x000F_FF80 != 0 then ILLEGAL else BREAKPOINT
    else if code == 0x102 then if i & 0x000F_FF80 != 0 then ILLEGAL else Return(1)
    else if code == 0x302 then if i & 0x000F_FF80 != 0 then ILLEGAL else Return(3)
    else if code == 0x105 then if i & 0x7F80 != 0 then ILLEGAL else Wait
    else if code >> 5 == 9 then if i & 0x7F80 != 0 then ILLEGAL else SyncTables
    else ILLEGAL
  }

  /** The CSR instructions. csrrs and csrrc only write if rs1 is not register 0. */
  function SystemAct(x: Regs, i: bv32): Act {
    var f3, rd, rs1 := Funct3(i), Rd(i), Rs1(i);
    match f3
    case 0 => SystemCall(i)
    case 1 => Csr(i >> 20, 1, rd, x(rs1), true)
    case 2 => Csr(i >> 20, 2, rd, x(rs1), rs1 != 0)
    case 3 => Csr(i >> 20, 3, rd, x(rs1), rs1 != 0)
    case 5 => Csr(i >> 20, 1, rd, rs1 as bv64, true)
    case 6 => Csr(i >> 20, 2, rd, rs1 as bv64, rs1 != 0)
    case 7 => Csr(i >> 20, 3, rd, rs1 as bv64, rs1 != 0)
    case _ => ILLEGAL
  }

  function FenceAct(i: bv32): Act {
    if Funct3(i) == 0 then if i & 0xF00F_FF80 != 0 then ILLEGAL else Next
    else if Funct3(i) == 1 then if i != 0x100F then ILLEGAL else Next
    else ILLEGAL
  }

  function AtomicAct(x: Regs, i: bv32): Act {
    var op, addr := i >> 27, x(Rs1(i));
    if Funct3(i) !in {2, 3} then ILLEGAL
    else
      var size := if Funct3(i) == 2 then 4 else 8;
      if op == 2 then if Rs2(i) != 0 then ILLEGAL else LoadReserved(Rd(i), addr, size)
      else if op == 3 then StoreConditional(Rd(i), addr, size, x(Rs2(i)))
      else if op in {0, 1, 4, 8, 0xC, 0x10, 0x14, 0x18, 0x1C} then Atomic(op, Rd(i), addr, size, x(Rs2(i)))
      else ILLEGAL
  }

  function FloatAct(fpOn: bool, i: bv32): Act {
    if fpOn then Float(i) else ILLEGAL
  }

  /** The branches of decode_inst for 32-bit instructions. */
  function BaseAct(x: Regs, pc: bv64, fpOn: bool, i: bv32): Act {
    var op := Opcode(i);
    if op == OP_IMM then ImmAct(x, Funct3(i), Rd(i), Rs1(i), Sx(ImmI(i)))
    else if op == OP_IMM32 then Imm32Act(x, Funct3(i), Rd(i), Rs1(i), Sx(ImmI(i)))
    else if op == OP_REG then RegAct(x, Funct3(i), Funct7(i), Rd(i), Rs1(i), Rs2(i))
    else if op == OP_32 then Reg32Act(x, Funct3(i), Funct7(i), Rd(i), Rs1(i), Rs2(i))
    else if op == OP_LUI then Set(Rd(i), Sx(ImmU(i)))
    else if op == OP_LOAD then LoadAct(x, Funct3(i), Rd(i), Rs1(i), Sx(ImmI(i)))
    else if op == OP_STORE then StoreAct(x, Funct3(i), Rs1(i), Rs2(i), Sx(ImmS(i)))
    else if op == OP_FP_LOAD then FpLoadAct(x, fpOn, Funct3(i), Rd(i), Rs1(i), Sx(ImmI(i)))
    else if op == OP_FP_STORE then FpStoreAct(x, fpOn, Funct3(i), Rs1(i), Rs2(i), Sx(ImmS(i)))
    else if op == OP_JAL then Jump(Plus(pc, Sx(ImmJ(i))), Rd(i))
    else if op == OP_JALR then JumpRegAct(x, Rd(i), Rs1(i), Sx(ImmI(i)))
    else if op == OP_BRANCH then BranchAct(x, pc, Funct3(i), Rs1(i), Rs2(i), Sx(ImmB(i)))
    else if op == OP_SYSTEM then SystemAct(x, i)
    else OtherAct(x, pc, fpOn, i)
  }

  /** The opcodes without compressed forms. */
  function OtherAct(x: Regs, pc: bv64, fpOn: bool, i: bv32): Act {
    var op := Opcode(i);
    if op == OP_AUIPC then Set(Rd(i), Plus(pc, Sx(ImmU(i))))
    else if op == OP_FENCE then FenceAct(i)
    else if op == OP_AMO then AtomicAct(x, i)
    else if op in {OP_FP_FMADD, OP_FP_FMSUB, OP_FP_FNMSUB, OP_FP_FNMADD, OP_FP_NORMAL} then FloatAct(fpOn, i)
    else ILLEGAL
  }

  // ---------- encoding 32-bit instructions ----------

  function EncI(op: bv32, f3: bv32, rd: bv32, rs1: bv32, imm: bv32): bv32 {
    (imm << 20) | (rs1 << 15) | (f3 << 12) | (rd << 7) | op
  }
  function EncR(op: bv32, f3: bv32, f7: bv32, rd: bv32, rs1: bv32, rs2: bv32): bv32 {
    (f7 << 25) | (rs2 << 20) | (rs1 << 15) | (f3 << 12) | (rd << 7) | op
  }
  function EncS(op: bv32, f3: bv32, rs1: bv32, rs2: bv32, imm: bv32): bv32 {
    ((imm & 0xFE0) << 20) | (rs2 << 20) | (rs1 << 15) | (f3 << 12) | ((imm & 0x1F) << 7) | op
  }
  function EncB(f3: bv32, rs1: bv32, imm: bv32): bv32 {
    ((imm & 0x1000) << 19) | ((imm & 0x7E0) << 20) | (rs1 << 15) | (f3 << 12)
    | ((imm & 0x1E) << 7) | ((imm & 0x800) >> 4) | OP_BRANCH
  }
  function EncU(rd: bv32, imm: bv32): bv32 {
    (imm & 0xFFFF_F000) | (rd << 7) | OP_LUI
  }
  function EncJ(rd: bv32, imm: bv32): bv32 {
    ((imm & 0x10_0000) << 11) | ((imm & 0x7FE) << 20) | ((imm & 0x800) << 9) | (imm & 0xF_F000) | (rd << 7) | OP_JAL
  }

  // ---------- expanding compressed instructions ----------

  /** Bits `hi` to `lo` of a halfword, shifted to `at`. */
  function P(c: bv32, hi: bv32, lo: bv32, at: bv32): bv32
    requires lo <= hi < 16 && at < 32
  {
    ((c >> lo) & ((1 << (hi - lo + 1)) - 1)) << at
  }

  /** A `w`-bit number, sign-extended. */
  function Ext(v: bv32, w: bv32): bv32
    requires 1 <= w <= 32
  {
    Sra(v << (32 - w), 32 - w)
  }

  // register fields: three bits name registers 8 to 15
  function CRd(c: bv32): bv32 { P(c, 11, 7, 0) }
  function CRs2(c: bv32): bv32 { P(c, 6, 2, 0) }
  function CLowA(c: bv32): bv32 { P(c, 9, 7, 0) + 8 }
  function CLowB(c: bv32): bv32 { P(c, 4, 2, 0) + 8 }

  // the immediates of the encoding tables
  function CI6(c: bv32): bv32 { Ext(P(c, 12, 12, 5) | P(c, 6, 2, 0), 6) }
  function CShamt(c: bv32): bv32 { P(c, 12, 12, 5) | P(c, 6, 2, 0) }
  function CW(c: bv32): bv32 { P(c, 12, 10, 3) | P(c, 6, 6, 2) | P(c, 5, 5, 6) }
  function CD(c: bv32): bv32 { P(c, 12, 10, 3) | P(c, 6, 5, 6) }
  function CSpn(c: bv32): bv32 { P(c, 12, 11, 4) | P(c, 10, 7, 6) | P(c, 6, 6, 2) | P(c, 5, 5, 3) }
  function C16(c: bv32): bv32 {
    Ext(P(c, 12, 12, 9) | P(c, 6, 6, 4) | P(c, 5, 5, 6) | P(c, 4, 3, 7) | P(c, 2, 2, 5), 10)
  }
  function CLui(c: bv32): bv32 { Ext(P(c, 12, 12, 17) | P(c, 6, 2, 12), 18) }
  function CJBits(c: bv32): bv32 {
    P(c, 12, 12, 11) | P(c, 11, 11, 4) | P(c, 10, 9, 8) | P(c, 8, 8, 10) | P(c, 7, 7, 6) | P(c, 6, 6, 7)
    | P(c, 5, 3, 1) | P(c, 2, 2, 5)
  }
  function CJ(c: bv32): bv32 { Ext(CJBits(c), 12) }
  function CB(c: bv32): bv32 {
    Ext(P(c, 12, 12, 8) | P(c, 11, 10, 3) | P(c, 6, 5, 6) | P(c, 4, 3, 1) | P(c, 2, 2, 5), 9)
  }
  function CLwsp(c: bv32): bv32 { P(c, 12, 12, 5) | P(c, 6, 4, 2) | P(c, 3, 2, 6) }
  function CLdsp(c: bv32): bv32 { P(c, 12, 12, 5) | P(c, 6, 5, 3) | P(c, 4, 2, 6) }
  function CSwsp(c: bv32): bv32 { P(c, 12, 9, 2) | P(c, 8, 7, 6) }
  function CSdsp(c: bv32): bv32 { P(c, 12, 10, 3) | P(c, 9, 7, 6) }
}
