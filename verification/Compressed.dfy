/** The words of the compressed instructions, as the tables of chapter 16 of the RISC-V Unprivileged ISA
    20191213 lay them out, and the instructions they expand to. */
module Compressed {
  import opened Words
  import opened Rvc
  import opened RvcDecode
  import opened Isa

  // ---------- the formats ----------

  // `code` holds quadrant and function; registers named by three bits are counted from register 8

  function CReg(code: bv32, rd: bv32, rs2: bv32): bv32 { code | (rd << 7) | (rs2 << 2) }

  /** CI: bit 5 of the immediate is apart. */
  function CImm(code: bv32, rd: bv32, imm: bv32): bv32 { code | (rd << 7) | ((imm & 0x20) << 7) | ((imm & 0x1F) << 2) }

  /** The offsets of words and double words in the CL and CS formats. */
  function WordOffset(imm: bv32): bv32 { ((imm & 0x38) << 7) | ((imm & 4) << 4) | ((imm & 0x40) >> 1) }
  function DoubleOffset(imm: bv32): bv32 { ((imm & 0x38) << 7) | ((imm & 0xC0) >> 1) }

  // offsets from the stack pointer
  function WordLoad(imm: bv32): bv32 { ((imm & 0x20) << 7) | ((imm & 0x1C) << 2) | ((imm & 0xC0) >> 4) }
  function DoubleLoad(imm: bv32): bv32 { ((imm & 0x20) << 7) | ((imm & 0x18) << 2) | ((imm & 0x1C0) >> 4) }
  function WordStore(imm: bv32): bv32 { ((imm & 0x3C) << 7) | ((imm & 0xC0) << 1) }
  function DoubleStore(imm: bv32): bv32 { ((imm & 0x38) << 7) | ((imm & 0x1C0) << 1) }
  function StackWide(imm: bv32): bv32 {
    ((imm & 0x30) << 7) | ((imm & 0x3C0) << 1) | ((imm & 4) << 4) | ((imm & 8) << 2)
  }
  function Stack16(imm: bv32): bv32 {
    ((imm & 0x200) << 3) | ((imm & 0x10) << 2) | ((imm & 0x40) >> 1) | ((imm & 0x180) >> 4) | ((imm & 0x20) >> 3)
  }

  // displacements
  function JumpOffset(imm: bv32): bv32 {
    ((imm & 0x800) << 1) | ((imm & 0x10) << 7) | ((imm & 0x300) << 1) | ((imm & 0x400) >> 2)
    | ((imm & 0x40) << 1) | ((imm & 0x80) >> 1) | ((imm & 0xE) << 2) | ((imm & 0x20) >> 3)
  }
  function BranchOffset(imm: bv32): bv32 {
    ((imm & 0x100) << 4) | ((imm & 0x18) << 7) | ((imm & 0xC0) >> 1) | ((imm & 6) << 2) | ((imm & 0x20) >> 3)
  }

  /** A sign-extended number whose magnitude stays below `half`. */
  predicate Within(imm: bv32, half: bv32) {
    imm < half || imm >= 0 - half
  }

  // ---------- quadrant 0 ----------

  lemma Lw(rd: bv32, rs1: bv32, imm: bv32)
    requires rd < 8 && rs1 < 8 && imm & !0x7C == 0
    ensures Expand(CReg(0x4000 | WordOffset(imm), rs1, rd)) == Some(IType(0x2003, rd + 8, rs1 + 8, imm))
  {
  }

  lemma Ld(rd: bv32, rs1: bv32, imm: bv32)
    requires rd < 8 && rs1 < 8 && imm & !0xF8 == 0
    ensures Expand(CReg(0x6000 | DoubleOffset(imm), rs1, rd)) == Some(IType(0x3003, rd + 8, rs1 + 8, imm))
  {
  }

  lemma Fld(rd: bv32, rs1: bv32, imm: bv32)
    requires rd < 8 && rs1 < 8 && imm & !0xF8 == 0
    ensures Expand(CReg(0x2000 | DoubleOffset(imm), rs1, rd)) == Some(IType(0x3007, rd + 8, rs1 + 8, imm))
  {
  }

  lemma Sw(rs1: bv32, rs2: bv32, imm: bv32)
    requires rs1 < 8 && rs2 < 8 && imm & !0x7C == 0
    ensures Expand(CReg(0xC000 | WordOffset(imm), rs1, rs2)) == Some(SType(0x2023, rs1 + 8, rs2 + 8, imm))
  {
  }

  lemma Sd(rs1: bv32, rs2: bv32, imm: bv32)
    requires rs1 < 8 && rs2 < 8 && imm & !0xF8 == 0
    ensures Expand(CReg(0xE000 | DoubleOffset(imm), rs1, rs2)) == Some(SType(0x3023, rs1 + 8, rs2 + 8, imm))
  {
  }

  lemma Fsd(rs1: bv32, rs2: bv32, imm: bv32)
    requires rs1 < 8 && rs2 < 8 && imm & !0xF8 == 0
    ensures Expand(CReg(0xA000 | DoubleOffset(imm), rs1, rs2)) == Some(SType(0x3027, rs1 + 8, rs2 + 8, imm))
  {
  }

  lemma Addi4spn(rd: bv32, imm: bv32)
    requires rd < 8 && imm & !0x3FC == 0 && imm != 0
    ensures Expand((rd << 2) | StackWide(imm)) == Some(IType(0x0013, rd + 8, 2, imm))
  {
  }

  // ---------- quadrant 1 ----------

  lemma Addi(rd: bv32, imm: bv32)
    requires rd < 32 && Within(imm, 32)
    ensures Expand(CImm(0x0001, rd, imm)) == Some(IType(0x0013, rd, rd, imm))
  {
  }

  lemma Addiw(rd: bv32, imm: bv32)
    requires rd < 32 && Within(imm, 32)
    ensures Expand(CImm(0x2001, rd, imm)) == Some(IType(0x001B, rd, rd, imm))
  {
  }

  lemma Li(rd: bv32, imm: bv32)
    requires rd < 32 && Within(imm, 32)
    ensures Expand(CImm(0x4001, rd, imm)) == Some(IType(0x0013, rd, 0, imm))
  {
  }

  lemma Addi16sp(imm: bv32)
    requires imm & 0xF == 0 && Within(imm, 0x200)
    ensures Expand(CReg(0x6001 | Stack16(imm), 2, 0)) == if imm == 0 then None else Some(IType(0x0013, 2, 2, imm))
  {
  }

  lemma LuiFields(rd: bv32, imm: bv32)
    requires rd < 32 && Within(imm, 32)
    ensures var c := CImm(0x6001, rd, imm); Quadrant(c) == 1 && Funct(c) == 3 && CRd(c) == rd && CLui(c) == imm << 12
  {
  }

  lemma LuiWord(rd: bv32, imm: bv32)
    ensures EncU(rd, imm) == UType(0x0037, rd, imm)
  {
  }

  lemma Lui(rd: bv32, imm: bv32)
    requires rd < 32 && rd != 2 && Within(imm, 32)
    ensures Expand(CImm(0x6001, rd, imm)) == Some(UType(0x0037, rd, imm << 12))
  {
    hide CImm;
    hide Quadrant;
    hide Funct;
    hide CRd;
    hide CLui;
    hide EncU;
    hide UType;
    LuiFields(rd, imm);
    LuiWord(rd, imm << 12);
    assert Expand(CImm(0x6001, rd, imm)) == Expand1(CImm(0x6001, rd, imm));
  }

  lemma Srli(rd: bv32, imm: bv32)
    requires rd < 8 && imm < 64
    ensures Expand(CImm(0x8001, rd, imm)) == Some(IType(0x5013, rd + 8, rd + 8, imm))
  {
  }

  lemma Srai(rd: bv32, imm: bv32)
    requires rd < 8 && imm < 64
    ensures Expand(CImm(0x8401, rd, imm)) == Some(IType(0x5013, rd + 8, rd + 8, imm | 0x400))
  {
  }

  lemma Andi(rd: bv32, imm: bv32)
    requires rd < 8 && Within(imm, 32)
    ensures Expand(CImm(0x8801, rd, imm)) == Some(IType(0x7013, rd + 8, rd + 8, imm))
  {
  }

  lemma Sub(rd: bv32, rs2: bv32)
    requires rd < 8 && rs2 < 8
    ensures Expand(CReg(0x8C01, rd, rs2)) == Some(RType(0x4000_0033, rd + 8, rd + 8, rs2 + 8))
  {
  }

  lemma Xor(rd: bv32, rs2: bv32)
    requires rd < 8 && rs2 < 8
    ensures Expand(CReg(0x8C21, rd, rs2)) == Some(RType(0x4033, rd + 8, rd + 8, rs2 + 8))
  {
  }

  lemma Or(rd: bv32, rs2: bv32)
    requires rd < 8 && rs2 < 8
    ensures Expand(CReg(0x8C41, rd, rs2)) == Some(RType(0x6033, rd + 8, rd + 8, rs2 + 8))
  {
  }

  lemma And(rd: bv32, rs2: bv32)
    requires rd < 8 && rs2 < 8
    ensures Expand(CReg(0x8C61, rd, rs2)) == Some(RType(0x7033, rd + 8, rd + 8, rs2 + 8))
  {
  }

  lemma Subw(rd: bv32, rs2: bv32)
    requires rd < 8 && rs2 < 8
    ensures Expand(CReg(0x9C01, rd, rs2)) == Some(RType(0x4000_003B, rd + 8, rd + 8, rs2 + 8))
  {
  }

  lemma Addw(rd: bv32, rs2: bv32)
    requires rd < 8 && rs2 < 8
    ensures Expand(CReg(0x9C21, rd, rs2)) == Some(RType(0x003B, rd + 8, rd + 8, rs2 + 8))
  {
  }

  lemma J(imm: bv32)
    requires imm & 1 == 0 && Within(imm, 0x800)
    ensures Expand(0xA001 | JumpOffset(imm)) == Some(JType(0x006F, 0, imm))
  {
  }

  lemma Beqz(rs1: bv32, imm: bv32)
    requires rs1 < 8 && imm & 1 == 0 && Within(imm, 0x100)
    ensures Expand(CReg(0xC001 | BranchOffset(imm), rs1, 0)) == Some(BType(0x0063, rs1 + 8, 0, imm))
  {
  }

  lemma Bnez(rs1: bv32, imm: bv32)
    requires rs1 < 8 && imm & 1 == 0 && Within(imm, 0x100)
    ensures Expand(CReg(0xE001 | BranchOffset(imm), rs1, 0)) == Some(BType(0x1063, rs1 + 8, 0, imm))
  {
  }

  // ---------- quadrant 2 ----------

  lemma Slli(rd: bv32, imm: bv32)
    requires rd < 32 && imm < 64
    ensures Expand(CImm(0x0002, rd, imm)) == Some(IType(0x1013, rd, rd, imm))
  {
  }

  lemma Lwsp(rd: bv32, imm: bv32)
    requires rd < 32 && imm & !0xFC == 0
    ensures Expand(CReg(0x4002 | WordLoad(imm), rd, 0)) == Some(IType(0x2003, rd, 2, imm))
  {
  }

  lemma Ldsp(rd: bv32, imm: bv32)
    requires rd < 32 && imm & !0x1F8 == 0
    ensures Expand(CReg(0x6002 | DoubleLoad(imm), rd, 0)) == Some(IType(0x3003, rd, 2, imm))
  {
  }

  lemma Fldsp(rd: bv32, imm: bv32)
    requires rd < 32 && imm & !0x1F8 == 0
    ensures Expand(CReg(0x2002 | DoubleLoad(imm), rd, 0)) == Some(IType(0x3007, rd, 2, imm))
  {
  }

  lemma Swsp(rs2: bv32, imm: bv32)
    requires rs2 < 32 && imm & !0xFC == 0
    ensures Expand(CReg(0xC002 | WordStore(imm), 0, rs2)) == Some(SType(0x2023, 2, rs2, imm))
  {
  }

  lemma Sdsp(rs2: bv32, imm: bv32)
    requires rs2 < 32 && imm & !0x1F8 == 0
    ensures Expand(CReg(0xE002 | DoubleStore(imm), 0, rs2)) == Some(SType(0x3023, 2, rs2, imm))
  {
  }

  lemma Fsdsp(rs2: bv32, imm: bv32)
    requires rs2 < 32 && imm & !0x1F8 == 0
    ensures Expand(CReg(0xA002 | DoubleStore(imm), 0, rs2)) == Some(SType(0x3027, 2, rs2, imm))
  {
  }

  lemma Jr(rs1: bv32)
    requires rs1 < 32
    ensures Expand(CReg(0x8002, rs1, 0)) == if rs1 == 0 then None else Some(IType(0x0067, 0, rs1, 0))
  {
  }

  /** With register 0 it is c.ebreak. */
  lemma Jalr(rs1: bv32)
    requires rs1 < 32
    ensures Expand(CReg(0x9002, rs1, 0)) == Some(if rs1 == 0 then 0x0010_0073 else IType(0x0067, 1, rs1, 0))
  {
  }

  lemma Mv(rd: bv32, rs2: bv32)
    requires rd < 32 && 0 < rs2 < 32
    ensures Expand(CReg(0x8002, rd, rs2)) == Some(RType(0x0033, rd, 0, rs2))
  {
  }

  lemma Add(rd: bv32, rs2: bv32)
    requires rd < 32 && 0 < rs2 < 32
    ensures Expand(CReg(0x9002, rd, rs2)) == Some(RType(0x0033, rd, rd, rs2))
  {
  }

  // ---------- the tables ----------

  /** Loads and stores with a register from 8 to 15 as base. */
  lemma Offsets(rd: bv32, rs1: bv32, imm: bv32)
    requires rd < 8 && rs1 < 8
    ensures imm & !0x7C == 0 ==> Expand(CReg(0x4000 | WordOffset(imm), rs1, rd)) == Some(IType(0x2003, rd + 8, rs1 + 8, imm))
    ensures imm & !0xF8 == 0 ==> Expand(CReg(0x6000 | DoubleOffset(imm), rs1, rd)) == Some(IType(0x3003, rd + 8, rs1 + 8, imm))
    ensures imm & !0xF8 == 0 ==> Expand(CReg(0x2000 | DoubleOffset(imm), rs1, rd)) == Some(IType(0x3007, rd + 8, rs1 + 8, imm))
  {
    hide *;
    if imm & !0x7C == 0 { Lw(rd, rs1, imm); }
    if imm & !0xF8 == 0 { Ld(rd, rs1, imm); }
    if imm & !0xF8 == 0 { Fld(rd, rs1, imm); }
  }

  /** And the stores. */
  lemma OffsetStores(rs1: bv32, rs2: bv32, imm: bv32)
    requires rs1 < 8 && rs2 < 8
    ensures imm & !0x7C == 0 ==> Expand(CReg(0xC000 | WordOffset(imm), rs1, rs2)) == Some(SType(0x2023, rs1 + 8, rs2 + 8, imm))
    ensures imm & !0xF8 == 0 ==> Expand(CReg(0xE000 | DoubleOffset(imm), rs1, rs2)) == Some(SType(0x3023, rs1 + 8, rs2 + 8, imm))
    ensures imm & !0xF8 == 0 ==> Expand(CReg(0xA000 | DoubleOffset(imm), rs1, rs2)) == Some(SType(0x3027, rs1 + 8, rs2 + 8, imm))
  {
    hide *;
    if imm & !0x7C == 0 { Sw(rs1, rs2, imm); }
    if imm & !0xF8 == 0 { Sd(rs1, rs2, imm); }
    if imm & !0xF8 == 0 { Fsd(rs1, rs2, imm); }
  }

  /** Constants and the stack pointer. */
  lemma Constants(rd: bv32, imm: bv32)
    requires rd < 32
    ensures Within(imm, 32) ==> Expand(CImm(0x0001, rd, imm)) == Some(IType(0x0013, rd, rd, imm))
    ensures Within(imm, 32) ==> Expand(CImm(0x2001, rd, imm)) == Some(IType(0x001B, rd, rd, imm))
    ensures Within(imm, 32) ==> Expand(CImm(0x4001, rd, imm)) == Some(IType(0x0013, rd, 0, imm))
    ensures rd != 2 && Within(imm, 32) ==> Expand(CImm(0x6001, rd, imm)) == Some(UType(0x0037, rd, imm << 12))
    ensures rd < 8 && imm & !0x3FC == 0 && imm != 0 ==> Expand((rd << 2) | StackWide(imm)) == Some(IType(0x0013, rd + 8, 2, imm))
    ensures imm & 0xF == 0 && Within(imm, 0x200) ==> Expand(CReg(0x6001 | Stack16(imm), 2, 0)) == if imm == 0 then None else Some(IType(0x0013, 2, 2, imm))
  {
    hide *;
    if Within(imm, 32) { Addi(rd, imm); }
    if Within(imm, 32) { Addiw(rd, imm); }
    if Within(imm, 32) { Li(rd, imm); }
    if rd != 2 && Within(imm, 32) { Lui(rd, imm); }
    if rd < 8 && imm & !0x3FC == 0 && imm != 0 { Addi4spn(rd, imm); }
    if imm & 0xF == 0 && Within(imm, 0x200) { Addi16sp(imm); }
  }

  /** Shifts and c.andi. */
  lemma Immediates(rd: bv32, imm: bv32)
    ensures rd < 8 && imm < 64 ==> Expand(CImm(0x8001, rd, imm)) == Some(IType(0x5013, rd + 8, rd + 8, imm))
    ensures rd < 8 && imm < 64 ==> Expand(CImm(0x8401, rd, imm)) == Some(IType(0x5013, rd + 8, rd + 8, imm | 0x400))
    ensures rd < 8 && Within(imm, 32) ==> Expand(CImm(0x8801, rd, imm)) == Some(IType(0x7013, rd + 8, rd + 8, imm))
    ensures rd < 32 && imm < 64 ==> Expand(CImm(0x0002, rd, imm)) == Some(IType(0x1013, rd, rd, imm))
  {
    hide *;
    if rd < 8 && imm < 64 { Srli(rd, imm); }
    if rd < 8 && imm < 64 { Srai(rd, imm); }
    if rd < 8 && Within(imm, 32) { Andi(rd, imm); }
    if rd < 32 && imm < 64 { Slli(rd, imm); }
  }

  /** Register to register. */
  lemma Arithmetic(rd: bv32, rs2: bv32)
    requires rd < 8 && rs2 < 8
    ensures Expand(CReg(0x8C01, rd, rs2)) == Some(RType(0x4000_0033, rd + 8, rd + 8, rs2 + 8))
    ensures Expand(CReg(0x8C21, rd, rs2)) == Some(RType(0x4033, rd + 8, rd + 8, rs2 + 8))
    ensures Expand(CReg(0x8C41, rd, rs2)) == Some(RType(0x6033, rd + 8, rd + 8, rs2 + 8))
    ensures Expand(CReg(0x8C61, rd, rs2)) == Some(RType(0x7033, rd + 8, rd + 8, rs2 + 8))
    ensures Expand(CReg(0x9C01, rd, rs2)) == Some(RType(0x4000_003B, rd + 8, rd + 8, rs2 + 8))
    ensures Expand(CReg(0x9C21, rd, rs2)) == Some(RType(0x003B, rd + 8, rd + 8, rs2 + 8))
  {
    hide *;
    Sub(rd, rs2);
    Xor(rd, rs2);
    Or(rd, rs2);
    And(rd, rs2);
    Subw(rd, rs2);
    Addw(rd, rs2);
  }

  /** Jumps and branches. */
  lemma Jumps(rs1: bv32, imm: bv32)
    requires imm & 1 == 0
    ensures Within(imm, 0x800) ==> Expand(0xA001 | JumpOffset(imm)) == Some(JType(0x006F, 0, imm))
    ensures rs1 < 8 && Within(imm, 0x100) ==> Expand(CReg(0xC001 | BranchOffset(imm), rs1, 0)) == Some(BType(0x0063, rs1 + 8, 0, imm))
    ensures rs1 < 8 && Within(imm, 0x100) ==> Expand(CReg(0xE001 | BranchOffset(imm), rs1, 0)) == Some(BType(0x1063, rs1 + 8, 0, imm))
  {
    hide *;
    if Within(imm, 0x800) { J(imm); }
    if rs1 < 8 && Within(imm, 0x100) { Beqz(rs1, imm); }
    if rs1 < 8 && Within(imm, 0x100) { Bnez(rs1, imm); }
  }

  /** Loads and stores at the stack pointer. */
  lemma StackAccess(rd: bv32, rs2: bv32, imm: bv32)
    requires rd < 32 && rs2 < 32
    ensures imm & !0xFC == 0 ==> Expand(CReg(0x4002 | WordLoad(imm), rd, 0)) == Some(IType(0x2003, rd, 2, imm))
    ensures imm & !0x1F8 == 0 ==> Expand(CReg(0x6002 | DoubleLoad(imm), rd, 0)) == Some(IType(0x3003, rd, 2, imm))
    ensures imm & !0x1F8 == 0 ==> Expand(CReg(0x2002 | DoubleLoad(imm), rd, 0)) == Some(IType(0x3007, rd, 2, imm))
    ensures imm & !0xFC == 0 ==> Expand(CReg(0xC002 | WordStore(imm), 0, rs2)) == Some(SType(0x2023, 2, rs2, imm))
    ensures imm & !0x1F8 == 0 ==> Expand(CReg(0xE002 | DoubleStore(imm), 0, rs2)) == Some(SType(0x3023, 2, rs2, imm))
    ensures imm & !0x1F8 == 0 ==> Expand(CReg(0xA002 | DoubleStore(imm), 0, rs2)) == Some(SType(0x3027, 2, rs2, imm))
  {
    hide *;
    if imm & !0xFC == 0 { Lwsp(rd, imm); }
    if imm & !0x1F8 == 0 { Ldsp(rd, imm); }
    if imm & !0x1F8 == 0 { Fldsp(rd, imm); }
    if imm & !0xFC == 0 { Swsp(rs2, imm); }
    if imm & !0x1F8 == 0 { Sdsp(rs2, imm); }
    if imm & !0x1F8 == 0 { Fsdsp(rs2, imm); }
  }

  /** c.jr, c.jalr, c.ebreak, c.mv and c.add. */
  lemma Moves(rd: bv32, rs1: bv32, rs2: bv32)
    requires rd < 32 && rs1 < 32 && rs2 < 32
    ensures Expand(CReg(0x8002, rs1, 0)) == if rs1 == 0 then None else Some(IType(0x0067, 0, rs1, 0))
    ensures Expand(CReg(0x9002, rs1, 0)) == Some(if rs1 == 0 then 0x0010_0073 else IType(0x0067, 1, rs1, 0))
    ensures 0 < rs2 < 32 ==> Expand(CReg(0x8002, rd, rs2)) == Some(RType(0x0033, rd, 0, rs2))
    ensures 0 < rs2 < 32 ==> Expand(CReg(0x9002, rd, rs2)) == Some(RType(0x0033, rd, rd, rs2))
  {
    hide *;
    Jr(rs1);
    Jalr(rs1);
    if 0 < rs2 < 32 { Mv(rd, rs2); }
    if 0 < rs2 < 32 { Add(rd, rs2); }
  }
}
