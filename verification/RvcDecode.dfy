/** The compressed branch of decode_inst, and the proof that it does what the expansion does. */
module RvcDecode {
  import opened Rvc
  import opened Words

  datatype Option<T> = None | Some(value: T)

  function Quadrant(c: bv32): bv32 { c & 3 }
  function Funct(c: bv32): bv32 { (c >> 13) & 7 }

  /** The 32-bit instruction a halfword stands for, if it is legal. */
  function Expand(c: bv32): Option<bv32> {
    if Quadrant(c) == 0 then Expand0(c) else if Quadrant(c) == 1 then Expand1(c) else Expand2(c)
  }

  function Expand0(c: bv32): Option<bv32> {
    match Funct(c)
    case 0 => if CSpn(c) == 0 then None else Some(EncI(OP_IMM, 0, CLowB(c), 2, CSpn(c)))
    case 1 => Some(EncI(OP_FP_LOAD, 3, CLowB(c), CLowA(c), CD(c)))
    case 2 => Some(EncI(OP_LOAD, 2, CLowB(c), CLowA(c), CW(c)))
    case 3 => Some(EncI(OP_LOAD, 3, CLowB(c), CLowA(c), CD(c)))
    case 5 => Some(EncS(OP_FP_STORE, 3, CLowA(c), CLowB(c), CD(c)))
    case 6 => Some(EncS(OP_STORE, 2, CLowA(c), CLowB(c), CW(c)))
    case 7 => Some(EncS(OP_STORE, 3, CLowA(c), CLowB(c), CD(c)))
    case _ => None
  }

  function Expand1(c: bv32): Option<bv32> {
    match Funct(c)
    case 0 => Some(EncI(OP_IMM, 0, CRd(c), CRd(c), CI6(c)))
    case 1 => Some(EncI(OP_IMM32, 0, CRd(c), CRd(c), CI6(c)))
    case 2 => Some(EncI(OP_IMM, 0, CRd(c), 0, CI6(c)))
    case 3 =>
      if CRd(c) != 2 then Some(EncU(CRd(c), CLui(c)))
      else if C16(c) == 0 then None
      else Some(EncI(OP_IMM, 0, 2, 2, C16(c)))
    case 4 => ExpandAlu(c)
    case 5 => Some(EncJ(0, CJ(c)))
    case 6 => Some(EncB(0, CLowA(c), CB(c)))
    case _ => Some(EncB(1, CLowA(c), CB(c)))
  }

  function ExpandAlu(c: bv32): Option<bv32> {
    var rd, rs2 := CLowA(c), CLowB(c);
    match CAluA(c)
    case 0 => Some(EncI(OP_IMM, 5, rd, rd, CShamt(c)))
    case 1 => Some(EncI(OP_IMM, 5, rd, rd, CShamt(c) | 0x400))
    case 2 => Some(EncI(OP_IMM, 7, rd, rd, CI6(c)))
    case _ =>
      match CAluB(c)
      case 0 => Some(EncR(OP_REG, 0, 0x20, rd, rd, rs2))
      case 1 => Some(EncR(OP_REG, 4, 0, rd, rd, rs2))
      case 2 => Some(EncR(OP_REG, 6, 0, rd, rd, rs2))
      case 3 => Some(EncR(OP_REG, 7, 0, rd, rd, rs2))
      case 4 => Some(EncR(OP_32, 0, 0x20, rd, rd, rs2))
      case 5 => Some(EncR(OP_32, 0, 0, rd, rd, rs2))
      case _ => None
  }

  function CAluA(c: bv32): bv32 { P(c, 11, 10, 0) }
  function CAluB(c: bv32): bv32 { P(c, 12, 12, 2) | P(c, 6, 5, 0) }

  function Expand2(c: bv32): Option<bv32> {
    match Funct(c)
    case 0 => Some(EncI(OP_IMM, 1, CRd(c), CRd(c), CShamt(c)))
    case 1 => Some(EncI(OP_FP_LOAD, 3, CRd(c), 2, CLdsp(c)))
    case 2 => Some(EncI(OP_LOAD, 2, CRd(c), 2, CLwsp(c)))
    case 3 => Some(EncI(OP_LOAD, 3, CRd(c), 2, CLdsp(c)))
    case 4 =>
      if P(c, 12, 12, 0) == 0 then
        if CRs2(c) != 0 then Some(EncR(OP_REG, 0, 0, CRd(c), 0, CRs2(c)))
        else if CRd(c) == 0 then None
        else Some(EncI(OP_JALR, 0, 0, CRd(c), 0))
      else if CRs2(c) != 0 then Some(EncR(OP_REG, 0, 0, CRd(c), CRd(c), CRs2(c)))
      else if CRd(c) == 0 then Some(0x0010_0073)
      else Some(EncI(OP_JALR, 0, 1, CRd(c), 0))
    case 5 => Some(EncS(OP_FP_STORE, 3, 2, CRs2(c), CSdsp(c)))
    case 6 => Some(EncS(OP_STORE, 2, 2, CRs2(c), CSwsp(c)))
    case _ => Some(EncS(OP_STORE, 3, 2, CRs2(c), CSdsp(c)))
  }

  /** The halfwords the encoding tables reserve. */
  predicate Reserved(c: bv32) {
    match Quadrant(c)
    case 0 => (Funct(c) == 0 && CSpn(c) == 0) || Funct(c) !in {0, 1, 2, 3, 5, 6, 7}
    case 1 =>
      || (Funct(c) == 1 && CRd(c) == 0)
      || (Funct(c) == 3 && (if CRd(c) == 2 then C16(c) == 0 else CLui(c) == 0))
      || (Funct(c) == 4 && CAluA(c) !in {0, 1, 2} && CAluB(c) !in {0, 1, 2, 3, 4, 5})
    case _ =>
      || (Funct(c) in {2, 3} && CRd(c) == 0)
      || (Funct(c) == 4 && P(c, 12, 12, 0) == 0 && CRs2(c) == 0 && CRd(c) == 0)
  }

  /** Reserved halfwords the code executes all the same, as the instruction they would expand
      to: c.addiw, c.lwsp and c.ldsp to register 0, and c.lui of 0. */
  predicate Tolerated(c: bv32) {
    || (Quadrant(c) == 1 && Funct(c) == 1 && CRd(c) == 0)
    || (Quadrant(c) == 1 && Funct(c) == 3 && CRd(c) != 2 && CLui(c) == 0)
    || (Quadrant(c) !in {0, 1} && Funct(c) in {2, 3} && CRd(c) == 0)
  }

  /** A halfword is refused exactly if it is reserved and not one of those. */
  lemma RefusedIs(c: bv32)
    ensures Expand(c).None? <==> Reserved(c) && !Tolerated(c)
  {
    Refused0(c);
    Refused1(c);
    Refused2(c);
    hide Quadrant;
    hide Funct;
    hide P;
    hide CRd;
    hide CRs2;
    hide CSpn;
    hide C16;
    hide CLui;
    hide CAluA;
    hide CAluB;
    hide Expand0;
    hide Expand1;
    hide Expand2;
  }

  lemma Refused0(c: bv32)
    ensures Expand0(c).None? <==> (Funct(c) == 0 && CSpn(c) == 0) || Funct(c) !in {0, 1, 2, 3, 5, 6, 7}
  {
    hide Funct;
    hide P;
    hide CRd;
    hide CRs2;
    hide CLowA;
    hide CLowB;
    hide CSpn;
    hide C16;
    hide CLui;
    hide CAluA;
    hide CAluB;
    hide EncI;
    hide EncR;
    hide EncS;
    hide EncB;
    hide EncU;
    hide EncJ;
  }

  lemma Refused1(c: bv32)
    ensures Expand1(c).None? <==>
            || (Funct(c) == 3 && CRd(c) == 2 && C16(c) == 0)
            || (Funct(c) == 4 && CAluA(c) !in {0, 1, 2} && CAluB(c) !in {0, 1, 2, 3, 4, 5})
  {
    hide Funct;
    hide P;
    hide CRd;
    hide CRs2;
    hide CLowA;
    hide CLowB;
    hide CSpn;
    hide C16;
    hide CLui;
    hide CAluA;
    hide CAluB;
    hide EncI;
    hide EncR;
    hide EncS;
    hide EncB;
    hide EncU;
    hide EncJ;
  }

  lemma Refused2(c: bv32)
    ensures Expand2(c).None? <==> Funct(c) == 4 && P(c, 12, 12, 0) == 0 && CRs2(c) == 0 && CRd(c) == 0
  {
    hide Funct;
    hide P;
    hide CRd;
    hide CRs2;
    hide CLowA;
    hide CLowB;
    hide CSpn;
    hide C16;
    hide CLui;
    hide CAluA;
    hide CAluB;
    hide EncI;
    hide EncR;
    hide EncS;
    hide EncB;
    hide EncU;
    hide EncJ;
  }

  /** One halfword of each tolerated family: c.addiw, c.lwsp and c.ldsp to register 0, and
      c.lui of 0 to register 1. */
  lemma ToleratedExamples(c: bv32)
    requires c in {0x2001, 0x4002, 0x6002, 0x6081}
    ensures Reserved(c) && Expand(c).Some?
  {
  }

  ghost predicate Means(x: Regs, pc: bv64, fpOn: bool, e: Option<bv32>, a: Act) {
    a == if e.None? then ILLEGAL else BaseAct(x, pc, fpOn, e.value)
  }

  lemma IFields(op: bv32, f3: bv32, rd: bv32, rs1: bv32, imm: bv32)
    requires op < 128 && f3 < 8 && rd < 32 && rs1 < 32
    ensures var e := EncI(op, f3, rd, rs1, imm);
      Opcode(e) == op && Funct3(e) == f3 && Rd(e) == rd && Rs1(e) == rs1 && ImmI(e) == Ext(imm, 12)
  {
    IImm(op, f3, rd, rs1, imm);
    hide ImmI;
    hide Ext;
  }

  lemma IImm(op: bv32, f3: bv32, rd: bv32, rs1: bv32, imm: bv32)
    requires op < 128 && f3 < 8 && rd < 32 && rs1 < 32
    ensures ImmI(EncI(op, f3, rd, rs1, imm)) == Ext(imm, 12)
  {
    var low := (rs1 << 15) | (f3 << 12) | (rd << 7) | op;
    assert EncI(op, f3, rd, rs1, imm) == (imm << 20) | low;
    assert low < 0x10_0000;
    hide EncI;
    LowDropped(imm, low);
  }

  lemma LowDropped(imm: bv32, low: bv32)
    requires low < 0x10_0000
    ensures ImmI((imm << 20) | low) == Ext(imm, 12)
  {
    hide *;
    LowBits(imm, low);
    SraTop((imm << 20) | low);
    SraTop(imm << 20);
    Immediates((imm << 20) | low, imm);
  }

  lemma LowBits(imm: bv32, low: bv32)
    requires low < 0x10_0000
    ensures var x, y := (imm << 20) | low, imm << 20;
      x >> 20 == y >> 20 && !x >> 20 == !y >> 20 && x & 0x8000_0000 == y & 0x8000_0000
  {
  }

  lemma Immediates(x: bv32, imm: bv32)
    ensures ImmI(x) == Sra(x, 20) && Ext(imm, 12) == Sra(imm << 20, 20)
  {
    hide Sra;
  }

  lemma SraTop(x: bv32)
    ensures Sra(x, 20) == if x & 0x8000_0000 != 0 then !(!x >> 20) else x >> 20
  {
  }

  lemma SFields(op: bv32, f3: bv32, rs1: bv32, rs2: bv32, imm: bv32)
    requires op < 128 && f3 < 8 && rs1 < 32 && rs2 < 32
    ensures var e := EncS(op, f3, rs1, rs2, imm);
      Opcode(e) == op && Funct3(e) == f3 && Rs1(e) == rs1 && Rs2(e) == rs2 && ImmS(e) == Ext(imm, 12)
  {
  }

  lemma RFields(op: bv32, f3: bv32, f7: bv32, rd: bv32, rs1: bv32, rs2: bv32)
    requires op < 128 && f3 < 8 && f7 < 128 && rd < 32 && rs1 < 32 && rs2 < 32
    ensures var e := EncR(op, f3, f7, rd, rs1, rs2);
      && Opcode(e) == op && Funct3(e) == f3 && Funct7(e) == f7
      && Rd(e) == rd && Rs1(e) == rs1 && Rs2(e) == rs2
  {
  }

  lemma BFields(f3: bv32, rs1: bv32, imm: bv32)
    requires f3 < 8 && rs1 < 32
    ensures var e := EncB(f3, rs1, imm);
      && Opcode(e) == OP_BRANCH && Funct3(e) == f3 && Rs1(e) == rs1 && Rs2(e) == 0
      && ImmB(e) == Ext(imm & !1, 13)
  {
  }

  lemma UFields(rd: bv32, imm: bv32)
    requires rd < 32
    ensures var e := EncU(rd, imm); Opcode(e) == OP_LUI && Rd(e) == rd && ImmU(e) == imm & 0xFFFF_F000
  {
  }

  lemma JFields(rd: bv32, imm: bv32)
    requires rd < 32
    ensures var e := EncJ(rd, imm); Opcode(e) == OP_JAL && Rd(e) == rd && ImmJ(e) == Ext(imm & !1, 21)
  {
  }

  /** Decoding picks the branch of the opcode. */
  lemma Dispatch(x: Regs, pc: bv64, fpOn: bool, i: bv32, op: bv32)
    requires Opcode(i) == op
    ensures op == OP_IMM ==> BaseAct(x, pc, fpOn, i) == ImmAct(x, Funct3(i), Rd(i), Rs1(i), Sx(ImmI(i)))
    ensures op == OP_IMM32 ==> BaseAct(x, pc, fpOn, i) == Imm32Act(x, Funct3(i), Rd(i), Rs1(i), Sx(ImmI(i)))
    ensures op == OP_REG ==> BaseAct(x, pc, fpOn, i) == RegAct(x, Funct3(i), Funct7(i), Rd(i), Rs1(i), Rs2(i))
    ensures op == OP_32 ==> BaseAct(x, pc, fpOn, i) == Reg32Act(x, Funct3(i), Funct7(i), Rd(i), Rs1(i), Rs2(i))
    ensures op == OP_LUI ==> BaseAct(x, pc, fpOn, i) == Set(Rd(i), Sx(ImmU(i)))
    ensures op == OP_LOAD ==> BaseAct(x, pc, fpOn, i) == LoadAct(x, Funct3(i), Rd(i), Rs1(i), Sx(ImmI(i)))
    ensures op == OP_STORE ==> BaseAct(x, pc, fpOn, i) == StoreAct(x, Funct3(i), Rs1(i), Rs2(i), Sx(ImmS(i)))
    ensures op == OP_FP_LOAD ==> BaseAct(x, pc, fpOn, i) == FpLoadAct(x, fpOn, Funct3(i), Rd(i), Rs1(i), Sx(ImmI(i)))
    ensures op == OP_FP_STORE ==> BaseAct(x, pc, fpOn, i) == FpStoreAct(x, fpOn, Funct3(i), Rs1(i), Rs2(i), Sx(ImmS(i)))
    ensures op == OP_JAL ==> BaseAct(x, pc, fpOn, i) == Jump(Plus(pc, Sx(ImmJ(i))), Rd(i))
    ensures op == OP_JALR ==> BaseAct(x, pc, fpOn, i) == JumpRegAct(x, Rd(i), Rs1(i), Sx(ImmI(i)))
    ensures op == OP_BRANCH ==> BaseAct(x, pc, fpOn, i) == BranchAct(x, pc, Funct3(i), Rs1(i), Rs2(i), Sx(ImmB(i)))
    ensures op == OP_SYSTEM ==> BaseAct(x, pc, fpOn, i) == SystemAct(x, i)
  {
    hide Opcode;
    hide Funct3;
    hide Funct7;
    hide Rd;
    hide Rs1;
    hide Rs2;
    hide ImmI;
    hide ImmS;
    hide ImmB;
    hide ImmU;
    hide ImmJ;
    hide Sx;
    hide Plus;
    hide ImmAct;
    hide Imm32Act;
    hide RegAct;
    hide Reg32Act;
    hide LoadAct;
    hide StoreAct;
    hide FpLoadAct;
    hide FpStoreAct;
    hide Jump;
    hide JumpRegAct;
    hide BranchAct;
    hide SystemAct;
    hide OtherAct;
    hide Set;
  }

  lemma BaseI(x: Regs, pc: bv64, fpOn: bool, op: bv32, f3: bv32, rd: bv32, rs1: bv32, imm: bv32)
    requires op < 128 && f3 < 8 && rd < 32 && rs1 < 32
    ensures var a, v := BaseAct(x, pc, fpOn, EncI(op, f3, rd, rs1, imm)), Sx(Ext(imm, 12));
      && (op == OP_IMM ==> a == ImmAct(x, f3, rd, rs1, v))
      && (op == OP_IMM32 ==> a == Imm32Act(x, f3, rd, rs1, v))
      && (op == OP_LOAD ==> a == LoadAct(x, f3, rd, rs1, v))
      && (op == OP_FP_LOAD ==> a == FpLoadAct(x, fpOn, f3, rd, rs1, v))
      && (op == OP_JALR ==> a == JumpRegAct(x, rd, rs1, v))
  {
    hide EncI;
    hide Ext;
    hide Opcode;
    hide Funct3;
    hide Rd;
    hide Rs1;
    hide ImmI;
    hide Sx;
    hide ImmAct;
    hide Imm32Act;
    hide LoadAct;
    hide FpLoadAct;
    hide JumpRegAct;
    hide BaseAct;
    IFields(op, f3, rd, rs1, imm);
    Dispatch(x, pc, fpOn, EncI(op, f3, rd, rs1, imm), op);
  }

  lemma BaseS(x: Regs, pc: bv64, fpOn: bool, op: bv32, f3: bv32, rs1: bv32, rs2: bv32, imm: bv32)
    requires op < 128 && f3 < 8 && rs1 < 32 && rs2 < 32
    ensures var a, v := BaseAct(x, pc, fpOn, EncS(op, f3, rs1, rs2, imm)), Sx(Ext(imm, 12));
      && (op == OP_STORE ==> a == StoreAct(x, f3, rs1, rs2, v))
      && (op == OP_FP_STORE ==> a == FpStoreAct(x, fpOn, f3, rs1, rs2, v))
  {
    hide EncS;
    hide Ext;
    hide Opcode;
    hide Funct3;
    hide Rs1;
    hide Rs2;
    hide ImmS;
    hide Sx;
    hide StoreAct;
    hide FpStoreAct;
    hide BaseAct;
    SFields(op, f3, rs1, rs2, imm);
    Dispatch(x, pc, fpOn, EncS(op, f3, rs1, rs2, imm), op);
  }

  lemma BaseR(x: Regs, pc: bv64, fpOn: bool, op: bv32, f3: bv32, f7: bv32, rd: bv32, rs1: bv32, rs2: bv32)
    requires op < 128 && f3 < 8 && f7 < 128 && rd < 32 && rs1 < 32 && rs2 < 32
    ensures var a := BaseAct(x, pc, fpOn, EncR(op, f3, f7, rd, rs1, rs2));
      && (op == OP_REG ==> a == RegAct(x, f3, f7, rd, rs1, rs2))
      && (op == OP_32 ==> a == Reg32Act(x, f3, f7, rd, rs1, rs2))
  {
    hide EncR;
    hide Opcode;
    hide Funct3;
    hide Funct7;
    hide Rd;
    hide Rs1;
    hide Rs2;
    hide RegAct;
    hide Reg32Act;
    hide BaseAct;
    RFields(op, f3, f7, rd, rs1, rs2);
    Dispatch(x, pc, fpOn, EncR(op, f3, f7, rd, rs1, rs2), op);
  }

  lemma BaseB(x: Regs, pc: bv64, fpOn: bool, f3: bv32, rs1: bv32, imm: bv32)
    requires f3 < 8 && rs1 < 32 && Ext(imm & !1, 13) == imm
    ensures BaseAct(x, pc, fpOn, EncB(f3, rs1, imm)) == BranchAct(x, pc, f3, rs1, 0, Sx(imm))
  {
    hide EncB;
    hide EncU;
    hide EncJ;
    hide Ext;
    hide Opcode;
    hide Funct3;
    hide Rd;
    hide Rs1;
    hide Rs2;
    hide ImmB;
    hide ImmU;
    hide ImmJ;
    hide Sx;
    hide Plus;
    hide Jump;
    hide Set;
    hide BranchAct;
    hide BaseAct;
    BFields(f3, rs1, imm);
    Dispatch(x, pc, fpOn, EncB(f3, rs1, imm), OP_BRANCH);
  }

  lemma BaseU(x: Regs, pc: bv64, fpOn: bool, rd: bv32, imm: bv32)
    requires rd < 32 && imm & 0xFFFF_F000 == imm
    ensures BaseAct(x, pc, fpOn, EncU(rd, imm)) == Set(rd, Sx(imm))
  {
    hide EncB;
    hide EncU;
    hide EncJ;
    hide Ext;
    hide Opcode;
    hide Funct3;
    hide Rd;
    hide Rs1;
    hide Rs2;
    hide ImmB;
    hide ImmU;
    hide ImmJ;
    hide Sx;
    hide Plus;
    hide Jump;
    hide Set;
    hide BranchAct;
    hide BaseAct;
    UFields(rd, imm);
    Dispatch(x, pc, fpOn, EncU(rd, imm), OP_LUI);
  }

  lemma BaseJ(x: Regs, pc: bv64, fpOn: bool, imm: bv32)
    requires Ext(imm & !1, 21) == imm
    ensures BaseAct(x, pc, fpOn, EncJ(0, imm)) == Goto(Plus(pc, Sx(imm)))
  {
    JumpIs(Plus(pc, Sx(imm)));
    hide EncB;
    hide EncU;
    hide EncJ;
    hide Ext;
    hide Opcode;
    hide Funct3;
    hide Rd;
    hide Rs1;
    hide Rs2;
    hide ImmB;
    hide ImmU;
    hide ImmJ;
    hide Sx;
    hide Plus;
    hide Jump;
    hide Set;
    hide BranchAct;
    hide BaseAct;
    JFields(0, imm);
    Dispatch(x, pc, fpOn, EncJ(0, imm), OP_JAL);
  }

  lemma JumpIs(target: bv64)
    ensures Jump(target, 0) == Goto(target)
  {
  }

  // ---------- the immediates as the code computes them ----------

  function LowRd(inst: bv32): bv32 { ((inst >> 2) & 7) | 8 }
  function Low2(inst: bv32): bv32 { (inst >> 2) & 0x1F }
  function LowRs1(inst: bv32): bv32 { ((inst >> 7) & 7) | 8 }
  function SpnImm(inst: bv32): bv32 {
    ((inst >> 7) & 0x30) | ((inst >> 1) & 0x3C0) | ((inst >> 4) & 0x4) | ((inst >> 2) & 0x8)
  }
  function LdImm(inst: bv32): bv32 { ((inst >> 7) & 0x38) | ((inst << 1) & 0xC0) }
  function LwImm(inst: bv32): bv32 { ((inst >> 7) & 0x38) | ((inst >> 4) & 0x4) | ((inst << 1) & 0x40) }
  function Shamt(inst: bv32): bv32 { ((inst >> 7) & 0x20) | ((inst >> 2) & 0x1F) }
  function AddImm(inst: bv32): bv32 { Sra(Shamt(inst) << 26, 26) }
  function SpImm(inst: bv32): bv32 {
    Sra((((inst >> 3) & 0x200) | ((inst >> 2) & 0x10) | ((inst << 1) & 0x40) | ((inst << 4) & 0x180)
         | ((inst << 3) & 0x20)) << 22, 22)
  }
  function LuiImm(inst: bv32): bv32 { Sra((((inst << 5) & 0x2_0000) | ((inst << 10) & 0x1_F000)) << 14, 14) }
  function JBits(inst: bv32): bv32 {
    ((inst >> 1) & 0x800) | ((inst >> 7) & 0x10) | ((inst >> 1) & 0x300) | ((inst << 2) & 0x400)
    | ((inst >> 1) & 0x40) | ((inst << 1) & 0x80) | ((inst >> 2) & 0xE) | ((inst << 3) & 0x20)
  }
  function JImm(inst: bv32): bv32 { Sra(JBits(inst) << 20, 20) }
  function BImm(inst: bv32): bv32 {
    Sra((((inst >> 4) & 0x100) | ((inst >> 7) & 0x18) | ((inst << 1) & 0xC0) | ((inst >> 2) & 0x6)
         | ((inst << 3) & 0x20)) << 23, 23)
  }
  function LdspImm(inst: bv32): bv32 {
    ((inst >> 7) & 0x20) | (((inst >> 2) & 0x1F) & 0x18) | ((inst << 4) & 0x1C0)
  }
  function LwspImm(inst: bv32): bv32 {
    ((inst >> 7) & 0x20) | (((inst >> 2) & 0x1F) & 0x1C) | ((inst << 4) & 0xC0)
  }
  function SdspImm(inst: bv32): bv32 { ((inst >> 7) & 0x38) | ((inst >> 1) & 0x1C0) }
  function SwspImm(inst: bv32): bv32 { ((inst >> 7) & 0x3C) | ((inst >> 1) & 0xC0) }

  // they are the immediates of the encoding tables, whatever follows the halfword

  lemma Registers(c: bv32)
    ensures LowRd(c) == CLowB(c) && LowRs1(c) == CLowA(c) && Rd(c) == CRd(c) && Low2(c) == CRs2(c)
    ensures 8 <= CLowA(c) < 32 && 8 <= CLowB(c) < 32 && CRd(c) < 32 && CRs2(c) < 32
  {
    RegisterA(c);
    RegisterB(c);
    RegisterRd(c);
    RegisterRs2(c);
  }

  lemma RegisterA(c: bv32)
    ensures LowRs1(c) == CLowA(c) && 8 <= CLowA(c) < 32
  {
  }

  lemma RegisterB(c: bv32)
    ensures LowRd(c) == CLowB(c) && 8 <= CLowB(c) < 32
  {
  }

  lemma RegisterRd(c: bv32)
    ensures Rd(c) == CRd(c) < 32
  {
  }

  lemma RegisterRs2(c: bv32)
    ensures Low2(c) == CRs2(c) < 32
  {
  }

  lemma OffsetD(c: bv32)
    ensures LdImm(c) == CD(c) == Ext(CD(c), 12)
  {
  }

  lemma OffsetW(c: bv32)
    ensures LwImm(c) == CW(c) == Ext(CW(c), 12)
  {
  }

  lemma OffsetSpn(c: bv32)
    ensures SpnImm(c) == CSpn(c) == Ext(CSpn(c), 12)
  {
    SpnSame(c);
    SmallExt(SpnImm(c));
    hide SpnImm;
    hide CSpn;
  }

  lemma SpnSame(c: bv32)
    ensures SpnImm(c) == CSpn(c) && SpnImm(c) & 0xFFFF_F800 == 0
  {
  }

  lemma SmallExt(v: bv32)
    requires v & 0xFFFF_F800 == 0
    ensures Ext(v, 12) == v
  {
  }

  lemma OffsetLdsp(c: bv32)
    ensures LdspImm(c) == CLdsp(c) == Ext(CLdsp(c), 12)
  {
    SmallImm(CLdsp(c));
    hide Ext;
  }

  lemma SmallImm(v: bv32)
    requires v < 0x800
    ensures Ext(v, 12) == v
  {
  }

  lemma OffsetLwsp(c: bv32)
    ensures LwspImm(c) == CLwsp(c) == Ext(CLwsp(c), 12)
  {
  }

  lemma OffsetSdsp(c: bv32)
    ensures SdspImm(c) == CSdsp(c) == Ext(CSdsp(c), 12)
  {
  }

  lemma OffsetSwsp(c: bv32)
    ensures SwspImm(c) == CSwsp(c) == Ext(CSwsp(c), 12)
  {
  }

  lemma ConstantAdd(c: bv32)
    ensures AddImm(c) == CI6(c) == Ext(CI6(c), 12)
  {
  }

  lemma ConstantSp(c: bv32)
    ensures SpImm(c) == C16(c) == Ext(C16(c), 12)
  {
  }

  lemma ConstantLui(c: bv32)
    ensures LuiImm(c) == CLui(c) == CLui(c) & 0xFFFF_F000
  {
  }

  lemma ConstantShamt(c: bv32)
    ensures Shamt(c) == CShamt(c) < 64
  {
  }

  lemma TargetJ(c: bv32)
    ensures JImm(c) == CJ(c) == Ext(CJ(c) & !1, 21)
  {
    TargetBits(c);
    JumpRange(JBits(c));
    hide JBits;
    hide CJBits;
    hide Sra;
  }

  lemma TargetBits(c: bv32)
    ensures JBits(c) == CJBits(c) && JBits(c) & 1 == 0
  {
  }

  lemma JumpRange(v: bv32)
    requires v & 1 == 0
    ensures Sra(v << 20, 20) == Ext(v, 12) == Ext(Ext(v, 12) & !1, 21)
  {
    JumpEven(v);
    JumpWide(Ext(v, 12), v);
    hide Ext;
  }

  lemma JumpEven(v: bv32)
    requires v & 1 == 0
    ensures Sra(v << 20, 20) == Ext(v, 12) && Ext(v, 12) & !1 == Ext(v, 12)
  {
  }

  lemma JumpWide(o: bv32, v: bv32)
    requires o == Ext(v, 12)
    ensures Ext(o, 21) == o
  {
    TwelveBits(v);
    hide Ext;
    Narrower(o);
  }

  lemma TwelveBits(v: bv32)
    ensures var o := Ext(v, 12); o & 0xFFFF_F800 == 0 || o & 0xFFFF_F800 == 0xFFFF_F800
  {
  }

  lemma Narrower(o: bv32)
    requires o & 0xFFFF_F800 == 0 || o & 0xFFFF_F800 == 0xFFFF_F800
    ensures Ext(o, 21) == o
  {
  }

  lemma TargetB(c: bv32)
    ensures BImm(c) == CB(c) == Ext(CB(c) & !1, 13)
  {
  }

  /** Quadrant 0. Only the low halfword of `inst` matters. */
  method Quadrant0(x: Regs, pc: bv64, fpOn: bool, inst: bv32) returns (a: Act)
    ensures Means(x, pc, fpOn, Expand0(inst), a) && Plain(a)
  {
    var funct3 := Funct(inst);
    var rd := LowRd(inst);
    Registers(inst);
    OffsetD(inst);
    OffsetW(inst);
    OffsetSpn(inst);
    hide LowRd;
    hide LowRs1;
    hide SpnImm;
    hide LdImm;
    hide LwImm;
    hide Funct;
    hide CLowA;
    hide CLowB;
    hide CSpn;
    hide CD;
    hide CW;
    hide Ext;
    hide Sx;
    hide EncI;
    hide EncS;
    hide Opcode;
    hide Funct3;
    hide Rd;
    hide Rs1;
    hide Rs2;
    hide ImmI;
    hide ImmS;
    hide Plus;
    hide BaseAct;
    hide ImmAct;
    match funct3 {
      case 0 => // c.addi4spn
        var imm := SpnImm(inst);
        if imm == 0 {
          return ILLEGAL;
        }
        BaseI(x, pc, fpOn, OP_IMM, 0, rd, 2, imm);
        ImmActIs(x, rd, 2, Sx(imm));
        a := SetReg(rd, Plus(x(2), Sx(imm)));
      case 1 => // c.fld
        var imm := LdImm(inst);
        var rs1 := LowRs1(inst);
        BaseI(x, pc, fpOn, OP_FP_LOAD, 3, rd, rs1, imm);
        if !fpOn {
          return ILLEGAL;
        }
        a := LoadFp(rd, Plus(x(rs1), Sx(imm)), 8);
      case 2 => // c.lw
        var imm := LwImm(inst);
        var rs1 := LowRs1(inst);
        BaseI(x, pc, fpOn, OP_LOAD, 2, rd, rs1, imm);
        a := Load(rd, Plus(x(rs1), Sx(imm)), 4, true);
      case 3 => // c.ld
        var imm := LdImm(inst);
        var rs1 := LowRs1(inst);
        BaseI(x, pc, fpOn, OP_LOAD, 3, rd, rs1, imm);
        a := Load(rd, Plus(x(rs1), Sx(imm)), 8, true);
      case 5 => // c.fsd
        var imm := LdImm(inst);
        var rs1 := LowRs1(inst);
        BaseS(x, pc, fpOn, OP_FP_STORE, 3, rs1, rd, imm);
        if !fpOn {
          return ILLEGAL;
        }
        a := StoreFp(Plus(x(rs1), Sx(imm)), rd, 8);
      case 6 => // c.sw
        var imm := LwImm(inst);
        var rs1 := LowRs1(inst);
        BaseS(x, pc, fpOn, OP_STORE, 2, rs1, rd, imm);
        a := Store(Plus(x(rs1), Sx(imm)), 4, x(rd));
      case 7 => // c.sd
        var imm := LdImm(inst);
        var rs1 := LowRs1(inst);
        BaseS(x, pc, fpOn, OP_STORE, 3, rs1, rd, imm);
        a := Store(Plus(x(rs1), Sx(imm)), 8, x(rd));
      case _ => a := ILLEGAL;
    }
  }

  lemma ImmActIs(x: Regs, rd: bv32, rs1: bv32, imm: bv64)
    ensures ImmAct(x, 0, rd, rs1, imm) == Set(rd, Plus(x(rs1), imm))
    ensures ImmAct(x, 7, rd, rs1, imm) == Set(rd, And64(x(rs1), imm))
  {
    hide Plus;
  }

  lemma ShiftIs(x: Regs, rd: bv32, rs1: bv32, sh: bv32)
    requires sh < 64
    ensures ImmAct(x, 1, rd, rs1, Sx(Ext(sh, 12))) == Set(rd, Sll64(x(rs1), sh as bv64))
    ensures ImmAct(x, 5, rd, rs1, Sx(Ext(sh, 12))) == Set(rd, Srl64(x(rs1), sh as bv64))
    ensures ImmAct(x, 5, rd, rs1, Sx(Ext(sh | 0x400, 12))) == Set(rd, Sra64(x(rs1), sh as bv64))
  {
    hide *;
    ShiftAmount(sh);
    LogicalIs(x, rd, rs1, Sx(Ext(sh, 12)), sh as bv64);
    ArithmeticIs(x, rd, rs1, Sx(Ext(sh | 0x400, 12)), sh as bv64);
  }

  lemma LogicalIs(x: Regs, rd: bv32, rs1: bv32, v: bv64, n: bv64)
    requires v & !63 == 0 && v & !(63 | 0x400) == 0 && v & 0x400 == 0 && v & 63 == n
    ensures ImmAct(x, 1, rd, rs1, v) == Set(rd, Sll64(x(rs1), n)) && ImmAct(x, 5, rd, rs1, v) == Set(rd, Srl64(x(rs1), n))
  {
    hide Sll64;
    hide Srl64;
    hide Set;
  }

  lemma ArithmeticIs(x: Regs, rd: bv32, rs1: bv32, v: bv64, n: bv64)
    requires v & !(63 | 0x400) == 0 && v & 0x400 != 0 && v & 63 == n
    ensures ImmAct(x, 5, rd, rs1, v) == Set(rd, Sra64(x(rs1), n))
  {
    hide Sra64;
    hide Set;
  }

  lemma ShiftAmount(sh: bv32)
    requires sh < 64
    ensures var v := Sx(Ext(sh, 12)); v & !63 == 0 && v & !(63 | 0x400) == 0 && v & 0x400 == 0 && v & 63 == sh as bv64
    ensures var v := Sx(Ext(sh | 0x400, 12)); v & !(63 | 0x400) == 0 && v & 0x400 != 0 && v & 63 == sh as bv64
  {
  }

  lemma FromZero(x: Regs, v: bv64)
    requires x(0) == 0
    ensures Plus(x(0), v) == v
  {
  }

  lemma JumpRegIs(x: Regs, rd: bv32, rs1: bv32)
    ensures JumpRegAct(x, rd, rs1, Sx(Ext(0, 12))) == Jump(x(rs1) & !1, rd)
  {
    assert Sx(Ext(0, 12)) == 0;
  }

  lemma EbreakIs(x: Regs, pc: bv64, fpOn: bool)
    ensures BaseAct(x, pc, fpOn, 0x0010_0073) == BREAKPOINT
  {
    Dispatch(x, pc, fpOn, 0x0010_0073, OP_SYSTEM);
    hide BaseAct;
  }

  /** c.addi, c.addiw and c.li. */
  method AddForms(x: Regs, pc: bv64, fpOn: bool, inst: bv32, funct3: bv32) returns (a: Act)
    requires x(0) == 0 && funct3 == Funct(inst) && funct3 in {0, 1, 2}
    ensures Means(x, pc, fpOn, Expand1(inst), a) && Plain(a)
  {
    var rd := Rd(inst);
    Registers(inst);
    hide Funct;
    hide CLowA;
    hide CLowB;
    hide CRd;
    hide CRs2;
    hide LowRd;
    hide LowRs1;
    hide Low2;
    hide Ext;
    hide Sx;
    hide EncI;
    hide EncB;
    hide EncU;
    hide EncJ;
    hide Rd;
    hide Plus;
    hide Word;
    hide BaseAct;
    hide ImmAct;
    hide CI6;
    hide C16;
    hide CLui;
    hide CJ;
    hide CB;
    hide BranchAct;
    hide ExpandAlu;
    hide Imm32Act;
    hide LoadAct;
    hide FpLoadAct;
    hide JumpRegAct;
    hide AddImm;
    hide JImm;
    hide BImm;
    hide Sra;
    match funct3 {
      case 0 => // c.addi
        ConstantAdd(inst);
        BaseI(x, pc, fpOn, OP_IMM, 0, rd, rd, AddImm(inst));
        ImmActIs(x, rd, rd, Sx(AddImm(inst)));
        a := Next;
        if rd != 0 {
          a := SetReg(rd, Plus(x(rd), Sx(AddImm(inst))));
        }
      case 1 => // c.addiw
        ConstantAdd(inst);
        BaseI(x, pc, fpOn, OP_IMM32, 0, rd, rd, AddImm(inst));
        AddwIs(x, rd, Sx(AddImm(inst)));
        a := Next;
        if rd != 0 {
          a := SetReg(rd, Word(Plus(x(rd), Sx(AddImm(inst)))));
        }
      case _ => // c.li
        ConstantAdd(inst);
        BaseI(x, pc, fpOn, OP_IMM, 0, rd, 0, AddImm(inst));
        ImmActIs(x, rd, 0, Sx(AddImm(inst)));
        FromZero(x, Sx(AddImm(inst)));
        a := Next;
        if rd != 0 {
          a := SetReg(rd, Sx(AddImm(inst)));
        }
    }
  }

  /** The expansions of the jumps of quadrant 1. */
  lemma JumpWord(c: bv32)
    ensures Funct(c) == 5 ==> Expand1(c) == Some(EncJ(0, CJ(c)))
    ensures Funct(c) == 6 ==> Expand1(c) == Some(EncB(0, CLowA(c), CB(c)))
    ensures Funct(c) == 7 ==> Expand1(c) == Some(EncB(1, CLowA(c), CB(c)))
  {
    hide Funct;
    hide EncJ;
    hide EncB;
    hide CJ;
    hide CB;
    hide CLowA;
  }

  /** The expansions of quadrant 2, but for its jumps and moves. */
  lemma StackWord(c: bv32)
    ensures Funct(c) == 0 ==> Expand2(c) == Some(EncI(OP_IMM, 1, CRd(c), CRd(c), CShamt(c)))
    ensures Funct(c) == 1 ==> Expand2(c) == Some(EncI(OP_FP_LOAD, 3, CRd(c), 2, CLdsp(c)))
    ensures Funct(c) == 2 ==> Expand2(c) == Some(EncI(OP_LOAD, 2, CRd(c), 2, CLwsp(c)))
    ensures Funct(c) == 3 ==> Expand2(c) == Some(EncI(OP_LOAD, 3, CRd(c), 2, CLdsp(c)))
    ensures Funct(c) == 5 ==> Expand2(c) == Some(EncS(OP_FP_STORE, 3, 2, CRs2(c), CSdsp(c)))
    ensures Funct(c) == 6 ==> Expand2(c) == Some(EncS(OP_STORE, 2, 2, CRs2(c), CSwsp(c)))
    ensures Funct(c) == 7 ==> Expand2(c) == Some(EncS(OP_STORE, 3, 2, CRs2(c), CSdsp(c)))
  {
    hide Funct;
    hide EncI;
    hide EncS;
    hide CRd;
    hide CRs2;
    hide CShamt;
    hide CLdsp;
    hide CLwsp;
    hide CSdsp;
    hide CSwsp;
  }

  /** c.j. */
  method JumpForm(x: Regs, pc: bv64, fpOn: bool, inst: bv32) returns (a: Act)
    requires Funct(inst) == 5
    ensures Means(x, pc, fpOn, Expand1(inst), a) && Plain(a)
  {
    hide Funct;
    hide Expand1;
    JumpWord(inst);
    hide Ext;
    hide Sx;
    hide EncJ;
    hide Plus;
    hide BaseAct;
    TargetJ(inst);
    hide CJ;
    hide JImm;
    BaseJ(x, pc, fpOn, JImm(inst));
    a := Goto(Plus(pc, Sx(JImm(inst))));
  }

  /** c.beqz and c.bnez. */
  method BranchForms(x: Regs, pc: bv64, fpOn: bool, inst: bv32, funct3: bv32) returns (a: Act)
    requires x(0) == 0 && funct3 == Funct(inst) && funct3 in {6, 7}
    ensures Means(x, pc, fpOn, Expand1(inst), a) && Plain(a)
  {
    hide Funct;
    hide Expand1;
    JumpWord(inst);
    Registers(inst);
    TargetB(inst);
    hide CLowA;
    hide LowRs1;
    hide Ext;
    hide Sx;
    hide EncB;
    hide Plus;
    hide BaseAct;
    hide CB;
    hide BranchAct;
    hide BImm;
    if funct3 == 6 { // c.beqz
      BaseB(x, pc, fpOn, 0, LowRs1(inst), BImm(inst));
      BranchIs(x, pc, LowRs1(inst), Sx(BImm(inst)));
      a := if x(LowRs1(inst)) == 0 then Goto(Plus(pc, Sx(BImm(inst)))) else Next;
    } else { // c.bnez
      BaseB(x, pc, fpOn, 1, LowRs1(inst), BImm(inst));
      BranchIs(x, pc, LowRs1(inst), Sx(BImm(inst)));
      a := if x(LowRs1(inst)) != 0 then Goto(Plus(pc, Sx(BImm(inst)))) else Next;
    }
  }

  /** Quadrant 1. */
  method Quadrant1(x: Regs, pc: bv64, fpOn: bool, inst: bv32) returns (a: Act)
    requires x(0) == 0
    ensures Means(x, pc, fpOn, Expand1(inst), a) && Plain(a)
  {
    var funct3 := Funct(inst);
    var rd := Rd(inst);
    Registers(inst);
    FunctBound(inst);
    hide Funct;
    hide Rd;
    hide CRd;
    hide Expand1;
    hide Means;
    if funct3 in {0, 1, 2} {
      a := AddForms(x, pc, fpOn, inst, funct3);
    } else if funct3 == 3 {
      a := Constant(x, pc, fpOn, inst, rd);
    } else if funct3 == 4 {
      a := Alu(x, pc, fpOn, inst);
    } else if funct3 == 5 {
      a := JumpForm(x, pc, fpOn, inst);
    } else {
      a := BranchForms(x, pc, fpOn, inst, funct3);
    }
  }

  lemma AddwIs(x: Regs, rd: bv32, imm: bv64)
    ensures Imm32Act(x, 0, rd, rd, imm) == Set(rd, Word(Plus(x(rd), imm)))
  {
    hide Plus;
    hide Word;
  }

  lemma BranchIs(x: Regs, pc: bv64, rs1: bv32, imm: bv64)
    requires x(0) == 0
    ensures BranchAct(x, pc, 0, rs1, 0, imm) == if x(rs1) == 0 then Goto(Plus(pc, imm)) else Next
    ensures BranchAct(x, pc, 1, rs1, 0, imm) == if x(rs1) != 0 then Goto(Plus(pc, imm)) else Next
  {
    hide Plus;
  }

  lemma FunctBound(c: bv32)
    ensures Funct(c) in {0, 1, 2, 3, 4, 5, 6, 7}
  {
  }

  /** c.addi16sp and c.lui. */
  method Constant(x: Regs, pc: bv64, fpOn: bool, inst: bv32, rd: bv32) returns (a: Act)
    requires Funct(inst) == 3 && rd == CRd(inst) < 32
    ensures Means(x, pc, fpOn, Expand1(inst), a) && Plain(a)
  {
    hide Funct;
    hide CLowA;
    hide CLowB;
    hide CRd;
    hide CRs2;
    hide LowRd;
    hide LowRs1;
    hide Low2;
    hide Ext;
    hide Sx;
    hide EncI;
    hide EncB;
    hide EncU;
    hide EncJ;
    hide Rd;
    hide Plus;
    hide Word;
    hide BaseAct;
    hide ImmAct;
    hide CI6;
    hide C16;
    hide CLui;
    hide CJ;
    hide CB;
    if rd == 2 {
      ConstantSp(inst);
      hide SpImm;
      if SpImm(inst) == 0 {
        return ILLEGAL;
      }
      BaseI(x, pc, fpOn, OP_IMM, 0, 2, 2, SpImm(inst));
      ImmActIs(x, 2, 2, Sx(SpImm(inst)));
      a := SetReg(2, Plus(x(2), Sx(SpImm(inst))));
    } else {
      ConstantLui(inst);
      hide LuiImm;
      BaseU(x, pc, fpOn, rd, LuiImm(inst));
      a := Next;
      if rd != 0 {
        a := SetReg(rd, Sx(LuiImm(inst)));
      }
    }
  }

  /** The register operations of quadrant 1. */
  method Alu(x: Regs, pc: bv64, fpOn: bool, inst: bv32) returns (a: Act)
    requires Funct(inst) == 4
    ensures Means(x, pc, fpOn, Expand1(inst), a) && Plain(a)
  {
    var funct3 := (inst >> 10) & 3;
    var rd := LowRs1(inst);
    Registers(inst);
    AluFields(inst);
    assert Expand1(inst) == ExpandAlu(inst);
    hide Expand1;
    hide ExpandAlu;
    hide Means;
    hide CLowA;
    hide CLowB;
    hide LowRd;
    hide LowRs1;
    hide CAluA;
    hide CAluB;
    if funct3 == 3 {
      a := AluReg(x, pc, fpOn, inst, rd, LowRd(inst));
    } else {
      a := AluImm(x, pc, fpOn, inst, funct3, rd);
    }
  }

  /** c.srli, c.srai and c.andi. */
  method AluImm(x: Regs, pc: bv64, fpOn: bool, inst: bv32, funct3: bv32, rd: bv32) returns (a: Act)
    requires funct3 == CAluA(inst) && funct3 in {0, 1, 2} && rd == CLowA(inst) && 8 <= rd < 32
    ensures Means(x, pc, fpOn, ExpandAlu(inst), a) && Plain(a)
  {
    hide Funct;
    hide CLowA;
    hide CLowB;
    hide LowRd;
    hide LowRs1;
    hide Ext;
    hide Sx;
    hide EncI;
    hide EncR;
    hide Plus;
    hide Word;
    hide BaseAct;
    hide ImmAct;
    hide CI6;
    hide CAluA;
    hide CAluB;
    hide CShamt;
    hide Sra64;
    hide Sll64;
    hide Srl64;
    hide Less;
    hide Flag;
    hide AddImm;
    hide Shamt;
    hide Sra;
    hide And64;
    hide LoadAct;
    hide Imm32Act;
    hide FpLoadAct;
    hide JumpRegAct;
    match funct3 {
      case 0 => // c.srli
        ConstantShamt(inst);
        ShiftRight(x, pc, fpOn, rd, Shamt(inst));
        a := SetReg(rd, Srl64(x(rd), Shamt(inst) as bv64));
      case 1 => // c.srai
        ConstantShamt(inst);
        ShiftRight(x, pc, fpOn, rd, Shamt(inst));
        a := SetReg(rd, Sra64(x(rd), Shamt(inst) as bv64));
      case _ => // c.andi
        a := AluAnd(x, pc, fpOn, inst, rd);
    }
  }

  method AluAnd(x: Regs, pc: bv64, fpOn: bool, inst: bv32, rd: bv32) returns (a: Act)
    requires CAluA(inst) == 2 && rd == CLowA(inst) && 8 <= rd < 32
    ensures Means(x, pc, fpOn, ExpandAlu(inst), a) && Plain(a)
  {
    hide Funct;
    hide CLowA;
    hide CLowB;
    hide LowRd;
    hide LowRs1;
    hide Ext;
    hide Sx;
    hide EncI;
    hide EncR;
    hide Plus;
    hide Word;
    hide BaseAct;
    hide ImmAct;
    hide CI6;
    hide CAluA;
    hide CAluB;
    hide CShamt;
    hide Sra64;
    hide Sll64;
    hide Srl64;
    hide Less;
    hide Flag;
    hide AddImm;
    hide Shamt;
    hide Sra;
    hide And64;
    hide LoadAct;
    hide Imm32Act;
    hide FpLoadAct;
    hide JumpRegAct;
    ConstantAdd(inst);
    BaseI(x, pc, fpOn, OP_IMM, 7, rd, rd, AddImm(inst));
    ImmActIs(x, rd, rd, Sx(AddImm(inst)));
    a := SetReg(rd, And64(x(rd), Sx(AddImm(inst))));
  }

  lemma ShiftRight(x: Regs, pc: bv64, fpOn: bool, rd: bv32, sh: bv32)
    requires 0 < rd < 32 && sh < 64
    ensures BaseAct(x, pc, fpOn, EncI(OP_IMM, 5, rd, rd, sh)) == SetReg(rd, Srl64(x(rd), sh as bv64))
    ensures BaseAct(x, pc, fpOn, EncI(OP_IMM, 5, rd, rd, sh | 0x400)) == SetReg(rd, Sra64(x(rd), sh as bv64))
  {
    hide Ext;
    hide Sx;
    hide EncI;
    hide BaseAct;
    hide ImmAct;
    hide Imm32Act;
    hide LoadAct;
    hide FpLoadAct;
    hide JumpRegAct;
    hide Sra64;
    hide Srl64;
    BaseI(x, pc, fpOn, OP_IMM, 5, rd, rd, sh);
    BaseI(x, pc, fpOn, OP_IMM, 5, rd, rd, sh | 0x400);
    ShiftIs(x, rd, rd, sh);
  }

  lemma RegActIs(x: Regs, rd: bv32, rs2: bv32)
    requires rd != 0
    ensures RegAct(x, 0, 0x20, rd, rd, rs2) == SetReg(rd, Minus(x(rd), x(rs2)))
    ensures RegAct(x, 4, 0, rd, rd, rs2) == SetReg(rd, x(rd) ^ x(rs2))
    ensures RegAct(x, 6, 0, rd, rd, rs2) == SetReg(rd, x(rd) | x(rs2))
    ensures RegAct(x, 7, 0, rd, rd, rs2) == SetReg(rd, And64(x(rd), x(rs2)))
  {
    hide Minus;
    hide Plus;
    hide And64;
    hide MulDiv;
    hide Sll64;
    hide Srl64;
    hide Sra64;
    hide Less;
    hide Flag;
  }

  lemma Reg32ActIs(x: Regs, rd: bv32, rs2: bv32)
    requires rd != 0
    ensures Reg32Act(x, 0, 0x20, rd, rd, rs2) == SetReg(rd, Word(Minus(x(rd), x(rs2))))
    ensures Reg32Act(x, 0, 0, rd, rd, rs2) == SetReg(rd, Word(Plus(x(rd), x(rs2))))
  {
    hide Minus;
    hide Plus;
    hide Word;
    hide MulDiv32;
    hide SllW;
    hide SrlW;
    hide SraW;
  }

  lemma AluFields(c: bv32)
    ensures (c >> 10) & 3 == CAluA(c) && CAluA(c) in {0, 1, 2, 3}
    ensures ((c >> 5) & 3) | ((c >> 10) & 4) == CAluB(c)
  {
  }

  method AluReg(x: Regs, pc: bv64, fpOn: bool, inst: bv32, rd: bv32, rs2: bv32) returns (a: Act)
    requires CAluA(inst) == 3 && rd == CLowA(inst) && rs2 == CLowB(inst) && 8 <= rd < 32 && rs2 < 32
    ensures Means(x, pc, fpOn, ExpandAlu(inst), a) && Plain(a)
  {
    var funct3 := ((inst >> 5) & 3) | ((inst >> 10) & 4);
    AluFields(inst);
    hide *;
    if funct3 < 4 {
      a := AluWide(x, pc, fpOn, inst, funct3, rd, rs2);
    } else {
      a := AluWord(x, pc, fpOn, inst, funct3, rd, rs2);
    }
  }

  method AluWide(x: Regs, pc: bv64, fpOn: bool, inst: bv32, funct3: bv32, rd: bv32, rs2: bv32) returns (a: Act)
    requires CAluA(inst) == 3 && rd == CLowA(inst) && rs2 == CLowB(inst) && 8 <= rd < 32 && rs2 < 32
    requires funct3 == CAluB(inst) && funct3 < 4
    ensures Means(x, pc, fpOn, ExpandAlu(inst), a) && Plain(a)
  {
    hide CLowA;
    hide CLowB;
    hide EncR;
    hide EncI;
    hide Ext;
    hide Plus;
    hide Word;
    hide BaseAct;
    hide CAluA;
    hide CAluB;
    hide CShamt;
    hide CI6;
    hide Minus;
    hide RegAct;
    hide Reg32Act;
    RegActIs(x, rd, rs2);
    match funct3 {
      case 0 => // c.sub
        BaseR(x, pc, fpOn, OP_REG, 0, 0x20, rd, rd, rs2);
        a := SetReg(rd, Minus(x(rd), x(rs2)));
      case 1 => // c.xor
        BaseR(x, pc, fpOn, OP_REG, 4, 0, rd, rd, rs2);
        a := SetReg(rd, x(rd) ^ x(rs2));
      case 2 => // c.or
        BaseR(x, pc, fpOn, OP_REG, 6, 0, rd, rd, rs2);
        a := SetReg(rd, x(rd) | x(rs2));
      case _ => // c.and
        BaseR(x, pc, fpOn, OP_REG, 7, 0, rd, rd, rs2);
        a := SetReg(rd, And64(x(rd), x(rs2)));
    }
  }

  method AluWord(x: Regs, pc: bv64, fpOn: bool, inst: bv32, funct3: bv32, rd: bv32, rs2: bv32) returns (a: Act)
    requires CAluA(inst) == 3 && rd == CLowA(inst) && rs2 == CLowB(inst) && 8 <= rd < 32 && rs2 < 32
    requires funct3 == CAluB(inst) && funct3 >= 4
    ensures Means(x, pc, fpOn, ExpandAlu(inst), a) && Plain(a)
  {
    hide CLowA;
    hide CLowB;
    hide EncR;
    hide EncI;
    hide Ext;
    hide Plus;
    hide Word;
    hide BaseAct;
    hide CAluA;
    hide CAluB;
    hide CShamt;
    hide CI6;
    hide Minus;
    hide RegAct;
    hide Reg32Act;
    Reg32ActIs(x, rd, rs2);
    match funct3 {
      case 4 => // c.subw
        BaseR(x, pc, fpOn, OP_32, 0, 0x20, rd, rd, rs2);
        a := SetReg(rd, Word(Minus(x(rd), x(rs2))));
      case 5 => // c.addw
        BaseR(x, pc, fpOn, OP_32, 0, 0, rd, rd, rs2);
        a := SetReg(rd, Word(Plus(x(rd), x(rs2))));
      case _ => a := ILLEGAL;
    }
  }

  /** Quadrant 2. */
  method Quadrant2(x: Regs, pc: bv64, fpOn: bool, inst: bv32) returns (a: Act)
    requires x(0) == 0
    ensures Means(x, pc, fpOn, Expand2(inst), a) && Plain(a)
  {
    var funct3 := Funct(inst);
    var rd, rs2 := Rd(inst), Low2(inst);
    Registers(inst);
    FunctBound(inst);
    StackWord(inst);
    hide Expand2;
    hide Funct;
    hide CRd;
    hide CRs2;
    hide LowRd;
    hide LowRs1;
    hide Low2;
    hide Ext;
    hide Sx;
    hide EncI;
    hide EncR;
    hide EncS;
    hide Rd;
    hide Plus;
    hide BaseAct;
    hide ImmAct;
    hide CShamt;
    hide CLdsp;
    hide CLwsp;
    hide CSdsp;
    hide CSwsp;
    hide Shamt;
    hide LdspImm;
    hide LwspImm;
    hide SdspImm;
    hide SwspImm;
    match funct3 {
      case 0 => // c.slli
        ConstantShamt(inst);
        BaseI(x, pc, fpOn, OP_IMM, 1, rd, rd, Shamt(inst));
        ShiftIs(x, rd, rd, Shamt(inst));
        a := Next;
        if rd != 0 {
          a := SetReg(rd, Sll64(x(rd), Shamt(inst) as bv64));
        }
      case 1 => // c.fldsp
        OffsetLdsp(inst);
        BaseI(x, pc, fpOn, OP_FP_LOAD, 3, rd, 2, LdspImm(inst));
        if !fpOn {
          return ILLEGAL;
        }
        a := LoadFp(rd, Plus(x(2), Sx(LdspImm(inst))), 8);
      case 2 => // c.lwsp
        OffsetLwsp(inst);
        BaseI(x, pc, fpOn, OP_LOAD, 2, rd, 2, LwspImm(inst));
        a := Load(rd, Plus(x(2), Sx(LwspImm(inst))), 4, true);
      case 3 => // c.ldsp
        OffsetLdsp(inst);
        BaseI(x, pc, fpOn, OP_LOAD, 3, rd, 2, LdspImm(inst));
        a := Load(rd, Plus(x(2), Sx(LdspImm(inst))), 8, true);
      case 4 =>
        a := JumpMove(x, pc, fpOn, inst, rd, rs2);
      case _ => a := StackStores(x, pc, fpOn, inst, funct3, rs2);
    }
  }

  /** c.fsdsp, c.swsp and c.sdsp. */
  method StackStores(x: Regs, pc: bv64, fpOn: bool, inst: bv32, funct3: bv32, rs2: bv32) returns (a: Act)
    requires funct3 == Funct(inst) && funct3 in {5, 6, 7} && rs2 == CRs2(inst) < 32
    ensures Means(x, pc, fpOn, Expand2(inst), a) && Plain(a)
  {
    StackWord(inst);
    hide Expand2;
    hide Funct;
    hide CRd;
    hide CRs2;
    hide Ext;
    hide Sx;
    hide EncI;
    hide EncR;
    hide EncS;
    hide P;
    hide Plus;
    hide BaseAct;
    hide CSdsp;
    hide CSwsp;
    hide SdspImm;
    hide SwspImm;
    match funct3 {
      case 5 => // c.fsdsp
        OffsetSdsp(inst);
        BaseS(x, pc, fpOn, OP_FP_STORE, 3, 2, rs2, SdspImm(inst));
        if !fpOn {
          return ILLEGAL;
        }
        a := StoreFp(Plus(x(2), Sx(SdspImm(inst))), rs2, 8);
      case 6 => // c.swsp
        OffsetSwsp(inst);
        BaseS(x, pc, fpOn, OP_STORE, 2, 2, rs2, SwspImm(inst));
        a := Store(Plus(x(2), Sx(SwspImm(inst))), 4, x(rs2));
      case _ => // c.sdsp
        OffsetSdsp(inst);
        BaseS(x, pc, fpOn, OP_STORE, 3, 2, rs2, SdspImm(inst));
        a := Store(Plus(x(2), Sx(SdspImm(inst))), 8, x(rs2));
    }
  }

  /** c.jr, c.mv, c.ebreak, c.jalr and c.add. */
  method JumpMove(x: Regs, pc: bv64, fpOn: bool, inst: bv32, rd: bv32, rs2: bv32) returns (a: Act)
    requires x(0) == 0 && Funct(inst) == 4 && rd == CRd(inst) < 32 && rs2 == CRs2(inst) < 32
    ensures Means(x, pc, fpOn, Expand2(inst), a) && Plain(a)
  {
    Bit12(inst);
    hide Funct;
    hide CRd;
    hide CRs2;
    hide Ext;
    hide Sx;
    hide EncI;
    hide EncR;
    hide EncS;
    hide Plus;
    hide BaseAct;
    hide P;
    hide CShamt;
    hide CLdsp;
    hide CLwsp;
    hide CSdsp;
    hide CSwsp;
    hide JumpRegAct;
    if (inst >> 12) & 1 == 0 {
      if rs2 == 0 {
        if rd == 0 {
          return ILLEGAL;
        }
        BaseI(x, pc, fpOn, OP_JALR, 0, 0, rd, 0);
        JumpRegIs(x, 0, rd);
        a := Goto(x(rd) & !1);
      } else {
        BaseR(x, pc, fpOn, OP_REG, 0, 0, rd, 0, rs2);
        FromZero(x, x(rs2));
        a := Next;
        if rd != 0 {
          a := SetReg(rd, x(rs2));
        }
      }
    } else {
      if rs2 == 0 {
        if rd == 0 {
          EbreakIs(x, pc, fpOn);
          a := BREAKPOINT;
        } else {
          BaseI(x, pc, fpOn, OP_JALR, 0, 1, rd, 0);
          JumpRegIs(x, 1, rd);
          a := Call(x(rd) & !1, 1);
        }
      } else {
        BaseR(x, pc, fpOn, OP_REG, 0, 0, rd, rd, rs2);
        a := Next;
        if rd != 0 {
          a := SetReg(rd, Plus(x(rd), x(rs2)));
        }
      }
    }
  }

  lemma Bit12(c: bv32)
    ensures (c >> 12) & 1 == P(c, 12, 12, 0)
  {
  }

  /** decode_inst on a compressed instruction. The fetch delivers four bytes, so the upper
      halfword of `inst` is whatever follows in memory. */
  method DecodeCompressed(x: Regs, pc: bv64, fpOn: bool, inst: bv32) returns (a: Act)
    requires x(0) == 0 && Quadrant(inst) != 3
    ensures Means(x, pc, fpOn, Expand(inst), a) && Plain(a)
  {
    QuadrantBound(inst);
    hide Quadrant;
    hide Means;
    hide Expand0;
    hide Expand1;
    hide Expand2;
    if Quadrant(inst) == 0 {
      a := Quadrant0(x, pc, fpOn, inst);
    } else if Quadrant(inst) == 1 {
      a := Quadrant1(x, pc, fpOn, inst);
    } else {
      a := Quadrant2(x, pc, fpOn, inst);
    }
  }

  lemma QuadrantBound(c: bv32)
    ensures Quadrant(c) < 4
  {
  }
}
